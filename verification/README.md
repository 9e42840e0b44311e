# graph-migrate migration engine, modelled in Dafny

graph-migrate applies versioned Gremlin scripts to a DataStax graph, in the
way SQL migration tools apply SQL scripts. It keeps a ledger of the scripts
already applied, and the ledger is stored as vertices in the graph itself.
This project models the engine at the centre of the tool:

- **`StatementParser`** (`statement_parser.dfy`) — `SimpleStatementParser`.
  - Skips comment lines and strips inline comments.
  - Trims whitespace.
  - Glues lines together until one ends with `;`.
  - The four regular expressions (`LINE_COMMENT`, `LEFT_TRIM`, `RIGHT_TRIM` and `STATEMENT`) are written out as scanning predicates with the JDK's semantics: `.` does not match line terminators, `\s` is `[ \t\n\x0B\f\r]`, and `$` may stop before a final line terminator.
  - The parser loop is a function. A loop-free reference definition, `Group(Pieces(lines))`, is proved equal to it.
- **`Migrations`** (`migration.dfy`) — the `Migration` record.
  - Its two constructors and its setters.
  - `getContents`, which joins the statements with the line separator.
- **`MigrationFileLoader`** (`migration_file_loader.dfy`) — `load`.
  - It checks the name against `^v(\d{3})_.*.(gremlin|groovy)$` (case-insensitive).
  - It reads the version from the three digits.
  - It checksums the bytes and parses the lines.
  - A missing file, a bad name and a read failure are each an error value.
- **`GraphSchema`** (`graph_schema.dfy`) — the schema executor.
  - It builds the `create` and `drop` commands.
  - It classifies statements as schema changes.
  - It runs the bounded wait for schema agreement: up to 15 checks, with a 1000 ms delay after each failed check. This wait is modelled as a trace of `ExecuteGraph`, `CheckAgreement` and `Delay` calls.
- **`GraphMigrationMetadata`** (`graph_migration_metadata.dfy`) — the ledger.
  - Reading maps each stored vertex back to a migration, splitting the contents at the line separator, and sorts the result with `String.compareTo`.
  - Saving runs `init` first. `init` consults the cached flag, then the existence query, then the one-time bootstrap script. After that, saving inserts one vertex.
- **`SchemaMigration`** (`schema_migration.dfy`) — `migrate`.
  - It creates the graph and loads every script.
  - It indexes the ledger by file name.
  - It filters out scripts already applied with the same checksum and scripts above the version ceiling.
  - A ledger entry with a null checksum for a loaded script makes the filter throw, before anything is applied.
  - It applies the rest in order. A checksum conflict stops the run. A failing statement is logged and skipped. Every applied script is saved.

`Wrappers` (`wrappers.dfy`) holds `Option` and `Result`. `Text` (`text.dfy`)
holds Java's `String.split` with a literal separator and
`Collectors.joining`, with their round trip.

The graph driver, the cluster metadata and the bootstrap resource become
parameters or oracles. Examples are the store's answer to an existence
query, the agreement check's answer in round `i`, and whether the `n`-th
statement of a run succeeds. Calls to them become traces of events. A Java
exception becomes an error value of a `Result`, or a `false` success flag.

Behaviour of the code worth knowing, all of it modelled as written:

- **Agreement failures.** The wait for schema agreement throws when the cluster does not agree. Inside a migration statement the throw is caught by `applyMigrations`' `catch (Exception)` and logged like any failing statement. The same throw from the initial `create`, or from the ledger save after a migration, ends the whole run. The save's existence query starts with `schema.`, so it waits for agreement too; so does any bootstrap statement that starts with `schema.`. The model keeps the save's own failures out (see "## Left out").
- **The file-name dot is a wildcard.** The dot before the extension is not escaped, so `v001_migrationXgremlin` is accepted.
- **The version can be zero.** `v000_…` loads with version 0.
- **Trim removes all `\s`.** Both trim patterns remove every `\s` character: space, tab, line feed, vertical tab, form feed and carriage return.
- **A colon before an inline comment is removed too.** The comment group is written `(:?…)`, a group that starts with an optional colon, so it swallows one colon in front of ` //`.
- **An empty options map leaves an empty segment.** `create` with a non-null but empty options map produces `system.graph('g')..ifNotExists().create()`.
- **Parsing is not idempotent.** The comment-line pattern is anchored at the first character, so `\t/*a*/;` is no comment line; trim turns it into the statement `/*a*/;`, and parsing that statement again skips it as a comment line.
- **The existence flag is set only by the bootstrap.** `init` sets it only after the bootstrap script has run. While the store answers that the label exists, every save asks again.
- **Duplicate ledger names are an error.** Two ledger entries with the same file name make `Collectors.toMap` throw. The model returns an error for this case.

## Model

| member | source | states |
|---|---|---|
| Text.Split | src/main/java/omahoco/migrate/graph/GraphMigrationMetadata.java:129-134 | no contract of its own: `String.split` at a literal separator, dropping trailing empty fields; SplitJoin states it inverts Join |
| Text.Join | src/main/java/omahoco/migrate/Migration.java:63-69 | no contract of its own: `Collectors.joining`; SplitJoin states that Split inverts it |
| Text.SplitJoin | src/main/java/omahoco/migrate/graph/GraphMigrationMetadata.java:128-134 | splitting lines joined by a line separator gives the lines back when none holds a line terminator and the last is not empty |
| StatementParser.Trim | src/main/java/omahoco/migrate/parse/SimpleStatementParser.java:53-56 | trim never lengthens its input; what it removes is stated by TrimStripsOuterSpace and TrimKeepsTrimmed |
| StatementParser.TrimStripsOuterSpace | src/main/java/omahoco/migrate/parse/SimpleStatementParser.java:53-56 | for strings without U+0085, U+2028 or U+2029, trim returns a contiguous middle part of its input: everything before it and after it is whitespace, and it neither starts nor ends with whitespace |
| StatementParser.TrimKeepsTrimmed | src/main/java/omahoco/migrate/parse/SimpleStatementParser.java:53-56 | a string without U+0085, U+2028 or U+2029 that neither starts nor ends with whitespace is returned unchanged |
| StatementParser.TrimIdempotent | src/main/java/omahoco/migrate/parse/SimpleStatementParser.java:53-56 | trimming twice is trimming once, for strings without U+0085, U+2028 or U+2029 |
| StatementParser.TrimOfBlank | src/main/java/omahoco/migrate/parse/SimpleStatementParser.java:17-18 | a string of whitespace trims to the empty string |
| StatementParser.TrimBeforeLineSeparatorNotIdempotent | src/main/java/omahoco/migrate/parse/SimpleStatementParser.java:18 | the right-trim pattern's `$` stops before a final U+2028, so trim removes only part of the space and a second trim changes the result again |
| StatementParser.IsLineComment | src/main/java/omahoco/migrate/parse/SimpleStatementParser.java:16 | no contract of its own: the `LINE_COMMENT` pattern as a predicate, described by LineCommentShape |
| StatementParser.LineCommentShape | src/main/java/omahoco/migrate/parse/SimpleStatementParser.java:16 | a line is a comment line exactly when it starts with `//`, or starts with `/*` and has a `*/` at index 3 or later with no line terminator in between |
| StatementParser.BlockClosesFromShape | src/main/java/omahoco/migrate/parse/SimpleStatementParser.java:16 | the lazy `.+?\*\/` part matches from a position exactly when a `*/` follows at least one character later on the same line |
| StatementParser.InlineCommentStripped | src/main/java/omahoco/migrate/parse/SimpleStatementParser.java:19 | text without whitespace that does not end in `:`, followed by a ` //…` or ` /*…*/` comment, keeps exactly the text |
| StatementParser.ColonBeforeCommentDropped | src/main/java/omahoco/migrate/parse/SimpleStatementParser.java:19 | when that text ends with `:` and a ` //` comment follows, the colon is removed as well |
| StatementParser.Body | src/main/java/omahoco/migrate/parse/SimpleStatementParser.java:32-34 | the statement group is the shortest prefix of the line, free of line terminators, after which the optional comment and the end can match; there is no match exactly when no such prefix exists |
| StatementParser.UncommentedLineKept | src/main/java/omahoco/migrate/parse/SimpleStatementParser.java:32-34 | a one-line text with no `/` after whitespace keeps all of it, whatever line ending follows |
| StatementParser.BlockCommentLine | src/main/java/omahoco/migrate/parse/SimpleStatementParser.java:28-30 | `/*x*/` with a non-empty one-line `x` is skipped as a comment line |
| StatementParser.ParseFrom | src/main/java/omahoco/migrate/parse/SimpleStatementParser.java:27-47 | the loop never revises a statement it has emitted, and emits at most one statement per remaining line plus the trailing one |
| StatementParser.Parse | src/main/java/omahoco/migrate/parse/SimpleStatementParser.java:23-50 | at most one statement per line; ParseIsGroupOfPieces and ParseShape state what the statements are |
| StatementParser.ParseIsGroupOfPieces | src/main/java/omahoco/migrate/parse/SimpleStatementParser.java:23-50 | the accumulator loop equals the reference definition: clean every line, then close a statement at each piece ending with `;` and emit a non-empty remainder |
| StatementParser.ParseShape | src/main/java/omahoco/migrate/parse/SimpleStatementParser.java:23-50 | no statement is empty, every statement but the last ends with `;`, and the statements together hold exactly the cleaned text of the lines in order |
| StatementParser.ParseEmptyIff | src/main/java/omahoco/migrate/parse/SimpleStatementParser.java:45-47 | parse returns nothing exactly when the cleaned lines hold no text |
| StatementParser.ParseSplit | src/main/java/omahoco/migrate/parse/SimpleStatementParser.java:37-41 | after a line whose cleaned text ends with `;`, parsing starts afresh: parse of a concatenation is the concatenation of the parses |
| StatementParser.SkippedLineIgnored | src/main/java/omahoco/migrate/parse/SimpleStatementParser.java:28-30 | inserting a comment line anywhere does not change the result |
| StatementParser.StatementLinesKept | src/main/java/omahoco/migrate/parse/SimpleStatementParser.java:37-41 | clean lines that each end with `;` come back one statement per line, unchanged |
| StatementParser.ReparseDropsIndentedCommentStatement | src/main/java/omahoco/migrate/parse/SimpleStatementParser.java:16-19 | parsing the parser's own output can change it: `\t/*a*/;` parses to the statement `/*a*/;`, and that statement parses to nothing |
| StatementParser.ParsedStatementsAreOneLine | src/main/java/omahoco/migrate/parse/SimpleStatementParser.java:19 | no statement holds a line terminator, whatever the input |
| StatementParser.OneLineOneStatement | src/main/java/omahoco/migrate/parse/SimpleStatementParser.java:45-47 | one line with text is one statement, terminated or not |
| StatementParser.CommentsAndBlanksOnly | src/main/java/omahoco/migrate/parse/SimpleStatementParser.java:45-47 | a script of comment and blank lines has no statements |
| StatementParser.PieceOfPlainLine | src/main/java/omahoco/migrate/parse/SimpleStatementParser.java:32-35 | an indented line without comments contributes its text without the indentation and the line ending |
| StatementParser.TrimExamples | src/test/java/omahoco/migrate/parse/SimpleStatementParserTest.java:14-20 | the four trim examples of the parser's unit test |
| StatementParser.IgnoreCommentsExample | src/test/java/omahoco/migrate/parse/SimpleStatementParserTest.java:22-32 | a line comment and a block comment line are skipped and an inline comment is cut off |
| StatementParser.IgnoreCommentsMultilineExample | src/test/java/omahoco/migrate/parse/SimpleStatementParserTest.java:34-44 | three lines with inline comments make the single statement `step1().step2().step3();` |
| StatementParser.IgnoreFormattingCharsExample | src/test/java/omahoco/migrate/parse/SimpleStatementParserTest.java:46-56 | `\r`, `\r\n`, tabs and spaces around the steps disappear and the steps are joined |
| StatementParser.StatementsWithUrlsExample | src/test/java/omahoco/migrate/parse/SimpleStatementParserTest.java:58-68 | lines holding `https://` URLs come back unchanged, one statement each |
| Migrations.Named | src/main/java/omahoco/migrate/Migration.java:14-16 | the constructor sets the file name; every other field keeps its Java default |
| Migrations.WithCheckSum | src/main/java/omahoco/migrate/Migration.java:18-21 | the two-argument constructor sets the file name and the checksum only |
| Migrations.SetVersion | src/main/java/omahoco/migrate/Migration.java:27-29 | the setter changes the version and leaves the other four fields as they were |
| Migrations.SetFileName | src/main/java/omahoco/migrate/Migration.java:35-37 | the setter changes the file name and leaves the other four fields as they were |
| Migrations.SetCheckSum | src/main/java/omahoco/migrate/Migration.java:43-45 | the setter changes the checksum and leaves the other four fields as they were |
| Migrations.SetStatements | src/main/java/omahoco/migrate/Migration.java:47-49 | the setter changes the statements and leaves the other four fields as they were |
| Migrations.SetAppliedAt | src/main/java/omahoco/migrate/Migration.java:59-61 | the setter changes the applied time and leaves the other four fields as they were |
| Migrations.GetContents | src/main/java/omahoco/migrate/Migration.java:63-69 | no contents exactly when the statements are unset; no statements give the empty string; one statement is its own contents |
| Migrations.ContentsSplitBack | src/main/java/omahoco/migrate/Migration.java:63-69 | the contents split at the line separator give the statements back when they are one-line and the last is not empty |
| MigrationFileLoader.Load | src/main/java/omahoco/migrate/io/MigrationFileLoader.java:26-54 | a missing file, then an invalid name, then a failed read are reported in that order; otherwise the migration has the file's name, the version of its digits, the checksum of its bytes, the parse of its lines and no applied time |
| MigrationFileLoader.ValidName | src/main/java/omahoco/migrate/io/MigrationFileLoader.java:18-19 | no contract of its own: the name pattern as a predicate, described by ValidNameShape |
| MigrationFileLoader.Version | src/main/java/omahoco/migrate/io/MigrationFileLoader.java:42 | the version of a valid name lies between 0 and 999 |
| MigrationFileLoader.RestMatchesShape | src/main/java/omahoco/migrate/io/MigrationFileLoader.java:18-19 | `.*.(gremlin\|groovy)$` matches from a position exactly when some non-empty run of non-terminator characters is followed by the extension and the end |
| MigrationFileLoader.ValidNameShape | src/main/java/omahoco/migrate/io/MigrationFileLoader.java:18-19 | a one-line name is accepted exactly when it is `v` or `V`, three digits, `_`, at least one character, then `gremlin` or `groovy` in any case at the very end |
| MigrationFileLoader.VersionOfDigits | src/main/java/omahoco/migrate/io/MigrationFileLoader.java:42 | names with the same three digits have the same version, whatever the case of the `v` |
| MigrationFileLoader.VersionInjective | src/main/java/omahoco/migrate/io/MigrationFileLoader.java:42 | two valid names have the same version exactly when their digits are equal |
| MigrationFileLoader.NameFromParts | src/main/java/omahoco/migrate/io/MigrationFileLoader.java:18-19 | every name built from a `v`, three digits, `_`, a one-line description and an extension is accepted, with the digits' value as its version |
| MigrationFileLoader.NameExamples | src/main/java/omahoco/migrate/io/MigrationFileLoader.java:36-38 | the example name of the error message is accepted with version 1, case does not matter, and the unescaped dot accepts any character |
| MigrationFileLoader.RejectedNameExamples | src/main/java/omahoco/migrate/io/MigrationFileLoader.java:18-19 | two digits, nothing between `_` and the extension, and a `.sql` extension are rejected |
| GraphSchema.CreateStatement | src/main/java/omahoco/migrate/graph/GraphSchema.java:47-53 | no contract of its own: the create command, stated by CreateWithoutOptions and CreateWithOptions |
| GraphSchema.DropStatement | src/main/java/omahoco/migrate/graph/GraphSchema.java:59-64 | no contract of its own: the drop command, stated by DropIsGraphClauseThenDrop |
| GraphSchema.IsSchemaChange | src/main/java/omahoco/migrate/graph/GraphSchema.java:87-97 | no contract of its own: a statement is a schema change exactly when its text starts with `schema.`, with the cases of SchemaChangeExamples |
| GraphSchema.OptionClauses | src/main/java/omahoco/migrate/graph/GraphSchema.java:129-134 | one `option("k").set("v")` clause per entry, in entry order |
| GraphSchema.GraphOptions | src/main/java/omahoco/migrate/graph/GraphSchema.java:124-135 | the options segment is present exactly when the options are |
| GraphSchema.CreateWithoutOptions | src/main/java/omahoco/migrate/graph/GraphSchema.java:42-53 | without options, create is the graph clause, `.`, `ifNotExists().create()` |
| GraphSchema.CreateWithOptions | src/main/java/omahoco/migrate/graph/GraphSchema.java:47-53 | with options, the joined option clauses sit between the graph clause and the create command |
| GraphSchema.EmptyOptionsLeaveEmptySegment | src/main/java/omahoco/migrate/graph/GraphSchema.java:124-134 | an empty options map leaves an empty segment: two dots in a row |
| GraphSchema.DropIsGraphClauseThenDrop | src/main/java/omahoco/migrate/graph/GraphSchema.java:59-64 | drop is the graph clause, `.`, `drop()` |
| GraphSchema.CreateWithTwoOptions | src/main/java/omahoco/migrate/graph/GraphSchema.java:137-141 | two entries give two `.option(…).set(…)` clauses in order before the create command |
| GraphSchema.KillrvideoCommands | src/test/java/omahoco/migrate/graph/GraphSchemaTest.java:52-70 | the create and drop commands of the unit test for the graph `killrvideo` |
| GraphSchema.KillrvideoCommandWithOptions | src/test/java/omahoco/migrate/graph/GraphSchemaTest.java:72-90 | the create command of the unit test with the replication and allow-scan options |
| GraphSchema.SchemaChangeExamples | src/test/java/omahoco/migrate/graph/GraphSchemaTest.java:92-106 | the classification examples of the unit test, and that the prefix is case-sensitive |
| GraphSchema.FailedRoundsCounts | src/main/java/omahoco/migrate/graph/GraphSchema.java:104-110 | n failed rounds make n checks and n delays |
| GraphSchema.WaitForSchemaAgreement | src/main/java/omahoco/migrate/graph/GraphSchema.java:99-112 | the loop makes exactly the calls of the reference trace and succeeds exactly when the reference says so |
| GraphSchema.WaitCounts | src/main/java/omahoco/migrate/graph/GraphSchema.java:99-112 | on success the wait made one more check than delays and stopped at the first agreeing round; on failure it made 15 checks and 15 delays and no round agreed |
| GraphSchema.Execute | src/main/java/omahoco/migrate/graph/GraphSchema.java:75-85 | when the driver throws, only the statement is sent and the call fails; otherwise a schema change is sent with the graph name and followed by the agreement wait, whose outcome is the result, and any other statement is sent alone and succeeds |
| GraphSchema.Create | src/main/java/omahoco/migrate/graph/GraphSchema.java:47-57 | create sends the create command without a graph name; when the driver throws that is all and it fails, otherwise it waits for agreement and succeeds exactly when the wait does |
| GraphSchema.Drop | src/main/java/omahoco/migrate/graph/GraphSchema.java:59-68 | drop sends the drop command without a graph name; when the driver throws that is all and it fails, otherwise it waits for agreement and succeeds exactly when the wait does |
| GraphSchema.AgreementScenarios | src/test/java/omahoco/migrate/graph/GraphSchemaTest.java:108-124 | agreement at once makes no calls; agreement at the third check takes 2 delays; no agreement fails after 15 checks |
| GraphMigrationMetadata.CompareTo | src/main/java/omahoco/migrate/graph/GraphMigrationMetadata.java:55 | no contract of its own: `String.compareTo`, stated by CompareToZeroIff and CompareToAntisymmetric |
| GraphMigrationMetadata.CompareToZeroIff | src/main/java/omahoco/migrate/graph/GraphMigrationMetadata.java:55 | `compareTo` is zero exactly for equal names |
| GraphMigrationMetadata.CompareToAntisymmetric | src/main/java/omahoco/migrate/graph/GraphMigrationMetadata.java:55 | swapping the names negates `compareTo` |
| GraphMigrationMetadata.NameLeTotal | src/main/java/omahoco/migrate/graph/GraphMigrationMetadata.java:55 | any two names are ordered one way or the other |
| GraphMigrationMetadata.NameLeTransitive | src/main/java/omahoco/migrate/graph/GraphMigrationMetadata.java:55 | the name order is transitive |
| GraphMigrationMetadata.SortByName | src/main/java/omahoco/migrate/graph/GraphMigrationMetadata.java:55 | the result is sorted by file name and is a permutation of the input |
| GraphMigrationMetadata.ToMigration | src/main/java/omahoco/migrate/graph/GraphMigrationMetadata.java:122-143 | a vertex maps to a migration with its name, version, checksum and applied time, and with statements set |
| GraphMigrationMetadata.ToMigrations | src/main/java/omahoco/migrate/graph/GraphMigrationMetadata.java:53-54 | one migration per vertex, in the order read, each the mapping of its vertex |
| GraphMigrationMetadata.GetMigrations | src/main/java/omahoco/migrate/graph/GraphMigrationMetadata.java:41-57 | the ledger read is sorted by file name and holds exactly the mapped vertices |
| GraphMigrationMetadata.EveryStoredMigrationRead | src/main/java/omahoco/migrate/graph/GraphMigrationMetadata.java:49-56 | every stored vertex's migration is in the ledger read |
| GraphMigrationMetadata.Record | src/main/java/omahoco/migrate/graph/GraphMigrationMetadata.java:73-83 | there is a vertex exactly when checksum and statements are set; it holds the migration's fields, its contents and the time of the save |
| GraphMigrationMetadata.SavedRecordReadsBack | src/main/java/omahoco/migrate/graph/GraphMigrationMetadata.java:128-134 | a saved migration with one-line statements, the last not empty, reads back unchanged but for the applied time |
| GraphMigrationMetadata.LoadedMigrationReadsBack | src/main/java/omahoco/migrate/graph/GraphMigrationMetadata.java:59-86 | a migration loaded from a script with a statement survives save and read unchanged but for the applied time |
| GraphMigrationMetadata.EmptyStatementsReadBackAsOne | src/main/java/omahoco/migrate/graph/GraphMigrationMetadata.java:128-134 | a migration saved with no statements reads back with one empty statement |
| GraphMigrationMetadata.TrailingEmptyStatementLost | src/main/java/omahoco/migrate/graph/GraphMigrationMetadata.java:128-134 | a trailing empty statement is lost on the way back |
| GraphMigrationMetadata.Init | src/main/java/omahoco/migrate/graph/GraphMigrationMetadata.java:88-100 | with the flag set nothing is sent; otherwise the existence query is sent once, followed by the bootstrap statements exactly when the label is missing, and the flag ends up set exactly when it was set or the bootstrap ran |
| GraphMigrationMetadata.SaveMigration | src/main/java/omahoco/migrate/graph/GraphMigrationMetadata.java:59-86 | the bootstrap runs exactly when the flag is clear and the label missing; the calls are the existence query when the flag is clear, then the bootstrap statements when it runs, then the insert when the migration has checksum and statements, and nothing else; only the bootstrap executes statements |
| GraphMigrationMetadata.ExistsQueryIsSchemaChange | src/main/java/omahoco/migrate/graph/GraphMigrationMetadata.java:156-158 | the existence query starts with `schema.`, so the executor waits for agreement after it |
| GraphMigrationMetadata.FlagStaysSet | src/main/java/omahoco/migrate/graph/GraphMigrationMetadata.java:94-97 | once the flag is set, no later save queries or bootstraps |
| GraphMigrationMetadata.QueryRepeats | src/main/java/omahoco/migrate/graph/GraphMigrationMetadata.java:94-100 | while the store answers that the label exists, every save queries again and the flag stays clear |
| GraphMigrationMetadata.BootstrapAtMostOnce | src/main/java/omahoco/migrate/graph/GraphMigrationMetadata.java:102-113 | over any run of saves the bootstrap script runs at most once, and never when the flag starts set |
| SchemaMigration.LoadAll | src/main/java/omahoco/migrate/SchemaMigration.java:54-59 | loading succeeds exactly when every file loads, giving their migrations in order; otherwise the error is that of the first file that fails |
| SchemaMigration.LedgerMap | src/main/java/omahoco/migrate/SchemaMigration.java:63-67 | indexing succeeds exactly when the ledger names are distinct and then maps each name to its entry; otherwise it names a duplicated file |
| SchemaMigration.Select | src/main/java/omahoco/migrate/SchemaMigration.java:69-73 | a migration is kept exactly when it passes the filter, and the kept ones keep their order; SelectKeepsMultiplicity adds that every occurrence is kept |
| SchemaMigration.Selected | src/main/java/omahoco/migrate/SchemaMigration.java:115-125 | no contract of its own: the filter predicate, described by DefaultMaxVersionExcludesNothing and AboveCeilingNeverSelected |
| SchemaMigration.DefaultMaxVersionExcludesNothing | src/main/java/omahoco/migrate/SchemaMigration.java:28 | with the default ceiling a migration is selected exactly when the ledger lacks its name or holds another checksum for it |
| SchemaMigration.AboveCeilingNeverSelected | src/main/java/omahoco/migrate/SchemaMigration.java:122-124 | a migration above the ceiling is never applied, whatever the ledger holds |
| SchemaMigration.FilterThrowsAt | src/main/java/omahoco/migrate/SchemaMigration.java:115-125 | the filter throws exactly when some script's name is in the ledger with a null checksum, and it throws at the first such script, whatever its version |
| SchemaMigration.LedgerReadNeverThrowsInFilter | src/main/java/omahoco/migrate/graph/GraphMigrationMetadata.java:122-143 | a ledger as `getMigrations` reads it never makes the filter throw, because every vertex yields a checksum |
| SchemaMigration.SelectKeepsMultiplicity | src/main/java/omahoco/migrate/SchemaMigration.java:69-73 | the filter keeps every occurrence of a selected migration and none of the others |
| SchemaMigration.SelectedInLedgerConflicts | src/main/java/omahoco/migrate/SchemaMigration.java:84-89 | a selected migration that the ledger knows always conflicts |
| SchemaMigration.Conflicts | src/main/java/omahoco/migrate/SchemaMigration.java:84-89 | no contract of its own: the checksum comparison, which SelectedInLedgerConflicts relates to the filter |
| SchemaMigration.ExecuteStatements | src/main/java/omahoco/migrate/SchemaMigration.java:92-102 | every statement is executed in order, and the count is that of the executions that succeeded |
| SchemaMigration.ApplyMigrations | src/main/java/omahoco/migrate/SchemaMigration.java:80-113 | the loop makes exactly the calls of the reference run; a conflict names the migration after the last one applied; each applied migration's success count covers its own statements |
| SchemaMigration.ApplyAll | src/main/java/omahoco/migrate/SchemaMigration.java:80-113 | no contract of its own: the reference run of the apply loop, stated by ApplyAllWithoutConflict and ApplyAllStopsAtFirstConflict |
| SchemaMigration.ApplyAllWithoutConflict | src/main/java/omahoco/migrate/SchemaMigration.java:80-113 | without a conflict every statement is executed once in order, failing or not, and every migration is saved once |
| SchemaMigration.ApplyAllStopsAtFirstConflict | src/main/java/omahoco/migrate/SchemaMigration.java:84-89 | the first conflicting migration stops the run: the ones before it stay applied and nothing of it or later ones is executed or saved |
| SchemaMigration.EmptyLedgerScenarios | src/test/java/omahoco/migrate/SchemaMigrationTest.java:56-83 | an empty ledger applies all three test scripts with 25 executions and 3 saves, or with ceiling 2 two scripts with 17 and 2 |
| SchemaMigration.AppliedLedgerScenarios | src/test/java/omahoco/migrate/SchemaMigrationTest.java:85-110 | with all three in the ledger nothing runs; with the first two there only the third runs, 8 executions and 1 save |
| SchemaMigration.ChecksumDisagreementScenario | src/test/java/omahoco/migrate/SchemaMigrationTest.java:112-122 | ledger checksums that differ make the first script stop the run before anything is executed |
| SchemaMigration.Migrate | src/main/java/omahoco/migrate/SchemaMigration.java:51-78 | create comes first and a failure there ends the run; a load failure or a duplicated ledger name ends it next, and then a ledger entry with a null checksum for a loaded script, before anything is executed; otherwise the selected migrations are applied and a conflict is reported |

## Left out

- The command line, dependency injection, YAML profiles and `FileMigrationSource` are not part of this model. The scripts' order is taken as given.
- The graph driver and the cluster metadata are oracles. This covers the store's answers, the per-round agreement answer and statement success. `Thread.sleep` becomes a `Delay` event. The clock is a parameter.
- CRC32 is an opaque function of the bytes. Decoding the bytes into lines with the platform charset is an input.
- Logging, `MessageFormat` templates, the vertex label and the property names of the insert are left out. The insert is modelled as the record it stores.
- The options `HashMap`'s iteration order is a parameter: the entries in map order.
- `isSchemaChange` throws for statements that are not `SimpleGraphStatement`s; only string statements occur here, so that check is left out.
- GraphMigrationMetadata.CompareTo: compares Unicode scalar values, where Java compares UTF-16 code units; the orders differ only above U+FFFF.
- StatementParser.TrimIdempotent: is stated for strings without U+0085, U+2028 and U+2029, because trim is not idempotent on those; `TrimBeforeLineSeparatorNotIdempotent` shows it.
- SchemaMigration.ApplyMigrations: requires every migration to have a checksum and statements, which the loader always sets. A missing one would throw a `NullPointerException` in the source.
- A failure inside `saveMigration` is not modelled: its existence query, its bootstrap statements, their agreement waits and the insert always succeed here. In the source any such failure ends the run after the migration's statements have been executed.
- GraphMigrationMetadata.SaveMigration: a migration without checksum or statements makes Guava's map builder throw. The model reports this as "not saved" and does not abort the run.
