/** GraphMigrationMetadata: the ledger of applied migrations kept as
    vertices in the graph. Reading maps each stored vertex back to a
    migration and sorts by file name; saving first makes sure the
    ledger's vertex label exists, running a bootstrap script at most once
    per instance, then inserts a vertex. The store is replaced by the
    stored vertices it would return, the answers of its existence query
    and a trace of the statements sent to it. */
module GraphMigrationMetadata {
  import opened Wrappers
  import opened Text
  import opened Migrations
  import StatementParser
  import GraphSchema
  import MigrationFileLoader

  const DatabaseMigrationLabel: string := "databaseMigration"

  /** `Statements.METADATA_EXISTS`. */
  const MetadataExistsQuery: string := "schema.vertexLabel('" + DatabaseMigrationLabel + "').exists()"

  /** The properties of one ledger vertex, as the insert stores them. */
  datatype StoredMigration = StoredMigration(
    fileName: string,
    version: Int32,
    checkSum: string,
    contents: string,
    appliedAt: Instant)

  /** A statement sent to the store on behalf of the ledger. */
  datatype LedgerCall =
    | QueryExists
    | Execute(statement: string)
    | Insert(record: StoredMigration)

  // ---------------------------------------------------------------------
  // Ordering by file name: String.compareTo
  // ---------------------------------------------------------------------

  /** `a.compareTo(b)`: the difference of the first differing characters,
      or of the lengths when one string is a prefix of the other. */
  function CompareTo(a: string, b: string): int
  {
    if |a| == 0 || |b| == 0 then |a| - |b|
    else if a[0] != b[0] then a[0] as int - b[0] as int
    else CompareTo(a[1..], b[1..])
  }

  predicate NameLe(a: string, b: string)
  {
    CompareTo(a, b) <= 0
  }

  /** Zero exactly for equal strings. */
  lemma {:induction false} CompareToZeroIff(a: string, b: string)
    ensures CompareTo(a, b) == 0 <==> a == b
    decreases |a|
  {
    if |a| > 0 && |b| > 0 && a[0] == b[0] {
      CompareToZeroIff(a[1..], b[1..]);
      assert a == [a[0]] + a[1..] && b == [b[0]] + b[1..];
    }
  }

  lemma {:induction false} CompareToAntisymmetric(a: string, b: string)
    ensures CompareTo(a, b) == -CompareTo(b, a)
    decreases |a|
  {
    if |a| > 0 && |b| > 0 && a[0] == b[0] {
      CompareToAntisymmetric(a[1..], b[1..]);
    }
  }

  lemma NameLeTotal(a: string, b: string)
    ensures NameLe(a, b) || NameLe(b, a)
  {
    CompareToAntisymmetric(a, b);
  }

  lemma {:induction false} NameLeTransitive(a: string, b: string, c: string)
    requires NameLe(a, b) && NameLe(b, c)
    ensures NameLe(a, c)
    decreases |a|
  {
    if |a| > 0 && |b| > 0 && |c| > 0 && a[0] == b[0] && b[0] == c[0] {
      NameLeTransitive(a[1..], b[1..], c[1..]);
    }
  }

  /** The file names of the sequence never decrease. */
  predicate SortedByName(ms: seq<Migration>)
  {
    forall i, j :: 0 <= i < j < |ms| ==> NameLe(ms[i].fileName, ms[j].fileName)
  }

  /** Puts `m` in front of the first migration whose name is not smaller. */
  function InsertByName(m: Migration, ms: seq<Migration>): (r: seq<Migration>)
    requires SortedByName(ms)
    ensures SortedByName(r)
    ensures multiset(r) == multiset(ms) + multiset{m}
  {
    if |ms| == 0 then [m]
    else if NameLe(m.fileName, ms[0].fileName) then
      forall j | 0 <= j < |ms| ensures NameLe(m.fileName, ms[j].fileName) {
        if j > 0 {
          NameLeTransitive(m.fileName, ms[0].fileName, ms[j].fileName);
        }
      }
      [m] + ms
    else
      var rest := InsertByName(m, ms[1..]);
      NameLeTotal(m.fileName, ms[0].fileName);
      assert ms == [ms[0]] + ms[1..];
      forall x | x in multiset(rest) ensures NameLe(ms[0].fileName, x.fileName) {
        if x != m {
          var j :| 0 <= j < |ms[1..]| && ms[1..][j] == x;
          assert ms[j + 1] == x;
        }
      }
      forall i | 0 <= i < |rest| ensures NameLe(ms[0].fileName, rest[i].fileName) {
        assert rest[i] in multiset(rest);
      }
      [ms[0]] + rest
  }

  /** `sorted(Comparator.comparing(Migration::getFileName))`. */
  function SortByName(ms: seq<Migration>): (r: seq<Migration>)
    ensures SortedByName(r)
    ensures multiset(r) == multiset(ms)
  {
    if |ms| == 0 then []
    else
      assert ms == [ms[0]] + ms[1..];
      InsertByName(ms[0], SortByName(ms[1..]))
  }

  // ---------------------------------------------------------------------
  // Reading the ledger
  // ---------------------------------------------------------------------

  /** `MigrationMapper.toMigration`: the statements are the stored
      contents split at the line separator. */
  function ToMigration(v: StoredMigration, sep: LineSeparator): (m: Migration)
    ensures m.fileName == v.fileName && m.version == v.version
    ensures m.checkSum == Some(v.checkSum) && m.appliedAt == Some(v.appliedAt)
    ensures m.statements.Some?
  {
    var m := SetVersion(Named(v.fileName), v.version);
    var m := SetCheckSum(m, Some(v.checkSum));
    var m := SetStatements(m, Some(Split(v.contents, sep)));
    SetAppliedAt(m, Some(v.appliedAt))
  }

  function ToMigrations(vs: seq<StoredMigration>, sep: LineSeparator): (ms: seq<Migration>)
    ensures |ms| == |vs|
    ensures forall i :: 0 <= i < |vs| ==> ms[i] == ToMigration(vs[i], sep)
  {
    if |vs| == 0 then [] else [ToMigration(vs[0], sep)] + ToMigrations(vs[1..], sep)
  }

  /** `getMigrations`: every stored vertex, mapped and sorted by file name. */
  function GetMigrations(stored: seq<StoredMigration>, sep: LineSeparator): (r: seq<Migration>)
    ensures SortedByName(r)
    ensures multiset(r) == multiset(ToMigrations(stored, sep))
    ensures |r| == |stored|
  {
    var r := SortByName(ToMigrations(stored, sep));
    assert |r| == |multiset(r)| == |multiset(ToMigrations(stored, sep))|;
    r
  }

  /** Every vertex shows up: its migration is in the result. */
  lemma EveryStoredMigrationRead(stored: seq<StoredMigration>, sep: LineSeparator, i: nat)
    requires i < |stored|
    ensures ToMigration(stored[i], sep) in GetMigrations(stored, sep)
  {
    var ms := ToMigrations(stored, sep);
    assert ms[i] in multiset(ms);
    assert ms[i] in multiset(GetMigrations(stored, sep));
  }

  // ---------------------------------------------------------------------
  // Saving a migration
  // ---------------------------------------------------------------------

  /** The vertex the insert of `saveMigration` stores: the migration's
      fields, the statements joined by the line separator, and the time of
      the call. Guava's map builder rejects a missing checksum or missing
      statements, so there is no vertex then. */
  function Record(m: Migration, sep: LineSeparator, now: Instant): (r: Option<StoredMigration>)
    ensures r.Some? <==> m.checkSum.Some? && m.statements.Some?
    ensures r.Some? ==>
              && r.value.fileName == m.fileName && r.value.version == m.version
              && r.value.checkSum == m.checkSum.value && r.value.appliedAt == now
              && Some(r.value.contents) == GetContents(m, sep)
  {
    match (m.checkSum, GetContents(m, sep))
    case (Some(c), Some(contents)) => Some(StoredMigration(m.fileName, m.version, c, contents, now))
    case _ => None
  }

  /** Saving and reading back: the vertex stored for a migration maps back
      to the same migration, stamped with the time of the save, as long as
      its statements are one-line and the last one is not empty. */
  lemma SavedRecordReadsBack(m: Migration, sep: LineSeparator, now: Instant)
    requires m.checkSum.Some? && m.statements.Some? && |m.statements.value| > 0
    requires forall j :: 0 <= j < |m.statements.value| ==> NoLineTerminators(m.statements.value[j])
    requires |m.statements.value| == 1 || m.statements.value[|m.statements.value| - 1] != ""
    ensures Record(m, sep, now).Some?
    ensures ToMigration(Record(m, sep, now).value, sep) == m.(appliedAt := Some(now))
  {
    ContentsSplitBack(m, sep);
  }

  /** A migration loaded from a script with at least one statement survives
      the round trip through the ledger unchanged but for the time stamp. */
  lemma LoadedMigrationReadsBack(file: MigrationFileLoader.MigrationFile, checkSum: seq<bv8> -> string,
                                 sep: LineSeparator, now: Instant)
    requires MigrationFileLoader.Load(file, checkSum).Success?
    requires StatementParser.Parse(file.contents.value.lines) != []
    ensures var m := MigrationFileLoader.Load(file, checkSum).value;
            && Record(m, sep, now).Some?
            && ToMigration(Record(m, sep, now).value, sep) == m.(appliedAt := Some(now))
  {
    var m := MigrationFileLoader.Load(file, checkSum).value;
    var ss := StatementParser.Parse(file.contents.value.lines);
    StatementParser.ParseShape(file.contents.value.lines);
    StatementParser.ParsedStatementsAreOneLine(file.contents.value.lines);
    assert |ss[|ss| - 1]| > 0;
    SavedRecordReadsBack(m, sep, now);
  }

  /** A migration saved with no statements reads back with one empty
      statement: the empty contents split to a single empty field. */
  lemma EmptyStatementsReadBackAsOne(m: Migration, sep: LineSeparator, now: Instant)
    requires m.checkSum.Some? && m.statements == Some([])
    ensures Record(m, sep, now).Some?
    ensures ToMigration(Record(m, sep, now).value, sep).statements == Some([""])
  {
  }

  /** A trailing empty statement is lost on the way back, because the
      split drops trailing empty fields. */
  lemma TrailingEmptyStatementLost(m: Migration, sep: LineSeparator, now: Instant, a: string)
    requires m.checkSum.Some? && m.statements == Some([a, ""])
    requires |a| > 0 && NoLineTerminators(a)
    ensures Record(m, sep, now).Some?
    ensures ToMigration(Record(m, sep, now).value, sep).statements == Some([a])
  {
    var c := a + sep;
    JoinTwo(a, "", sep);
    assert a + sep + "" == c;
    assert Fields(c, sep) == [a, ""] by {
      FieldsOfJoin([a, ""], sep);
    }
    assert OccursAt(c, sep, |a|) by {
      assert c[|a|..|a| + |sep|] == sep;
    }
    assert DropTrailingEmpty([a, ""]) == [a] by {
      assert [a, ""][..1] == [a];
    }
  }

  /** What one `saveMigration` call did. */
  datatype SaveOutcome = SaveOutcome(
    calls: seq<LedgerCall>,
    metadataExists: bool,
    bootstrapped: bool,
    saved: bool)

  /** `init`: nothing when the flag is set; otherwise the existence query,
      and when the label does not exist yet the bootstrap statements,
      after which the flag is set. */
  function Init(metadataExists: bool, labelExists: bool, bootstrap: seq<string>): (r: (seq<LedgerCall>, bool))
    ensures r.1 <==> metadataExists || !labelExists
    ensures metadataExists ==> r.0 == []
    ensures !metadataExists ==> |r.0| > 0 && r.0[0] == QueryExists
    ensures !metadataExists && labelExists ==> r.0 == [QueryExists]
    ensures !metadataExists && !labelExists ==>
              |r.0| == 1 + |bootstrap| && forall i :: 0 <= i < |bootstrap| ==> r.0[1 + i] == Execute(bootstrap[i])
    ensures forall i :: 0 <= i < |r.0| ==> !r.0[i].Insert?
    ensures metadataExists || labelExists ==> forall i :: 0 <= i < |r.0| ==> !r.0[i].Execute?
  {
    if metadataExists then ([], true)
    else if labelExists then ([QueryExists], false)
    else ([QueryExists] + Executions(bootstrap), true)
  }

  function Executions(statements: seq<string>): (calls: seq<LedgerCall>)
    ensures |calls| == |statements|
    ensures forall i :: 0 <= i < |statements| ==> calls[i] == Execute(statements[i])
  {
    if |statements| == 0 then [] else [Execute(statements[0])] + Executions(statements[1..])
  }

  /** `saveMigration`: `init`, then the insert of the migration's vertex.
      `labelExists` is the store's answer to the existence query, asked
      only when the flag is not set; `resourceLines` are the lines of the
      bootstrap script. */
  function SaveMigration(metadataExists: bool, labelExists: bool, resourceLines: seq<string>,
                         m: Migration, sep: LineSeparator, now: Instant): (r: SaveOutcome)
    ensures r.bootstrapped <==> !metadataExists && !labelExists
    ensures r.metadataExists <==> metadataExists || r.bootstrapped
    ensures r.saved <==> m.checkSum.Some? && m.statements.Some?
    ensures metadataExists ==> r.calls == (if r.saved then [Insert(Record(m, sep, now).value)] else [])
    ensures !metadataExists ==> |r.calls| > 0 && r.calls[0] == QueryExists
    ensures r.bootstrapped ==>
              var b := StatementParser.Parse(resourceLines);
              && |r.calls| >= 1 + |b|
              && forall i :: 0 <= i < |b| ==> r.calls[1 + i] == Execute(b[i])
    ensures |r.calls| ==
              (if metadataExists then 0
               else 1 + (if r.bootstrapped then |StatementParser.Parse(resourceLines)| else 0))
              + (if r.saved then 1 else 0)
    ensures r.saved <==> |r.calls| > 0 && r.calls[|r.calls| - 1].Insert?
    ensures r.saved ==> r.calls[|r.calls| - 1] == Insert(Record(m, sep, now).value)
    ensures forall i :: 0 <= i < |r.calls| - 1 ==> !r.calls[i].Insert?
    ensures !r.bootstrapped ==> forall i :: 0 <= i < |r.calls| ==> !r.calls[i].Execute?
  {
    var (initCalls, flag) := Init(metadataExists, labelExists, StatementParser.Parse(resourceLines));
    var record := Record(m, sep, now);
    var insert := if record.Some? then [Insert(record.value)] else [];
    assert forall i :: 0 <= i < |initCalls| ==> (initCalls + insert)[i] == initCalls[i];
    SaveOutcome(initCalls + insert, flag, !metadataExists && !labelExists, record.Some?)
  }

  /** The existence query is itself a schema statement, so the schema
      executor waits for agreement after it. */
  lemma ExistsQueryIsSchemaChange()
    ensures GraphSchema.IsSchemaChange(MetadataExistsQuery)
  {
    assert MetadataExistsQuery[..7] == "schema.";
  }

  // ---------------------------------------------------------------------
  // A run of saves on one ledger instance
  // ---------------------------------------------------------------------

  /** Saves `ms` one after another, starting from the flag `metadataExists`;
      `labelExists[i]` is the store's answer should the i-th save ask. */
  function SaveAll(metadataExists: bool, labelExists: seq<bool>, resourceLines: seq<string>,
                   ms: seq<Migration>, sep: LineSeparator, clock: seq<Instant>): (rs: seq<SaveOutcome>)
    requires |labelExists| == |ms| && |clock| == |ms|
    ensures |rs| == |ms|
    decreases |ms|
  {
    if |ms| == 0 then []
    else
      var r := SaveMigration(metadataExists, labelExists[0], resourceLines, ms[0], sep, clock[0]);
      [r] + SaveAll(r.metadataExists, labelExists[1..], resourceLines, ms[1..], sep, clock[1..])
  }

  /** Every save of `rs` found the flag set: none asked whether the label
      exists, none ran the bootstrap script, each sent at most the insert. */
  predicate AllSettled(rs: seq<SaveOutcome>)
  {
    forall i :: 0 <= i < |rs| ==>
      && rs[i].metadataExists && !rs[i].bootstrapped
      && forall k :: 0 <= k < |rs[i].calls| ==> rs[i].calls[k].Insert?
  }

  /** Every save of `rs` asked whether the label exists and left the flag clear. */
  predicate AllAsked(rs: seq<SaveOutcome>)
  {
    forall i :: 0 <= i < |rs| ==>
      && !rs[i].metadataExists && !rs[i].bootstrapped
      && |rs[i].calls| > 0 && rs[i].calls[0] == QueryExists
  }

  /** At most one save of `rs` ran the bootstrap script. */
  predicate AtMostOneBootstrap(rs: seq<SaveOutcome>)
  {
    forall i, j :: 0 <= i < j < |rs| && rs[i].bootstrapped ==> !rs[j].bootstrapped
  }

  predicate NoBootstrap(rs: seq<SaveOutcome>)
  {
    forall i :: 0 <= i < |rs| ==> !rs[i].bootstrapped
  }

  /** Once the flag is set it stays set, and no later save asks whether
      the label exists or runs the bootstrap script. */
  lemma {:induction false} FlagStaysSet(labelExists: seq<bool>, resourceLines: seq<string>,
                                        ms: seq<Migration>, sep: LineSeparator, clock: seq<Instant>)
    requires |labelExists| == |ms| && |clock| == |ms|
    ensures AllSettled(SaveAll(true, labelExists, resourceLines, ms, sep, clock))
    decreases |ms|
  {
    if |ms| > 0 {
      var rs := SaveAll(true, labelExists, resourceLines, ms, sep, clock);
      var r := SaveMigration(true, labelExists[0], resourceLines, ms[0], sep, clock[0]);
      var tail := SaveAll(true, labelExists[1..], resourceLines, ms[1..], sep, clock[1..]);
      assert rs == [r] + tail;
      FlagStaysSet(labelExists[1..], resourceLines, ms[1..], sep, clock[1..]);
      assert forall i :: 0 < i < |rs| ==> rs[i] == tail[i - 1];
    }
  }

  /** While the store answers that the label exists, the flag stays clear
      and every save asks again. */
  lemma {:induction false} QueryRepeats(labelExists: seq<bool>, resourceLines: seq<string>,
                                        ms: seq<Migration>, sep: LineSeparator, clock: seq<Instant>)
    requires |labelExists| == |ms| && |clock| == |ms|
    requires forall i :: 0 <= i < |labelExists| ==> labelExists[i]
    ensures AllAsked(SaveAll(false, labelExists, resourceLines, ms, sep, clock))
    decreases |ms|
  {
    if |ms| > 0 {
      var rs := SaveAll(false, labelExists, resourceLines, ms, sep, clock);
      var r := SaveMigration(false, labelExists[0], resourceLines, ms[0], sep, clock[0]);
      var tail := SaveAll(false, labelExists[1..], resourceLines, ms[1..], sep, clock[1..]);
      assert rs == [r] + tail;
      QueryRepeats(labelExists[1..], resourceLines, ms[1..], sep, clock[1..]);
      assert forall i :: 0 < i < |rs| ==> rs[i] == tail[i - 1];
    }
  }

  /** Over any run of saves the bootstrap script runs at most once, and
      not at all when the flag starts set. */
  lemma {:induction false} BootstrapAtMostOnce(metadataExists: bool, labelExists: seq<bool>, resourceLines: seq<string>,
                                               ms: seq<Migration>, sep: LineSeparator, clock: seq<Instant>)
    requires |labelExists| == |ms| && |clock| == |ms|
    ensures AtMostOneBootstrap(SaveAll(metadataExists, labelExists, resourceLines, ms, sep, clock))
    ensures metadataExists ==> NoBootstrap(SaveAll(metadataExists, labelExists, resourceLines, ms, sep, clock))
    decreases |ms|
  {
    if |ms| > 0 {
      var rs := SaveAll(metadataExists, labelExists, resourceLines, ms, sep, clock);
      var r := SaveMigration(metadataExists, labelExists[0], resourceLines, ms[0], sep, clock[0]);
      var tail := SaveAll(r.metadataExists, labelExists[1..], resourceLines, ms[1..], sep, clock[1..]);
      assert rs == [r] + tail;
      BootstrapAtMostOnce(r.metadataExists, labelExists[1..], resourceLines, ms[1..], sep, clock[1..]);
      if r.metadataExists {
        FlagStaysSet(labelExists[1..], resourceLines, ms[1..], sep, clock[1..]);
      }
      assert forall i :: 0 < i < |rs| ==> rs[i] == tail[i - 1];
    }
  }
}
