/** SchemaMigration: one migration run. It creates the graph, loads every
    script, reads the ledger, selects the scripts that still need to be
    applied, and applies them in order: a script whose ledger checksum
    disagrees stops the run; otherwise every statement is executed, a
    failing statement being logged and skipped, and the script is saved to
    the ledger. The schema executor and the ledger are replaced by a trace
    of the calls made to them and by oracles for their answers. */
module SchemaMigration {
  import opened Wrappers
  import opened Text
  import opened Migrations
  import MigrationFileLoader
  import GraphMigrationMetadata

  /** The profile's graph options: absent, or the entries in map order. */
  type Options = Option<seq<(string, string)>>

  /** `maxVersion` before `setMaxVersion` is called: `Integer.MAX_VALUE`. */
  const DefaultMaxVersion: Int32 := MaxInt32

  /** A call made to the schema executor or the ledger. */
  datatype Event =
    | Create(options: Options)
    | ReadLedger
    | Exec(statement: string)
    | Save(fileName: string)

  /** Why a run stopped early. */
  datatype MigrateError =
    | CreateFailed
    | LoadFailed(cause: MigrationFileLoader.LoadError)
    | DuplicateLedgerEntry(fileName: string)
    | ChecksumConflict(fileName: string)
    | LedgerChecksumNull(fileName: string)

  /** What the loader always produces: a checksum and a statement list. */
  predicate Loaded(m: Migration)
  {
    m.checkSum.Some? && m.statements.Some?
  }

  predicate AllLoaded(ms: seq<Migration>)
  {
    forall i :: 0 <= i < |ms| ==> Loaded(ms[i])
  }

  // ---------------------------------------------------------------------
  // Loading every script
  // ---------------------------------------------------------------------

  /** `map(migrationFileLoader::load)` over the source's files, in order:
      the first file that fails to load stops the run. */
  function LoadAll(files: seq<MigrationFileLoader.MigrationFile>, checkSum: seq<bv8> -> string)
    : (r: Result<seq<Migration>, MigrationFileLoader.LoadError>)
    ensures r.Success? <==> forall i :: 0 <= i < |files| ==> MigrationFileLoader.Load(files[i], checkSum).Success?
    ensures r.Success? ==>
              && |r.value| == |files|
              && (forall i :: 0 <= i < |files| ==> r.value[i] == MigrationFileLoader.Load(files[i], checkSum).value)
              && AllLoaded(r.value)
    ensures r.Failure? ==>
              exists k :: 0 <= k < |files|
                && (forall i :: 0 <= i < k ==> MigrationFileLoader.Load(files[i], checkSum).Success?)
                && MigrationFileLoader.Load(files[k], checkSum) == Failure(r.error)
  {
    if |files| == 0 then Success([])
    else match MigrationFileLoader.Load(files[0], checkSum)
      case Failure(e) => Failure(e)
      case Success(m) =>
        match LoadAll(files[1..], checkSum)
        case Failure(e) =>
          ghost var k :| 0 <= k < |files[1..]|
                         && (forall i :: 0 <= i < k ==> MigrationFileLoader.Load(files[1..][i], checkSum).Success?)
                         && MigrationFileLoader.Load(files[1..][k], checkSum) == Failure(e);
          assert MigrationFileLoader.Load(files[k + 1], checkSum) == Failure(e);
          Failure(e)
        case Success(ms) =>
          assert forall i :: 1 <= i < |files| ==> files[i] == files[1..][i - 1];
          Success([m] + ms)
  }

  // ---------------------------------------------------------------------
  // The ledger as a map from file name
  // ---------------------------------------------------------------------

  predicate DistinctNames(ms: seq<Migration>)
  {
    forall i, j :: 0 <= i < j < |ms| ==> ms[i].fileName != ms[j].fileName
  }

  /** `Collectors.toMap(getFileName, identity)`: every entry under its file
      name; a name met a second time is an error. */
  function LedgerMap(applied: seq<Migration>): (r: Result<map<string, Migration>, MigrateError>)
    ensures r.Success? <==> DistinctNames(applied)
    ensures r.Success? ==>
              forall i :: 0 <= i < |applied| ==> applied[i].fileName in r.value && r.value[applied[i].fileName] == applied[i]
    ensures r.Success? ==> forall n :: n in r.value ==> exists i :: 0 <= i < |applied| && applied[i].fileName == n
    ensures r.Failure? ==>
              && r.error.DuplicateLedgerEntry?
              && exists i, j :: 0 <= i < j < |applied| && applied[i].fileName == r.error.fileName && applied[j].fileName == r.error.fileName
    decreases |applied|
  {
    if |applied| == 0 then Success(map[])
    else
      var init := applied[..|applied| - 1];
      var last := applied[|applied| - 1];
      match LedgerMap(init)
      case Failure(e) =>
        DuplicateInPrefix(init, applied, e.fileName);
        Failure(e)
      case Success(mp) =>
        if last.fileName in mp then
          DuplicateAtEnd(init, applied, mp);
          Failure(DuplicateLedgerEntry(last.fileName))
        else
          FreshAtEnd(init, applied, mp);
          Success(mp[last.fileName := last])
  }

  /** A name twice among the earlier entries is twice in the ledger. */
  lemma DuplicateInPrefix(init: seq<Migration>, applied: seq<Migration>, n: string)
    requires |applied| > 0 && init == applied[..|applied| - 1]
    requires exists i, j :: 0 <= i < j < |init| && init[i].fileName == n && init[j].fileName == n
    ensures exists i, j :: 0 <= i < j < |applied| && applied[i].fileName == n && applied[j].fileName == n
    ensures !DistinctNames(applied)
  {
    var i, j :| 0 <= i < j < |init| && init[i].fileName == n && init[j].fileName == n;
    assert applied[i] == init[i] && applied[j] == init[j];
  }

  /** The last entry's name already indexed: a duplicate. */
  lemma DuplicateAtEnd(init: seq<Migration>, applied: seq<Migration>, mp: map<string, Migration>)
    requires |applied| > 0 && init == applied[..|applied| - 1]
    requires forall n :: n in mp ==> exists i :: 0 <= i < |init| && init[i].fileName == n
    requires applied[|applied| - 1].fileName in mp
    ensures exists i, j :: 0 <= i < j < |applied| && applied[i].fileName == applied[|applied| - 1].fileName
                                                   && applied[j].fileName == applied[|applied| - 1].fileName
    ensures !DistinctNames(applied)
  {
    var n := applied[|applied| - 1].fileName;
    var i :| 0 <= i < |init| && init[i].fileName == n;
    assert applied[i] == init[i];
  }

  /** The last entry's name not yet indexed: adding it keeps the index exact. */
  lemma FreshAtEnd(init: seq<Migration>, applied: seq<Migration>, mp: map<string, Migration>)
    requires |applied| > 0 && init == applied[..|applied| - 1]
    requires DistinctNames(init)
    requires forall i :: 0 <= i < |init| ==> init[i].fileName in mp && mp[init[i].fileName] == init[i]
    requires forall n :: n in mp ==> exists i :: 0 <= i < |init| && init[i].fileName == n
    requires applied[|applied| - 1].fileName !in mp
    ensures var r := mp[applied[|applied| - 1].fileName := applied[|applied| - 1]];
            && DistinctNames(applied)
            && (forall i :: 0 <= i < |applied| ==> applied[i].fileName in r && r[applied[i].fileName] == applied[i])
            && (forall n :: n in r ==> exists i :: 0 <= i < |applied| && applied[i].fileName == n)
  {
    var last := applied[|applied| - 1];
    var r := mp[last.fileName := last];
    forall i, j | 0 <= i < j < |applied| ensures applied[i].fileName != applied[j].fileName {
      assert applied[i] == init[i];
      if j < |init| {
        assert applied[j] == init[j];
      }
    }
    forall i | 0 <= i < |applied| ensures applied[i].fileName in r && r[applied[i].fileName] == applied[i] {
      if i < |init| {
        assert applied[i] == init[i];
      }
    }
    forall n | n in r ensures exists i :: 0 <= i < |applied| && applied[i].fileName == n {
      if n != last.fileName {
        var i :| 0 <= i < |init| && init[i].fileName == n;
        assert applied[i] == init[i];
      }
    }
  }

  // ---------------------------------------------------------------------
  // Selecting what to apply
  // ---------------------------------------------------------------------

  /** `applyMigrationFilter`: not in the ledger, or in it with another
      checksum, and not above the version ceiling. */
  predicate Selected(ledger: map<string, Migration>, m: Migration, maxVersion: Int32)
  {
    (m.fileName !in ledger || ledger[m.fileName].checkSum != m.checkSum) && m.version <= maxVersion
  }

  /** `a` is `b` with some elements left out, the rest in the same order. */
  predicate Subsequence<T(==)>(a: seq<T>, b: seq<T>)
    decreases |b|
  {
    if |a| == 0 then true
    else if |b| == 0 then false
    else (a[0] == b[0] && Subsequence(a[1..], b[1..])) || Subsequence(a, b[1..])
  }

  /** The filter step of `migrate`. */
  function Select(ms: seq<Migration>, ledger: map<string, Migration>, maxVersion: Int32): (r: seq<Migration>)
    ensures forall m :: m in r <==> m in ms && Selected(ledger, m, maxVersion)
    ensures Subsequence(r, ms)
  {
    if |ms| == 0 then []
    else
      var rest := Select(ms[1..], ledger, maxVersion);
      assert ms == [ms[0]] + ms[1..];
      if Selected(ledger, ms[0], maxVersion) then
        assert ([ms[0]] + rest)[1..] == rest;
        [ms[0]] + rest
      else rest
  }

  /** The filter keeps every occurrence of a selected migration, so
      duplicates among the scripts survive it. */
  lemma {:induction false} SelectKeepsMultiplicity(ms: seq<Migration>, ledger: map<string, Migration>, maxVersion: Int32)
    ensures forall m :: multiset(Select(ms, ledger, maxVersion))[m] ==
                        (if Selected(ledger, m, maxVersion) then multiset(ms)[m] else 0)
    decreases |ms|
  {
    if |ms| > 0 {
      var r := Select(ms, ledger, maxVersion);
      var t := Select(ms[1..], ledger, maxVersion);
      SelectKeepsMultiplicity(ms[1..], ledger, maxVersion);
      assert multiset(ms) == multiset{ms[0]} + multiset(ms[1..]) by {
        assert ms == [ms[0]] + ms[1..];
      }
      assert multiset(r) == (if Selected(ledger, ms[0], maxVersion) then multiset{ms[0]} else multiset{}) + multiset(t) by {
        SelectCons(ms, ledger, maxVersion);
      }
    }
  }

  lemma SelectLoaded(ms: seq<Migration>, ledger: map<string, Migration>, maxVersion: Int32)
    requires AllLoaded(ms)
    ensures AllLoaded(Select(ms, ledger, maxVersion))
  {
    var r := Select(ms, ledger, maxVersion);
    forall i | 0 <= i < |r| ensures Loaded(r[i]) {
      assert r[i] in ms;
    }
  }

  /** With the default ceiling only the ledger decides. */
  lemma DefaultMaxVersionExcludesNothing(ledger: map<string, Migration>, m: Migration)
    ensures Selected(ledger, m, DefaultMaxVersion) <==>
            m.fileName !in ledger || ledger[m.fileName].checkSum != m.checkSum
  {
  }

  /** A migration above the ceiling is never selected, whatever the ledger
      holds, so its checksum is never compared. */
  lemma AboveCeilingNeverSelected(ms: seq<Migration>, ledger: map<string, Migration>, maxVersion: Int32, m: Migration)
    requires m.version > maxVersion
    ensures m !in Select(ms, ledger, maxVersion)
  {
  }

  /** The ledger holds the migration's name but no checksum for it, so the
      filter calls `equals` on a null checksum and throws. */
  predicate LedgerChecksumMissing(ledger: map<string, Migration>, m: Migration)
  {
    m.fileName in ledger && ledger[m.fileName].checkSum.None?
  }

  /** Where the filter throws, if it does. The stream tests the scripts in
      order and compares the checksum before the version, so the ceiling
      spares no script; the throw comes before any migration is applied. */
  function FilterThrowsAt(ms: seq<Migration>, ledger: map<string, Migration>): (r: Option<string>)
    ensures r.None? <==> forall i :: 0 <= i < |ms| ==> !LedgerChecksumMissing(ledger, ms[i])
    ensures r.Some? ==>
              exists i :: 0 <= i < |ms| && ms[i].fileName == r.value && LedgerChecksumMissing(ledger, ms[i])
                          && forall j :: 0 <= j < i ==> !LedgerChecksumMissing(ledger, ms[j])
    decreases |ms|
  {
    if |ms| == 0 then None
    else if LedgerChecksumMissing(ledger, ms[0]) then Some(ms[0].fileName)
    else
      var r := FilterThrowsAt(ms[1..], ledger);
      assert r.Some? ==>
               exists i :: 0 <= i < |ms| && ms[i].fileName == r.value && LedgerChecksumMissing(ledger, ms[i])
                           && forall j :: 0 <= j < i ==> !LedgerChecksumMissing(ledger, ms[j]) by {
        if r.Some? {
          var i :| 0 <= i < |ms[1..]| && ms[1..][i].fileName == r.value && LedgerChecksumMissing(ledger, ms[1..][i])
                   && forall j :: 0 <= j < i ==> !LedgerChecksumMissing(ledger, ms[1..][j]);
          assert ms[i + 1] == ms[1..][i];
          forall j | 0 <= j < i + 1 ensures !LedgerChecksumMissing(ledger, ms[j]) {
            if j > 0 {
              assert ms[j] == ms[1..][j - 1];
            }
          }
        }
      }
      assert r.None? ==> forall i :: 0 <= i < |ms| ==> !LedgerChecksumMissing(ledger, ms[i]) by {
        if r.None? {
          forall i | 0 < i < |ms| ensures !LedgerChecksumMissing(ledger, ms[i]) {
            assert ms[i] == ms[1..][i - 1];
          }
        }
      }
      r
  }

  /** The ledger as `getMigrations` reads it never makes the filter throw:
      every vertex carries a checksum. */
  lemma LedgerReadNeverThrowsInFilter(ms: seq<Migration>, stored: seq<GraphMigrationMetadata.StoredMigration>,
                                      sep: LineSeparator)
    requires LedgerMap(GraphMigrationMetadata.GetMigrations(stored, sep)).Success?
    ensures FilterThrowsAt(ms, LedgerMap(GraphMigrationMetadata.GetMigrations(stored, sep)).value).None?
  {
    var applied := GraphMigrationMetadata.GetMigrations(stored, sep);
    var read := GraphMigrationMetadata.ToMigrations(stored, sep);
    var ledger := LedgerMap(applied).value;
    forall n | n in ledger ensures ledger[n].checkSum.Some? {
      var i :| 0 <= i < |applied| && applied[i].fileName == n;
      assert applied[i] in multiset(read);
      var k :| 0 <= k < |read| && read[k] == applied[i];
    }
  }

  // ---------------------------------------------------------------------
  // Applying the selected migrations
  // ---------------------------------------------------------------------

  /** The ledger holds the migration under another checksum. */
  predicate Conflicts(ledger: map<string, Migration>, m: Migration)
  {
    m.fileName in ledger && m.checkSum != ledger[m.fileName].checkSum
  }

  /** A selected migration that the ledger knows always conflicts: the
      filter only lets it through when the checksums differ. */
  lemma SelectedInLedgerConflicts(ledger: map<string, Migration>, m: Migration, maxVersion: Int32)
    requires Selected(ledger, m, maxVersion)
    ensures Conflicts(ledger, m) <==> m.fileName in ledger
  {
  }

  function Execs(statements: seq<string>): (es: seq<Event>)
    ensures |es| == |statements|
    ensures forall i :: 0 <= i < |statements| ==> es[i] == Exec(statements[i])
  {
    if |statements| == 0 then [] else [Exec(statements[0])] + Execs(statements[1..])
  }

  datatype Applied = Applied(events: seq<Event>, conflict: Option<string>)

  /** What `applyMigrations` does, stated without loops: each migration in
      turn either stops the run with a conflict, or has all its statements
      executed and is then saved. */
  function ApplyAll(ledger: map<string, Migration>, ms: seq<Migration>): Applied
    requires AllLoaded(ms)
  {
    if |ms| == 0 then Applied([], None)
    else if Conflicts(ledger, ms[0]) then Applied([], Some(ms[0].fileName))
    else
      var rest := ApplyAll(ledger, ms[1..]);
      Applied(Execs(ms[0].statements.value) + [Save(ms[0].fileName)] + rest.events, rest.conflict)
  }

  /** How many of the statement executions numbered `from` up to, not
      including, `from + count` succeed. */
  function OkCount(statementOk: nat -> bool, from: nat, count: nat): (c: nat)
    ensures c <= count
  {
    if count == 0 then 0
    else OkCount(statementOk, from, count - 1) + (if statementOk(from + count - 1) then 1 else 0)
  }

  /** How many statements the migrations before the i-th hold together. */
  function StatementsBefore(ms: seq<Migration>, i: nat): nat
    requires AllLoaded(ms) && i <= |ms|
  {
    if i == 0 then 0 else StatementsBefore(ms, i - 1) + |ms[i - 1].statements.value|
  }

  /** The inner loop of `applyMigrations`: every statement is executed, and
      `ok` counts the executions, numbered from `first`, that succeed. */
  method ExecuteStatements(statements: seq<string>, first: nat, statementOk: nat -> bool)
    returns (execs: seq<Event>, ok: nat)
    ensures execs == Execs(statements)
    ensures ok == OkCount(statementOk, first, |statements|)
  {
    execs, ok := [], 0;
    var j := 0;
    while j < |statements|
      invariant 0 <= j <= |statements|
      invariant execs == Execs(statements[..j])
      invariant ok == OkCount(statementOk, first, j)
    {
      execs := execs + [Exec(statements[j])];
      if statementOk(first + j) {
        ok := ok + 1;
      }
      j := j + 1;
    }
    assert statements[..j] == statements;
  }

  lemma AllLoadedSuffix(ms: seq<Migration>, i: nat)
    requires AllLoaded(ms) && i <= |ms|
    ensures AllLoaded(ms[i..])
  {
    forall k | 0 <= k < |ms[i..]| ensures Loaded(ms[i..][k]) {
      assert ms[i..][k] == ms[i + k];
    }
  }

  /** `events` are what the migrations before the i-th produced: followed
      by what the rest produce, they make the whole run. */
  predicate RunSoFar(ledger: map<string, Migration>, ms: seq<Migration>, i: nat, events: seq<Event>)
    requires AllLoaded(ms) && i <= |ms|
  {
    AllLoadedSuffix(ms, i);
    var rest := ApplyAll(ledger, ms[i..]);
    ApplyAll(ledger, ms) == Applied(events + rest.events, rest.conflict)
  }

  /** The i-th migration stops the run when it conflicts and otherwise
      appends its statements and its save. */
  lemma RunStep(ledger: map<string, Migration>, ms: seq<Migration>, i: nat, events: seq<Event>)
    requires AllLoaded(ms) && i < |ms| && RunSoFar(ledger, ms, i, events)
    ensures Conflicts(ledger, ms[i]) ==> ApplyAll(ledger, ms) == Applied(events, Some(ms[i].fileName))
    ensures !Conflicts(ledger, ms[i]) ==>
              RunSoFar(ledger, ms, i + 1, events + Execs(ms[i].statements.value) + [Save(ms[i].fileName)])
  {
    AllLoadedSuffix(ms, i);
    AllLoadedSuffix(ms, i + 1);
    assert ms[i..][0] == ms[i] && ms[i..][1..] == ms[i + 1..];
    if !Conflicts(ledger, ms[i]) {
      var execs := Execs(ms[i].statements.value);
      var rest := ApplyAll(ledger, ms[i + 1..]).events;
      AppendAssoc(events, execs + [Save(ms[i].fileName)], rest);
      AppendAssoc(events, execs, [Save(ms[i].fileName)]);
    }
  }

  /** `succeeded` holds, for each migration applied so far, how many of its
      statements succeeded. */
  predicate CountsSoFar(statementOk: nat -> bool, ms: seq<Migration>, succeeded: seq<nat>)
    requires AllLoaded(ms)
  {
    |succeeded| <= |ms| &&
    forall k :: 0 <= k < |succeeded| ==>
      succeeded[k] == OkCount(statementOk, StatementsBefore(ms, k), |ms[k].statements.value|)
  }

  lemma CountsStep(statementOk: nat -> bool, ms: seq<Migration>, succeeded: seq<nat>, ok: nat)
    requires AllLoaded(ms) && CountsSoFar(statementOk, ms, succeeded) && |succeeded| < |ms|
    requires ok == OkCount(statementOk, StatementsBefore(ms, |succeeded|), |ms[|succeeded|].statements.value|)
    ensures CountsSoFar(statementOk, ms, succeeded + [ok])
  {
    var s := succeeded + [ok];
    forall k | 0 <= k < |s|
      ensures s[k] == OkCount(statementOk, StatementsBefore(ms, k), |ms[k].statements.value|)
    {
      if k < |succeeded| {
        assert s[k] == succeeded[k];
      } else {
        assert k == |succeeded| && s[k] == ok;
      }
    }
  }

  /** `applyMigrations`. `statementOk(n)` says whether the n-th statement
      executed in the run succeeds; a failure is logged and skipped, so it
      changes only the count of statements applied, reported per migration
      in `succeeded`. */
  method ApplyMigrations(ledger: map<string, Migration>, toApply: seq<Migration>, statementOk: nat -> bool)
    returns (events: seq<Event>, conflict: Option<string>, succeeded: seq<nat>)
    requires AllLoaded(toApply)
    ensures Applied(events, conflict) == ApplyAll(ledger, toApply)
    ensures conflict.None? ==> |succeeded| == |toApply|
    ensures conflict.Some? ==> |succeeded| < |toApply| && conflict == Some(toApply[|succeeded|].fileName)
    ensures forall i :: 0 <= i < |succeeded| ==>
              succeeded[i] == OkCount(statementOk, StatementsBefore(toApply, i), |toApply[i].statements.value|)
  {
    events, conflict, succeeded := [], None, [];
    var n := 0;
    var i := 0;
    assert toApply[0..] == toApply;
    while i < |toApply|
      invariant 0 <= i <= |toApply|
      invariant RunSoFar(ledger, toApply, i, events)
      invariant n == StatementsBefore(toApply, i)
      invariant |succeeded| == i && CountsSoFar(statementOk, toApply, succeeded)
    {
      var m := toApply[i];
      RunStep(ledger, toApply, i, events);
      if Conflicts(ledger, m) {
        return events, Some(m.fileName), succeeded;
      }
      var execs, ok := ExecuteStatements(m.statements.value, n, statementOk);
      CountsStep(statementOk, toApply, succeeded, ok);
      events := events + execs + [Save(m.fileName)];
      succeeded := succeeded + [ok];
      n := n + |m.statements.value|;
      i := i + 1;
    }
    assert toApply[i..] == [];
  }

  // ---------------------------------------------------------------------
  // What a run of applications executes and saves
  // ---------------------------------------------------------------------

  /** The statements of the `Exec` events, in order. */
  function Executed(events: seq<Event>): seq<string>
  {
    if |events| == 0 then []
    else (if events[0].Exec? then [events[0].statement] else []) + Executed(events[1..])
  }

  /** The file names of the `Save` events, in order. */
  function Saved(events: seq<Event>): seq<string>
  {
    if |events| == 0 then []
    else (if events[0].Save? then [events[0].fileName] else []) + Saved(events[1..])
  }

  lemma {:induction false} ExecutedAppend(a: seq<Event>, b: seq<Event>)
    ensures Executed(a + b) == Executed(a) + Executed(b)
    decreases |a|
  {
    if |a| == 0 {
      assert a + b == b;
    } else {
      assert (a + b)[0] == a[0] && (a + b)[1..] == a[1..] + b;
      ExecutedAppend(a[1..], b);
      var h := if a[0].Exec? then [a[0].statement] else [];
      AppendAssoc(h, Executed(a[1..]), Executed(b));
    }
  }

  lemma {:induction false} SavedAppend(a: seq<Event>, b: seq<Event>)
    ensures Saved(a + b) == Saved(a) + Saved(b)
    decreases |a|
  {
    if |a| == 0 {
      assert a + b == b;
    } else {
      assert (a + b)[0] == a[0] && (a + b)[1..] == a[1..] + b;
      SavedAppend(a[1..], b);
      var h := if a[0].Save? then [a[0].fileName] else [];
      AppendAssoc(h, Saved(a[1..]), Saved(b));
    }
  }

  lemma ExecutedSavedAppend(a: seq<Event>, b: seq<Event>)
    ensures Executed(a + b) == Executed(a) + Executed(b)
    ensures Saved(a + b) == Saved(a) + Saved(b)
  {
    ExecutedAppend(a, b);
    SavedAppend(a, b);
  }

  lemma {:induction false} ExecsExecuted(statements: seq<string>)
    ensures Executed(Execs(statements)) == statements
    ensures Saved(Execs(statements)) == []
    decreases |statements|
  {
    if |statements| > 0 {
      assert Execs(statements)[1..] == Execs(statements[1..]);
      ExecsExecuted(statements[1..]);
    }
  }

  /** Every statement of every migration, in order. */
  function AllStatements(ms: seq<Migration>): seq<string>
    requires AllLoaded(ms)
  {
    if |ms| == 0 then [] else ms[0].statements.value + AllStatements(ms[1..])
  }

  function Names(ms: seq<Migration>): (ns: seq<string>)
    ensures |ns| == |ms|
    ensures forall i :: 0 <= i < |ms| ==> ns[i] == ms[i].fileName
  {
    if |ms| == 0 then [] else [ms[0].fileName] + Names(ms[1..])
  }

  predicate NoConflicts(ledger: map<string, Migration>, ms: seq<Migration>)
  {
    forall i :: 0 <= i < |ms| ==> !Conflicts(ledger, ms[i])
  }

  /** Without a conflict every statement of every migration is executed
      exactly once, in order, whether or not it succeeds, and every
      migration is saved once, after its statements. */
  lemma {:induction false} ApplyAllWithoutConflict(ledger: map<string, Migration>, ms: seq<Migration>)
    requires AllLoaded(ms) && NoConflicts(ledger, ms)
    ensures ApplyAll(ledger, ms).conflict == None
    ensures Executed(ApplyAll(ledger, ms).events) == AllStatements(ms)
    ensures Saved(ApplyAll(ledger, ms).events) == Names(ms)
    decreases |ms|
  {
    if |ms| > 0 {
      var rest := ApplyAll(ledger, ms[1..]);
      ApplyAllWithoutConflict(ledger, ms[1..]);
      OneApplication(ms[0].statements.value, ms[0].fileName, rest.events);
      assert Names(ms) == [ms[0].fileName] + Names(ms[1..]);
    }
  }

  lemma SaveEvent(fileName: string)
    ensures Executed([Save(fileName)]) == [] && Saved([Save(fileName)]) == [fileName]
  {
    assert [Save(fileName)][1..] == [];
  }

  /** One migration's events: its statements, then its save. */
  lemma OneApplication(statements: seq<string>, fileName: string, rest: seq<Event>)
    ensures Executed(Execs(statements) + [Save(fileName)] + rest) == statements + Executed(rest)
    ensures Saved(Execs(statements) + [Save(fileName)] + rest) == [fileName] + Saved(rest)
  {
    var es := Execs(statements);
    var a := es + [Save(fileName)];
    ExecsExecuted(statements);
    SaveEvent(fileName);
    ExecutedSavedAppend(es, [Save(fileName)]);
    assert Executed(a) == statements && Saved(a) == [fileName];
    ExecutedSavedAppend(a, rest);
  }

  /** The first conflicting migration stops the run: the migrations before
      it are applied as if they were all there is, and nothing of it or of
      any later migration is executed or saved. */
  lemma {:induction false} ApplyAllStopsAtFirstConflict(ledger: map<string, Migration>, ms: seq<Migration>, k: nat)
    requires AllLoaded(ms) && k < |ms|
    requires NoConflicts(ledger, ms[..k]) && Conflicts(ledger, ms[k])
    ensures ApplyAll(ledger, ms) == Applied(ApplyAll(ledger, ms[..k]).events, Some(ms[k].fileName))
    decreases k
  {
    if k > 0 {
      assert ms[1..][..k - 1] == ms[..k][1..];
      ApplyAllStopsAtFirstConflict(ledger, ms[1..], k - 1);
      assert ms[..k][0] == ms[0];
    }
  }

  lemma AllStatementsCount3(m1: Migration, m2: Migration, m3: Migration)
    requires Loaded(m1) && Loaded(m2) && Loaded(m3)
    ensures |AllStatements([m1, m2, m3])| ==
            |m1.statements.value| + |m2.statements.value| + |m3.statements.value|
    ensures |AllStatements([m1, m2])| == |m1.statements.value| + |m2.statements.value|
    ensures |AllStatements([m3])| == |m3.statements.value|
  {
    assert [m3][1..] == [];
    assert AllStatements([m3]) == m3.statements.value;
    assert [m2, m3][1..] == [m3];
    assert AllStatements([m2, m3]) == m2.statements.value + m3.statements.value;
    assert [m1, m2, m3][1..] == [m2, m3];
    assert AllStatements([m1, m2, m3]) == m1.statements.value + AllStatements([m2, m3]);
    assert [m2][1..] == [];
    assert AllStatements([m2]) == m2.statements.value;
    assert [m1, m2][1..] == [m2];
    assert AllStatements([m1, m2]) == m1.statements.value + AllStatements([m2]);
  }

  /** The three scripts of the orchestrator's unit tests: versions 1, 2
      and 3 with 13, 4 and 8 statements. */
  predicate TestScripts(m1: Migration, m2: Migration, m3: Migration)
  {
    && Loaded(m1) && Loaded(m2) && Loaded(m3)
    && m1.version == 1 && m2.version == 2 && m3.version == 3
    && |m1.statements.value| == 13 && |m2.statements.value| == 4 && |m3.statements.value| == 8
    && m1.fileName != m2.fileName && m1.fileName != m3.fileName && m2.fileName != m3.fileName
  }

  /** One step of the filter: the head is kept exactly when it is selected. */
  lemma SelectCons(ms: seq<Migration>, ledger: map<string, Migration>, maxVersion: Int32)
    requires |ms| > 0
    ensures Select(ms, ledger, maxVersion) ==
            (if Selected(ledger, ms[0], maxVersion) then [ms[0]] else []) + Select(ms[1..], ledger, maxVersion)
  {
  }

  /** The filter on three migrations, one at a time. */
  lemma SelectThree(m1: Migration, m2: Migration, m3: Migration, ledger: map<string, Migration>, maxVersion: Int32)
    ensures Select([m1, m2, m3], ledger, maxVersion) ==
            (if Selected(ledger, m1, maxVersion) then [m1] else [])
            + (if Selected(ledger, m2, maxVersion) then [m2] else [])
            + (if Selected(ledger, m3, maxVersion) then [m3] else [])
  {
    var a1 := if Selected(ledger, m1, maxVersion) then [m1] else [];
    var a2 := if Selected(ledger, m2, maxVersion) then [m2] else [];
    var a3 := if Selected(ledger, m3, maxVersion) then [m3] else [];
    assert Select([m3], ledger, maxVersion) == a3 by {
      SelectCons([m3], ledger, maxVersion);
      assert [m3][1..] == [];
      assert a3 + [] == a3;
    }
    assert Select([m2, m3], ledger, maxVersion) == a2 + a3 by {
      SelectCons([m2, m3], ledger, maxVersion);
      assert [m2, m3][1..] == [m3];
    }
    assert Select([m1, m2, m3], ledger, maxVersion) == a1 + (a2 + a3) by {
      SelectCons([m1, m2, m3], ledger, maxVersion);
      assert [m1, m2, m3][1..] == [m2, m3];
    }
    AppendAssoc(a1, a2, a3);
  }

  /** An empty ledger: all three are applied, 25 executions and 3 saves;
      with a ceiling of 2 only the first two, 17 executions and 2 saves. */
  lemma EmptyLedgerScenarios(m1: Migration, m2: Migration, m3: Migration)
    requires TestScripts(m1, m2, m3)
    ensures Select([m1, m2, m3], map[], DefaultMaxVersion) == [m1, m2, m3]
    ensures var run := ApplyAll(map[], [m1, m2, m3]);
            run.conflict == None && |Executed(run.events)| == 25 && |Saved(run.events)| == 3
    ensures Select([m1, m2, m3], map[], 2) == [m1, m2]
    ensures var run := ApplyAll(map[], [m1, m2]);
            run.conflict == None && |Executed(run.events)| == 17 && |Saved(run.events)| == 2
  {
    EmptyLedgerAllApplied(m1, m2, m3);
    EmptyLedgerUpToTwo(m1, m2, m3);
  }

  lemma EmptyLedgerAllApplied(m1: Migration, m2: Migration, m3: Migration)
    requires TestScripts(m1, m2, m3)
    ensures Select([m1, m2, m3], map[], DefaultMaxVersion) == [m1, m2, m3]
    ensures var run := ApplyAll(map[], [m1, m2, m3]);
            run.conflict == None && |Executed(run.events)| == 25 && |Saved(run.events)| == 3
  {
    assert Select([m1, m2, m3], map[], DefaultMaxVersion) == [m1, m2, m3] by {
      SelectThree(m1, m2, m3, map[], DefaultMaxVersion);
    }
    var ms := [m1, m2, m3];
    assert AllLoaded(ms) && NoConflicts(map[], ms);
    assert |AllStatements(ms)| == 25 by {
      AllStatementsCount3(m1, m2, m3);
    }
    ApplyAllWithoutConflict(map[], ms);
    assert |Names(ms)| == 3;
  }

  lemma EmptyLedgerUpToTwo(m1: Migration, m2: Migration, m3: Migration)
    requires TestScripts(m1, m2, m3)
    ensures Select([m1, m2, m3], map[], 2) == [m1, m2]
    ensures var run := ApplyAll(map[], [m1, m2]);
            run.conflict == None && |Executed(run.events)| == 17 && |Saved(run.events)| == 2
  {
    assert Select([m1, m2, m3], map[], 2) == [m1, m2] by {
      SelectThree(m1, m2, m3, map[], 2);
    }
    var ms := [m1, m2];
    assert AllLoaded(ms) && NoConflicts(map[], ms);
    assert |AllStatements(ms)| == 17 by {
      AllStatementsCount3(m1, m2, m3);
    }
    ApplyAllWithoutConflict(map[], ms);
    assert |Names(ms)| == 2;
  }

  /** The ledgers of the unit tests hold entries built from a file name
      and a checksum only. */
  function Entry(m: Migration, checkSum: string): Migration
  {
    WithCheckSum(m.fileName, checkSum)
  }

  /** Every script already in the ledger with its own checksum: nothing
      is executed or saved. Only the first two there: only the third is
      applied, 8 executions and 1 save. */
  lemma AppliedLedgerScenarios(m1: Migration, m2: Migration, m3: Migration)
    requires TestScripts(m1, m2, m3)
    ensures var ledger := map[m1.fileName := Entry(m1, m1.checkSum.value), m2.fileName := Entry(m2, m2.checkSum.value),
                              m3.fileName := Entry(m3, m3.checkSum.value)];
            Select([m1, m2, m3], ledger, DefaultMaxVersion) == [] && ApplyAll(ledger, []).events == []
    ensures var ledger := map[m1.fileName := Entry(m1, m1.checkSum.value), m2.fileName := Entry(m2, m2.checkSum.value)];
            && Select([m1, m2, m3], ledger, DefaultMaxVersion) == [m3]
            && var run := ApplyAll(ledger, [m3]);
               run.conflict == None && |Executed(run.events)| == 8 && |Saved(run.events)| == 1
  {
    AllAppliedAlready(m1, m2, m3);
    FirstTwoAppliedAlready(m1, m2, m3);
  }

  lemma AllAppliedAlready(m1: Migration, m2: Migration, m3: Migration)
    requires TestScripts(m1, m2, m3)
    ensures var ledger := map[m1.fileName := Entry(m1, m1.checkSum.value), m2.fileName := Entry(m2, m2.checkSum.value),
                              m3.fileName := Entry(m3, m3.checkSum.value)];
            Select([m1, m2, m3], ledger, DefaultMaxVersion) == []
  {
    var ledger := map[m1.fileName := Entry(m1, m1.checkSum.value), m2.fileName := Entry(m2, m2.checkSum.value),
                      m3.fileName := Entry(m3, m3.checkSum.value)];
    assert !Selected(ledger, m1, DefaultMaxVersion) && !Selected(ledger, m2, DefaultMaxVersion)
        && !Selected(ledger, m3, DefaultMaxVersion);
    SelectThree(m1, m2, m3, ledger, DefaultMaxVersion);
  }

  lemma FirstTwoAppliedAlready(m1: Migration, m2: Migration, m3: Migration)
    requires TestScripts(m1, m2, m3)
    ensures var ledger := map[m1.fileName := Entry(m1, m1.checkSum.value), m2.fileName := Entry(m2, m2.checkSum.value)];
            && Select([m1, m2, m3], ledger, DefaultMaxVersion) == [m3]
            && var run := ApplyAll(ledger, [m3]);
               run.conflict == None && |Executed(run.events)| == 8 && |Saved(run.events)| == 1
  {
    var ledger := map[m1.fileName := Entry(m1, m1.checkSum.value), m2.fileName := Entry(m2, m2.checkSum.value)];
    assert !Selected(ledger, m1, DefaultMaxVersion) && !Selected(ledger, m2, DefaultMaxVersion)
        && Selected(ledger, m3, DefaultMaxVersion);
    SelectThree(m1, m2, m3, ledger, DefaultMaxVersion);
    AllStatementsCount3(m1, m2, m3);
    assert NoConflicts(ledger, [m3]);
    ApplyAllWithoutConflict(ledger, [m3]);
  }

  /** Every script in the ledger under another checksum: the first one
      stops the run before any statement is executed or anything saved. */
  lemma ChecksumDisagreementScenario(m1: Migration, m2: Migration, m3: Migration, c1: string, c2: string, c3: string)
    requires TestScripts(m1, m2, m3)
    requires m1.checkSum != Some(c1) && m2.checkSum != Some(c2) && m3.checkSum != Some(c3)
    ensures var ledger := map[m1.fileName := Entry(m1, c1), m2.fileName := Entry(m2, c2), m3.fileName := Entry(m3, c3)];
            && Select([m1, m2, m3], ledger, DefaultMaxVersion) == [m1, m2, m3]
            && ApplyAll(ledger, [m1, m2, m3]) == Applied([], Some(m1.fileName))
  {
    var ledger := map[m1.fileName := Entry(m1, c1), m2.fileName := Entry(m2, c2), m3.fileName := Entry(m3, c3)];
    assert Selected(ledger, m1, DefaultMaxVersion) && Selected(ledger, m2, DefaultMaxVersion)
        && Selected(ledger, m3, DefaultMaxVersion);
    SelectThree(m1, m2, m3, ledger, DefaultMaxVersion);
    assert Conflicts(ledger, [m1, m2, m3][0]);
  }

  // ---------------------------------------------------------------------
  // The whole run
  // ---------------------------------------------------------------------

  /** `migrate`: the create call comes first and a failure there stops
      everything; then the scripts are loaded, the ledger is read, and the
      selected migrations are applied. */
  method Migrate(options: Options, createOk: bool,
                 files: seq<MigrationFileLoader.MigrationFile>, checkSum: seq<bv8> -> string,
                 applied: seq<Migration>, maxVersion: Int32, statementOk: nat -> bool)
    returns (events: seq<Event>, error: Option<MigrateError>)
    ensures |events| > 0 && events[0] == Create(options)
    ensures !createOk ==> events == [Create(options)] && error == Some(CreateFailed)
    ensures createOk && LoadAll(files, checkSum).Failure? ==>
              events == [Create(options)] && error == Some(LoadFailed(LoadAll(files, checkSum).error))
    ensures createOk && LoadAll(files, checkSum).Success? && LedgerMap(applied).Failure? ==>
              events == [Create(options), ReadLedger] && error == Some(LedgerMap(applied).error)
    ensures createOk && LoadAll(files, checkSum).Success? && LedgerMap(applied).Success? &&
            FilterThrowsAt(LoadAll(files, checkSum).value, LedgerMap(applied).value).Some? ==>
              events == [Create(options), ReadLedger]
              && error == Some(LedgerChecksumNull(FilterThrowsAt(LoadAll(files, checkSum).value, LedgerMap(applied).value).value))
    ensures createOk && LoadAll(files, checkSum).Success? && LedgerMap(applied).Success? &&
            FilterThrowsAt(LoadAll(files, checkSum).value, LedgerMap(applied).value).None? ==>
              var ledger := LedgerMap(applied).value;
              var toApply := Select(LoadAll(files, checkSum).value, ledger, maxVersion);
              AllLoaded(toApply)
              && var run := ApplyAll(ledger, toApply);
              && events == [Create(options), ReadLedger] + run.events
              && error == (if run.conflict.Some? then Some(ChecksumConflict(run.conflict.value)) else None)
  {
    events := [Create(options)];
    if !createOk {
      return events, Some(CreateFailed);
    }
    var loaded := LoadAll(files, checkSum);
    if loaded.Failure? {
      return events, Some(LoadFailed(loaded.error));
    }
    events := events + [ReadLedger];
    var ledger := LedgerMap(applied);
    if ledger.Failure? {
      return events, Some(ledger.error);
    }
    var throwsAt := FilterThrowsAt(loaded.value, ledger.value);
    if throwsAt.Some? {
      return events, Some(LedgerChecksumNull(throwsAt.value));
    }
    var toApply := Select(loaded.value, ledger.value, maxVersion);
    SelectLoaded(loaded.value, ledger.value, maxVersion);
    var run, conflict, succeeded := ApplyMigrations(ledger.value, toApply, statementOk);
    events := events + run;
    error := if conflict.Some? then Some(ChecksumConflict(conflict.value)) else None;
  }
}
