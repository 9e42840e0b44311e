/** GraphSchema: builds the `system.graph(...)` commands that create and
    drop the target graph, runs statements against it, and after a schema
    change waits a bounded number of rounds for the cluster to agree on
    the schema. The driver is replaced by a trace of the calls made to it
    and by oracles for its answers. */
module GraphSchema {
  import opened Wrappers
  import opened Text

  const CommandSeparator: string := "."
  const CreateCommand: string := "ifNotExists().create()"
  const DropCommand: string := "drop()"
  const SchemaAgreementAttempts: nat := 15
  const RetryDelayMillis: nat := 1000

  /** A call into the driver or the delayer. */
  datatype Call =
    | ExecuteGraph(query: string, graphName: Option<string>)
    | CheckAgreement
    | Delay(millis: nat)

  // ---------------------------------------------------------------------
  // Command strings
  // ---------------------------------------------------------------------

  /** `String.format("system.graph('%s')", name)`. */
  function GraphClause(name: string): string
  {
    "system.graph('" + name + "')"
  }

  /** `mapOptionValue`: `option("key").set("value")`. */
  function OptionClause(key: string, value: string): string
  {
    "option(\"" + key + "\")" + CommandSeparator + "set(\"" + value + "\")"
  }

  function OptionClauses(entries: seq<(string, string)>): (cs: seq<string>)
    ensures |cs| == |entries|
    ensures forall i :: 0 <= i < |entries| ==> cs[i] == OptionClause(entries[i].0, entries[i].1)
  {
    if |entries| == 0 then [] else [OptionClause(entries[0].0, entries[0].1)] + OptionClauses(entries[1..])
  }

  /** `getGraphOptions`: no segment for a null map; otherwise one segment
      holding an option clause per entry, in the map's iteration order,
      joined by the separator. The map is given as its entry sequence. */
  function GraphOptions(options: Option<seq<(string, string)>>): (r: Option<string>)
    ensures r.Some? <==> options.Some?
  {
    match options
    case None => None
    case Some(entries) => Some(Join(OptionClauses(entries), CommandSeparator))
  }

  function Present(parts: seq<Option<string>>): (ps: seq<string>)
    ensures |ps| <= |parts|
  {
    if |parts| == 0 then []
    else PresentOne(parts[0]) + Present(parts[1..])
  }

  function PresentOne(o: Option<string>): seq<string>
  {
    match o case Some(p) => [p] case None => []
  }

  lemma PresentThree(a: Option<string>, b: Option<string>, c: Option<string>)
    ensures Present([a, b, c]) == PresentOne(a) + PresentOne(b) + PresentOne(c)
  {
    var parts := [a, b, c];
    assert parts[1..] == [b, c];
    assert parts[1..][1..] == [c];
    assert parts[1..][1..][1..] == [];
    assert Present([c]) == PresentOne(c);
    assert Present([b, c]) == PresentOne(b) + PresentOne(c);
  }

  lemma PresentTwo(a: Option<string>, b: Option<string>)
    ensures Present([a, b]) == PresentOne(a) + PresentOne(b)
  {
    var parts := [a, b];
    assert parts[1..] == [b];
    assert parts[1..][1..] == [];
    assert Present([b]) == PresentOne(b);
  }

  /** `combine`: the present parts, in order, joined by the separator. */
  function Combine(parts: seq<Option<string>>): string
  {
    Join(Present(parts), CommandSeparator)
  }

  function CreateStatement(name: string, options: Option<seq<(string, string)>>): string
  {
    Combine([Some(GraphClause(name)), GraphOptions(options), Some(CreateCommand)])
  }

  function DropStatement(name: string): string
  {
    Combine([Some(GraphClause(name)), Some(DropCommand)])
  }

  /** `isSchemaChange`: the query starts with `schema.`, case-sensitively. */
  predicate IsSchemaChange(query: string)
  {
    StartsWith(query, "schema.")
  }

  // ---------------------------------------------------------------------
  // What the builders produce
  // ---------------------------------------------------------------------

  /** Without options the create command is the graph clause and the
      create command, nothing in between. */
  lemma CreateWithoutOptions(name: string)
    ensures CreateStatement(name, None) == GraphClause(name) + "." + CreateCommand
  {
    PresentThree(Some(GraphClause(name)), None, Some(CreateCommand));
    JoinTwo(GraphClause(name), CreateCommand, CommandSeparator);
  }

  /** With an options map, present even if empty, its segment stands
      between the graph clause and the create command. */
  lemma CreateWithOptions(name: string, entries: seq<(string, string)>)
    ensures CreateStatement(name, Some(entries)) ==
            GraphClause(name) + "." + Join(OptionClauses(entries), ".") + "." + CreateCommand
  {
    var o := Join(OptionClauses(entries), CommandSeparator);
    assert GraphOptions(Some(entries)) == Some(o);
    PresentThree(Some(GraphClause(name)), Some(o), Some(CreateCommand));
    assert [GraphClause(name)] + [o] + [CreateCommand] == [GraphClause(name), o, CreateCommand];
    JoinThree(GraphClause(name), o, CreateCommand, CommandSeparator);
  }

  /** A non-null but empty map still contributes its (empty) segment, so
      two separators end up next to each other. */
  lemma EmptyOptionsLeaveEmptySegment(name: string)
    ensures CreateStatement(name, Some([])) == GraphClause(name) + ".." + CreateCommand
  {
    CreateWithOptions(name, []);
    assert Join(OptionClauses([]), ".") == "";
  }

  lemma DropIsGraphClauseThenDrop(name: string)
    ensures DropStatement(name) == GraphClause(name) + "." + DropCommand
  {
    PresentTwo(Some(GraphClause(name)), Some(DropCommand));
    JoinTwo(GraphClause(name), DropCommand, CommandSeparator);
  }

  lemma KillrvideoClauses()
    ensures GraphClause("killrvideo") + "." + CreateCommand == "system.graph('killrvideo').ifNotExists().create()"
    ensures GraphClause("killrvideo") + "." + DropCommand == "system.graph('killrvideo').drop()"
  {
  }

  /** The strings the schema's unit tests expect for the graph `killrvideo`. */
  lemma KillrvideoCommands()
    ensures CreateStatement("killrvideo", None) == "system.graph('killrvideo').ifNotExists().create()"
    ensures DropStatement("killrvideo") == "system.graph('killrvideo').drop()"
  {
    CreateWithoutOptions("killrvideo");
    DropIsGraphClauseThenDrop("killrvideo");
    KillrvideoClauses();
  }

  /** Two options give two option clauses, in the order the map yields them. */
  lemma CreateWithTwoOptions(name: string, k0: string, v0: string, k1: string, v1: string)
    ensures CreateStatement(name, Some([(k0, v0), (k1, v1)])) ==
            GraphClause(name) + ("." + OptionClause(k0, v0)) + ("." + OptionClause(k1, v1)) + ("." + CreateCommand)
  {
    var entries := [(k0, v0), (k1, v1)];
    CreateWithOptions(name, entries);
    var g, c0, c1 := GraphClause(name), OptionClause(k0, v0), OptionClause(k1, v1);
    assert OptionClauses(entries) == [c0, c1] by {
      assert entries[1..] == [(k1, v1)];
      assert entries[1..][1..] == [];
    }
    JoinTwo(c0, c1, ".");
    AppendAssoc(g + "." + c0, ".", c1);
    AppendAssoc(g, ".", c0);
    AppendAssoc(g + ("." + c0), ".", c1);
    AppendAssoc(g + ("." + c0) + ("." + c1), ".", CreateCommand);
    assert g + "." + (c0 + "." + c1) == g + ("." + c0) + ("." + c1);
  }

  lemma OptionClauseText(k: string, v: string)
    ensures "." + OptionClause(k, v) == ".option(\"" + k + "\").set(\"" + v + "\")"
  {
  }

  lemma ReplicationOptionHead()
    ensures ".option(\"" + "graph.replication_config" + "\").set(\"" + "{'class' : 'SimpleStrategy'," ==
            ".option(\"graph.replication_config\").set(\"{'class' : 'SimpleStrategy',"
  {
    assert ".option(\"" + "graph.replication_config" + "\").set(\"" == ".option(\"graph.replication_config\").set(\"";
  }

  lemma ReplicationOptionClause(k: string, v1: string, v2: string)
    requires k == "graph.replication_config"
    requires v1 == "{'class' : 'SimpleStrategy'," && v2 == " 'replication_factor' : 1 }"
    ensures "." + OptionClause(k, v1 + v2) ==
            ".option(\"graph.replication_config\").set(\"{'class' : 'SimpleStrategy',"
            + " 'replication_factor' : 1 }\")"
  {
    var x := ".option(\"" + k + "\").set(\"";
    OptionClauseText(k, v1 + v2);
    ReplicationOptionHead();
    assert v2 + "\")" == " 'replication_factor' : 1 }\")";
    AppendAssoc(x, v1, v2);
    AppendAssoc(x + v1, v2, "\")");
  }

  lemma AllowScanOptionClause()
    ensures "." + OptionClause("graph.allow_scan", "false") == ".option(\"graph.allow_scan\").set(\"false\")"
  {
  }

  lemma KillrvideoClauseAndCreate()
    ensures "." + CreateCommand == ".ifNotExists().create()"
    ensures GraphClause("killrvideo") == "system.graph('killrvideo')"
  {
  }

  /** The create command of the schema's unit test with two options, the
      map yielding the replication option first. */
  lemma KillrvideoCommandWithOptions(k0: string, v1: string, v2: string)
    requires k0 == "graph.replication_config"
    requires v1 == "{'class' : 'SimpleStrategy'," && v2 == " 'replication_factor' : 1 }"
    ensures CreateStatement("killrvideo", Some([(k0, v1 + v2), ("graph.allow_scan", "false")])) ==
            "system.graph('killrvideo')"
            + ".option(\"graph.replication_config\").set(\"{'class' : 'SimpleStrategy',"
            + " 'replication_factor' : 1 }\")"
            + ".option(\"graph.allow_scan\").set(\"false\")"
            + ".ifNotExists().create()"
  {
    CreateWithTwoOptions("killrvideo", k0, v1 + v2, "graph.allow_scan", "false");
    ReplicationOptionClause(k0, v1, v2);
    AllowScanOptionClause();
    KillrvideoClauseAndCreate();
    AppendAssoc("system.graph('killrvideo')",
                ".option(\"graph.replication_config\").set(\"{'class' : 'SimpleStrategy',",
                " 'replication_factor' : 1 }\")");
  }

  lemma SchemaChangeExamples()
    ensures !IsSchemaChange("")
    ensures IsSchemaChange("schema.propertyKey('propertyName')")
    ensures IsSchemaChange("schema.vertexLabel('label')")
    ensures IsSchemaChange("schema.edgeLabel('label')")
    ensures !IsSchemaChange("graph.addVertex()")
    ensures !IsSchemaChange("g.V().hasLabel()")
    ensures !IsSchemaChange("Schema.vertexLabel('label')")
  {
    assert "graph.addVertex()"[..7][0] == 'g';
    assert "g.V().hasLabel()"[..7][0] == 'g';
    assert "Schema.vertexLabel('label')"[..7][0] == 'S';
  }

  // ---------------------------------------------------------------------
  // Waiting for schema agreement
  // ---------------------------------------------------------------------

  /** Index of the first of the `bound` agreement checks that succeeds,
      `bound` when none does. */
  function FirstAgreement(agreed: nat -> bool, bound: nat): (k: nat)
    ensures k <= bound
    ensures k < bound ==> agreed(k)
    ensures forall i :: 0 <= i < k ==> !agreed(i)
  {
    if bound == 0 then 0
    else
      var k := FirstAgreement(agreed, bound - 1);
      if k < bound - 1 then k
      else if agreed(bound - 1) then bound - 1
      else bound
  }

  /** `n` failed rounds: a check that says no, then a delay. */
  function FailedRounds(n: nat): (calls: seq<Call>)
    ensures |calls| == 2 * n
  {
    if n == 0 then [] else FailedRounds(n - 1) + [CheckAgreement, Delay(RetryDelayMillis)]
  }

  function CountChecks(calls: seq<Call>): nat
  {
    if |calls| == 0 then 0
    else (if calls[|calls| - 1].CheckAgreement? then 1 else 0) + CountChecks(calls[..|calls| - 1])
  }

  function CountDelays(calls: seq<Call>): nat
  {
    if |calls| == 0 then 0
    else (if calls[|calls| - 1].Delay? then 1 else 0) + CountDelays(calls[..|calls| - 1])
  }

  lemma {:induction false} CountAppend(a: seq<Call>, b: seq<Call>)
    ensures CountChecks(a + b) == CountChecks(a) + CountChecks(b)
    ensures CountDelays(a + b) == CountDelays(a) + CountDelays(b)
    decreases |b|
  {
    if |b| == 0 {
      assert a + b == a;
    } else {
      assert (a + b)[..|a + b| - 1] == a + b[..|b| - 1];
      CountAppend(a, b[..|b| - 1]);
    }
  }

  lemma {:induction false} FailedRoundsCounts(n: nat)
    ensures CountChecks(FailedRounds(n)) == n && CountDelays(FailedRounds(n)) == n
  {
    if n > 0 {
      FailedRoundsCounts(n - 1);
      CountAppend(FailedRounds(n - 1), [CheckAgreement, Delay(RetryDelayMillis)]);
      CountRound();
    }
  }

  /** What waiting costs, stated without the loop: nothing when the
      result already reports agreement; otherwise a failed round per check
      that says no before the first that says yes, then that check; or 15
      failed rounds when none of the 15 checks says yes. */
  function WaitTrace(inAgreement: bool, agreed: nat -> bool): seq<Call>
  {
    if inAgreement then []
    else
      var k := FirstAgreement(agreed, SchemaAgreementAttempts);
      FailedRounds(k) + (if k < SchemaAgreementAttempts then [CheckAgreement] else [])
  }

  predicate WaitSucceeds(inAgreement: bool, agreed: nat -> bool)
  {
    inAgreement || FirstAgreement(agreed, SchemaAgreementAttempts) < SchemaAgreementAttempts
  }

  /** `waitForSchemaAgreement`: up to 15 checks, returning at the first
      that succeeds, with a delay of one second after each that fails, and
      a failure after 15 failed checks. `agreed(i)` is the answer of the
      `i`-th check. */
  method WaitForSchemaAgreement(inAgreement: bool, agreed: nat -> bool) returns (calls: seq<Call>, ok: bool)
    ensures calls == WaitTrace(inAgreement, agreed)
    ensures ok == WaitSucceeds(inAgreement, agreed)
  {
    calls := [];
    if inAgreement {
      return calls, true;
    }
    var i := 0;
    while i < SchemaAgreementAttempts
      invariant 0 <= i <= SchemaAgreementAttempts
      invariant forall j :: 0 <= j < i ==> !agreed(j)
      invariant calls == FailedRounds(i)
    {
      calls := calls + [CheckAgreement];
      if agreed(i) {
        assert FirstAgreement(agreed, SchemaAgreementAttempts) == i by {
          FirstAgreementIs(agreed, SchemaAgreementAttempts, i);
        }
        return calls, true;
      }
      calls := calls + [Delay(RetryDelayMillis)];
      i := i + 1;
    }
    assert FirstAgreement(agreed, SchemaAgreementAttempts) == SchemaAgreementAttempts;
    return calls, false;
  }

  lemma FirstAgreementIs(agreed: nat -> bool, bound: nat, i: nat)
    requires i < bound && agreed(i)
    requires forall j :: 0 <= j < i ==> !agreed(j)
    ensures FirstAgreement(agreed, bound) == i
  {
  }

  lemma CountRound()
    ensures CountChecks([CheckAgreement, Delay(RetryDelayMillis)]) == 1
    ensures CountDelays([CheckAgreement, Delay(RetryDelayMillis)]) == 1
    ensures CountChecks([CheckAgreement]) == 1 && CountDelays([CheckAgreement]) == 0
  {
    assert [CheckAgreement, Delay(RetryDelayMillis)][..1] == [CheckAgreement];
    assert [CheckAgreement][..0] == [];
  }

  /** A wait that ends in agreement makes one check more than it delays,
      and every check but the last said no; a wait that fails has checked
      and delayed 15 times, and all 15 checks said no. */
  lemma WaitCounts(inAgreement: bool, agreed: nat -> bool)
    requires !inAgreement
    ensures WaitSucceeds(inAgreement, agreed) ==>
              var n := CountDelays(WaitTrace(inAgreement, agreed));
              && n < SchemaAgreementAttempts
              && CountChecks(WaitTrace(inAgreement, agreed)) == n + 1
              && agreed(n)
              && forall j :: 0 <= j < n ==> !agreed(j)
    ensures !WaitSucceeds(inAgreement, agreed) ==>
              && CountChecks(WaitTrace(inAgreement, agreed)) == SchemaAgreementAttempts
              && CountDelays(WaitTrace(inAgreement, agreed)) == SchemaAgreementAttempts
              && forall j :: 0 <= j < SchemaAgreementAttempts ==> !agreed(j)
  {
    var k := FirstAgreement(agreed, SchemaAgreementAttempts);
    FailedRoundsCounts(k);
    CountRound();
    CountAppend(FailedRounds(k), [CheckAgreement]);
    assert FailedRounds(k) + [] == FailedRounds(k);
  }

  /** `execute`: runs the statement on the graph and waits for agreement
      only when it is a schema change. `executed` is whether the driver
      accepts the statement; when it throws, nothing else happens and the
      call fails. A failed wait is an error too. */
  method Execute(graph: string, query: string, executed: bool, inAgreement: bool, agreed: nat -> bool)
    returns (calls: seq<Call>, ok: bool)
    ensures !executed ==> calls == [ExecuteGraph(query, Some(graph))] && !ok
    ensures executed && IsSchemaChange(query) ==>
              calls == [ExecuteGraph(query, Some(graph))] + WaitTrace(inAgreement, agreed)
              && ok == WaitSucceeds(inAgreement, agreed)
    ensures executed && !IsSchemaChange(query) ==> calls == [ExecuteGraph(query, Some(graph))] && ok
  {
    calls := [ExecuteGraph(query, Some(graph))];
    ok := executed;
    if executed && IsSchemaChange(query) {
      var waits;
      waits, ok := WaitForSchemaAgreement(inAgreement, agreed);
      calls := calls + waits;
    }
  }

  /** `create(options)`: the create command, sent without a graph name,
      then a wait for agreement whatever the command, unless the driver
      throws on the command. */
  method Create(graph: string, options: Option<seq<(string, string)>>, executed: bool,
                inAgreement: bool, agreed: nat -> bool)
    returns (calls: seq<Call>, ok: bool)
    ensures !executed ==> calls == [ExecuteGraph(CreateStatement(graph, options), None)] && !ok
    ensures executed ==> calls == [ExecuteGraph(CreateStatement(graph, options), None)] + WaitTrace(inAgreement, agreed)
    ensures executed ==> ok == WaitSucceeds(inAgreement, agreed)
  {
    calls := [ExecuteGraph(CreateStatement(graph, options), None)];
    ok := false;
    if executed {
      var waits;
      waits, ok := WaitForSchemaAgreement(inAgreement, agreed);
      calls := calls + waits;
    }
  }

  /** `drop()`: the drop command, then a wait for agreement unless the
      driver throws on the command. */
  method Drop(graph: string, executed: bool, inAgreement: bool, agreed: nat -> bool)
    returns (calls: seq<Call>, ok: bool)
    ensures !executed ==> calls == [ExecuteGraph(DropStatement(graph), None)] && !ok
    ensures executed ==> calls == [ExecuteGraph(DropStatement(graph), None)] + WaitTrace(inAgreement, agreed)
    ensures executed ==> ok == WaitSucceeds(inAgreement, agreed)
  {
    calls := [ExecuteGraph(DropStatement(graph), None)];
    ok := false;
    if executed {
      var waits;
      waits, ok := WaitForSchemaAgreement(inAgreement, agreed);
      calls := calls + waits;
    }
  }

  /** The agreement scenarios of the schema's unit tests: agreement
      reported at once costs no check; agreement on the third check costs
      two delays; no agreement at all fails after fifteen delays. */
  lemma AgreementScenarios(third: nat -> bool, never: nat -> bool)
    requires forall i: nat :: third(i) == (i >= 2)
    requires forall i: nat :: !never(i)
    ensures WaitTrace(true, never) == [] && WaitSucceeds(true, never)
    ensures WaitSucceeds(false, third)
    ensures CountDelays(WaitTrace(false, third)) == 2 && CountChecks(WaitTrace(false, third)) == 3
    ensures !WaitSucceeds(false, never)
    ensures CountDelays(WaitTrace(false, never)) == 15 && CountChecks(WaitTrace(false, never)) == 15
  {
    FirstAgreementIs(third, SchemaAgreementAttempts, 2);
    WaitCounts(false, third);
    WaitCounts(false, never);
  }
}
