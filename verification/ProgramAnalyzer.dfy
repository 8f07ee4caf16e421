/**
  The dependency analysis as it runs: statements and table nodes are objects, and analysing a
  statement appends output nodes to statements analysed earlier.
 */
module ProgramAnalyzer {
  import opened DependencyGraph
  import EdgeSet
  import StatementTables
  import opened Wrappers

  const TypeTable := "table"

  // One version of a table; never changed once made.
  class Table {
    const Type: string
    const Name: string
    const HazardIndex: nat

    constructor (kind: string, name: string, hazardIndex: nat)
      ensures Type == kind && Name == name && HazardIndex == hazardIndex
    {
      Type, Name, HazardIndex := kind, name, hazardIndex;
    }

    function FullName(): string { Type + "." + Name }
  }

  class Statement {
    const Statement: string
    const Order: nat
    var Inputs: seq<Table>
    var Outputs: seq<Table>

    constructor (statement: string, order: nat, inputs: seq<Table>, outputs: seq<Table>)
      ensures Statement == statement && Order == order && Inputs == inputs && Outputs == outputs
    {
      Statement, Order, Inputs, Outputs := statement, order, inputs, outputs;
    }
  }

  function Key(name: string): string { TypeTable + "." + name }

  lemma KeyInjective(name: string)
    ensures forall other :: Key(other) == Key(name) ==> other == name
  {
    forall other | Key(other) == Key(name) ensures other == name {
      assert Key(other)[6..] == other && Key(name)[6..] == name;
    }
  }

  type NodeMap = map<string, seq<Table>>

  function VersionOf(t: Table): Version { Version(t.Name, t.HazardIndex) }

  function VersionsOf(ts: seq<Table>): (vs: seq<Version>)
    ensures |vs| == |ts| && forall k :: 0 <= k < |ts| ==> vs[k] == VersionOf(ts[k])
  {
    seq(|ts|, k requires 0 <= k < |ts| => VersionOf(ts[k]))
  }

  function ListFor(m: NodeMap, name: string): seq<Table> {
    if Key(name) in m then m[Key(name)] else []
  }

  // The k-th version of a table carries its name and hazard index k; counts are list lengths.
  ghost predicate Numbered(m: NodeMap, counts: map<string, nat>) {
    forall name ::
      && |ListFor(m, name)| == Count(counts, name)
      && (Key(name) in m ==> |ListFor(m, name)| > 0)
      && forall k :: 0 <= k < |ListFor(m, name)| ==>
           var t := ListFor(m, name)[k];
           t.Type == TypeTable && t.Name == name && t.HazardIndex == k
  }

  // The node is the one its version list holds at its hazard index.
  ghost predicate Registered(m: NodeMap, t: Table) {
    t.Type == TypeTable && t.HazardIndex < |ListFor(m, t.Name)| && ListFor(m, t.Name)[t.HazardIndex] == t
  }

  ghost predicate AllRegistered(m: NodeMap, ts: seq<Table>) {
    forall k :: 0 <= k < |ts| ==> Registered(m, ts[k])
  }

  // Nodes are only ever added at the end of a list.
  ghost predicate Extends(m: NodeMap, m': NodeMap) {
    forall name :: ListFor(m, name) <= ListFor(m', name)
  }

  lemma ExtendsTrans(m: NodeMap, m': NodeMap, m'': NodeMap)
    requires Extends(m, m') && Extends(m', m'')
    ensures Extends(m, m'')
  {
    forall name ensures ListFor(m, name) <= ListFor(m'', name) {
      assert ListFor(m, name) <= ListFor(m', name) <= ListFor(m'', name);
    }
  }

  lemma Overwrite(m: map<string, nat>, name: string, a: nat, b: nat)
    ensures m[name := a][name := b] == m[name := b]
  {
  }

  lemma ResolveStep(r: Resolved, name: string, j: nat)
    requires j < |r.done|
    ensures var s := ScanStep(r.done, r.count, r.inputs, name, j + 1);
      Resolve(r.done, r.count, r.inputs, name, j + 1) == Resolve(s.done, s.count, s.inputs, name, j)
  {
  }

  lemma StillRegistered(m: NodeMap, m': NodeMap, ts: seq<Table>)
    requires AllRegistered(m, ts) && Extends(m, m')
    ensures AllRegistered(m', ts)
  {
    forall k | 0 <= k < |ts| ensures Registered(m', ts[k]) {
      assert Registered(m, ts[k]) && ListFor(m, ts[k].Name) <= ListFor(m', ts[k].Name);
    }
  }

  lemma FirstWrite(done: seq<Vertex>, counts: map<string, nat>, inputs: seq<Version>, name: string)
    requires Count(counts, name) == 0
    ensures WriteTable(Draft(done, counts, inputs, []), name) == Draft(done, counts[name := 1], inputs, [Version(name, 0)])
  {
  }

  lemma LaterWrite(done: seq<Vertex>, counts: map<string, nat>, inputs: seq<Version>, name: string, r: Resolved)
    requires Count(counts, name) > 0 && r == Resolve(done, counts[name], inputs, name, |done|)
    ensures WriteTable(Draft(done, counts, inputs, []), name)
            == Draft(r.done, counts[name := r.count + 1], r.inputs, [Version(name, r.count)])
  {
  }

  lemma OutputsAppend(d: Draft, name: string)
    ensures var w := WriteTable(d.(outputs := []), name); WriteTable(d, name) == w.(outputs := d.outputs + w.outputs)
  {
  }

  lemma VersionsAppend(ts: seq<Table>, t: Table)
    ensures VersionsOf(ts + [t]) == VersionsOf(ts) + [VersionOf(t)]
  {
  }

  lemma ListForUpdate(m: NodeMap, name: string, list: seq<Table>, other: string)
    ensures ListFor(m[Key(name) := list], other) == if other == name then list else ListFor(m, other)
  {
    KeyInjective(name);
  }

  // Looking a table up by its full name is looking up its versions.
  lemma MentionsByName(m: NodeMap, ts: seq<Table>, name: string)
    requires AllRegistered(m, ts)
    ensures (exists k :: 0 <= k < |ts| && ts[k].FullName() == Key(name)) <==> Mentions(VersionsOf(ts), name)
    ensures forall k :: 0 <= k < |ts| ==> (ts[k].FullName() == Key(name) <==> ts[k].Name == name)
  {
    KeyInjective(name);
    forall k | 0 <= k < |ts| ensures ts[k].FullName() == Key(name) <==> VersionsOf(ts)[k].table == name {
      assert Registered(m, ts[k]) && ts[k].FullName() == Key(ts[k].Name);
    }
  }

  lemma FirstNode(m: NodeMap, ts: seq<Table>, name: string, t: Table)
    requires AllRegistered(m, ts) && t.FullName() == Key(name)
    requires exists k :: 0 <= k < |ts| && ts[k] == t && forall i :: 0 <= i < k ==> ts[i].FullName() != Key(name)
    ensures Registered(m, t) && Mentions(VersionsOf(ts), name) && VersionOf(t) == First(VersionsOf(ts), name)
  {
    var k :| 0 <= k < |ts| && ts[k] == t && forall i :: 0 <= i < k ==> ts[i].FullName() != Key(name);
    MentionsByName(m, ts, name);
    FirstAt(VersionsOf(ts), name, k);
  }

  // Appending the next version of a table.
  lemma AppendNode(m: NodeMap, counts: map<string, nat>, name: string, node: Table)
    requires Numbered(m, counts)
    requires node.Type == TypeTable && node.Name == name && node.HazardIndex == Count(counts, name)
    ensures var m' := m[Key(name) := ListFor(m, name) + [node]];
      Numbered(m', counts[name := Count(counts, name) + 1]) && Extends(m, m') && Registered(m', node)
  {
    var list := ListFor(m, name) + [node];
    var m', counts' := m[Key(name) := list], counts[name := Count(counts, name) + 1];
    KeyInjective(name);
    forall other
      ensures ListFor(m', other) == if other == name then list else ListFor(m, other)
    {
      ListForUpdate(m, name, list, other);
    }
    forall other
      ensures |ListFor(m', other)| == Count(counts', other)
      ensures Key(other) in m' ==> |ListFor(m', other)| > 0
      ensures forall k :: 0 <= k < |ListFor(m', other)| ==>
        var t := ListFor(m', other)[k]; t.Type == TypeTable && t.Name == other && t.HazardIndex == k
    {
      assert |ListFor(m, other)| == Count(counts, other);
    }
  }

  method Contains(tableList: seq<Table>, item: string) returns (res: bool)
    ensures res <==> exists k :: 0 <= k < |tableList| && tableList[k].FullName() == item
  {
    res := false;
    for k := 0 to |tableList|
      invariant !res && forall i :: 0 <= i < k ==> tableList[i].FullName() != item
    {
      if tableList[k].FullName() == item {
        res := true;
        break;
      }
    }
  }

  method GetFirstInList(tableList: seq<Table>, tableNameToFind: string) returns (found: Option<Table>)
    ensures found.Some? <==> exists k :: 0 <= k < |tableList| && tableList[k].FullName() == tableNameToFind
    ensures found.Some? ==> found.value.FullName() == tableNameToFind
    ensures found.Some? ==> exists k :: 0 <= k < |tableList| && tableList[k] == found.value &&
                              forall i :: 0 <= i < k ==> tableList[i].FullName() != tableNameToFind
  {
    for k := 0 to |tableList|
      invariant forall i :: 0 <= i < k ==> tableList[i].FullName() != tableNameToFind
    {
      if tableList[k].FullName() == tableNameToFind {
        return Some(tableList[k]);
      }
    }
    return None;
  }

  lemma {:induction false} FirstAt(vs: seq<Version>, table: string, k: nat)
    requires k < |vs| && vs[k].table == table && forall i :: 0 <= i < k ==> vs[i].table != table
    ensures Mentions(vs, table) && First(vs, table) == vs[k]
  {
    if k > 0 {
      FirstAt(vs[1..], table, k - 1);
    }
  }

  // The nodes known so far and the statements analysed so far.
  class Analysis {
    var tableNodeMap: map<string, seq<Table>>
    var result: seq<Statement>
    // What the analysed statements and the version lists stand for.
    ghost var done: seq<Vertex>
    ghost var counts: map<string, nat>

    ghost predicate Valid()
      reads this, result
    {
      && Numbered(tableNodeMap, counts)
      && |done| == |result|
      && (forall i, j :: 0 <= i < j < |result| ==> result[i] != result[j])
      && (forall i :: 0 <= i < |result| ==>
            && AllRegistered(tableNodeMap, result[i].Inputs) && AllRegistered(tableNodeMap, result[i].Outputs)
            && done[i] == Vertex(VersionsOf(result[i].Inputs), VersionsOf(result[i].Outputs)))
    }

    constructor ()
      ensures Valid() && result == [] && done == [] && counts == map[]
    {
      tableNodeMap, result, done, counts := map[], [], [], map[];
    }

    // Makes the next version of a table and appends it to the table's list.
    method AddVersion(name: string) returns (node: Table)
      requires Valid()
      modifies this`tableNodeMap, this`counts
      ensures Valid() && Registered(tableNodeMap, node) && Extends(old(tableNodeMap), tableNodeMap)
      ensures VersionOf(node) == Version(name, Count(old(counts), name))
      ensures counts == old(counts)[name := Count(old(counts), name) + 1]
    {
      var list := if Key(name) in tableNodeMap then tableNodeMap[Key(name)] else [];
      var index := if list == [] then 0 else list[|list| - 1].HazardIndex + 1;
      node := new Table(TypeTable, name, index);
      AppendNode(tableNodeMap, counts, name, node);
      ghost var before := tableNodeMap;
      tableNodeMap := tableNodeMap[Key(name) := list + [node]];
      counts := counts[name := |list| + 1];
      forall i | 0 <= i < |result|
        ensures AllRegistered(tableNodeMap, result[i].Inputs) && AllRegistered(tableNodeMap, result[i].Outputs)
      {
        StillRegistered(before, tableNodeMap, result[i].Inputs);
        StillRegistered(before, tableNodeMap, result[i].Outputs);
      }
    }

    // The node a reader of the table consumes: its newest version, made on first mention.
    method LatestNode(name: string) returns (node: Table)
      requires Valid()
      modifies this`tableNodeMap, this`counts
      ensures Valid() && Registered(tableNodeMap, node) && Extends(old(tableNodeMap), tableNodeMap)
      ensures counts == old(counts)[name := if Count(old(counts), name) == 0 then 1 else Count(old(counts), name)]
      ensures VersionOf(node) == Version(name, counts[name] - 1)
    {
      assert |ListFor(tableNodeMap, name)| == Count(counts, name);
      if Key(name) !in tableNodeMap {
        node := AddVersion(name);
      } else {
        var tableNodeList := tableNodeMap[Key(name)];
        node := tableNodeList[|tableNodeList| - 1];
        assert counts == counts[name := counts[name]];
      }
    }

    // One more input.
    method ConnectInput(name: string, inputs0: seq<Table>) returns (inputs: seq<Table>)
      requires Valid() && AllRegistered(tableNodeMap, inputs0)
      modifies this`tableNodeMap, this`counts
      ensures Valid() && AllRegistered(tableNodeMap, inputs)
      ensures Draft(done, counts, VersionsOf(inputs), [])
              == ReadTable(old(Draft(done, counts, VersionsOf(inputs0), [])), name)
    {
      ghost var m := tableNodeMap;
      var node := LatestNode(name);
      StillRegistered(m, tableNodeMap, inputs0);
      VersionsAppend(inputs0, node);
      inputs := inputs0 + [node];
    }

    method ConnectStatementInputs(stmt: ParsedStmt) returns (inputs: seq<Table>)
      requires Valid()
      modifies this`tableNodeMap, this`counts
      ensures Valid() && AllRegistered(tableNodeMap, inputs)
      ensures Draft(done, counts, VersionsOf(inputs), []) == ReadAll(old(Draft(done, counts, [], [])), stmt.inputs)
    {
      inputs := [];
      ghost var start := Draft(done, counts, [], []);
      assert stmt.inputs[..0] == [];
      for k := 0 to |stmt.inputs|
        invariant Valid() && AllRegistered(tableNodeMap, inputs)
        invariant Draft(done, counts, VersionsOf(inputs), []) == ReadAll(start, stmt.inputs[..k])
      {
        assert stmt.inputs[..k + 1][..k] == stmt.inputs[..k];
        inputs := ConnectInput(stmt.inputs[k], inputs);
      }
      assert stmt.inputs[..|stmt.inputs|] == stmt.inputs;
    }

    ghost function Progress(name: string, inputs: seq<Table>): Resolved
      reads this
    {
      Resolved(done, Count(counts, name), VersionsOf(inputs))
    }

    // Gives a statement that only read the table an output node of its own.
    method Promote(prev: Statement, ghost at: nat, name: string) returns (node: Table)
      requires Valid() && at < |result| && result[at] == prev
      modifies this`tableNodeMap, this`counts, this`done, prev`Outputs
      ensures Valid() && Registered(tableNodeMap, node) && Extends(old(tableNodeMap), tableNodeMap)
      ensures VersionOf(node) == Version(name, Count(old(counts), name))
      ensures counts == old(counts)[name := Count(old(counts), name) + 1]
      ensures done == old(done)[at := old(done)[at].(outputs := old(done)[at].outputs + [VersionOf(node)])]
    {
      node := AddVersion(name);
      VersionsAppend(prev.Outputs, node);
      prev.Outputs := prev.Outputs + [node];
      done := done[at := done[at].(outputs := done[at].outputs + [VersionOf(node)])];
    }

    // Write after write: the earlier writer's output feeds the current statement.
    method FeedEarlierOutput(prev: Statement, ghost j: nat, name: string, inputs0: seq<Table>) returns (inputs: seq<Table>)
      requires Valid() && AllRegistered(tableNodeMap, inputs0) && j < |result| && result[j] == prev
      requires Mentions(done[j].outputs, name)
      ensures Valid() && AllRegistered(tableNodeMap, inputs)
      ensures VersionsOf(inputs) == VersionsOf(inputs0) + [First(done[j].outputs, name)]
    {
      MentionsByName(tableNodeMap, prev.Outputs, name);
      var prevOutput := GetFirstInList(prev.Outputs, Key(name));
      if prevOutput.None? {
        assert false; // the error the source reports here cannot occur
      }
      FirstNode(tableNodeMap, prev.Outputs, name, prevOutput.value);
      VersionsAppend(inputs0, prevOutput.value);
      inputs := inputs0 + [prevOutput.value];
    }

    // Write after read: the reader gets an output of its own, which feeds the current statement
    // unless that already consumes some version of the table.
    method FeedReader(prev: Statement, ghost j: nat, name: string, inputs0: seq<Table>) returns (inputs: seq<Table>)
      requires Valid() && AllRegistered(tableNodeMap, inputs0) && j < |result| && result[j] == prev
      modifies this`tableNodeMap, this`counts, this`done, prev`Outputs
      ensures Valid() && AllRegistered(tableNodeMap, inputs) && Extends(old(tableNodeMap), tableNodeMap)
      ensures counts == old(counts)[name := Count(old(counts), name) + 1]
      ensures var v := Version(name, Count(old(counts), name));
        && done == old(done)[j := old(done)[j].(outputs := old(done)[j].outputs + [v])]
        && VersionsOf(inputs) == if Mentions(VersionsOf(inputs0), name) then VersionsOf(inputs0) else VersionsOf(inputs0) + [v]
    {
      inputs := inputs0;
      MentionsByName(tableNodeMap, inputs, name);
      ghost var m := tableNodeMap;
      var readAsOutputTable := Promote(prev, j, name);
      StillRegistered(m, tableNodeMap, inputs);
      var known := Contains(inputs, Key(name));
      if !known {
        VersionsAppend(inputs, readAsOutputTable);
        inputs := inputs + [readAsOutputTable];
      }
    }

    // One turn of the scan: write after write feeds the earlier output to the current
    // statement, write after read gives the reader an output and feeds that.
    method ScanPrevious(prev: Statement, ghost j: nat, name: string, inputs0: seq<Table>)
      returns (inputs: seq<Table>)
      requires Valid() && AllRegistered(tableNodeMap, inputs0) && name in counts
      requires j < |result| && result[j] == prev
      modifies this`tableNodeMap, this`counts, this`done, prev`Outputs
      ensures Valid() && AllRegistered(tableNodeMap, inputs) && Extends(old(tableNodeMap), tableNodeMap)
      ensures counts == old(counts)[name := Count(counts, name)]
      ensures var before := old(Progress(name, inputs0));
        Progress(name, inputs) == ScanStep(before.done, before.count, before.inputs, name, j + 1)
    {
      inputs := inputs0;
      var fullTableName := Key(name);
      MentionsByName(tableNodeMap, prev.Outputs, name);
      MentionsByName(tableNodeMap, prev.Inputs, name);
      var written := Contains(prev.Outputs, fullTableName);
      var consumed := Contains(prev.Inputs, fullTableName);
      assert Valid();
      if written {
        inputs := FeedEarlierOutput(prev, j, name, inputs0);
      } else if consumed {
        inputs := FeedReader(prev, j, name, inputs0);
      }
    }

    method ResolveHazard(currOutputTableName: string, inputs0: seq<Table>) returns (inputs: seq<Table>)
      requires Valid() && AllRegistered(tableNodeMap, inputs0) && currOutputTableName in counts
      modifies this`tableNodeMap, this`counts, this`done, (set s | s in result)`Outputs
      ensures Valid() && AllRegistered(tableNodeMap, inputs) && Extends(old(tableNodeMap), tableNodeMap)
      ensures counts == old(counts)[currOutputTableName := Count(counts, currOutputTableName)]
      ensures var before := old(Progress(currOutputTableName, inputs0));
        Progress(currOutputTableName, inputs)
        == Resolve(before.done, before.count, before.inputs, currOutputTableName, |result|)
    {
      var name := currOutputTableName;
      inputs := inputs0;
      ghost var before := Progress(name, inputs0);
      assert counts == counts[name := Count(counts, name)];
      for j := |result| downto 0
        invariant Valid() && AllRegistered(tableNodeMap, inputs) && Extends(old(tableNodeMap), tableNodeMap)
        invariant counts == old(counts)[name := Count(counts, name)]
        invariant var now := Progress(name, inputs);
          Resolve(now.done, now.count, now.inputs, name, j)
          == Resolve(before.done, before.count, before.inputs, name, |result|)
      {
        ghost var m, now := tableNodeMap, Progress(name, inputs);
        inputs := ScanPrevious(result[j], j, name, inputs);
        ExtendsTrans(old(tableNodeMap), m, tableNodeMap);
        Overwrite(old(counts), name, now.count, Count(counts, name));
        ResolveStep(now, name, j);
      }
    }

    // A further version; the nodes collected as inputs stay what they are.
    method AddBehind(name: string, ghost inputs: seq<Table>) returns (node: Table)
      requires Valid() && AllRegistered(tableNodeMap, inputs)
      modifies this`tableNodeMap, this`counts
      ensures Valid() && AllRegistered(tableNodeMap, inputs) && Registered(tableNodeMap, node)
      ensures Extends(old(tableNodeMap), tableNodeMap) && VersionOf(node) == Version(name, Count(old(counts), name))
      ensures counts == old(counts)[name := Count(old(counts), name) + 1]
    {
      ghost var m := tableNodeMap;
      node := AddVersion(name);
      StillRegistered(m, tableNodeMap, inputs);
    }

    // The next version of a table that is there already, once earlier uses of it are resolved.
    method NextNode(name: string, inputs0: seq<Table>) returns (inputs: seq<Table>, node: Table)
      requires Valid() && AllRegistered(tableNodeMap, inputs0) && Count(counts, name) > 0
      modifies this`tableNodeMap, this`counts, this`done, (set s | s in result)`Outputs
      ensures Valid() && AllRegistered(tableNodeMap, inputs) && Registered(tableNodeMap, node)
      ensures Extends(old(tableNodeMap), tableNodeMap)
      ensures var r := Resolve(old(done), old(counts)[name], VersionsOf(inputs0), name, |old(done)|);
        && done == r.done && counts == old(counts)[name := r.count + 1]
        && VersionsOf(inputs) == r.inputs && VersionOf(node) == Version(name, r.count)
    {
      inputs := ResolveHazard(name, inputs0);
      ghost var m, count := tableNodeMap, Count(counts, name);
      node := AddBehind(name, inputs);
      ExtendsTrans(old(tableNodeMap), m, tableNodeMap);
      Overwrite(old(counts), name, count, count + 1);
    }

    // The node a writer of the table produces, once earlier uses of the table are resolved.
    method OutputNode(name: string, inputs0: seq<Table>) returns (inputs: seq<Table>, node: Table)
      requires Valid() && AllRegistered(tableNodeMap, inputs0)
      modifies this`tableNodeMap, this`counts, this`done, (set s | s in result)`Outputs
      ensures Valid() && AllRegistered(tableNodeMap, inputs) && Registered(tableNodeMap, node)
      ensures Extends(old(tableNodeMap), tableNodeMap)
      ensures WriteTable(old(Draft(done, counts, VersionsOf(inputs0), [])), name)
              == Draft(done, counts, VersionsOf(inputs), [VersionOf(node)])
    {
      assert |ListFor(tableNodeMap, name)| == Count(counts, name);
      ghost var done0, counts0, versions := done, counts, VersionsOf(inputs0);
      inputs := inputs0;
      if Key(name) !in tableNodeMap {
        FirstWrite(done0, counts0, versions, name);
        node := AddBehind(name, inputs);
      } else {
        ghost var r := Resolve(done0, counts0[name], versions, name, |done0|);
        LaterWrite(done0, counts0, versions, name, r);
        inputs, node := NextNode(name, inputs0);
      }
    }

    method ConnectStatementOutputs(inputs0: seq<Table>, stmt: ParsedStmt) returns (inputs: seq<Table>, outputs: seq<Table>)
      requires Valid() && AllRegistered(tableNodeMap, inputs0)
      modifies this`tableNodeMap, this`counts, this`done, (set s | s in result)`Outputs
      ensures Valid() && AllRegistered(tableNodeMap, inputs) && AllRegistered(tableNodeMap, outputs)
      ensures Draft(done, counts, VersionsOf(inputs), VersionsOf(outputs))
              == WriteAll(old(Draft(done, counts, VersionsOf(inputs0), [])), stmt.outputs)
    {
      inputs, outputs := inputs0, [];
      ghost var start := Draft(done, counts, VersionsOf(inputs0), []);
      assert stmt.outputs[..0] == [];
      for k := 0 to |stmt.outputs|
        invariant Valid() && AllRegistered(tableNodeMap, inputs) && AllRegistered(tableNodeMap, outputs)
        invariant Draft(done, counts, VersionsOf(inputs), VersionsOf(outputs)) == WriteAll(start, stmt.outputs[..k])
      {
        assert stmt.outputs[..k + 1][..k] == stmt.outputs[..k];
        ghost var m := tableNodeMap;
        var node;
        OutputsAppend(Draft(done, counts, VersionsOf(inputs), VersionsOf(outputs)), stmt.outputs[k]);
        inputs, node := OutputNode(stmt.outputs[k], inputs);
        StillRegistered(m, tableNodeMap, outputs);
        VersionsAppend(outputs, node);
        outputs := outputs + [node];
      }
      assert stmt.outputs[..|stmt.outputs|] == stmt.outputs;
    }

    method AnalyzeStatement(stmt: ParsedStmt, idx: nat) returns (curr: Statement)
      requires Valid()
      modifies this, (set s | s in result)`Outputs
      ensures Valid() && result == old(result) + [curr] && fresh(curr)
      ensures curr.Order == idx && curr.Statement == stmt.original
      ensures Draft(done, counts, [], [])
              == Finish(WriteAll(ReadAll(old(Draft(done, counts, [], [])), stmt.inputs), stmt.outputs))
    {
      var inputs := ConnectStatementInputs(stmt);
      var outputs;
      inputs, outputs := ConnectStatementOutputs(inputs, stmt);
      curr := new Statement(stmt.original, idx, inputs, outputs);
      result := result + [curr];
      done := done + [Vertex(VersionsOf(inputs), VersionsOf(outputs))];
    }
  }

  // Registered nodes with the same version are the same object.
  lemma SameVersionSameNode(m: NodeMap, a: Table, b: Table)
    requires Registered(m, a) && Registered(m, b) && VersionOf(a) == VersionOf(b)
    ensures a == b
  {
  }

  // Statement i produces a node that statement j consumes.
  ghost predicate Feeds(stmts: seq<Statement>, i: nat, j: nat)
    requires i < |stmts| && j < |stmts|
    reads stmts
  {
    exists a, c :: 0 <= a < |stmts[i].Outputs| && 0 <= c < |stmts[j].Inputs| && stmts[i].Outputs[a] == stmts[j].Inputs[c]
  }

  // The statements have their orders and their texts.
  ghost predicate Transcribed(stmts: seq<Statement>, program: Program) {
    |stmts| <= |program| && forall i: nat :: i < |stmts| ==> TranscribedAt(stmts, program, i)
  }

  predicate TranscribedAt(stmts: seq<Statement>, program: Program, i: nat)
    requires i < |stmts| && i < |program|
  {
    stmts[i].Order == i && stmts[i].Statement == program[i].original
  }

  lemma TranscribeMore(stmts: seq<Statement>, program: Program, curr: Statement)
    requires Transcribed(stmts, program) && |stmts| < |program|
    requires curr.Order == |stmts| && curr.Statement == program[|stmts|].original
    ensures Transcribed(stmts + [curr], program)
  {
    forall i: nat | i < |stmts + [curr]|
      ensures TranscribedAt(stmts + [curr], program, i)
    {
      assert i < |stmts| ==> TranscribedAt(stmts, program, i);
    }
  }

  ghost predicate Describes(stmts: seq<Statement>, program: Program)
    reads stmts
  {
    && |stmts| == |program| == |Vertices(program)|
    && forall i :: 0 <= i < |stmts| ==>
         && TranscribedAt(stmts, program, i)
         && Vertices(program)[i] == Vertex(VersionsOf(stmts[i].Inputs), VersionsOf(stmts[i].Outputs))
  }

  // The versions of the nodes that the statements hold.
  ghost function Drawn(stmts: seq<Statement>): (vs: seq<Vertex>)
    reads stmts
    ensures |vs| == |stmts|
  {
    seq(|stmts|, i requires 0 <= i < |stmts| reads stmts => Vertex(VersionsOf(stmts[i].Inputs), VersionsOf(stmts[i].Outputs)))
  }

  // A version that one statement produces and another consumes is one node, and it is a table's.
  ghost predicate OneNode(stmts: seq<Statement>, i: nat, j: nat)
    requires i < |stmts| && j < |stmts|
    reads stmts
  {
    forall a, c :: 0 <= a < |stmts[i].Outputs| && 0 <= c < |stmts[j].Inputs| ==>
      (VersionOf(stmts[i].Outputs[a]) == VersionOf(stmts[j].Inputs[c]) ==>
         stmts[i].Outputs[a] == stmts[j].Inputs[c] && stmts[j].Inputs[c].Type == TypeTable)
  }

  // The nodes of statement j are those that the program text calls for.
  ghost predicate NodesListed(stmts: seq<Statement>, program: Program, j: nat)
    requires j < |stmts| == |program|
    reads stmts
  {
    && (exists hs :: StatementTables.InputsListed(program, j, Drawn(stmts), hs))
    && StatementTables.OutputsListed(program, j, VersionsOf(stmts[j].Outputs))
    && forall i :: 0 <= i < |stmts| ==> OneNode(stmts, i, j)
  }

  lemma NodesAreListed(analysis: Analysis, program: Program, j: nat)
    requires analysis.Valid() && |program| > 1 && analysis.done == Vertices(program) && |analysis.result| == |program|
    requires j < |program|
    ensures NodesListed(analysis.result, program, j)
  {
    var stmts := analysis.result;
    assert Drawn(stmts) == Vertices(program);
    var hs := StatementTables.InputsOf(program, j);
    assert StatementTables.InputsListed(program, j, Drawn(stmts), hs);
    StatementTables.OutputsOf(program, j);
    forall i | 0 <= i < |stmts| ensures OneNode(stmts, i, j) {
      SameNodes(analysis.tableNodeMap, stmts[i].Outputs, stmts[j].Inputs);
    }
  }

  lemma SameNodes(m: NodeMap, produced: seq<Table>, consumed: seq<Table>)
    requires AllRegistered(m, produced) && AllRegistered(m, consumed)
    ensures forall a, c :: 0 <= a < |produced| && 0 <= c < |consumed| ==>
      (VersionOf(produced[a]) == VersionOf(consumed[c]) ==> produced[a] == consumed[c] && consumed[c].Type == TypeTable)
  {
  }

  lemma AnalyzeAllStep(p: Program, idx: nat)
    requires idx < |p|
    ensures AnalyzeAll(p[..idx + 1]) == Finish(WriteAll(ReadAll(AnalyzeAll(p[..idx]), p[idx].inputs), p[idx].outputs))
  {
    assert p[..idx + 1][..idx] == p[..idx];
  }

  // The loop over the statements.
  method AnalyzeStatements(parsedProgram: Program) returns (analysis: Analysis)
    ensures fresh(analysis) && fresh(analysis.result) && analysis.Valid() && |analysis.result| == |parsedProgram|
    ensures Draft(analysis.done, analysis.counts, [], []) == AnalyzeAll(parsedProgram)
    ensures Transcribed(analysis.result, parsedProgram)
  {
    analysis := new Analysis();
    assert parsedProgram[..0] == [];
    for idx := 0 to |parsedProgram|
      invariant fresh(analysis) && fresh(analysis.result) && analysis.Valid() && |analysis.result| == idx
      invariant Draft(analysis.done, analysis.counts, [], []) == AnalyzeAll(parsedProgram[..idx])
      invariant Transcribed(analysis.result, parsedProgram)
    {
      AnalyzeAllStep(parsedProgram, idx);
      ghost var before := analysis.result;
      var curr := analysis.AnalyzeStatement(parsedProgram[idx], idx);
      TranscribeMore(before, parsedProgram, curr);
    }
    assert parsedProgram[..|parsedProgram|] == parsedProgram;
  }

  lemma SharedNode(m: NodeMap, produced: seq<Table>, consumed: seq<Table>)
    requires AllRegistered(m, produced) && AllRegistered(m, consumed)
    ensures (exists v :: v in VersionsOf(produced) && v in VersionsOf(consumed))
      <==> exists a, c :: 0 <= a < |produced| && 0 <= c < |consumed| && produced[a] == consumed[c]
  {
    if v :| v in VersionsOf(produced) && v in VersionsOf(consumed) {
      var a :| 0 <= a < |produced| && VersionsOf(produced)[a] == v;
      var c :| 0 <= c < |consumed| && VersionsOf(consumed)[c] == v;
      SameVersionSameNode(m, produced[a], consumed[c]);
    }
    if a, c :| 0 <= a < |produced| && 0 <= c < |consumed| && produced[a] == consumed[c] {
      assert VersionsOf(produced)[a] in VersionsOf(consumed) by {
        assert VersionsOf(produced)[a] == VersionsOf(consumed)[c];
      }
    }
  }

  lemma FeedsIsEdge(analysis: Analysis, program: Program, i: nat, j: nat)
    requires analysis.Valid() && |program| > 1 && analysis.done == Vertices(program) && |analysis.result| == |program|
    requires i < |program| && j < |program|
    ensures Feeds(analysis.result, i, j) <==> EdgeSet.Precedes(program, i, j)
  {
    EdgeSet.ExactEdges(program, i, j);
    SharedNode(analysis.tableNodeMap, analysis.result[i].Outputs, analysis.result[j].Inputs);
  }

  // Drawing the graph to a file comes last; when it fails, the statements are returned with the error.
  method Analyze(parsedProgram: Program, drawingFails: bool) returns (result: seq<Statement>, err: bool)
    ensures err <==> parsedProgram == [] || (|parsedProgram| > 1 && drawingFails)
    ensures parsedProgram == [] ==> result == []
    ensures parsedProgram != [] ==> fresh(result) && Describes(result, parsedProgram)
    ensures parsedProgram != [] ==> forall i, j :: 0 <= i < |parsedProgram| && 0 <= j < |parsedProgram| ==>
      (Feeds(result, i, j) <==> EdgeSet.Precedes(parsedProgram, i, j))
    // a statement on its own has no nodes, and of several each has the nodes its text calls for
    ensures |parsedProgram| == 1 ==> result[0].Inputs == [] && result[0].Outputs == []
    ensures |parsedProgram| > 1 ==> forall j :: 0 <= j < |parsedProgram| ==> NodesListed(result, parsedProgram, j)
  {
    if |parsedProgram| == 0 {
      return [], true;
    }
    if |parsedProgram| == 1 {
      var only := new Statement(parsedProgram[0].original, 0, [], []);
      return [only], false;
    }
    var analysis := AnalyzeStatements(parsedProgram);
    forall i, j | 0 <= i < |parsedProgram| && 0 <= j < |parsedProgram|
      ensures Feeds(analysis.result, i, j) <==> EdgeSet.Precedes(parsedProgram, i, j)
    {
      FeedsIsEdge(analysis, parsedProgram, i, j);
    }
    forall j | 0 <= j < |parsedProgram|
      ensures NodesListed(analysis.result, parsedProgram, j)
    {
      NodesAreListed(analysis, parsedProgram, j);
    }
    return analysis.result, drawingFails;
  }
}
