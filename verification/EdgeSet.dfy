/**
  Which statements the analysis orders, stated on the program text alone, and the proof that
  the graph has exactly those edges.
 */
module EdgeSet {
  import VersionColumn
  import opened DependencyGraph

  predicate Reads(s: ParsedStmt, table: string) { table in s.inputs }

  predicate Writes(s: ParsedStmt, table: string) { table in s.outputs }

  predicate WritesTwice(s: ParsedStmt, table: string) {
    exists a, b :: 0 <= a < b < |s.outputs| && s.outputs[a] == table && s.outputs[b] == table
  }

  predicate WrittenBetween(p: Program, i: nat, j: nat, table: string) {
    exists k :: i < k < j && k < |p| && Writes(p[k], table)
  }

  predicate TouchedBetween(p: Program, i: nat, j: nat, table: string) {
    exists k :: i < k < j && k < |p| && (Reads(p[k], table) || Writes(p[k], table))
  }

  // Write after write, read of the last write, write after a read that an earlier write has
  // already renamed, and write after a read with nothing in between.
  ghost predicate OrderedOn(p: Program, i: nat, j: nat, table: string)
    requires i < j < |p|
  {
    || (Writes(p[i], table) && Writes(p[j], table))
    || (Writes(p[i], table) && Reads(p[j], table) && !WrittenBetween(p, i, j, table))
    || (Reads(p[i], table) && Writes(p[j], table) && (WrittenBetween(p, i, j, table) || WritesTwice(p[j], table)))
    || (Reads(p[i], table) && Writes(p[j], table) && !Reads(p[j], table) && !TouchedBetween(p, i, j, table))
  }

  // The edge set predicted from the program.
  ghost predicate Precedes(p: Program, i: nat, j: nat) {
    i < j < |p| && exists table :: OrderedOn(p, i, j, table)
  }

  // The edge set of the graph: i produces a version that j consumes.
  ghost predicate Edge(vs: seq<Vertex>, i: nat, j: nat) {
    i < |vs| && j < |vs| && exists v :: v in vs[i].outputs && v in vs[j].inputs
  }

  lemma {:induction false} OccursTwice(s: seq<string>, table: string)
    ensures Occurrences(s, table) > 1
      <==> exists a, b :: 0 <= a < b < |s| && s[a] == table && s[b] == table
    decreases |s|
  {
    if s != [] {
      var n := |s| - 1;
      OccursTwice(s[..n], table);
      OccurrencesMembers(s[..n], table);
      if exists a, b :: 0 <= a < b < |s| && s[a] == table && s[b] == table {
        var a, b :| 0 <= a < b < |s| && s[a] == table && s[b] == table;
        assert s[..n][a] == table;
        assert b < n ==> s[..n][b] == table;
      }
      if Occurrences(s[..n], table) > 0 {
        var a :| 0 <= a < n && s[..n][a] == table;
        assert s[a] == table;
      }
    }
  }

  lemma ColumnOrder(p: Program, vs: seq<Vertex>, i: nat, j: nat, table: string)
    requires |vs| == |p| && i < j < |p|
    ensures VersionColumn.Ordered(CellsOf(p, vs, table), i, j) <==> OrderedOn(p, i, j, table)
  {
    var cells := CellsOf(p, vs, table);
    OccursTwice(p[j].outputs, table);
    forall k | 0 <= k < |p|
      ensures cells[k].isRead == Reads(p[k], table) && (cells[k].writes > 0 <==> Writes(p[k], table))
    {
      OccurrencesMembers(p[k].outputs, table);
    }
    assert VersionColumn.WrittenWithin(cells, i, j) <==> WrittenBetween(p, i, j, table);
    assert VersionColumn.TouchedWithin(cells, i, j) <==> TouchedBetween(p, i, j, table) by {
      forall k | 0 <= k < |p|
        ensures VersionColumn.Touches(cells[k]) <==> Reads(p[k], table) || Writes(p[k], table) {}
    }
  }

  lemma ColumnMeet(p: Program, vs: seq<Vertex>, i: nat, j: nat, table: string)
    requires |vs| == |p| && i < |p| && j < |p|
    ensures VersionColumn.Meet(CellsOf(p, vs, table)[i].outs, CellsOf(p, vs, table)[j].ins)
      <==> exists k: nat :: Version(table, k) in vs[i].outputs && Version(table, k) in vs[j].inputs
  {
    IndicesMembers(vs[i].outputs, table);
    IndicesMembers(vs[j].inputs, table);
  }

  lemma ColumnEdge(p: Program, i: nat, j: nat, table: string)
    requires i < |p| && j < |p| && |AnalyzeAll(p).done| == |p|
    ensures (exists k: nat :: Version(table, k) in AnalyzeAll(p).done[i].outputs && Version(table, k) in AnalyzeAll(p).done[j].inputs)
      <==> i < j && OrderedOn(p, i, j, table)
  {
    AnalyzeAllValid(p);
    var d := AnalyzeAll(p);
    var cells := ColumnAfter(p, d, table).cells;
    assert VersionColumn.Valid(ColumnAfter(p, d, table));
    ColumnMeet(p, d.done, i, j, table);
    if i < j {
      ColumnOrder(p, d.done, i, j, table);
      assert VersionColumn.ExactAt(cells, i, j);
    } else {
      assert VersionColumn.Forward(cells);
    }
  }

  // The graph has exactly the predicted edges, all of them forward.
  lemma ExactEdges(p: Program, i: nat, j: nat)
    ensures Edge(Vertices(p), i, j) <==> Precedes(p, i, j)
  {
    AnalyzeAllValid(p);
    var d := AnalyzeAll(p);
    if |p| > 1 && i < |p| && j < |p| {
      if Edge(d.done, i, j) {
        var v :| v in d.done[i].outputs && v in d.done[j].inputs;
        assert Version(v.table, v.index) in d.done[i].outputs;
        ColumnEdge(p, i, j, v.table);
        assert OrderedOn(p, i, j, v.table);
      }
      if Precedes(p, i, j) {
        var table :| OrderedOn(p, i, j, table);
        ColumnEdge(p, i, j, table);
      }
    }
  }

  // How often a statement's outputs carry a version of the table.
  function VersionsOf(v: Vertex, table: string): nat {
    |Indices(v.outputs, table)|
  }

  ghost predicate InUse(vs: seq<Vertex>, v: Version) {
    exists i :: 0 <= i < |vs| && (v in vs[i].inputs || v in vs[i].outputs)
  }

  lemma NoGap(p: Program, v: Version)
    requires v.index < Count(AnalyzeAll(p).counts, v.table)
    ensures InUse(AnalyzeAll(p).done, v)
  {
    AnalyzeAllValid(p);
    var d := AnalyzeAll(p);
    var c := ColumnAfter(p, d, v.table);
    assert VersionColumn.Valid(c) && VersionColumn.UsedAt(c.cells, v.index);
    var i :| 0 <= i < |c.cells| && (v.index in c.cells[i].ins || v.index in c.cells[i].outs);
    IndicesMembers(d.done[i].inputs, v.table);
    IndicesMembers(d.done[i].outputs, v.table);
    assert Version(v.table, v.index) == v;
  }

  // Renaming discipline, for the state after any prefix of the program.
  lemma VersionDiscipline(p: Program)
    ensures var d := AnalyzeAll(p);
      && |d.done| == |p|
      // versions in use have an index below the table's count
      && (forall i, v :: 0 <= i < |p| && (v in d.done[i].inputs || v in d.done[i].outputs) ==>
            v.table in d.counts && v.index < d.counts[v.table])
      // a version has at most one producer
      && (forall i, k, v :: 0 <= i < |p| && 0 <= k < |p| && v in d.done[i].outputs && v in d.done[k].outputs ==> i == k)
      // a statement that lists no output twice produces at most one version of each table
      && (forall i, table :: 0 <= i < |p| && !WritesTwice(p[i], table) ==> VersionsOf(d.done[i], table) <= 1)
      // a version is consumed only after the statement that produces it
      && (forall i, j, v :: 0 <= i < |p| && 0 <= j < |p| && v in d.done[i].outputs && v in d.done[j].inputs ==> i < j)
      // and the versions of a table are numbered without gaps
      && (forall v: Version :: v.table in d.counts && v.index < d.counts[v.table] ==> InUse(d.done, v))
  {
    AnalyzeAllValid(p);
    var d := AnalyzeAll(p);
    forall v: Version | v.table in d.counts && v.index < d.counts[v.table]
      ensures InUse(d.done, v)
    {
      NoGap(p, v);
    }
    forall i, v | 0 <= i < |p| && (v in d.done[i].inputs || v in d.done[i].outputs)
      ensures v.table in d.counts && v.index < d.counts[v.table]
    {
      VersionInUse(p, i, v);
    }
    forall i, k, v | 0 <= i < |p| && 0 <= k < |p| && v in d.done[i].outputs && v in d.done[k].outputs
      ensures i == k
    {
      OneProducer(p, i, k, v);
    }
    forall i, table | 0 <= i < |p| && !WritesTwice(p[i], table)
      ensures VersionsOf(d.done[i], table) <= 1
    {
      assert VersionColumn.Valid(ColumnAfter(p, d, table));
      OccursTwice(p[i].outputs, table);
      assert ColumnAfter(p, d, table).cells[i] == CellOf(p[i], d.done[i], table);
    }
    forall i, j, v | 0 <= i < |p| && 0 <= j < |p| && v in d.done[i].outputs && v in d.done[j].inputs
      ensures i < j
    {
      ColumnEdge(p, i, j, v.table);
      assert Version(v.table, v.index) in d.done[i].outputs;
    }
  }

  lemma VersionInUse(p: Program, i: nat, v: Version)
    requires i < |p| && |AnalyzeAll(p).done| == |p|
    requires v in AnalyzeAll(p).done[i].inputs || v in AnalyzeAll(p).done[i].outputs
    ensures v.table in AnalyzeAll(p).counts && v.index < AnalyzeAll(p).counts[v.table]
  {
    AnalyzeAllValid(p);
    var d := AnalyzeAll(p);
    var c := ColumnAfter(p, d, v.table);
    assert VersionColumn.Valid(c);
    IndicesMembers(d.done[i].inputs, v.table);
    IndicesMembers(d.done[i].outputs, v.table);
    assert Version(v.table, v.index) == v;
    assert VersionColumn.Bounded(c.cells[i].ins, c.count) && VersionColumn.Bounded(c.cells[i].outs, c.count);
  }

  lemma OneProducer(p: Program, i: nat, k: nat, v: Version)
    requires i < |p| && k < |p| && |AnalyzeAll(p).done| == |p|
    requires v in AnalyzeAll(p).done[i].outputs && v in AnalyzeAll(p).done[k].outputs
    ensures i == k
  {
    AnalyzeAllValid(p);
    var d := AnalyzeAll(p);
    var c := ColumnAfter(p, d, v.table);
    assert VersionColumn.Valid(c);
    IndicesMembers(d.done[i].outputs, v.table);
    IndicesMembers(d.done[k].outputs, v.table);
    assert Version(v.table, v.index) == v;
    assert v.index in c.cells[i].outs && v.index in c.cells[k].outs;
  }
}
