/**
  What the dependency analysis of a SQL program computes, as a function on values.

  A version is one node of the graph: a table name together with its hazard index.  Each
  statement becomes a vertex with the versions it consumes and the versions it produces.
  There is an edge from one statement to another when the first produces a version that the
  second consumes.
 */
module DependencyGraph {
  import VersionColumn

  datatype ParsedStmt = ParsedStmt(original: string, inputs: seq<string>, outputs: seq<string>)

  type Program = seq<ParsedStmt>

  datatype Version = Version(table: string, index: nat)

  datatype Vertex = Vertex(inputs: seq<Version>, outputs: seq<Version>)

  // The finished statements, the number of versions of each table, and the current statement.
  datatype Draft = Draft(done: seq<Vertex>, counts: map<string, nat>, inputs: seq<Version>, outputs: seq<Version>)

  datatype Resolved = Resolved(done: seq<Vertex>, count: nat, inputs: seq<Version>)

  predicate Mentions(vs: seq<Version>, table: string) {
    exists k :: 0 <= k < |vs| && vs[k].table == table
  }

  function First(vs: seq<Version>, table: string): (v: Version)
    requires Mentions(vs, table)
    ensures v in vs && v.table == table
  {
    if vs[0].table == table then vs[0] else First(vs[1..], table)
  }

  // ---- the analysis

  function ReadTable(d: Draft, table: string): Draft {
    var count := if table in d.counts && d.counts[table] > 0 then d.counts[table] else 1;
    d.(counts := d.counts[table := count], inputs := d.inputs + [Version(table, count - 1)])
  }

  // What one earlier statement contributes to a writer of the table, and what it is given.
  function ScanStep(done: seq<Vertex>, count: nat, inputs: seq<Version>, table: string, j: nat): (r: Resolved)
    requires 0 < j <= |done|
    ensures |r.done| == |done|
  {
    var prev := done[j - 1];
    if Mentions(prev.outputs, table) then
      Resolved(done, count, inputs + [First(prev.outputs, table)])
    else if Mentions(prev.inputs, table) then
      var v := Version(table, count);
      Resolved(done[j - 1 := prev.(outputs := prev.outputs + [v])], count + 1,
               if Mentions(inputs, table) then inputs else inputs + [v])
    else
      Resolved(done, count, inputs)
  }

  function Resolve(done: seq<Vertex>, count: nat, inputs: seq<Version>, table: string, j: nat): (r: Resolved)
    requires j <= |done|
    ensures |r.done| == |done|
    decreases j
  {
    if j == 0 then Resolved(done, count, inputs)
    else
      var s := ScanStep(done, count, inputs, table, j);
      Resolve(s.done, s.count, s.inputs, table, j - 1)
  }

  function WriteTable(d: Draft, table: string): Draft {
    if table !in d.counts || d.counts[table] == 0 then
      d.(counts := d.counts[table := 1], outputs := d.outputs + [Version(table, 0)])
    else
      var r := Resolve(d.done, d.counts[table], d.inputs, table, |d.done|);
      Draft(r.done, d.counts[table := r.count + 1], r.inputs, d.outputs + [Version(table, r.count)])
  }

  function ReadAll(d: Draft, tables: seq<string>): Draft {
    if tables == [] then d
    else ReadTable(ReadAll(d, tables[..|tables| - 1]), tables[|tables| - 1])
  }

  function WriteAll(d: Draft, tables: seq<string>): Draft {
    if tables == [] then d
    else WriteTable(WriteAll(d, tables[..|tables| - 1]), tables[|tables| - 1])
  }

  function Finish(d: Draft): Draft {
    Draft(d.done + [Vertex(d.inputs, d.outputs)], d.counts, [], [])
  }

  function AnalyzeAll(p: Program): Draft {
    if p == [] then Draft([], map[], [], [])
    else
      var s := p[|p| - 1];
      Finish(WriteAll(ReadAll(AnalyzeAll(p[..|p| - 1]), s.inputs), s.outputs))
  }

  // A program of a single statement is not analysed at all.
  function Vertices(p: Program): seq<Vertex> {
    if |p| == 1 then [Vertex([], [])] else AnalyzeAll(p).done
  }

  // ---- one table at a time

  function Indices(vs: seq<Version>, table: string): seq<nat> {
    if vs == [] then []
    else
      var v := vs[|vs| - 1];
      Indices(vs[..|vs| - 1], table) + if v.table == table then [v.index] else []
  }

  function Occurrences(tables: seq<string>, table: string): nat {
    if tables == [] then 0
    else Occurrences(tables[..|tables| - 1], table) + if tables[|tables| - 1] == table then 1 else 0
  }

  function CellOf(s: ParsedStmt, v: Vertex, table: string): VersionColumn.Cell {
    VersionColumn.Cell(table in s.inputs, Occurrences(s.outputs, table),
                       Indices(v.inputs, table), Indices(v.outputs, table))
  }

  function CellsOf(p: Program, vs: seq<Vertex>, table: string): seq<VersionColumn.Cell>
    requires |p| == |vs|
  {
    seq(|p|, i requires 0 <= i < |p| => CellOf(p[i], vs[i], table))
  }

  function Count(counts: map<string, nat>, table: string): nat {
    if table in counts then counts[table] else 0
  }

  // The draft with its current statement, of which s has been seen so far.
  function ColumnOf(p: Program, s: ParsedStmt, d: Draft, table: string): VersionColumn.Column
    requires |p| == |d.done|
  {
    VersionColumn.Column(CellsOf(p + [s], d.done + [Vertex(d.inputs, d.outputs)], table), Count(d.counts, table))
  }

  lemma {:induction false} IndicesAppend(vs: seq<Version>, v: Version, table: string)
    ensures Indices(vs + [v], table)
            == if v.table == table then Indices(vs, table) + [v.index] else Indices(vs, table)
  {
    assert (vs + [v])[..|vs|] == vs;
  }

  lemma {:induction false} IndicesMembers(vs: seq<Version>, table: string)
    ensures forall k: nat :: k in Indices(vs, table) <==> Version(table, k) in vs
    ensures Mentions(vs, table) <==> Indices(vs, table) != []
  {
    if vs != [] {
      var n := |vs| - 1;
      IndicesMembers(vs[..n], table);
      assert vs == vs[..n] + [vs[n]];
    }
  }

  lemma {:induction false} IndicesPrepend(v: Version, vs: seq<Version>, table: string)
    ensures Indices([v] + vs, table) == (if v.table == table then [v.index] else []) + Indices(vs, table)
  {
    var all := [v] + vs;
    if vs == [] {
      assert all[..0] == [];
    } else {
      var n := |vs| - 1;
      IndicesPrepend(v, vs[..n], table);
      assert all[..n + 1] == [v] + vs[..n] && all[n + 1] == vs[n];
    }
  }

  lemma {:induction false} FirstIndex(vs: seq<Version>, table: string)
    requires Mentions(vs, table)
    ensures Indices(vs, table) != [] && First(vs, table).index == Indices(vs, table)[0]
  {
    assert vs == [vs[0]] + vs[1..];
    IndicesPrepend(vs[0], vs[1..], table);
    if vs[0].table != table {
      FirstIndex(vs[1..], table);
    }
  }

  lemma {:induction false} OccurrencesAppend(tables: seq<string>, t: string, table: string)
    ensures Occurrences(tables + [t], table) == Occurrences(tables, table) + if t == table then 1 else 0
  {
    assert (tables + [t])[..|tables|] == tables;
  }

  lemma {:induction false} OccurrencesMembers(tables: seq<string>, table: string)
    ensures Occurrences(tables, table) > 0 <==> table in tables
  {
    if tables != [] {
      var n := |tables| - 1;
      OccurrencesMembers(tables[..n], table);
      assert tables == tables[..n] + [tables[n]];
    }
  }

  // ---- the analysis acts on one column at a time

  lemma CellsUpdate(p: Program, done: seq<Vertex>, cur: Vertex, i: nat, v: Vertex, table: string)
    requires |p| == |done| + 1 && i < |done|
    ensures CellsOf(p, done[i := v] + [cur], table)
            == CellsOf(p, done + [cur], table)[i := CellOf(p[i], v, table)]
  {
    var a, b := CellsOf(p, done[i := v] + [cur], table), CellsOf(p, done + [cur], table);
    forall k | 0 <= k < |p| ensures a[k] == b[i := CellOf(p[i], v, table)][k] {}
  }

  lemma CellsAppend(p: Program, s: ParsedStmt, done: seq<Vertex>, v: Vertex, table: string)
    requires |p| == |done|
    ensures CellsOf(p + [s], done + [v], table) == CellsOf(p, done, table) + [CellOf(s, v, table)]
  {
  }

  // Giving statement i the version v only shows in the column of v's table.
  lemma PromoteCell(p: Program, done: seq<Vertex>, cur: Vertex, i: nat, v: Version, table: string)
    requires |p| == |done| + 1 && i < |done|
    ensures var cells, prev := CellsOf(p, done + [cur], table), done[i];
      CellsOf(p, done[i := prev.(outputs := prev.outputs + [v])] + [cur], table)
      == if v.table == table then cells[i := cells[i].(outs := cells[i].outs + [v.index])] else cells
  {
    CellsUpdate(p, done, cur, i, done[i].(outputs := done[i].outputs + [v]), table);
    IndicesAppend(done[i].outputs, v, table);
  }

  // A table's projection of a resolution in progress.
  function Project(p: Program, cur: Vertex, r: Resolved, table: string): VersionColumn.Resolution
    requires |p| == |r.done| + 1
  {
    VersionColumn.Resolution(CellsOf(p, r.done + [cur], table), r.count, Indices(r.inputs, table))
  }

  lemma ScanStepColumn(p: Program, cur: Vertex, r: Resolved, table: string, j: nat)
    requires |p| == |r.done| + 1 && 0 < j <= |r.done|
    ensures var c := Project(p, cur, r, table);
      VersionColumn.ScanStep(c.cells, c.count, c.ins, j)
      == Project(p, cur, ScanStep(r.done, r.count, r.inputs, table, j), table)
  {
    var prev := r.done[j - 1];
    var s, c := ScanStep(r.done, r.count, r.inputs, table, j), Project(p, cur, r, table);
    assert c.cells[j - 1] == CellOf(p[j - 1], prev, table);
    assert (Mentions(prev.outputs, table) <==> c.cells[j - 1].outs != [])
        && (Mentions(prev.inputs, table) <==> c.cells[j - 1].ins != []) by {
      IndicesMembers(prev.outputs, table);
      IndicesMembers(prev.inputs, table);
    }
    if Mentions(prev.outputs, table) {
      assert Indices(s.inputs, table) == c.ins + [c.cells[j - 1].outs[0]] by {
        FirstIndex(prev.outputs, table);
        IndicesAppend(r.inputs, First(prev.outputs, table), table);
      }
    } else if Mentions(prev.inputs, table) {
      var v := Version(table, r.count);
      assert Indices(s.inputs, table) == if c.ins == [] then [r.count] else c.ins by {
        IndicesMembers(r.inputs, table);
        IndicesAppend(r.inputs, v, table);
      }
      assert CellsOf(p, s.done + [cur], table) == c.cells[j - 1 := c.cells[j - 1].(outs := [r.count])] by {
        PromoteCell(p, r.done, cur, j - 1, v, table);
        assert c.cells[j - 1].outs + [r.count] == [r.count];
      }
    }
  }

  lemma ScanStepElsewhere(p: Program, cur: Vertex, r: Resolved, table: string, j: nat, other: string)
    requires |p| == |r.done| + 1 && 0 < j <= |r.done| && other != table
    ensures var s := ScanStep(r.done, r.count, r.inputs, table, j);
      Project(p, cur, s, other) == Project(p, cur, r, other).(count := s.count)
  {
    var prev := r.done[j - 1];
    var s := ScanStep(r.done, r.count, r.inputs, table, j);
    if Mentions(prev.outputs, table) {
      IndicesAppend(r.inputs, First(prev.outputs, table), other);
      assert s.done == r.done;
      assert CellsOf(p, s.done + [cur], other) == CellsOf(p, r.done + [cur], other);
      assert Indices(s.inputs, other) == Indices(r.inputs, other);
    } else if Mentions(prev.inputs, table) {
      var v := Version(table, r.count);
      assert CellsOf(p, s.done + [cur], other) == CellsOf(p, r.done + [cur], other) by {
        PromoteCell(p, r.done, cur, j - 1, v, other);
      }
      assert Indices(s.inputs, other) == Indices(r.inputs, other) by {
        IndicesAppend(r.inputs, v, other);
      }
    }
  }

  lemma {:induction false} ResolveColumn(p: Program, cur: Vertex, r: Resolved, table: string, j: nat)
    requires |p| == |r.done| + 1 && j <= |r.done|
    ensures var c := Project(p, cur, r, table);
      VersionColumn.Resolve(c.cells, c.count, c.ins, j)
      == Project(p, cur, Resolve(r.done, r.count, r.inputs, table, j), table)
    decreases j
  {
    if j > 0 {
      ScanStepColumn(p, cur, r, table, j);
      ResolveColumn(p, cur, ScanStep(r.done, r.count, r.inputs, table, j), table, j - 1);
    }
  }

  lemma {:induction false} ResolveElsewhere(p: Program, cur: Vertex, r: Resolved, table: string, j: nat, other: string)
    requires |p| == |r.done| + 1 && j <= |r.done| && other != table
    ensures var s := Resolve(r.done, r.count, r.inputs, table, j);
      Project(p, cur, s, other) == Project(p, cur, r, other).(count := s.count)
    decreases j
  {
    if j > 0 {
      ScanStepElsewhere(p, cur, r, table, j, other);
      ResolveElsewhere(p, cur, ScanStep(r.done, r.count, r.inputs, table, j), table, j - 1, other);
    }
  }

  lemma CurrentCell(p: Program, s: ParsedStmt, s': ParsedStmt, done: seq<Vertex>, cur: Vertex, cur': Vertex, table: string)
    requires |p| == |done|
    ensures CellsOf(p + [s'], done + [cur'], table)
            == CellsOf(p + [s], done + [cur], table)[|p| := CellOf(s', cur', table)]
  {
  }

  // The current statement's cell after one more input.
  lemma InputCell(s: ParsedStmt, d: Draft, v: Version, other: string)
    ensures
      var cell := CellOf(s, Vertex(d.inputs, d.outputs), other);
      CellOf(s.(inputs := s.inputs + [v.table]), Vertex(d.inputs + [v], d.outputs), other)
      == if other == v.table then cell.(isRead := true, ins := cell.ins + [v.index]) else cell
  {
    IndicesAppend(d.inputs, v, other);
    assert other in s.inputs + [v.table] <==> other in s.inputs || other == v.table;
  }

  lemma ReadTableColumn(p: Program, s: ParsedStmt, d: Draft, table: string, other: string)
    requires |p| == |d.done|
    ensures var s', d' := s.(inputs := s.inputs + [table]), ReadTable(d, table);
      ColumnOf(p, s', d', other)
      == if other == table then VersionColumn.Read(ColumnOf(p, s, d, other)) else ColumnOf(p, s, d, other)
  {
    var s', d' := s.(inputs := s.inputs + [table]), ReadTable(d, table);
    var v := d'.inputs[|d.inputs|];
    var c := CellsOf(p + [s], d.done + [Vertex(d.inputs, d.outputs)], other);
    InputCell(s, d, v, other);
    CurrentCell(p, s, s', d.done, Vertex(d.inputs, d.outputs), Vertex(d'.inputs, d.outputs), other);
    assert c[|p|] == CellOf(s, Vertex(d.inputs, d.outputs), other);
    if other != table {
      assert c[|p| := c[|p|]] == c;
    }
  }

  // The current statement's cell after one more output.
  lemma OutputCell(s: ParsedStmt, d: Draft, inputs: seq<Version>, v: Version)
    ensures
      var cell := CellOf(s, Vertex(d.inputs, d.outputs), v.table);
      CellOf(s.(outputs := s.outputs + [v.table]), Vertex(inputs, d.outputs + [v]), v.table)
      == cell.(writes := cell.writes + 1, ins := Indices(inputs, v.table), outs := cell.outs + [v.index])
  {
    OccurrencesAppend(s.outputs, v.table, v.table);
    IndicesAppend(d.outputs, v, v.table);
  }

  lemma FirstWriteColumn(p: Program, s: ParsedStmt, d: Draft, table: string)
    requires |p| == |d.done| && Count(d.counts, table) == 0
    ensures ColumnOf(p, s.(outputs := s.outputs + [table]), WriteTable(d, table), table)
            == VersionColumn.Write(ColumnOf(p, s, d, table))
  {
    var s', d' := s.(outputs := s.outputs + [table]), WriteTable(d, table);
    CurrentCell(p, s, s', d.done, Vertex(d.inputs, d.outputs), Vertex(d.inputs, d'.outputs), table);
    OutputCell(s, d, d.inputs, Version(table, 0));
  }

  lemma LaterWriteColumn(p: Program, s: ParsedStmt, d: Draft, table: string)
    requires |p| == |d.done| && Count(d.counts, table) > 0
    ensures ColumnOf(p, s.(outputs := s.outputs + [table]), WriteTable(d, table), table)
            == VersionColumn.Write(ColumnOf(p, s, d, table))
  {
    var s', cur := s.(outputs := s.outputs + [table]), Vertex(d.inputs, d.outputs);
    var r := Resolve(d.done, d.counts[table], d.inputs, table, |d.done|);
    ResolveColumn(p + [s], cur, Resolved(d.done, d.counts[table], d.inputs), table, |p|);
    CurrentCell(p, s, s', r.done, cur, Vertex(r.inputs, d.outputs + [Version(table, r.count)]), table);
    OutputCell(s, d, r.inputs, Version(table, r.count));
  }

  lemma WriteTableColumn(p: Program, s: ParsedStmt, d: Draft, table: string)
    requires |p| == |d.done|
    ensures var s', d' := s.(outputs := s.outputs + [table]), WriteTable(d, table);
      |d'.done| == |d.done| && ColumnOf(p, s', d', table) == VersionColumn.Write(ColumnOf(p, s, d, table))
  {
    if Count(d.counts, table) == 0 {
      FirstWriteColumn(p, s, d, table);
    } else {
      LaterWriteColumn(p, s, d, table);
    }
  }

  lemma WriteTableElsewhere(p: Program, s: ParsedStmt, d: Draft, table: string, other: string)
    requires |p| == |d.done| && other != table
    ensures var s', d' := s.(outputs := s.outputs + [table]), WriteTable(d, table);
      |d'.done| == |d.done| && ColumnOf(p, s', d', other) == ColumnOf(p, s, d, other)
  {
    var s', d' := s.(outputs := s.outputs + [table]), WriteTable(d, table);
    var n, cur, cur' := |p|, Vertex(d.inputs, d.outputs), Vertex(d'.inputs, d'.outputs);
    var c := ColumnOf(p, s, d, other);
    assert c.cells[n] == CellOf(s, cur, other);
    CurrentCell(p, s, s', d'.done, cur, cur', other);
    if Count(d.counts, table) > 0 {
      ResolveElsewhere(p + [s], cur, Resolved(d.done, d.counts[table], d.inputs), table, n, other);
    }
    assert CellOf(s', cur', other) == c.cells[n] by {
      OccurrencesAppend(s.outputs, table, other);
      IndicesAppend(d.outputs, d'.outputs[|d.outputs|], other);
    }
  }

  // ---- every table's column stays valid

  ghost predicate AllValid(p: Program, s: ParsedStmt, d: Draft) {
    |p| == |d.done| && forall table :: VersionColumn.Valid(ColumnOf(p, s, d, table))
  }

  function ColumnAfter(p: Program, d: Draft, table: string): VersionColumn.Column
    requires |p| == |d.done|
  {
    VersionColumn.Column(CellsOf(p, d.done, table), Count(d.counts, table))
  }

  lemma {:induction false} ReadAllValid(p: Program, original: string, d: Draft, tables: seq<string>)
    requires AllValid(p, ParsedStmt(original, [], []), d) && d.outputs == []
    ensures AllValid(p, ParsedStmt(original, tables, []), ReadAll(d, tables)) && ReadAll(d, tables).outputs == []
    decreases |tables|
  {
    if tables != [] {
      var n := |tables| - 1;
      var s, e := ParsedStmt(original, tables[..n], []), ReadAll(d, tables[..n]);
      ReadAllValid(p, original, d, tables[..n]);
      forall table ensures VersionColumn.Valid(ColumnOf(p, ParsedStmt(original, tables, []), ReadAll(d, tables), table)) {
        assert tables == tables[..n] + [tables[n]];
        ReadTableColumn(p, s, e, tables[n], table);
        var c := ColumnOf(p, s, e, table);
        assert c.cells[|p|] == CellOf(s, Vertex(e.inputs, e.outputs), table);
        if table == tables[n] {
          VersionColumn.ReadValid(c);
        }
      }
    }
  }

  lemma {:induction false} WriteAllValid(p: Program, original: string, inputs: seq<string>, d: Draft, tables: seq<string>)
    requires AllValid(p, ParsedStmt(original, inputs, []), d)
    ensures AllValid(p, ParsedStmt(original, inputs, tables), WriteAll(d, tables))
    decreases |tables|
  {
    if tables != [] {
      var n := |tables| - 1;
      var s, e := ParsedStmt(original, inputs, tables[..n]), WriteAll(d, tables[..n]);
      WriteAllValid(p, original, inputs, d, tables[..n]);
      assert tables == tables[..n] + [tables[n]];
      WriteTableColumn(p, s, e, tables[n]);
      forall table ensures VersionColumn.Valid(ColumnOf(p, ParsedStmt(original, inputs, tables), WriteAll(d, tables), table)) {
        if table == tables[n] {
          VersionColumn.WriteValid(ColumnOf(p, s, e, table));
        } else {
          WriteTableElsewhere(p, s, e, tables[n], table);
          assert VersionColumn.Valid(ColumnOf(p, s, e, table));
        }
      }
    }
  }

  lemma OpenColumn(p: Program, original: string, d: Draft, table: string)
    requires |p| == |d.done| && d.inputs == [] && d.outputs == []
    ensures ColumnOf(p, ParsedStmt(original, [], []), d, table) == VersionColumn.Open(ColumnAfter(p, d, table))
  {
    CellsAppend(p, ParsedStmt(original, [], []), d.done, Vertex([], []), table);
  }

  lemma {:induction false} AnalyzeAllValid(p: Program)
    ensures var d := AnalyzeAll(p);
      |d.done| == |p| && d.inputs == [] && d.outputs == []
      && forall table :: VersionColumn.Valid(ColumnAfter(p, d, table))
    decreases |p|
  {
    if p != [] {
      var n := |p| - 1;
      var s, d := p[n], AnalyzeAll(p[..n]);
      AnalyzeAllValid(p[..n]);
      forall table ensures VersionColumn.Valid(ColumnOf(p[..n], ParsedStmt(s.original, [], []), d, table)) {
        assert VersionColumn.Valid(ColumnAfter(p[..n], d, table));
        OpenColumn(p[..n], s.original, d, table);
        VersionColumn.OpenValid(ColumnAfter(p[..n], d, table));
      }
      ReadAllValid(p[..n], s.original, d, s.inputs);
      var e := ReadAll(d, s.inputs);
      WriteAllValid(p[..n], s.original, s.inputs, e, s.outputs);
      var f := WriteAll(e, s.outputs);
      assert p == p[..n] + [s];
      forall table ensures VersionColumn.Valid(ColumnAfter(p, AnalyzeAll(p), table)) {
        assert VersionColumn.Valid(ColumnOf(p[..n], s, f, table));
      }
    }
  }
}
