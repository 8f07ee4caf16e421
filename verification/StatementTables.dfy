/**
  What every statement lists in the graph, read off the program text alone: its inputs and
  outputs in their order, the inputs that hazard resolution adds behind them, each with its
  producer, and the outputs added for later writers.
 */
module StatementTables {
  import VersionColumn
  import opened DependencyGraph
  import opened EdgeSet
  import ProgramMeaning
  import opened Wrappers

  // A statement waits for an earlier one, the producer, on account of one of its outputs.
  datatype Hazard = Hazard(output: nat, producer: nat)

  // The m-th output of statement j makes it wait for statement i: i writes the table, or reads it
  // and a write in between has renamed it, or reads it last while j does not read it itself.
  ghost predicate WaitsFor(p: Program, j: nat, m: nat, i: nat)
    requires i < j < |p| && m < |p[j].outputs|
  {
    var t := p[j].outputs[m];
    || Writes(p[i], t)
    || (Reads(p[i], t) && (WrittenBetween(p, i, j, t) || t in p[j].outputs[..m]))
    || (Reads(p[i], t) && !Reads(p[j], t) && !TouchedBetween(p, i, j, t))
  }

  ghost predicate HazardOf(p: Program, j: nat, h: Hazard)
    requires j < |p|
  {
    h.output < |p[j].outputs| && h.producer < j && WaitsFor(p, j, h.output, h.producer)
  }

  // By output, and for one output from the last producer to the first.
  predicate Before(a: Hazard, b: Hazard) {
    a.output < b.output || (a.output == b.output && b.producer < a.producer)
  }

  predicate InOrder(hs: seq<Hazard>) {
    forall a, b :: 0 <= a < b < |hs| ==> Before(hs[a], hs[b])
  }

  // The hazards of the first m outputs of statement j, each listed once.
  ghost predicate Hazards(p: Program, j: nat, m: nat, hs: seq<Hazard>)
    requires j < |p|
  {
    InOrder(hs) && forall h: Hazard :: h in hs <==> HazardOf(p, j, h) && h.output < m
  }

  // An input that statement j lists itself: what the last writer of the table before it produced,
  // and version 0 if there is none.
  ghost predicate ReadAt(p: Program, j: nat, done: seq<Vertex>, v: Version, k: nat)
    requires j < |p| && j <= |done| && k < |p[j].inputs|
  {
    var t := p[j].inputs[k];
    && v.table == t
    && (forall i: nat :: i < j && Writes(p[i], t) && !WrittenBetween(p, i, j, t) ==> v in done[i].outputs)
    && ((forall i: nat :: i < j ==> !Writes(p[i], t)) ==> v.index == 0)
  }

  // v is the first version of its table among the outputs.
  predicate FirstOf(outputs: seq<Version>, v: Version) {
    exists a :: 0 <= a < |outputs| && outputs[a] == v && forall b :: 0 <= b < a ==> outputs[b].table != v.table
  }

  lemma {:induction false} FirstIsFirst(outputs: seq<Version>, t: string)
    requires Mentions(outputs, t)
    ensures FirstOf(outputs, First(outputs, t))
    decreases |outputs|
  {
    if outputs[0].table != t {
      FirstIsFirst(outputs[1..], t);
      var a :| 0 <= a < |outputs| - 1 && outputs[1..][a] == First(outputs, t)
              && forall b :: 0 <= b < a ==> outputs[1..][b].table != t;
      forall b | 0 <= b < a + 1 ensures outputs[b].table != t {
        assert b > 0 ==> outputs[1..][b - 1].table != t;
      }
      assert outputs[a + 1] == First(outputs, t);
    }
  }

  lemma FirstStays(a: seq<Version>, b: seq<Version>, v: Version)
    requires FirstOf(a, v) && a <= b
    ensures FirstOf(b, v)
  {
    var k :| 0 <= k < |a| && a[k] == v && forall i :: 0 <= i < k ==> a[i].table != v.table;
    assert b[k] == v;
  }

  // An input that hazard resolution adds: what the producer has first for the table.
  ghost predicate AddedAt(p: Program, j: nat, done: seq<Vertex>, v: Version, h: Hazard)
    requires j < |p| && j <= |done|
  {
    h.output < |p[j].outputs| && h.producer < j && v.table == p[j].outputs[h.output] && FirstOf(done[h.producer].outputs, v)
  }

  ghost predicate ListsReads(p: Program, j: nat, done: seq<Vertex>, inputs: seq<Version>, n: nat)
    requires j < |p| && j <= |done|
  {
    n <= |inputs| && n <= |p[j].inputs| && forall k: nat :: k < n ==> ReadAt(p, j, done, inputs[k], k)
  }

  ghost predicate ListsHazards(p: Program, j: nat, done: seq<Vertex>, added: seq<Version>, hs: seq<Hazard>)
    requires j < |p| && j <= |done|
  {
    |added| == |hs| && forall k: nat :: k < |hs| ==> AddedAt(p, j, done, added[k], hs[k])
  }

  // The earlier statements as they were, apart from further outputs.
  ghost predicate Grown(a: seq<Vertex>, b: seq<Vertex>) {
    |a| <= |b| && forall i :: 0 <= i < |a| ==> a[i].inputs == b[i].inputs && a[i].outputs <= b[i].outputs
  }

  lemma ReadsGrow(p: Program, j: nat, a: seq<Vertex>, b: seq<Vertex>, inputs: seq<Version>, more: seq<Version>, n: nat)
    requires j < |p| && j <= |a| && Grown(a, b) && ListsReads(p, j, a, inputs, n)
    ensures ListsReads(p, j, b, inputs + more, n)
  {
    forall k: nat | k < n ensures ReadAt(p, j, b, (inputs + more)[k], k) {
      assert ReadAt(p, j, a, inputs[k], k);
    }
  }

  lemma HazardsGrow(p: Program, j: nat, a: seq<Vertex>, b: seq<Vertex>, added: seq<Version>, hs: seq<Hazard>)
    requires j < |p| && j <= |a| && Grown(a, b) && ListsHazards(p, j, a, added, hs)
    ensures ListsHazards(p, j, b, added, hs)
  {
    forall k: nat | k < |hs| ensures AddedAt(p, j, b, added[k], hs[k]) {
      assert AddedAt(p, j, a, added[k], hs[k]);
      FirstStays(a[hs[k].producer].outputs, b[hs[k].producer].outputs, added[k]);
    }
  }

  lemma GrownTrans(a: seq<Vertex>, b: seq<Vertex>, c: seq<Vertex>)
    requires Grown(a, b) && Grown(b, c)
    ensures Grown(a, c)
  {
  }

  // ---- the scan of one table

  // Which scanned statements feed the writer, told from the state before the scan.
  ghost predicate FedBy(done: seq<Vertex>, inputs: seq<Version>, t: string, i: nat, j: nat)
    requires i < j <= |done|
  {
    || Mentions(done[i].outputs, t)
    || (Mentions(done[i].inputs, t) && !Mentions(inputs, t)
        && forall k :: i < k < j ==> !Mentions(done[k].outputs, t) && !Mentions(done[k].inputs, t))
  }

  // What a scan of the first j statements adds: one input per feeding statement, last to first.
  ghost predicate ScanAdds(done: seq<Vertex>, inputs: seq<Version>, t: string, j: nat, r: Resolved, fed: seq<nat>)
    requires j <= |done|
  {
    && Grown(done, r.done) && |r.done| == |done|
    && (forall i :: j <= i < |done| ==> r.done[i] == done[i])
    && |r.inputs| == |inputs| + |fed| && inputs <= r.inputs
    && (forall k: nat :: k < |fed| ==> FedAt(t, j, r, r.inputs[|inputs| + k], fed[k]))
    && (forall a, b :: 0 <= a < b < |fed| ==> fed[b] < fed[a])
    && (forall i: nat :: i < j ==> (i in fed <==> FedBy(done, inputs, t, i, j)))
  }

  predicate FedAt(t: string, j: nat, r: Resolved, v: Version, i: nat) {
    i < j && i < |r.done| && v.table == t && FirstOf(r.done[i].outputs, v)
  }

  lemma ScanStepFedBy(done: seq<Vertex>, count: nat, inputs: seq<Version>, t: string, j: nat, i: nat)
    requires i < j - 1 < |done|
    ensures var s := ScanStep(done, count, inputs, t, j);
      FedBy(s.done, s.inputs, t, i, j - 1) <==> FedBy(done, inputs, t, i, j)
  {
    var s, prev := ScanStep(done, count, inputs, t, j), done[j - 1];
    assert forall k :: 0 <= k < j - 1 ==> s.done[k] == done[k];
    if Mentions(prev.outputs, t) || (Mentions(prev.inputs, t) && !Mentions(inputs, t)) {
      assert s.inputs[|inputs|].table == t;
    } else {
      assert s.inputs == inputs;
    }
  }

  lemma ScanStepAdds(done: seq<Vertex>, count: nat, inputs: seq<Version>, t: string, j: nat)
    requires 0 < j <= |done|
    ensures var s := ScanStep(done, count, inputs, t, j);
      && Grown(done, s.done) && (forall i :: 0 <= i < |done| && i != j - 1 ==> s.done[i] == done[i])
      && if FedBy(done, inputs, t, j - 1, j)
         then exists v :: s.inputs == inputs + [v] && v.table == t && FirstOf(s.done[j - 1].outputs, v)
         else s.inputs == inputs
  {
    var s, prev := ScanStep(done, count, inputs, t, j), done[j - 1];
    if FedBy(done, inputs, t, j - 1, j) {
      if Mentions(prev.outputs, t) {
        FirstIsFirst(prev.outputs, t);
      } else {
        assert s.done[j - 1].outputs[|prev.outputs|] == s.inputs[|inputs|];
      }
      assert s.inputs == inputs + [s.inputs[|inputs|]];
    }
  }

  lemma ScanUnfed(done: seq<Vertex>, inputs: seq<Version>, t: string, j: nat, s: Resolved, r: Resolved, fed: seq<nat>)
    requires 0 < j <= |done| == |s.done| && Grown(done, s.done) && s.inputs == inputs
    requires forall i :: 0 <= i < |done| && i != j - 1 ==> s.done[i] == done[i]
    requires ScanAdds(s.done, s.inputs, t, j - 1, r, fed) && !FedBy(done, inputs, t, j - 1, j)
    requires forall i: nat :: i < j - 1 ==> (FedBy(s.done, s.inputs, t, i, j - 1) <==> FedBy(done, inputs, t, i, j))
    ensures ScanAdds(done, inputs, t, j, r, fed)
  {
    GrownTrans(done, s.done, r.done);
    assert forall k: nat :: k < |fed| ==> FedAt(t, j - 1, r, r.inputs[|inputs| + k], fed[k]);
  }

  lemma ScanFed(done: seq<Vertex>, inputs: seq<Version>, t: string, j: nat, s: Resolved, v: Version, r: Resolved, fed: seq<nat>)
    requires 0 < j <= |done| == |s.done| && Grown(done, s.done)
    requires s.inputs == inputs + [v] && v.table == t && FirstOf(s.done[j - 1].outputs, v)
    requires forall i :: 0 <= i < |done| && i != j - 1 ==> s.done[i] == done[i]
    requires ScanAdds(s.done, s.inputs, t, j - 1, r, fed) && FedBy(done, inputs, t, j - 1, j)
    requires forall i: nat :: i < j - 1 ==> (FedBy(s.done, s.inputs, t, i, j - 1) <==> FedBy(done, inputs, t, i, j))
    ensures ScanAdds(done, inputs, t, j, r, [j - 1] + fed)
  {
    GrownTrans(done, s.done, r.done);
    var all, n := [j - 1] + fed, |inputs|;
    assert r.inputs[n] == s.inputs[n] == v;
    forall k: nat | k < |all| ensures FedAt(t, j, r, r.inputs[n + k], all[k]) {
      if k > 0 {
        assert FedAt(t, j - 1, r, r.inputs[n + 1 + (k - 1)], fed[k - 1]);
      }
    }
    FedBelow(t, j - 1, r, |inputs| + 1, fed);
    forall i: nat | i < j ensures i in all <==> FedBy(done, inputs, t, i, j) {
      if i < j - 1 {
        assert i in all <==> i in fed;
      }
    }
  }

  lemma FedBelow(t: string, j: nat, r: Resolved, n: nat, fed: seq<nat>)
    requires n + |fed| <= |r.inputs|
    requires forall k: nat :: k < |fed| ==> FedAt(t, j, r, r.inputs[n + k], fed[k])
    ensures forall k: nat :: k < |fed| ==> fed[k] < j
  {
    forall k: nat | k < |fed| ensures fed[k] < j {
      assert FedAt(t, j, r, r.inputs[n + k], fed[k]);
    }
  }

  lemma {:induction false} ResolveAdds(done: seq<Vertex>, count: nat, inputs: seq<Version>, t: string, j: nat)
    returns (fed: seq<nat>)
    requires j <= |done|
    ensures ScanAdds(done, inputs, t, j, Resolve(done, count, inputs, t, j), fed)
    decreases j
  {
    fed := [];
    if j > 0 {
      var s := ScanStep(done, count, inputs, t, j);
      ScanStepAdds(done, count, inputs, t, j);
      forall i: nat | i < j - 1
        ensures FedBy(s.done, s.inputs, t, i, j - 1) <==> FedBy(done, inputs, t, i, j)
      {
        ScanStepFedBy(done, count, inputs, t, j, i);
      }
      var rest := ResolveAdds(s.done, s.count, s.inputs, t, j - 1);
      var r := Resolve(s.done, s.count, s.inputs, t, j - 1);
      if FedBy(done, inputs, t, j - 1, j) {
        ScanFed(done, inputs, t, j, s, s.inputs[|inputs|], r, rest);
        fed := [j - 1] + rest;
      } else {
        ScanUnfed(done, inputs, t, j, s, r, rest);
        fed := rest;
      }
    }
  }

  // ---- from the scan to the program text

  // Statement j as far as its first m outputs.
  function Partial(s: ParsedStmt, m: nat): ParsedStmt
    requires m <= |s.outputs|
  {
    s.(outputs := s.outputs[..m])
  }

  // The state of the analysis in the middle of statement j.
  ghost predicate Midway(p: Program, j: nat, m: nat, d: Draft) {
    j < |p| && m <= |p[j].outputs| && AllValid(p[..j], Partial(p[j], m), d)
  }

  function MidCells(p: Program, j: nat, m: nat, d: Draft, t: string): seq<VersionColumn.Cell>
    requires j < |p| && m <= |p[j].outputs| && |d.done| == j
  {
    ColumnOf(p[..j], Partial(p[j], m), d, t).cells
  }

  lemma EarlierCell(p: Program, j: nat, m: nat, d: Draft, t: string, k: nat)
    requires Midway(p, j, m, d) && k < j
    ensures var c := MidCells(p, j, m, d, t)[k];
      && (c.isRead <==> Reads(p[k], t)) && (c.writes > 0 <==> Writes(p[k], t))
      && (c.outs != [] <==> Mentions(d.done[k].outputs, t)) && (c.ins != [] <==> Mentions(d.done[k].inputs, t))
      && (c.isRead ==> c.ins != []) && (c.ins != [] ==> c.isRead || c.writes > 0)
      && (c.outs != [] <==> c.writes > 0 || (c.isRead && VersionColumn.WrittenWithin(MidCells(p, j, m, d, t), k, j + 1)))
  {
    var cells := MidCells(p, j, m, d, t);
    assert VersionColumn.Valid(ColumnOf(p[..j], Partial(p[j], m), d, t));
    assert VersionColumn.ListedAt(cells, k);
    assert cells[k] == CellOf(p[k], d.done[k], t);
    OccurrencesMembers(p[k].outputs, t);
    IndicesMembers(d.done[k].outputs, t);
    IndicesMembers(d.done[k].inputs, t);
  }

  lemma CurrentFacts(p: Program, j: nat, m: nat, d: Draft, t: string)
    requires Midway(p, j, m, d)
    ensures var c := MidCells(p, j, m, d, t)[j];
      && (c.isRead <==> Reads(p[j], t)) && (c.writes > 0 <==> t in p[j].outputs[..m])
      && (c.ins != [] <==> Mentions(d.inputs, t))
      && (c.isRead ==> c.ins != []) && (c.ins != [] ==> c.isRead || c.writes > 0)
  {
    var cells := MidCells(p, j, m, d, t);
    assert VersionColumn.Valid(ColumnOf(p[..j], Partial(p[j], m), d, t));
    assert VersionColumn.ListedAt(cells, j);
    assert cells[j] == CellOf(Partial(p[j], m), Vertex(d.inputs, d.outputs), t);
    OccurrencesMembers(p[j].outputs[..m], t);
    IndicesMembers(d.inputs, t);
  }

  lemma WrittenSince(p: Program, j: nat, m: nat, d: Draft, t: string, i: nat)
    requires Midway(p, j, m, d) && i < j
    ensures VersionColumn.WrittenWithin(MidCells(p, j, m, d, t), i, j + 1)
      <==> WrittenBetween(p, i, j, t) || t in p[j].outputs[..m]
  {
    var cells := MidCells(p, j, m, d, t);
    VersionColumn.WithinGrow(cells, i, j);
    CurrentFacts(p, j, m, d, t);
    forall k | 0 <= k < j ensures cells[k].writes > 0 <==> Writes(p[k], t) {
      EarlierCell(p, j, m, d, t, k);
    }
  }

  lemma FedIsWaiting(p: Program, j: nat, m: nat, d: Draft, i: nat)
    requires Midway(p, j, m, d) && m < |p[j].outputs| && i < j
    ensures FedBy(d.done, d.inputs, p[j].outputs[m], i, j) <==> WaitsFor(p, j, m, i)
  {
    var t := p[j].outputs[m];
    EarlierCell(p, j, m, d, t, i);
    CurrentFacts(p, j, m, d, t);
    WrittenSince(p, j, m, d, t, i);
    forall k | i < k < j
      ensures Mentions(d.done[k].outputs, t) || Mentions(d.done[k].inputs, t) <==> Reads(p[k], t) || Writes(p[k], t)
    {
      EarlierCell(p, j, m, d, t, k);
    }
    assert TouchedBetween(p, i, j, t)
      <==> exists k :: i < k < j && (Mentions(d.done[k].outputs, t) || Mentions(d.done[k].inputs, t));
  }

  // ---- the inputs a statement lists itself

  lemma ReadNow(p: Program, j: nat, k: nat, d: Draft)
    requires j < |p| && k < |p[j].inputs|
    requires AllValid(p[..j], ParsedStmt(p[j].original, p[j].inputs[..k], []), d)
    ensures var e := ReadTable(d, p[j].inputs[k]);
      e.done == d.done && |e.inputs| == |d.inputs| + 1 && d.inputs <= e.inputs
      && ReadAt(p, j, d.done, e.inputs[|d.inputs|], k)
  {
    var t := p[j].inputs[k];
    var v := ReadTable(d, t).inputs[|d.inputs|];
    forall i: nat | i < j && Writes(p[i], t) && !WrittenBetween(p, i, j, t)
      ensures v in d.done[i].outputs
    {
      NewestNow(p, j, k, d, i);
    }
    if forall i: nat :: i < j ==> !Writes(p[i], t) {
      UnwrittenNow(p, j, k, d);
    }
  }

  // The column of the table that statement j reads next.
  function ReadColumn(p: Program, j: nat, k: nat, d: Draft): VersionColumn.Column
    requires j < |p| && k < |p[j].inputs| && |d.done| == j
  {
    ColumnOf(p[..j], ParsedStmt(p[j].original, p[j].inputs[..k], []), d, p[j].inputs[k])
  }

  lemma ReadColumnIs(p: Program, j: nat, k: nat, d: Draft)
    requires j < |p| && k < |p[j].inputs|
    requires AllValid(p[..j], ParsedStmt(p[j].original, p[j].inputs[..k], []), d)
    ensures var t, c := p[j].inputs[k], ReadColumn(p, j, k, d);
      && VersionColumn.Valid(c) && |c.cells| == j + 1 && c.cells[j].writes == 0 && c.count == Count(d.counts, t)
      && forall i :: 0 <= i < j ==> c.cells[i].outs == Indices(d.done[i].outputs, t) && (c.cells[i].writes > 0 <==> Writes(p[i], t))
  {
    var t, c := p[j].inputs[k], ReadColumn(p, j, k, d);
    forall i | 0 <= i < j ensures c.cells[i] == CellOf(p[i], d.done[i], t) && (c.cells[i].writes > 0 <==> Writes(p[i], t)) {
      OccurrencesMembers(p[i].outputs, t);
    }
  }

  lemma NewestNow(p: Program, j: nat, k: nat, d: Draft, i: nat)
    requires j < |p| && k < |p[j].inputs|
    requires AllValid(p[..j], ParsedStmt(p[j].original, p[j].inputs[..k], []), d)
    requires i < j && Writes(p[i], p[j].inputs[k]) && !WrittenBetween(p, i, j, p[j].inputs[k])
    ensures ReadTable(d, p[j].inputs[k]).inputs[|d.inputs|] in d.done[i].outputs
  {
    var t, c := p[j].inputs[k], ReadColumn(p, j, k, d);
    ReadColumnIs(p, j, k, d);
    assert VersionColumn.NewestAt(c, i);
    IndicesMembers(d.done[i].outputs, t);
  }

  lemma UnwrittenNow(p: Program, j: nat, k: nat, d: Draft)
    requires j < |p| && k < |p[j].inputs|
    requires AllValid(p[..j], ParsedStmt(p[j].original, p[j].inputs[..k], []), d)
    requires forall i: nat :: i < j ==> !Writes(p[i], p[j].inputs[k])
    ensures ReadTable(d, p[j].inputs[k]).inputs[|d.inputs|].index == 0
  {
    ReadColumnIs(p, j, k, d);
  }

  lemma {:induction false} ReadAllLists(p: Program, j: nat, k: nat)
    requires j < |p| && k <= |p[j].inputs|
    ensures var d, e := AnalyzeAll(p[..j]), ReadAll(AnalyzeAll(p[..j]), p[j].inputs[..k]);
      && |d.done| == j && e.done == d.done && |e.inputs| == k && e.outputs == []
      && AllValid(p[..j], ParsedStmt(p[j].original, p[j].inputs[..k], []), e)
      && ListsReads(p, j, e.done, e.inputs, k)
    decreases k
  {
    var d, o := AnalyzeAll(p[..j]), p[j].original;
    StartValid(p, j);
    ReadAllValid(p[..j], o, d, p[j].inputs[..k]);
    if k > 0 {
      ReadAllLists(p, j, k - 1);
      assert p[j].inputs[..k][..k - 1] == p[j].inputs[..k - 1];
      ReadOneMore(p, j, k - 1, ReadAll(d, p[j].inputs[..k - 1]));
    }
  }

  lemma ReadOneMore(p: Program, j: nat, k: nat, e: Draft)
    requires j < |p| && k < |p[j].inputs| && |e.inputs| == k
    requires AllValid(p[..j], ParsedStmt(p[j].original, p[j].inputs[..k], []), e)
    requires ListsReads(p, j, e.done, e.inputs, k)
    ensures var f := ReadTable(e, p[j].inputs[k]);
      |f.inputs| == k + 1 && f.done == e.done && f.outputs == e.outputs && ListsReads(p, j, f.done, f.inputs, k + 1)
  {
    ReadNow(p, j, k, e);
    var f := ReadTable(e, p[j].inputs[k]);
    ReadsGrow(p, j, e.done, e.done, e.inputs, f.inputs[k..], k);
    assert f.inputs == e.inputs + f.inputs[k..];
  }

  lemma StartValid(p: Program, j: nat)
    requires j < |p|
    ensures var d := AnalyzeAll(p[..j]);
      |d.done| == j && d.outputs == [] && AllValid(p[..j], ParsedStmt(p[j].original, [], []), d)
  {
    var d := AnalyzeAll(p[..j]);
    AnalyzeAllValid(p[..j]);
    forall t ensures VersionColumn.Valid(ColumnOf(p[..j], ParsedStmt(p[j].original, [], []), d, t)) {
      assert VersionColumn.Valid(ColumnAfter(p[..j], d, t));
      OpenColumn(p[..j], p[j].original, d, t);
      VersionColumn.OpenValid(ColumnAfter(p[..j], d, t));
    }
  }

  // ---- the inputs that hazard resolution adds

  lemma UnknownFeedsNobody(p: Program, j: nat, m: nat, d: Draft, t: string, i: nat)
    requires Midway(p, j, m, d) && Count(d.counts, t) == 0 && i < j
    ensures !FedBy(d.done, d.inputs, t, i, j)
  {
    var c := ColumnOf(p[..j], Partial(p[j], m), d, t);
    assert VersionColumn.Valid(c);
    EarlierCell(p, j, m, d, t, i);
    assert !VersionColumn.Touches(c.cells[i]);
  }

  lemma WriteScan(p: Program, j: nat, m: nat, d: Draft) returns (fed: seq<nat>)
    requires Midway(p, j, m, d) && m < |p[j].outputs|
    ensures var t := p[j].outputs[m];
      var e := WriteTable(d, t);
      && ScanAdds(d.done, d.inputs, t, j, Resolved(e.done, 0, e.inputs), fed)
      && |e.outputs| == |d.outputs| + 1 && d.outputs <= e.outputs && e.outputs[|d.outputs|].table == t
  {
    var t := p[j].outputs[m];
    if Count(d.counts, t) == 0 {
      fed := [];
      forall i: nat | i < j ensures !FedBy(d.done, d.inputs, t, i, j) {
        UnknownFeedsNobody(p, j, m, d, t, i);
      }
    } else {
      fed := ResolveAdds(d.done, d.counts[t], d.inputs, t, j);
      var r := Resolve(d.done, d.counts[t], d.inputs, t, j);
      forall k: nat | k < |fed| ensures FedAt(t, j, Resolved(r.done, 0, r.inputs), r.inputs[|d.inputs| + k], fed[k]) {
        assert FedAt(t, j, r, r.inputs[|d.inputs| + k], fed[k]);
      }
    }
  }

  function HazardsAt(m: nat, fed: seq<nat>): (hs: seq<Hazard>)
    ensures |hs| == |fed| && forall k :: 0 <= k < |fed| ==> hs[k] == Hazard(m, fed[k])
  {
    seq(|fed|, k requires 0 <= k < |fed| => Hazard(m, fed[k]))
  }

  lemma MoreHazards(p: Program, j: nat, m: nat, hs: seq<Hazard>, fed: seq<nat>)
    requires j < |p| && m < |p[j].outputs| && Hazards(p, j, m, hs)
    requires forall a, b :: 0 <= a < b < |fed| ==> fed[b] < fed[a]
    requires forall i: nat :: i in fed <==> i < j && WaitsFor(p, j, m, i)
    ensures Hazards(p, j, m + 1, hs + HazardsAt(m, fed))
  {
    var more := HazardsAt(m, fed);
    var all := hs + more;
    forall h: Hazard ensures h in all <==> HazardOf(p, j, h) && h.output < m + 1 {
      assert h in all <==> h in hs || h in more;
      assert h in more <==> h.output == m && h.producer in fed by {
        if h.output == m && h.producer in fed {
          var k :| 0 <= k < |fed| && fed[k] == h.producer;
          assert more[k] == h;
        }
      }
    }
    forall a, b | 0 <= a < b < |all| ensures Before(all[a], all[b]) {
      assert a < |hs| ==> all[a] in hs;
    }
  }

  lemma WriteNow(p: Program, j: nat, m: nat, d: Draft, n: nat, hs: seq<Hazard>) returns (more: seq<Hazard>)
    requires Midway(p, j, m, d) && m < |p[j].outputs| && Hazards(p, j, m, hs)
    requires n <= |d.inputs| && ListsReads(p, j, d.done, d.inputs[..n], n)
    requires ListsHazards(p, j, d.done, d.inputs[n..], hs)
    ensures var e := WriteTable(d, p[j].outputs[m]);
      && Hazards(p, j, m + 1, more) && Grown(d.done, e.done) && |e.done| == j
      && n <= |e.inputs| && ListsReads(p, j, e.done, e.inputs[..n], n) && ListsHazards(p, j, e.done, e.inputs[n..], more)
      && |e.outputs| == |d.outputs| + 1 && d.outputs <= e.outputs && e.outputs[|d.outputs|].table == p[j].outputs[m]
  {
    var t := p[j].outputs[m];
    var e := WriteTable(d, t);
    var fed := WriteScan(p, j, m, d);
    FedBelow(t, j, Resolved(e.done, 0, e.inputs), |d.inputs|, fed);
    forall i: nat ensures i in fed <==> i < j && WaitsFor(p, j, m, i) {
      if i < j {
        FedIsWaiting(p, j, m, d, i);
      }
    }
    MoreHazards(p, j, m, hs, fed);
    more := hs + HazardsAt(m, fed);
    ReadsGrow(p, j, d.done, e.done, d.inputs[..n], [], n);
    assert e.inputs[..n] == d.inputs[..n] + [];
    HazardsGrow(p, j, d.done, e.done, d.inputs[n..], hs);
    AddedMore(p, j, m, e.done, d.inputs[n..], hs, e.inputs[|d.inputs|..], fed);
    assert e.inputs[n..] == d.inputs[n..] + e.inputs[|d.inputs|..];
  }

  lemma AddedMore(p: Program, j: nat, m: nat, done: seq<Vertex>, added: seq<Version>, hs: seq<Hazard>,
                  more: seq<Version>, fed: seq<nat>)
    requires j < |p| && j <= |done| && m < |p[j].outputs| && ListsHazards(p, j, done, added, hs)
    requires |more| == |fed|
    requires forall k: nat :: k < |fed| ==>
      fed[k] < j && more[k].table == p[j].outputs[m] && FirstOf(done[fed[k]].outputs, more[k])
    ensures ListsHazards(p, j, done, added + more, hs + HazardsAt(m, fed))
  {
    var all, his := added + more, hs + HazardsAt(m, fed);
    forall k: nat | k < |his| ensures AddedAt(p, j, done, all[k], his[k]) {
      if k < |hs| {
        assert AddedAt(p, j, done, added[k], hs[k]);
      }
    }
  }

  function AfterWrites(p: Program, j: nat, m: nat): Draft
    requires j < |p| && m <= |p[j].outputs|
  {
    WriteAll(ReadAll(AnalyzeAll(p[..j]), p[j].inputs), p[j].outputs[..m])
  }

  // The state once the first m outputs of statement j have been connected.
  ghost predicate Connected(p: Program, j: nat, m: nat, d: Draft, hs: seq<Hazard>) {
    && Midway(p, j, m, d) && Hazards(p, j, m, hs) && Grown(AnalyzeAll(p[..j]).done, d.done)
    && var n := |p[j].inputs|;
    && n <= |d.inputs| && ListsReads(p, j, d.done, d.inputs[..n], n) && ListsHazards(p, j, d.done, d.inputs[n..], hs)
    && |d.outputs| == m && forall k :: 0 <= k < m ==> d.outputs[k].table == p[j].outputs[k]
  }

  lemma MidwayValid(p: Program, j: nat, m: nat)
    requires j < |p| && m <= |p[j].outputs|
    ensures Midway(p, j, m, AfterWrites(p, j, m))
  {
    var n := |p[j].inputs|;
    ReadAllLists(p, j, n);
    assert p[j].inputs[..n] == p[j].inputs;
    WriteAllValid(p[..j], p[j].original, p[j].inputs, ReadAll(AnalyzeAll(p[..j]), p[j].inputs), p[j].outputs[..m]);
  }

  lemma {:induction false} WriteAllLists(p: Program, j: nat, m: nat) returns (hs: seq<Hazard>)
    requires j < |p| && m <= |p[j].outputs|
    ensures Connected(p, j, m, AfterWrites(p, j, m), hs)
    decreases m
  {
    MidwayValid(p, j, m);
    var n := |p[j].inputs|;
    if m == 0 {
      hs := [];
      ReadAllLists(p, j, n);
      assert p[j].inputs[..n] == p[j].inputs;
      var e := ReadAll(AnalyzeAll(p[..j]), p[j].inputs);
      assert e.inputs[..n] == e.inputs;
    } else {
      var before := WriteAllLists(p, j, m - 1);
      assert p[j].outputs[..m][..m - 1] == p[j].outputs[..m - 1];
      var d := AfterWrites(p, j, m - 1);
      hs := WriteNow(p, j, m - 1, d, n, before);
      GrownTrans(AnalyzeAll(p[..j]).done, d.done, AfterWrites(p, j, m).done);
    }
  }

  lemma NextGrow(p: Program, j: nat)
    requires j < |p|
    ensures Grown(AnalyzeAll(p[..j]).done, AnalyzeAll(p[..j + 1]).done)
  {
    var m := |p[j].outputs|;
    var hs := WriteAllLists(p, j, m);
    StatementDone(p, j);
    GrowsBy(AnalyzeAll(p[..j]).done, AfterWrites(p, j, m));
  }

  lemma GrowsBy(a: seq<Vertex>, d: Draft)
    requires Grown(a, d.done)
    ensures Grown(a, Finish(d).done)
  {
  }

  // Later statements only add outputs to earlier ones.
  lemma {:induction false} EarlierGrow(p: Program, a: nat, b: nat)
    requires a <= b <= |p|
    ensures Grown(AnalyzeAll(p[..a]).done, AnalyzeAll(p[..b]).done)
    decreases b
  {
    if a < b {
      EarlierGrow(p, a, b - 1);
      NextGrow(p, b - 1);
      GrownTrans(AnalyzeAll(p[..a]).done, AnalyzeAll(p[..b - 1]).done, AnalyzeAll(p[..b]).done);
    }
  }

  lemma StatementDone(p: Program, j: nat)
    requires j < |p|
    ensures AnalyzeAll(p[..j + 1]) == Finish(AfterWrites(p, j, |p[j].outputs|))
  {
    assert p[..j + 1][..j] == p[..j];
    assert p[j].outputs[..|p[j].outputs|] == p[j].outputs;
  }

  // ---- what the statements list

  // The inputs are those the statement lists itself, in order, and one per hazard behind them.
  ghost predicate InputsListed(p: Program, j: nat, vs: seq<Vertex>, hs: seq<Hazard>)
    requires j < |p| == |vs|
  {
    var n := |p[j].inputs|;
    && n <= |vs[j].inputs|
    && Hazards(p, j, |p[j].outputs|, hs)
    && ListsReads(p, j, vs, vs[j].inputs[..n], n)
    && ListsHazards(p, j, vs, vs[j].inputs[n..], hs)
  }

  lemma InputsOf(p: Program, j: nat) returns (hs: seq<Hazard>)
    requires |p| > 1 && j < |p|
    ensures |Vertices(p)| == |p| && InputsListed(p, j, Vertices(p), hs)
  {
    var m, n := |p[j].outputs|, |p[j].inputs|;
    hs := WriteAllLists(p, j, m);
    var d, vs := AfterWrites(p, j, m), Vertices(p);
    StatementDone(p, j);
    AnalyzeAllValid(p);
    assert p[..|p|] == p;
    EarlierGrow(p, j + 1, |p|);
    assert Grown(d.done + [Vertex(d.inputs, d.outputs)], vs);
    assert vs[j].inputs == d.inputs;
    assert Grown(d.done, vs);
    ReadsGrow(p, j, d.done, vs, d.inputs[..n], [], n);
    assert d.inputs[..n] + [] == d.inputs[..n];
    HazardsGrow(p, j, d.done, vs, d.inputs[n..], hs);
  }

  // A table that statement j reads without writing it, and that a later statement writes.
  ghost predicate Promoted(p: Program, j: nat, t: string)
    requires j < |p|
  {
    Reads(p[j], t) && !Writes(p[j], t) && exists k :: j < k < |p| && Writes(p[k], t)
  }

  // The outputs are those the statement lists itself, in order, and one per promoted table.
  ghost predicate OutputsListed(p: Program, j: nat, outputs: seq<Version>)
    requires j < |p|
  {
    var n := |p[j].outputs|;
    && n <= |outputs|
    && (forall k :: 0 <= k < n ==> outputs[k].table == p[j].outputs[k])
    && (forall k :: n <= k < |outputs| ==> Promoted(p, j, outputs[k].table))
    && (forall t :: Promoted(p, j, t) ==> exists k :: n <= k < |outputs| && outputs[k].table == t)
    && (forall a, b :: n <= a < b < |outputs| ==> outputs[a].table != outputs[b].table)
  }

  function Tables(vs: seq<Version>): (ts: seq<string>)
    ensures |ts| == |vs| && forall k :: 0 <= k < |vs| ==> ts[k] == vs[k].table
  {
    seq(|vs|, k requires 0 <= k < |vs| => vs[k].table)
  }

  lemma {:induction false} IndicesCount(vs: seq<Version>, t: string)
    ensures |Indices(vs, t)| == Occurrences(Tables(vs), t)
    decreases |vs|
  {
    if vs != [] {
      IndicesCount(vs[..|vs| - 1], t);
      assert Tables(vs)[..|vs| - 1] == Tables(vs[..|vs| - 1]);
    }
  }

  // A further place beyond the first n is a further occurrence.
  lemma {:induction false} OccursBeyond(ts: seq<string>, n: nat, k: nat)
    requires n <= k < |ts|
    ensures Occurrences(ts, ts[k]) > Occurrences(ts[..n], ts[k])
    decreases |ts|
  {
    var last := |ts| - 1;
    assert ts == ts[..last] + [ts[last]];
    if k < last {
      assert ts[..last][..n] == ts[..n];
      OccursBeyond(ts[..last], n, k);
    } else {
      OccursAtLeast(ts[..last], n, ts[k]);
      assert ts[..last][..n] == ts[..n];
    }
  }

  lemma {:induction false} OccursAtLeast(ts: seq<string>, n: nat, t: string)
    requires n <= |ts|
    ensures Occurrences(ts, t) >= Occurrences(ts[..n], t)
    decreases |ts|
  {
    if n < |ts| {
      OccursAtLeast(ts[..|ts| - 1], n, t);
      assert ts[..|ts| - 1][..n] == ts[..n];
    } else {
      assert ts[..n] == ts;
    }
  }

  lemma PromotedCell(p: Program, j: nat, t: string)
    requires j < |p| && |AnalyzeAll(p).done| == |p|
    ensures var ts := Tables(AnalyzeAll(p).done[j].outputs);
      && Occurrences(ts, t) <= (if Writes(p[j], t) then Occurrences(p[j].outputs, t) else 1)
      && (!Writes(p[j], t) ==> (Occurrences(ts, t) > 0 <==> Promoted(p, j, t)))
  {
    AnalyzeAllValid(p);
    var d := AnalyzeAll(p);
    var cells := ColumnAfter(p, d, t).cells;
    assert VersionColumn.Valid(ColumnAfter(p, d, t)) && VersionColumn.ListedAt(cells, j);
    assert cells[j] == CellOf(p[j], d.done[j], t);
    IndicesCount(d.done[j].outputs, t);
    forall k | 0 <= k < |p| ensures cells[k].writes > 0 <==> Writes(p[k], t) {
      OccurrencesMembers(p[k].outputs, t);
    }
    assert VersionColumn.WrittenWithin(cells, j, |cells|) <==> exists k :: j < k < |p| && Writes(p[k], t);
  }

  lemma ListedOutputs(p: Program, j: nat)
    requires j < |p|
    ensures |AnalyzeAll(p).done| == |p|
    ensures var n, outputs := |p[j].outputs|, AnalyzeAll(p).done[j].outputs;
      n <= |outputs| && Tables(outputs)[..n] == p[j].outputs
  {
    var n := |p[j].outputs|;
    var _ := WriteAllLists(p, j, n);
    StatementDone(p, j);
    AnalyzeAllValid(p);
    assert p[..|p|] == p;
    EarlierGrow(p, j + 1, |p|);
    var before, after := AnalyzeAll(p[..j + 1]).done[j].outputs, AnalyzeAll(p).done[j].outputs;
    assert before <= after;
    forall k | 0 <= k < n ensures Tables(after)[k] == p[j].outputs[k] {
      assert after[k] == before[k];
    }
  }

  lemma OutputsOf(p: Program, j: nat)
    requires |p| > 1 && j < |p|
    ensures |Vertices(p)| == |p| && OutputsListed(p, j, Vertices(p)[j].outputs)
  {
    ListedOutputs(p, j);
    var n, outputs := |p[j].outputs|, Vertices(p)[j].outputs;
    var ts := Tables(outputs);
    forall k | 0 <= k < n ensures ts[k] == p[j].outputs[k] {
      assert ts[..n][k] == ts[k];
    }
    forall k | n <= k < |outputs| ensures Promoted(p, j, ts[k]) {
      PromotedCell(p, j, ts[k]);
      OccursBeyond(ts, n, k);
    }
    forall t | Promoted(p, j, t) ensures exists k :: n <= k < |outputs| && outputs[k].table == t {
      PromotedCell(p, j, t);
      OccurrencesMembers(ts, t);
      var k :| 0 <= k < |ts| && ts[k] == t;
    }
    forall a, b | n <= a < b < |outputs| ensures outputs[a].table != outputs[b].table {
      PromotedCell(p, j, ts[a]);
      OccursTwice(ts, ts[a]);
    }
  }

  // The order leaves one list.
  lemma {:induction false} OrderUnique(a: seq<Hazard>, b: seq<Hazard>)
    requires InOrder(a) && InOrder(b) && forall h :: h in a <==> h in b
    ensures a == b
    decreases |a|
  {
    Inhabited(a);
    Inhabited(b);
    if a != [] {
      assert a[0] == b[0];
      forall h ensures h in a[1..] <==> h in b[1..] {
        TailMembers(a, h);
        TailMembers(b, h);
      }
      OrderUnique(a[1..], b[1..]);
      assert a == [a[0]] + a[1..] && b == [b[0]] + b[1..];
    }
  }

  lemma TailMembers(a: seq<Hazard>, h: Hazard)
    requires InOrder(a) && a != []
    ensures h in a[1..] <==> h in a && h != a[0]
  {
    assert a == [a[0]] + a[1..];
    if h in a[1..] {
      var k :| 0 <= k < |a| - 1 && a[1..][k] == h;
      assert Before(a[0], a[k + 1]);
    }
  }

  // Without a hazard, the inputs are exactly those the statement lists.
  lemma PlainInputs(p: Program, j: nat)
    requires |p| > 1 && j < |p|
    requires forall m, i :: 0 <= m < |p[j].outputs| && 0 <= i < j ==> !WaitsFor(p, j, m, i)
    ensures |Vertices(p)| == |p| && Tables(Vertices(p)[j].inputs) == p[j].inputs
  {
    var hs := InputsOf(p, j);
    forall h ensures h !in hs {
      assert h in hs ==> HazardOf(p, j, h);
    }
    OrderUnique(hs, []);
    var inputs := Vertices(p)[j].inputs;
    forall k | 0 <= k < |p[j].inputs| ensures Tables(inputs)[k] == p[j].inputs[k] {
      assert ReadAt(p, j, Vertices(p), inputs[..|p[j].inputs|][k], k);
    }
  }

  // The drop behind two queries waits for the second query and for the statement that made the
  // table, in this order, and both queries are given an output.
  lemma QueriesThenDropLists()
    ensures var p := ProgramMeaning.QueriesThenDrop;
      var vs := Vertices(p);
      && |vs| == 4
      && Tables(vs[0].inputs) == ["table1"] && Tables(vs[1].inputs) == ["table2"]
      && Tables(vs[3].inputs) == ["table2", "table2"] && vs[3].inputs[0] in vs[2].outputs && vs[3].inputs[1] in vs[0].outputs
      && Tables(vs[0].outputs) == ["table2"] && Tables(vs[1].outputs) == ["table2"] && Tables(vs[2].outputs) == ["table2"]
  {
    var p := ProgramMeaning.QueriesThenDrop;
    PlainInputs(p, 0);
    PlainInputs(p, 1);
    DropInputs();
    DropOutputs();
  }

  lemma DropInputs()
    ensures var vs := Vertices(ProgramMeaning.QueriesThenDrop);
      && |vs| == 4
      && Tables(vs[3].inputs) == ["table2", "table2"] && vs[3].inputs[0] in vs[2].outputs && vs[3].inputs[1] in vs[0].outputs
  {
    var p := ProgramMeaning.QueriesThenDrop;
    var hs := InputsOf(p, 3);
    var vs := Vertices(p);
    DropHazards(hs);
    assert AddedAt(p, 3, vs, vs[3].inputs[0..][0], hs[0]) && AddedAt(p, 3, vs, vs[3].inputs[0..][1], hs[1]);
  }

  lemma DropOutputs()
    ensures var vs := Vertices(ProgramMeaning.QueriesThenDrop);
      && |vs| == 4
      && Tables(vs[0].outputs) == ["table2"] && Tables(vs[1].outputs) == ["table2"] && Tables(vs[2].outputs) == ["table2"]
  {
    var p := ProgramMeaning.QueriesThenDrop;
    assert Reads(p[1], "table2") && Reads(p[2], "table2") && Writes(p[3], "table2");
    forall i: nat | i < 3 ensures |Vertices(p)| == 4 && Tables(Vertices(p)[i].outputs) == ["table2"] {
      OutputsOf(p, i);
      OneOutput(p, i, Vertices(p)[i].outputs, "table2");
    }
    OutputsOf(p, 0);
  }

  lemma DropHazards(hs: seq<Hazard>)
    requires Hazards(ProgramMeaning.QueriesThenDrop, 3, 1, hs)
    ensures hs == [Hazard(0, 2), Hazard(0, 0)]
  {
    var p, two := ProgramMeaning.QueriesThenDrop, [Hazard(0, 2), Hazard(0, 0)];
    assert Reads(p[2], "table2") && Writes(p[0], "table2") && TouchedBetween(p, 1, 3, "table2");
    forall h: Hazard ensures h in hs <==> h in two {
      assert h in hs <==> HazardOf(p, 3, h) && h.output < 1;
    }
    OrderUnique(hs, two);
  }

  lemma OneOutput(p: Program, j: nat, outputs: seq<Version>, t: string)
    requires j < |p| && OutputsListed(p, j, outputs)
    requires p[j].outputs == [t] || (p[j].outputs == [] && Promoted(p, j, t))
    requires forall u :: Promoted(p, j, u) ==> u == t && p[j].outputs == []
    ensures Tables(outputs) == [t]
  {
    var rest := outputs[1..];
    Inhabited(rest);
    forall k | 0 <= k < |rest| ensures Promoted(p, j, rest[k].table) && rest[k].table != outputs[0].table {
      assert rest[k] == outputs[k + 1];
    }
  }
}
