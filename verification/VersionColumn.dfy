/**
  The dependency graph seen from one table.

  Analysing a program touches each table independently, so the history of one table is a
  column of cells, one cell per statement: whether the statement lists the table among its
  inputs, how often among its outputs, and the versions of the table that the graph hangs
  on the statement's input and output side.  Hazard resolution works on one column at a time.
 */
module VersionColumn {

  datatype Cell = Cell(isRead: bool, writes: nat, ins: seq<nat>, outs: seq<nat>)

  datatype Column = Column(cells: seq<Cell>, count: nat)

  datatype Resolution = Resolution(cells: seq<Cell>, count: nat, ins: seq<nat>)

  const Untouched := Cell(false, 0, [], [])

  // ---- the three events of an analysis, seen in one column

  function Open(c: Column): Column {
    Column(c.cells + [Untouched], c.count)
  }

  function Read(c: Column): Column
    requires c.cells != []
  {
    var last := |c.cells| - 1;
    var count := if c.count == 0 then 1 else c.count;
    Column(c.cells[last := c.cells[last].(isRead := true, ins := c.cells[last].ins + [count - 1])], count)
  }

  // What one scanned statement contributes to the writer, and what it is given.
  function ScanStep(cells: seq<Cell>, count: nat, ins: seq<nat>, j: nat): (r: Resolution)
    requires 0 < j <= |cells|
    ensures |r.cells| == |cells|
  {
    var prev := cells[j - 1];
    if prev.outs != [] then Resolution(cells, count, ins + [prev.outs[0]])
    else if prev.ins != [] then
      Resolution(cells[j - 1 := prev.(outs := [count])], count + 1, if ins == [] then [count] else ins)
    else Resolution(cells, count, ins)
  }

  // Scans the first j statements from the last to the first.
  function Resolve(cells: seq<Cell>, count: nat, ins: seq<nat>, j: nat): Resolution
    requires j <= |cells|
    decreases j
  {
    if j == 0 then Resolution(cells, count, ins)
    else
      var s := ScanStep(cells, count, ins, j);
      Resolve(s.cells, s.count, s.ins, j - 1)
  }

  function Write(c: Column): (d: Column)
    requires c.cells != []
    ensures |d.cells| == |c.cells|
  {
    var last := |c.cells| - 1;
    var cur := c.cells[last];
    if c.count == 0 then
      Column(c.cells[last := cur.(writes := cur.writes + 1, outs := cur.outs + [0])], 1)
    else
      var r := Resolve(c.cells, c.count, cur.ins, last);
      ResolveFrame(c.cells, c.count, cur.ins, last);
      Column(r.cells[last := cur.(writes := cur.writes + 1, ins := r.ins, outs := cur.outs + [r.count])], r.count + 1)
  }

  // ---- what the events establish

  ghost predicate Meet(a: seq<nat>, b: seq<nat>) {
    exists v :: v in a && v in b
  }

  ghost predicate Touches(c: Cell) {
    c.isRead || c.writes > 0
  }

  ghost predicate WrittenWithin(cells: seq<Cell>, lo: int, hi: nat) {
    exists k :: lo < k < hi && 0 <= k < |cells| && cells[k].writes > 0
  }

  ghost predicate TouchedWithin(cells: seq<Cell>, lo: int, hi: nat) {
    exists k :: lo < k < hi && 0 <= k < |cells| && Touches(cells[k])
  }

  // When statement i must precede statement j on account of this table.
  ghost predicate Ordered(cells: seq<Cell>, i: nat, j: nat)
    requires i < j < |cells|
  {
    || (cells[i].writes > 0 && cells[j].writes > 0)
    || (cells[i].writes > 0 && cells[j].isRead && !WrittenWithin(cells, i, j))
    || (cells[i].isRead && cells[j].writes > 0 && (WrittenWithin(cells, i, j) || cells[j].writes > 1))
    || (cells[i].isRead && cells[j].writes > 0 && !cells[j].isRead && !TouchedWithin(cells, i, j))
  }

  ghost predicate Bounded(s: seq<nat>, count: nat) {
    forall v :: v in s ==> v < count
  }

  ghost predicate AllBounded(cells: seq<Cell>, count: nat) {
    forall i :: 0 <= i < |cells| ==> Bounded(cells[i].ins, count) && Bounded(cells[i].outs, count)
  }

  ghost predicate SoleProducers(cells: seq<Cell>) {
    forall i, k, v :: 0 <= i < |cells| && 0 <= k < |cells| && v in cells[i].outs && v in cells[k].outs ==> i == k
  }

  ghost predicate Forward(cells: seq<Cell>) {
    forall i, j, v :: 0 <= i < |cells| && 0 <= j < |cells| && v in cells[i].outs && v in cells[j].ins ==> i < j
  }

  // Which sides of statement i mention the table.
  ghost predicate ListedAt(cells: seq<Cell>, i: nat)
    requires i < |cells|
  {
    && (cells[i].isRead ==> cells[i].ins != [])
    && (cells[i].ins != [] ==> Touches(cells[i]))
    && (cells[i].outs != [] <==> cells[i].writes > 0 || (cells[i].isRead && WrittenWithin(cells, i, |cells|)))
  }

  ghost predicate Listed(cells: seq<Cell>) {
    forall i :: 0 <= i < |cells| ==> ListedAt(cells, i)
  }

  ghost predicate ExactAt(cells: seq<Cell>, i: nat, j: nat)
    requires i < j < |cells|
  {
    Meet(cells[i].outs, cells[j].ins) <==> Ordered(cells, i, j)
  }

  ghost predicate ExactInto(cells: seq<Cell>, j: nat)
    requires j < |cells|
  {
    forall i :: 0 <= i < j ==> ExactAt(cells, i, j)
  }

  ghost predicate Exact(cells: seq<Cell>) {
    forall i, j :: 0 <= i < j < |cells| ==> ExactAt(cells, i, j)
  }

  // The newest version belongs to the last writer.
  ghost predicate NewestAt(c: Column, i: nat)
    requires i < |c.cells|
  {
    c.cells[i].writes > 0 && !WrittenWithin(c.cells, i, |c.cells|) ==> c.count > 0 && c.count - 1 in c.cells[i].outs
  }

  ghost predicate Newest(c: Column) {
    forall i :: 0 <= i < |c.cells| ==> NewestAt(c, i)
  }

  // A statement produces one version per output it lists, or one if it was only a reader.
  ghost predicate Lean(cells: seq<Cell>) {
    forall i :: 0 <= i < |cells| ==> |cells[i].outs| <= if cells[i].writes == 0 then 1 else cells[i].writes
  }

  // The versions are numbered without gaps: some statement has each of them.
  ghost predicate UsedAt(cells: seq<Cell>, v: nat) {
    exists i :: 0 <= i < |cells| && (v in cells[i].ins || v in cells[i].outs)
  }

  ghost predicate Used(cells: seq<Cell>, count: nat) {
    forall v: nat :: v < count ==> UsedAt(cells, v)
  }

  ghost predicate Valid(c: Column) {
    && (c.count > 0 <==> TouchedWithin(c.cells, -1, |c.cells|))
    && AllBounded(c.cells, c.count)
    && SoleProducers(c.cells)
    && Forward(c.cells)
    && Listed(c.cells)
    && Newest(c)
    && Exact(c.cells)
    && Lean(c.cells)
    && Used(c.cells, c.count)
    && (!WrittenWithin(c.cells, -1, |c.cells|) ==> c.count <= 1)
  }

  // ---- hazard resolution

  lemma {:induction false} ResolveFrame(cells: seq<Cell>, count: nat, ins: seq<nat>, j: nat)
    requires j <= |cells|
    ensures var r := Resolve(cells, count, ins, j);
      && |r.cells| == |cells| && count <= r.count && ins <= r.ins
      && (forall i :: j <= i < |cells| ==> r.cells[i] == cells[i])
      && (forall i :: 0 <= i < j ==> r.cells[i] == cells[i].(outs := r.cells[i].outs))
    decreases j
  {
    if j > 0 {
      var s := ScanStep(cells, count, ins, j);
      ResolveFrame(s.cells, s.count, s.ins, j - 1);
    }
  }

  ghost predicate Sound(r: Resolution) {
    AllBounded(r.cells, r.count) && Bounded(r.ins, r.count) && SoleProducers(r.cells) && Forward(r.cells)
  }

  lemma ScanStepSound(cells: seq<Cell>, count: nat, ins: seq<nat>, j: nat)
    requires 0 < j <= |cells| && Sound(Resolution(cells, count, ins))
    ensures Sound(ScanStep(cells, count, ins, j))
  {
    var prev := cells[j - 1];
    assert Bounded(prev.outs, count);
    if prev.outs != [] {
      assert prev.outs[0] in prev.outs;
    }
  }

  lemma {:induction false} ResolveSound(cells: seq<Cell>, count: nat, ins: seq<nat>, j: nat)
    requires j <= |cells| && Sound(Resolution(cells, count, ins))
    ensures Sound(Resolve(cells, count, ins, j))
    decreases j
  {
    if j > 0 {
      var s := ScanStep(cells, count, ins, j);
      ScanStepSound(cells, count, ins, j);
      ResolveSound(s.cells, s.count, s.ins, j - 1);
    }
  }

  ghost predicate Idle(c: Cell) {
    c.ins == [] && c.outs == []
  }

  ghost predicate IdleWithin(cells: seq<Cell>, lo: int, hi: nat) {
    forall k :: lo < k < hi && 0 <= k < |cells| ==> Idle(cells[k])
  }

  // Which of the scanned statements end up feeding the writer.
  ghost predicate Fed(cells: seq<Cell>, ins: seq<nat>, i: nat, j: nat)
    requires i < j <= |cells|
  {
    cells[i].outs != [] || (cells[i].ins != [] && ins == [] && IdleWithin(cells, i, j))
  }

  // Every input the scan adds is produced by one of the scanned statements.
  lemma {:induction false} ResolveSources(cells: seq<Cell>, count: nat, ins: seq<nat>, j: nat, v: nat)
    requires j <= |cells| && v in Resolve(cells, count, ins, j).ins && v !in ins
    ensures var r := Resolve(cells, count, ins, j);
      |r.cells| == |cells| && exists k :: 0 <= k < j && v in r.cells[k].outs
    decreases j
  {
    ResolveFrame(cells, count, ins, j);
    if j > 0 {
      var s := ScanStep(cells, count, ins, j);
      ResolveFrame(s.cells, s.count, s.ins, j - 1);
      if v !in s.ins {
        ResolveSources(s.cells, s.count, s.ins, j - 1, v);
      } else {
        assert v in s.cells[j - 1].outs;
      }
    }
  }

  // Statements above the scanned part keep their relation to the writer.
  lemma ResolveAbove(cells: seq<Cell>, count: nat, ins: seq<nat>, i: nat, j: nat)
    requires j <= i < |cells| && Sound(Resolution(cells, count, ins))
    ensures var r := Resolve(cells, count, ins, j);
      |r.cells| == |cells| && r.cells[i] == cells[i] && (Meet(r.cells[i].outs, r.ins) <==> Meet(cells[i].outs, ins))
  {
    var r := Resolve(cells, count, ins, j);
    ResolveFrame(cells, count, ins, j);
    ResolveSound(cells, count, ins, j);
    forall v | v in r.ins && v !in ins ensures v !in cells[i].outs {
      ResolveSources(cells, count, ins, j, v);
    }
  }

  lemma ScanStepMiss(cells: seq<Cell>, count: nat, ins: seq<nat>, i: nat, j: nat)
    requires i < j - 1 < |cells| && Sound(Resolution(cells, count, ins))
    ensures var s := ScanStep(cells, count, ins, j);
      && s.cells[i] == cells[i]
      && (Meet(cells[i].outs, s.ins) <==> Meet(cells[i].outs, ins))
      && (Fed(s.cells, s.ins, i, j - 1) <==> Fed(cells, ins, i, j))
  {
    var s := ScanStep(cells, count, ins, j);
    assert IdleWithin(cells, i, j) <==> Idle(cells[j - 1]) && IdleWithin(s.cells, i, j - 1);
    assert count !in cells[i].outs;
  }

  lemma ScanStepHit(cells: seq<Cell>, count: nat, ins: seq<nat>, j: nat)
    requires 0 < j <= |cells| && Sound(Resolution(cells, count, ins))
    ensures var s := ScanStep(cells, count, ins, j);
      Meet(s.cells[j - 1].outs, s.ins) <==> Meet(cells[j - 1].outs, ins) || Fed(cells, ins, j - 1, j)
  {
    var s, prev := ScanStep(cells, count, ins, j), cells[j - 1];
    if prev.outs != [] {
      assert prev.outs[0] in s.ins;
    } else if prev.ins != [] && ins == [] {
      assert count in s.cells[j - 1].outs && count in s.ins;
    }
  }

  lemma {:induction false} ResolveFeeds(cells: seq<Cell>, count: nat, ins: seq<nat>, i: nat, j: nat)
    requires i < j <= |cells| && Sound(Resolution(cells, count, ins))
    ensures var r := Resolve(cells, count, ins, j);
      && |r.cells| == |cells|
      && (r.cells[i].outs != [] <==> !Idle(cells[i]))
      && (cells[i].outs != [] ==> r.cells[i].outs == cells[i].outs)
      && (Meet(r.cells[i].outs, r.ins) <==> Meet(cells[i].outs, ins) || Fed(cells, ins, i, j))
    decreases j
  {
    ScanStepSound(cells, count, ins, j);
    var s := ScanStep(cells, count, ins, j);
    if i < j - 1 {
      ScanStepMiss(cells, count, ins, i, j);
      ResolveFeeds(s.cells, s.count, s.ins, i, j - 1);
    } else {
      ScanStepHit(cells, count, ins, j);
      ResolveAbove(s.cells, s.count, s.ins, i, j - 1);
    }
  }

  // b has every version that a has.
  ghost predicate Keeps(a: Cell, b: Cell) {
    (forall v :: v in a.ins ==> v in b.ins) && (forall v :: v in a.outs ==> v in b.outs)
  }

  lemma UsedGrow(a: seq<Cell>, b: seq<Cell>, count: nat)
    requires Used(a, count) && |a| <= |b| && forall i :: 0 <= i < |a| ==> Keeps(a[i], b[i])
    ensures Used(b, count)
  {
    forall v: nat | v < count ensures UsedAt(b, v) {
      assert UsedAt(a, v);
    }
  }

  // Every version the scan adds has a producer.
  lemma {:induction false} ResolveUsed(cells: seq<Cell>, count: nat, ins: seq<nat>, j: nat)
    requires j <= |cells| && Used(cells, count)
    ensures var r := Resolve(cells, count, ins, j); Used(r.cells, r.count)
    decreases j
  {
    if j > 0 {
      var s := ScanStep(cells, count, ins, j);
      UsedGrow(cells, s.cells, count);
      assert s.count == count + 1 ==> count in s.cells[j - 1].outs;
      ResolveUsed(s.cells, s.count, s.ins, j - 1);
    }
  }

  // ---- every event keeps the column valid

  // b agrees with a on who reads and writes in statements lo to hi.
  ghost predicate SameRoles(a: seq<Cell>, b: seq<Cell>, lo: int, hi: nat) {
    -1 <= lo && hi <= |a| && hi <= |b| &&
    forall k :: lo < k < hi && 0 <= k ==> a[k].isRead == b[k].isRead && (a[k].writes > 0 <==> b[k].writes > 0)
  }

  lemma WithinLocal(a: seq<Cell>, b: seq<Cell>, lo: int, hi: nat)
    requires SameRoles(a, b, lo, hi)
    ensures WrittenWithin(a, lo, hi) <==> WrittenWithin(b, lo, hi)
    ensures TouchedWithin(a, lo, hi) <==> TouchedWithin(b, lo, hi)
  {
    forall k | lo < k < hi ensures Touches(a[k]) <==> Touches(b[k]) {}
  }

  lemma OrderedLocal(a: seq<Cell>, b: seq<Cell>, i: nat, j: nat)
    requires i < j < |a| && j < |b|
    requires SameRoles(a, b, -1, j + 1) && a[j].writes == b[j].writes
    ensures Ordered(a, i, j) <==> Ordered(b, i, j)
  {
    WithinLocal(a, b, i, j);
  }

  lemma {:induction false} WithinGrow(a: seq<Cell>, lo: int, hi: nat)
    requires -1 <= lo < hi < |a|
    ensures WrittenWithin(a, lo, hi + 1) <==> WrittenWithin(a, lo, hi) || a[hi].writes > 0
    ensures TouchedWithin(a, lo, hi + 1) <==> TouchedWithin(a, lo, hi) || Touches(a[hi])
  {
    if TouchedWithin(a, lo, hi + 1) && !TouchedWithin(a, lo, hi) {
      var k :| lo < k < hi + 1 && 0 <= k < |a| && Touches(a[k]);
      assert k == hi;
    }
    assert Touches(a[hi]) ==> TouchedWithin(a, lo, hi + 1);
  }

  // Exactness of all pairs follows from exactness below the last statement and at it.
  lemma ExactGrow(a: seq<Cell>, b: seq<Cell>)
    requires |b| > 0 && |b| - 1 <= |a| && SameRoles(a, b, -1, |b| - 1) && Exact(a)
    requires forall i :: 0 <= i < |b| - 1 ==> a[i].writes == b[i].writes
    requires forall i, j :: 0 <= i < j < |b| - 1 ==>
               (Meet(b[i].outs, b[j].ins) <==> Meet(a[i].outs, a[j].ins))
    requires ExactInto(b, |b| - 1)
    ensures Exact(b)
  {
    forall i, j | 0 <= i < j < |b|
      ensures ExactAt(b, i, j)
    {
      if j < |b| - 1 {
        assert ExactAt(a, i, j);
        OrderedLocal(a, b, i, j);
      }
    }
  }

  lemma OpenListed(c: Column)
    requires Listed(c.cells) && Newest(c)
    ensures Listed(Open(c).cells) && Newest(Open(c))
  {
    var a, b, n := c.cells, Open(c).cells, |c.cells|;
    forall i | 0 <= i < n + 1
      ensures ListedAt(b, i) && NewestAt(Open(c), i)
    {
      if i < n {
        WithinGrow(b, i, n);
        WithinLocal(a, b, i, n);
        assert ListedAt(a, i) && NewestAt(c, i);
      }
    }
  }

  lemma OpenValid(c: Column)
    requires Valid(c)
    ensures Valid(Open(c))
  {
    var b, n := Open(c).cells, |c.cells|;
    OpenListed(c);
    WithinGrow(b, -1, n);
    WithinLocal(c.cells, b, -1, n);
    assert Exact(b) by {
      ExactGrow(c.cells, b);
    }
    assert SoleProducers(b) && Forward(b) && AllBounded(b, c.count);
    UsedGrow(c.cells, b, c.count);
    WithinGrow(b, -1, n);
  }

  // Two columns that differ in the last statement only, and not in whether it writes.
  lemma WrittenToEnd(a: seq<Cell>, b: seq<Cell>, i: int)
    requires |a| == |b| > 0 && -1 <= i < |a| - 1
    requires SameRoles(a, b, -1, |a| - 1) && (a[|a| - 1].writes > 0 <==> b[|a| - 1].writes > 0)
    ensures WrittenWithin(a, i, |a|) <==> WrittenWithin(b, i, |b|)
  {
    WithinGrow(a, i, |a| - 1);
    WithinGrow(b, i, |a| - 1);
    WithinLocal(a, b, i, |a| - 1);
  }

  lemma {:induction false} LastWriter(cells: seq<Cell>, lo: int, hi: nat) returns (w: nat)
    requires WrittenWithin(cells, lo, hi) && hi <= |cells|
    ensures lo < w < hi && cells[w].writes > 0 && !WrittenWithin(cells, w, hi)
    decreases hi
  {
    if cells[hi - 1].writes > 0 {
      w := hi - 1;
    } else {
      w := LastWriter(cells, lo, hi - 1);
    }
  }

  // The newest version is produced by the last writer and by nobody else.
  lemma NewestProducer(c: Column, i: nat)
    requires i < |c.cells| && c.count > 0 && SoleProducers(c.cells) && Listed(c.cells) && Newest(c)
    ensures c.count - 1 in c.cells[i].outs <==> c.cells[i].writes > 0 && !WrittenWithin(c.cells, i, |c.cells|)
  {
    assert ListedAt(c.cells, i) && NewestAt(c, i);
    if WrittenWithin(c.cells, i, |c.cells|) {
      var w := LastWriter(c.cells, i, |c.cells|);
      assert NewestAt(c, w);
    }
  }

  lemma ReadListed(c: Column)
    requires Listed(c.cells) && Newest(c) && c.cells != []
    requires c.cells[|c.cells| - 1].writes == 0 && c.cells[|c.cells| - 1].outs == []
    ensures Listed(Read(c).cells) && Newest(Read(c))
  {
    var a, b, n := c.cells, Read(c).cells, |c.cells|;
    forall i | 0 <= i < n
      ensures ListedAt(b, i) && NewestAt(Read(c), i)
    {
      assert ListedAt(a, i) && NewestAt(c, i);
      if i < n - 1 {
        WrittenToEnd(a, b, i);
      }
    }
  }

  lemma MeetAppend(a: seq<nat>, b: seq<nat>, v: nat)
    ensures Meet(a, b + [v]) <==> Meet(a, b) || v in a
  {
    if v in a {
      assert v in b + [v];
    }
    if Meet(a, b) {
      var w :| w in a && w in b;
      assert w in b + [v];
    }
  }

  lemma NoProducer(cells: seq<Cell>, i: nat)
    requires Listed(cells) && !TouchedWithin(cells, -1, |cells|) && i < |cells|
    ensures cells[i].outs == [] && cells[i].ins == [] && !Touches(cells[i])
  {
    assert ListedAt(cells, i);
    forall k | 0 <= k < |cells| ensures !Touches(cells[k]) {}
  }

  // A reader is fed by the last writer before it, and by nobody else.
  lemma ReadFeeds(c: Column, i: nat)
    requires i < |c.cells| - 1 && SoleProducers(c.cells) && Listed(c.cells) && Newest(c)
    requires c.count > 0 <==> TouchedWithin(c.cells, -1, |c.cells|)
    requires ExactAt(c.cells, i, |c.cells| - 1)
    requires c.cells[|c.cells| - 1].writes == 0 && c.cells[|c.cells| - 1].outs == []
    ensures ExactAt(Read(c).cells, i, |c.cells| - 1)
  {
    var d, j := Read(c), |c.cells| - 1;
    MeetAppend(c.cells[i].outs, c.cells[j].ins, d.count - 1);
    WithinGrow(c.cells, i, j);
    WithinLocal(c.cells, d.cells, i, j);
    if c.count > 0 {
      NewestProducer(c, i);
    } else {
      NoProducer(c.cells, i);
      NoProducer(c.cells, j);
    }
  }

  lemma ReadKeepsProducers(c: Column)
    requires AllBounded(c.cells, c.count) && SoleProducers(c.cells) && Forward(c.cells) && c.cells != []
    requires c.cells[|c.cells| - 1].outs == []
    ensures var d := Read(c); AllBounded(d.cells, d.count) && SoleProducers(d.cells)
  {
  }

  lemma ReadForward(c: Column)
    requires Forward(c.cells) && c.cells != [] && c.cells[|c.cells| - 1].outs == []
    ensures Forward(Read(c).cells)
  {
  }

  lemma ReadExact(c: Column)
    requires Valid(c) && c.cells != []
    requires c.cells[|c.cells| - 1].writes == 0 && c.cells[|c.cells| - 1].outs == []
    ensures Exact(Read(c).cells)
  {
    var d, last := Read(c), |c.cells| - 1;
    forall i | 0 <= i < last
      ensures ExactAt(d.cells, i, last)
    {
      ReadFeeds(c, i);
    }
    ExactGrow(c.cells, d.cells);
  }

  lemma ReadValid(c: Column)
    requires Valid(c) && c.cells != []
    requires c.cells[|c.cells| - 1].writes == 0 && c.cells[|c.cells| - 1].outs == []
    ensures Valid(Read(c))
  {
    var d, last := Read(c), |c.cells| - 1;
    assert TouchedWithin(d.cells, -1, last + 1) by {
      assert Touches(d.cells[last]);
    }
    ReadListed(c);
    ReadKeepsProducers(c);
    ReadForward(c);
    ReadExact(c);
    UsedGrow(c.cells, d.cells, c.count);
    assert d.count - 1 in d.cells[last].ins;
    WrittenToEnd(c.cells, d.cells, -1);
  }

  lemma {:induction false} ResolveFresh(cells: seq<Cell>, count: nat, ins: seq<nat>, i: nat, j: nat)
    requires i < |cells| && j <= |cells|
    ensures var r := Resolve(cells, count, ins, j);
      && |r.cells| == |cells|
      && (forall v :: v in r.cells[i].outs ==> v in cells[i].outs || v >= count)
      && (r.cells[i].outs == cells[i].outs || (cells[i].outs == [] && |r.cells[i].outs| == 1))
    decreases j
  {
    ResolveFrame(cells, count, ins, j);
    if j > 0 {
      var s := ScanStep(cells, count, ins, j);
      ResolveFresh(s.cells, s.count, s.ins, i, j - 1);
    }
  }

  // Writing a table that nobody has mentioned yet.
  lemma FirstWriteValid(c: Column)
    requires Valid(c) && c.cells != [] && c.count == 0
    ensures Valid(Write(c))
  {
    var b, last := Write(c).cells, |c.cells| - 1;
    forall i | 0 <= i < |c.cells|
      ensures c.cells[i].outs == [] && c.cells[i].ins == [] && !Touches(c.cells[i])
    {
      NoProducer(c.cells, i);
    }
    assert Touches(b[last]);
    assert AllBounded(b, 1) && SoleProducers(b) && Forward(b);
    assert 0 in b[last].outs && b[last].writes > 0;
    forall i | 0 <= i <= last ensures ListedAt(b, i) && NewestAt(Write(c), i) {}
    forall i | 0 <= i < last ensures ExactAt(b, i, last) {}
    ExactGrow(c.cells, b);
  }

  lemma WriteListed(c: Column)
    requires Valid(c) && c.cells != [] && c.count > 0
    ensures Listed(Write(c).cells) && Newest(Write(c))
  {
    var b, n := Write(c).cells, |c.cells|;
    var cur := c.cells[n - 1];
    ResolveFrame(c.cells, c.count, cur.ins, n - 1);
    forall i | 0 <= i < n
      ensures ListedAt(b, i) && NewestAt(Write(c), i)
    {
      assert ListedAt(c.cells, i);
      if i < n - 1 {
        ResolveFeeds(c.cells, c.count, cur.ins, i, n - 1);
        assert WrittenWithin(b, i, n) by { assert b[n - 1].writes > 0; }
      }
    }
  }

  lemma WriteFeeds(c: Column, i: nat)
    requires Valid(c) && i < |c.cells| - 1 && c.count > 0
    ensures ExactAt(Write(c).cells, i, |c.cells| - 1)
  {
    var b, last := Write(c).cells, |c.cells| - 1;
    var cur := c.cells[last];
    ResolveFrame(c.cells, c.count, cur.ins, last);
    ResolveFeeds(c.cells, c.count, cur.ins, i, last);
    assert ListedAt(c.cells, i) && ListedAt(c.cells, last) && ExactAt(c.cells, i, last);
    WithinGrow(c.cells, i, last);
    WithinLocal(c.cells, b, i, last);
    assert IdleWithin(c.cells, i, last) <==> !TouchedWithin(c.cells, i, last) by {
      forall k | i < k < last ensures Idle(c.cells[k]) <==> !Touches(c.cells[k]) {
        assert ListedAt(c.cells, k);
      }
    }
  }

  lemma WriteSound(c: Column)
    requires Valid(c) && c.cells != [] && c.count > 0
    ensures var d := Write(c); AllBounded(d.cells, d.count) && SoleProducers(d.cells) && Forward(d.cells)
  {
    var last := |c.cells| - 1;
    var cur := c.cells[last];
    var r := Resolve(c.cells, c.count, cur.ins, last);
    assert Sound(Resolution(c.cells, c.count, cur.ins));
    ResolveFrame(c.cells, c.count, cur.ins, last);
    ResolveSound(c.cells, c.count, cur.ins, last);
    forall v | v in cur.outs ensures v !in r.ins {
      if v in r.ins && v !in cur.ins {
        ResolveSources(c.cells, c.count, cur.ins, last, v);
      }
    }
    forall v | v in r.ins ensures v != r.count {}
  }

  lemma WriteLean(c: Column)
    requires Valid(c) && c.cells != [] && c.count > 0
    ensures Lean(Write(c).cells)
  {
    var b, last := Write(c).cells, |c.cells| - 1;
    var cur := c.cells[last];
    ResolveFrame(c.cells, c.count, cur.ins, last);
    assert ListedAt(c.cells, last);
    forall i | 0 <= i < last ensures |b[i].outs| <= if b[i].writes == 0 then 1 else b[i].writes {
      ResolveFresh(c.cells, c.count, cur.ins, i, last);
    }
  }

  lemma WriteUsed(c: Column)
    requires Valid(c) && c.cells != [] && c.count > 0
    ensures Used(Write(c).cells, Write(c).count)
  {
    var d, last := Write(c), |c.cells| - 1;
    var cur := c.cells[last];
    var r := Resolve(c.cells, c.count, cur.ins, last);
    ResolveFrame(c.cells, c.count, cur.ins, last);
    ResolveUsed(c.cells, c.count, cur.ins, last);
    UsedGrow(r.cells, d.cells, r.count);
    assert r.count in d.cells[last].outs;
  }

  lemma WriteExact(c: Column)
    requires Valid(c) && c.cells != [] && c.count > 0
    ensures Exact(Write(c).cells)
  {
    var b, last := Write(c).cells, |c.cells| - 1;
    var cur := c.cells[last];
    ResolveFrame(c.cells, c.count, cur.ins, last);
    forall i | 0 <= i < last ensures ExactAt(b, i, last) {
      WriteFeeds(c, i);
    }
    forall i, j | 0 <= i < j < last
      ensures Meet(b[i].outs, b[j].ins) <==> Meet(c.cells[i].outs, c.cells[j].ins)
    {
      ResolveFresh(c.cells, c.count, cur.ins, i, last);
      ResolveFeeds(c.cells, c.count, cur.ins, i, last);
      assert Bounded(c.cells[j].ins, c.count);
    }
    ExactGrow(c.cells, b);
  }

  lemma WriteValid(c: Column)
    requires Valid(c) && c.cells != []
    ensures Valid(Write(c))
  {
    if c.count == 0 {
      FirstWriteValid(c);
    } else {
      ResolveFrame(c.cells, c.count, c.cells[|c.cells| - 1].ins, |c.cells| - 1);
      WriteListed(c);
      WriteLean(c);
      WriteSound(c);
      WriteExact(c);
      WriteUsed(c);
      assert Touches(Write(c).cells[|c.cells| - 1]);
    }
  }
}
