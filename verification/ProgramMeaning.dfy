/**
  What the dependency graph is for: running the statements of a SQL program in any order the
  graph allows.  Running a statement records what it saw of the tables it reads or writes and
  replaces the contents of the tables it writes.
 */
module ProgramMeaning {
  import opened DependencyGraph
  import opened EdgeSet

  type Content = seq<string>

  // The database, and what every statement run so far has seen of it.
  datatype World = World(tables: map<string, Content>, seen: map<nat, map<string, Content>>)

  // What the k-th statement leaves in the tables it writes, given what it sees.
  type Behaviour = (nat, map<string, Content>) -> map<string, Content>

  function View(s: ParsedStmt, tables: map<string, Content>): map<string, Content> {
    map t | t in tables && (Reads(s, t) || Writes(s, t)) :: tables[t]
  }

  function Exec(p: Program, b: Behaviour, k: nat, w: World): World
    requires k < |p|
  {
    var view := View(p[k], w.tables);
    var left := b(k, view);
    World((map t | t in w.tables && !Writes(p[k], t) :: w.tables[t]) + (map t | t in left && Writes(p[k], t) :: left[t]),
          w.seen[k := view])
  }

  ghost predicate InRange(order: seq<nat>, n: nat) {
    forall a :: 0 <= a < |order| ==> order[a] < n
  }

  function Run(p: Program, b: Behaviour, order: seq<nat>, w: World): World
    requires InRange(order, |p|)
  {
    if order == [] then w
    else
      var n := |order| - 1;
      Exec(p, b, order[n], Run(p, b, order[..n], w))
  }

  function Upto(n: nat): seq<nat> {
    seq(n, k => k)
  }

  ghost predicate Distinct(order: seq<nat>) {
    forall a, c :: 0 <= a < c < |order| ==> order[a] != order[c]
  }

  // Every statement exactly once.
  ghost predicate Schedule(order: seq<nat>, n: nat) {
    InRange(order, n) && Distinct(order) && forall k: nat :: k < n ==> k in order
  }

  // A schedule in which the graph has no edge from a later statement to an earlier one.
  ghost predicate Topological(p: Program, order: seq<nat>) {
    Schedule(order, |p|) &&
    forall a, c :: 0 <= a < c < |order| ==> !Edge(Vertices(p), order[c], order[a])
  }

  // Whatever the statements do, every schedule the graph allows lets each statement see what
  // it sees in program order and leaves the same tables.
  ghost predicate PreservesMeaning(p: Program) {
    forall order, b, w :: Topological(p, order) && InRange(order, |p|) ==>
      Run(p, b, order, w) == Run(p, b, Upto(|p|), w)
  }

  // ---- hazards and paths

  ghost predicate Reach(p: Program, i: nat, j: nat)
    decreases j
  {
    i == j || exists k :: i <= k < j && Precedes(p, k, j) && Reach(p, i, k)
  }

  // Every statement that reads a table is ordered before every later one that writes it.
  ghost predicate ReadersPrecedeWriters(p: Program) {
    forall i, j, t :: 0 <= i < j < |p| && Reads(p[i], t) && Writes(p[j], t) ==> Reach(p, i, j)
  }

  // Two statements see the same version of a table that is overwritten afterwards.
  ghost predicate SharedThenWritten(p: Program, a: nat, c: nat, t: string)
    requires a < c < |p|
  {
    && Reads(p[a], t) && Reads(p[c], t) && !Writes(p[a], t) && !WrittenBetween(p, a, c, t)
    && exists j :: c <= j < |p| && Writes(p[j], t)
  }

  ghost predicate Joined(p: Program, i: nat, j: nat) {
    Precedes(p, i, j) || exists k :: Precedes(p, i, k) && Precedes(p, k, j)
  }

  lemma {:induction false} LastWriterBetween(p: Program, i: nat, j: nat, t: string) returns (k: nat)
    requires WrittenBetween(p, i, j, t) && j <= |p|
    ensures i < k < j && Writes(p[k], t) && !WrittenBetween(p, k, j, t)
    decreases j
  {
    if Writes(p[j - 1], t) {
      k := j - 1;
    } else {
      k := LastWriterBetween(p, i, j - 1, t);
    }
  }

  // Read after write and write after write are joined by at most two edges, in every program.
  lemma WritesAreOrdered(p: Program, i: nat, j: nat, t: string)
    requires i < j < |p| && Writes(p[i], t)
    ensures Writes(p[j], t) ==> Precedes(p, i, j)
    ensures Reads(p[j], t) ==> Joined(p, i, j)
  {
    if Writes(p[j], t) {
      assert OrderedOn(p, i, j, t);
    }
    if Reads(p[j], t) {
      if WrittenBetween(p, i, j, t) {
        var k := LastWriterBetween(p, i, j, t);
        assert OrderedOn(p, i, k, t) && OrderedOn(p, k, j, t);
        assert Precedes(p, i, k) && Precedes(p, k, j);
      } else {
        assert OrderedOn(p, i, j, t);
      }
    }
  }

  lemma JoinedReach(p: Program, i: nat, j: nat)
    requires Joined(p, i, j)
    ensures Reach(p, i, j)
  {
    assert Reach(p, i, i);
    if !Precedes(p, i, j) {
      var k :| Precedes(p, i, k) && Precedes(p, k, j);
      assert Reach(p, i, k);
    }
  }

  // ---- running independent statements in either order

  ghost predicate Conflict(a: ParsedStmt, c: ParsedStmt) {
    exists t :: (Writes(a, t) && (Reads(c, t) || Writes(c, t))) || (Reads(a, t) && Writes(c, t))
  }

  lemma ViewUnaffected(p: Program, b: Behaviour, i: nat, j: nat, w: World)
    requires i < |p| && j < |p| && !Conflict(p[i], p[j])
    ensures !Conflict(p[j], p[i])
    ensures View(p[j], Exec(p, b, i, w).tables) == View(p[j], w.tables)
  {
  }

  function Lookup(tables: map<string, Content>, t: string): seq<Content> {
    if t in tables then [tables[t]] else []
  }

  lemma SameTables(x: map<string, Content>, y: map<string, Content>)
    requires forall t :: Lookup(x, t) == Lookup(y, t)
    ensures x == y
  {
    forall t ensures (t in x <==> t in y) && (t in x ==> x[t] == y[t]) {
      assert Lookup(x, t) == Lookup(y, t);
    }
  }

  // One table after one statement.
  lemma ExecAt(p: Program, b: Behaviour, k: nat, w: World, t: string)
    requires k < |p|
    ensures Lookup(Exec(p, b, k, w).tables, t)
            == if Writes(p[k], t) then Lookup(b(k, View(p[k], w.tables)), t) else Lookup(w.tables, t)
  {
  }

  lemma CommuteAt(p: Program, b: Behaviour, i: nat, j: nat, w: World, t: string)
    requires i < |p| && j < |p| && !Conflict(p[i], p[j])
    ensures Lookup(Exec(p, b, i, Exec(p, b, j, w)).tables, t) == Lookup(Exec(p, b, j, Exec(p, b, i, w)).tables, t)
  {
    ViewUnaffected(p, b, i, j, w);
    ViewUnaffected(p, b, j, i, w);
    assert !(Writes(p[i], t) && Writes(p[j], t));
    ExecAt(p, b, i, w, t);
    ExecAt(p, b, j, w, t);
    ExecAt(p, b, i, Exec(p, b, j, w), t);
    ExecAt(p, b, j, Exec(p, b, i, w), t);
  }

  lemma SwapUpdates<T>(m: map<nat, T>, i: nat, x: T, j: nat, y: T)
    requires i != j
    ensures m[i := x][j := y] == m[j := y][i := x]
  {
  }

  lemma Commute(p: Program, b: Behaviour, i: nat, j: nat, w: World)
    requires i < |p| && j < |p| && i != j && !Conflict(p[i], p[j])
    ensures Exec(p, b, i, Exec(p, b, j, w)) == Exec(p, b, j, Exec(p, b, i, w))
  {
    var x, y := Exec(p, b, i, Exec(p, b, j, w)), Exec(p, b, j, Exec(p, b, i, w));
    ViewUnaffected(p, b, i, j, w);
    ViewUnaffected(p, b, j, i, w);
    SwapUpdates(w.seen, i, View(p[i], w.tables), j, View(p[j], w.tables));
    assert x.tables == y.tables by {
      forall t ensures Lookup(x.tables, t) == Lookup(y.tables, t) {
        CommuteAt(p, b, i, j, w, t);
      }
      SameTables(x.tables, y.tables);
    }
  }

  lemma RunAppend(p: Program, b: Behaviour, order: seq<nat>, k: nat, w: World)
    requires InRange(order, |p|) && k < |p|
    ensures InRange(order + [k], |p|) && Run(p, b, order + [k], w) == Exec(p, b, k, Run(p, b, order, w))
  {
    assert (order + [k])[..|order|] == order;
  }

  ghost predicate Independent(p: Program, order: seq<nat>, m: nat)
    requires InRange(order, |p|) && m < |p|
  {
    forall a :: 0 <= a < |order| ==> order[a] != m && !Conflict(p[order[a]], p[m])
  }

  lemma {:induction false} RunConcat(p: Program, b: Behaviour, x: seq<nat>, y: seq<nat>, w: World)
    requires InRange(x, |p|) && InRange(y, |p|)
    ensures InRange(x + y, |p|) && Run(p, b, x + y, w) == Run(p, b, y, Run(p, b, x, w))
    decreases |y|
  {
    if y == [] {
      assert x + y == x;
    } else {
      var y', k := y[..|y| - 1], y[|y| - 1];
      RunConcat(p, b, x, y', w);
      RunAppend(p, b, x + y', k, w);
      assert x + y == (x + y') + [k];
    }
  }

  // A statement may be postponed past statements it does not conflict with.
  lemma {:induction false} Postpone(p: Program, b: Behaviour, m: nat, after: seq<nat>, w: World)
    requires InRange(after, |p|) && m < |p| && Independent(p, after, m)
    ensures Run(p, b, after, Exec(p, b, m, w)) == Exec(p, b, m, Run(p, b, after, w))
    decreases |after|
  {
    if after != [] {
      var n := |after| - 1;
      Postpone(p, b, m, after[..n], w);
      Commute(p, b, after[n], m, Run(p, b, after[..n], w));
    }
  }

  // Only independent statements are run out of program order.
  ghost predicate Harmless(p: Program, order: seq<nat>)
    requires InRange(order, |p|)
  {
    forall a, c :: 0 <= a < c < |order| && order[c] < order[a] ==> !Conflict(p[order[c]], p[order[a]])
  }

  lemma {:induction false} Rearrange(p: Program, b: Behaviour, order: seq<nat>, n: nat, w: World)
    requires n <= |p| && Schedule(order, n) && InRange(order, |p|) && Harmless(p, order)
    ensures InRange(Upto(n), |p|) && Run(p, b, order, w) == Run(p, b, Upto(n), w)
    decreases n
  {
    if n == 0 {
      assert |order| == 0;
    } else {
      var m := n - 1;
      assert m in order;
      var q :| 0 <= q < |order| && order[q] == m;
      RestHarmless(p, order, n, q);
      RestSchedule(order, n, q);
      Rearrange(p, b, order[..q] + order[q + 1..], m, w);
      MoveToEnd(p, b, order, q, w);
      RunAppend(p, b, Upto(m), m, w);
      assert Upto(n) == Upto(m) + [m];
    }
  }

  lemma MoveToEnd(p: Program, b: Behaviour, order: seq<nat>, q: nat, w: World)
    requires InRange(order, |p|) && q < |order| && InRange(order[..q], |p|) && InRange(order[q + 1..], |p|)
    requires Independent(p, order[q + 1..], order[q])
    ensures InRange(order[..q] + order[q + 1..], |p|)
    ensures Run(p, b, order, w) == Exec(p, b, order[q], Run(p, b, order[..q] + order[q + 1..], w))
  {
    var before, after, m := order[..q], order[q + 1..], order[q];
    assert order == (before + [m]) + after;
    RunAppend(p, b, before, m, w);
    RunConcat(p, b, before + [m], after, w);
    RunConcat(p, b, before, after, w);
    Postpone(p, b, m, after, Run(p, b, before, w));
  }

  lemma RestHarmless(p: Program, order: seq<nat>, n: nat, q: nat)
    requires n <= |p| && Schedule(order, n) && InRange(order, |p|) && Harmless(p, order)
    requires q < |order| && order[q] == n - 1
    ensures InRange(order[..q], |p|) && InRange(order[q + 1..], |p|)
    ensures Independent(p, order[q + 1..], n - 1)
    ensures InRange(order[..q] + order[q + 1..], |p|) && Harmless(p, order[..q] + order[q + 1..])
  {
    var rest := order[..q] + order[q + 1..];
    forall a | 0 <= a < |rest| ensures rest[a] == order[if a < q then a else a + 1] {}
    forall a | q < a < |order| ensures order[a] != n - 1 && !Conflict(p[order[a]], p[n - 1]) {
      assert order[a] < n;
    }
  }

  lemma RestSchedule(order: seq<nat>, n: nat, q: nat)
    requires Schedule(order, n) && q < |order| && order[q] == n - 1
    ensures Schedule(order[..q] + order[q + 1..], n - 1)
  {
    var rest := order[..q] + order[q + 1..];
    forall a | 0 <= a < |rest| ensures rest[a] < n - 1 {
      assert rest[a] == order[if a < q then a else a + 1];
    }
    forall k: nat | k < n - 1 ensures k in rest {
      assert k in order;
      var a :| 0 <= a < |order| && order[a] == k;
      assert rest[if a < q then a else a - 1] == k;
    }
  }

  // ---- the graph's paths force an order

  lemma {:induction false} ReachForces(p: Program, order: seq<nat>, i: nat, j: nat, a: nat, c: nat)
    requires Topological(p, order) && Reach(p, i, j) && i < |p| && j < |p|
    requires a < |order| && c < |order| && order[a] == i && order[c] == j
    ensures a <= c
    decreases j
  {
    if i != j {
      var k :| i <= k < j && Precedes(p, k, j) && Reach(p, i, k);
      assert k in order;
      var d :| 0 <= d < |order| && order[d] == k;
      ExactEdges(p, k, j);
      ReachForces(p, order, i, k, a, d);
    }
  }

  lemma OrderedEnough(p: Program, order: seq<nat>)
    requires Topological(p, order) && ReadersPrecedeWriters(p)
    ensures Harmless(p, order)
  {
    forall a, c | 0 <= a < c < |order| && order[c] < order[a]
      ensures !Conflict(p[order[c]], p[order[a]])
    {
      var i, j := order[c], order[a];
      if Conflict(p[i], p[j]) {
        var t :| (Writes(p[i], t) && (Reads(p[j], t) || Writes(p[j], t))) || (Reads(p[i], t) && Writes(p[j], t));
        if Writes(p[i], t) {
          WritesAreOrdered(p, i, j, t);
          JoinedReach(p, i, j);
        }
        ReachForces(p, order, i, j, c, a);
      }
    }
  }

  // ---- a reader that the graph does not order after all

  // Only statement j leaves anything behind, a row in table t.
  function Marker(j: nat, t: string): Behaviour {
    (k: nat, view: map<string, Content>) => if k == j then map[t := ["row"]] else map[]
  }

  // The last statement of the schedule that writes t is j.
  ghost predicate LastWriterIs(p: Program, order: seq<nat>, j: nat, t: string)
    requires InRange(order, |p|)
  {
    exists a :: 0 <= a < |order| && order[a] == j && forall c :: a < c < |order| ==> !Writes(p[order[c]], t)
  }

  lemma LastWriterStep(p: Program, order: seq<nat>, k: nat, j: nat, t: string)
    requires InRange(order, |p|) && k < |p| && j < |p| && Writes(p[j], t)
    ensures InRange(order + [k], |p|)
    ensures LastWriterIs(p, order + [k], j, t) <==> if Writes(p[k], t) then k == j else LastWriterIs(p, order, j, t)
  {
    var next, n := order + [k], |order|;
    if k == j {
      assert next[n] == j;
    }
    if LastWriterIs(p, order, j, t) && !Writes(p[k], t) {
      var a :| 0 <= a < n && order[a] == j && forall c :: a < c < n ==> !Writes(p[order[c]], t);
      assert next[a] == j;
    }
    if LastWriterIs(p, next, j, t) && k != j {
      var a :| 0 <= a < n + 1 && next[a] == j && forall c :: a < c < n + 1 ==> !Writes(p[next[c]], t);
      assert next[n] == k;
      assert order[a] == j && forall c :: a < c < n ==> order[c] == next[c];
    }
  }

  // Table t is there exactly when j ran and nobody has written t since.
  lemma {:induction false} MarkerLeft(p: Program, j: nat, t: string, order: seq<nat>, w: World)
    requires InRange(order, |p|) && j < |p| && Writes(p[j], t) && t !in w.tables
    ensures t in Run(p, Marker(j, t), order, w).tables <==> LastWriterIs(p, order, j, t)
    decreases |order|
  {
    if order != [] {
      var n := |order| - 1;
      var rest := order[..n];
      MarkerLeft(p, j, t, rest, w);
      assert order == rest + [order[n]];
      LastWriterStep(p, rest, order[n], j, t);
      var before := Run(p, Marker(j, t), rest, w);
      ExecAt(p, Marker(j, t), order[n], before, t);
    }
  }

  // What a statement saw is decided by what ran before it.
  lemma {:induction false} SeenAt(p: Program, b: Behaviour, order: seq<nat>, a: nat, w: World)
    requires InRange(order, |p|) && Distinct(order) && a < |order|
    ensures order[a] in Run(p, b, order, w).seen
    ensures InRange(order[..a], |p|)
    ensures Run(p, b, order, w).seen[order[a]] == View(p[order[a]], Run(p, b, order[..a], w).tables)
    decreases |order|
  {
    var n := |order| - 1;
    if a < n {
      SeenAt(p, b, order[..n], a, w);
      assert order[..n][..a] == order[..a];
    }
  }

  // The statements below n that must precede j come first, each group in program order.
  ghost function Pick(p: Program, j: nat, n: nat, wanted: bool): seq<nat> {
    if n == 0 then []
    else Pick(p, j, n - 1, wanted) + if Reach(p, n - 1, j) == wanted then [n - 1] else []
  }

  ghost predicate Increasing(s: seq<nat>) {
    forall a, c :: 0 <= a < c < |s| ==> s[a] < s[c]
  }

  lemma {:induction false} PickMembers(p: Program, j: nat, n: nat, wanted: bool)
    ensures forall k: nat :: k in Pick(p, j, n, wanted) <==> k < n && Reach(p, k, j) == wanted
    ensures Increasing(Pick(p, j, n, wanted))
  {
    if n > 0 {
      PickMembers(p, j, n - 1, wanted);
      var s, r := Pick(p, j, n - 1, wanted), Pick(p, j, n, wanted);
      forall a, c | 0 <= a < c < |r| ensures r[a] < r[c] {
        assert r[a] == s[a] && s[a] in s;
      }
    }
  }

  ghost function EarlyOrder(p: Program, j: nat): seq<nat> {
    Pick(p, j, |p|, true) + Pick(p, j, |p|, false)
  }

  lemma {:induction false} ReachTrans(p: Program, i: nat, k: nat, j: nat)
    requires Precedes(p, i, k) && Reach(p, k, j)
    ensures Reach(p, i, j)
    decreases j
  {
    if k == j {
      assert Reach(p, i, i);
    } else {
      var m :| k <= m < j && Precedes(p, m, j) && Reach(p, k, m);
      ReachTrans(p, i, k, m);
    }
  }

  lemma EarlyTopological(p: Program, j: nat)
    requires j < |p|
    ensures Topological(p, EarlyOrder(p, j))
  {
    var first, rest := Pick(p, j, |p|, true), Pick(p, j, |p|, false);
    var order := EarlyOrder(p, j);
    PickMembers(p, j, |p|, true);
    PickMembers(p, j, |p|, false);
    forall a | 0 <= a < |order|
      ensures order[a] < |p| && (Reach(p, order[a], j) <==> a < |first|)
    {
      assert if a < |first| then order[a] in first else order[a] in rest;
    }
    forall k: nat | k < |p| ensures k in order {
      assert k in first || k in rest;
    }
    forall a, c | 0 <= a < c < |order|
      ensures order[a] != order[c] && !Edge(Vertices(p), order[c], order[a])
    {
      ExactEdges(p, order[c], order[a]);
      if c < |first| {
        assert first[a] < first[c];
      } else if |first| <= a {
        assert rest[a - |first|] < rest[c - |first|];
      } else if Precedes(p, order[c], order[a]) {
        ReachTrans(p, order[c], order[a], j);
      }
    }
  }

  lemma ReachUpward(p: Program, i: nat, j: nat)
    ensures Reach(p, i, j) ==> i <= j
  {
  }

  lemma EarlySplit(p: Program, j: nat, a: nat)
    requires j < |p| && a < |EarlyOrder(p, j)|
    ensures EarlyOrder(p, j)[a] < |p|
    ensures Reach(p, EarlyOrder(p, j)[a], j) <==> a < |Pick(p, j, |p|, true)|
  {
    var first, rest, order := Pick(p, j, |p|, true), Pick(p, j, |p|, false), EarlyOrder(p, j);
    PickMembers(p, j, |p|, true);
    PickMembers(p, j, |p|, false);
    assert if a < |first| then order[a] in first else order[a] in rest;
  }

  // Nobody writes t after j and before the reader i.
  lemma ReaderAfterMarker(p: Program, i: nat, j: nat, t: string, a: nat, c: nat, d: nat)
    requires i < j < |p| && Writes(p[j], t) && !Reach(p, i, j)
    requires a < |EarlyOrder(p, j)| && c < |EarlyOrder(p, j)| && EarlyOrder(p, j)[a] == i && EarlyOrder(p, j)[c] == j
    ensures c < a
    ensures c < d < a ==> EarlyOrder(p, j)[d] < |p| && !Writes(p[EarlyOrder(p, j)[d]], t)
  {
    var first, rest, order := Pick(p, j, |p|, true), Pick(p, j, |p|, false), EarlyOrder(p, j);
    PickMembers(p, j, |p|, true);
    PickMembers(p, j, |p|, false);
    EarlySplit(p, j, a);
    EarlySplit(p, j, c);
    if c < d < a {
      EarlySplit(p, j, d);
      assert d >= |first| by {
        assert Increasing(first);
        ReachUpward(p, order[d], j);
      }
      assert order[d] < i by {
        assert order[d] == rest[d - |first|] && i == rest[a - |first|];
      }
      if Writes(p[order[d]], t) {
        WritesAreOrdered(p, order[d], j, t);
        JoinedReach(p, order[d], j);
      }
    }
  }

  lemma EarlyReaderSees(p: Program, i: nat, j: nat, t: string)
    requires i < j < |p| && Reads(p[i], t) && Writes(p[j], t) && !Reach(p, i, j)
    requires Schedule(EarlyOrder(p, j), |p|)
    ensures var seen := Run(p, Marker(j, t), EarlyOrder(p, j), World(map[], map[])).seen;
      i in seen && t in seen[i]
  {
    var order, b, w := EarlyOrder(p, j), Marker(j, t), World(map[], map[]);
    assert i in order && j in order;
    var a :| 0 <= a < |order| && order[a] == i;
    var c :| 0 <= c < |order| && order[c] == j;
    forall d: nat ensures c < a && (c < d < a ==> order[d] < |p| && !Writes(p[order[d]], t)) {
      ReaderAfterMarker(p, i, j, t, a, c, d);
    }
    SeenAt(p, b, order, a, w);
    var before := order[..a];
    assert t in Run(p, b, before, w).tables by {
      MarkerLeft(p, j, t, before, w);
      assert before[c] == j;
    }
  }

  lemma ReaderInProgramOrder(p: Program, i: nat, j: nat, t: string)
    requires i < j < |p| && Writes(p[j], t)
    ensures var seen := Run(p, Marker(j, t), Upto(|p|), World(map[], map[])).seen;
      i in seen && t !in seen[i]
  {
    var order, b, w := Upto(|p|), Marker(j, t), World(map[], map[]);
    SeenAt(p, b, order, i, w);
    MarkerLeft(p, j, t, order[..i], w);
  }

  // If j may be scheduled before an earlier reader i, some behaviour tells the difference.
  lemma UnorderedReaderSees(p: Program, i: nat, j: nat, t: string)
    requires i < j < |p| && Reads(p[i], t) && Writes(p[j], t) && !Reach(p, i, j)
    ensures !PreservesMeaning(p)
  {
    var order, b, w := EarlyOrder(p, j), Marker(j, t), World(map[], map[]);
    EarlyTopological(p, j);
    EarlyReaderSees(p, i, j, t);
    ReaderInProgramOrder(p, i, j, t);
    assert Run(p, b, order, w) != Run(p, b, Upto(|p|), w);
  }

  // ---- the main results

  // The graph preserves the meaning of exactly those programs whose readers it orders.
  lemma MeaningIffReadersOrdered(p: Program)
    ensures PreservesMeaning(p) <==> ReadersPrecedeWriters(p)
  {
    if ReadersPrecedeWriters(p) {
      forall order, b, w | Topological(p, order) && InRange(order, |p|)
        ensures Run(p, b, order, w) == Run(p, b, Upto(|p|), w)
      {
        OrderedEnough(p, order);
        Rearrange(p, b, order, |p|, w);
      }
    } else {
      var i, j, t :| 0 <= i < j < |p| && Reads(p[i], t) && Writes(p[j], t) && !Reach(p, i, j);
      UnorderedReaderSees(p, i, j, t);
    }
  }

  // In particular it does when no two statements share a version that is later overwritten.
  lemma UnsharedReadersSuffice(p: Program)
    requires forall a, c, t :: 0 <= a < c < |p| ==> !SharedThenWritten(p, a, c, t)
    ensures PreservesMeaning(p)
  {
    forall i, j, t | 0 <= i < j < |p| && Reads(p[i], t) && Writes(p[j], t)
      ensures Reach(p, i, j)
    {
      assert OrderedOn(p, i, j, t) by {
        if !Writes(p[i], t) && !WrittenBetween(p, i, j, t) {
          assert !SharedThenWritten(p, i, j, t);
          if TouchedBetween(p, i, j, t) {
            var k :| i < k < j && (Reads(p[k], t) || Writes(p[k], t));
            var _ := SharedThenWritten(p, i, k, t);
          }
        }
      }
      JoinedReach(p, i, j);
    }
    MeaningIffReadersOrdered(p);
  }

  // Two queries on a table that is then dropped: the first may run after the drop.
  const QueriesThenDrop := [
    ParsedStmt("CREATE TABLE table2 AS SELECT * FROM table1;", ["table1"], ["table2"]),
    ParsedStmt("SELECT * FROM table2 WHERE a=1;", ["table2"], []),
    ParsedStmt("SELECT * FROM table2 WHERE a=2;", ["table2"], []),
    ParsedStmt("DROP TABLE table2;", [], ["table2"])]

  lemma QueriesThenDropReordered()
    ensures !Reach(QueriesThenDrop, 1, 3) && !PreservesMeaning(QueriesThenDrop)
  {
    var p := QueriesThenDrop;
    forall k: nat ensures !Precedes(p, 1, k) {
      if Precedes(p, 1, k) {
        var t :| OrderedOn(p, 1, k, t);
        assert Reads(p[2], "table2");
      }
    }
    NoWayOut(p, 1, 3);
    assert Reads(p[1], "table2") && Writes(p[3], "table2");
    UnorderedReaderSees(p, 1, 3, "table2");
  }

  lemma {:induction false} NoWayOut(p: Program, i: nat, j: nat)
    requires i < j && forall k: nat :: !Precedes(p, i, k)
    ensures !Reach(p, i, j)
    decreases j
  {
    forall k | i < k < j ensures !Reach(p, i, k) {
      NoWayOut(p, i, k);
    }
  }
}
