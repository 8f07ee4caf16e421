/**
  Removing comments from a statement before it is parsed: quoted literals are found first, and a
  comment marker that lies in a recorded quotation range does not start a removal.
 */
module CommentRemover {
  import opened Characters
  import opened Wrappers

  datatype Literal = Literal(left: nat, right: nat)

  // A recorded range.  The two slices of left and right ends are one sequence of ranges here.
  datatype Range = Range(left: int, right: int)

  // A removed stretch, from its marker to right before `to`.
  datatype Cut = Cut(from: nat, to: nat)

  // ---- searching

  predicate PairAt(sql: string, k: int, a: char, b: char) {
    0 <= k < |sql| - 1 && sql[k] == a && sql[k + 1] == b
  }

  // Like strings.Index on sql[offset:] for two characters: relative to offset, or -1.
  function IndexPair(sql: string, offset: nat, a: char, b: char): (r: int)
    requires offset <= |sql|
    ensures r == -1 || 0 <= r < |sql| - offset - 1
    decreases |sql| - offset
  {
    if PairAt(sql, offset, a, b) then 0
    else if offset == |sql| then -1
    else
      var rest := IndexPair(sql, offset + 1, a, b);
      if rest == -1 then -1 else rest + 1
  }

  // Like strings.IndexAny and strings.IndexRune on sql[offset:].
  function IndexAny(sql: string, offset: nat, chars: set<char>): (r: int)
    requires offset <= |sql|
    ensures r == -1 || 0 <= r < |sql| - offset
    decreases |sql| - offset
  {
    if offset == |sql| then -1
    else if sql[offset] in chars then 0
    else
      var rest := IndexAny(sql, offset + 1, chars);
      if rest == -1 then -1 else rest + 1
  }

  lemma {:induction false} IndexPairFinds(sql: string, offset: nat, a: char, b: char)
    requires offset <= |sql| && IndexPair(sql, offset, a, b) != -1
    ensures PairAt(sql, offset + IndexPair(sql, offset, a, b), a, b)
    decreases |sql| - offset
  {
    if !PairAt(sql, offset, a, b) {
      IndexPairFinds(sql, offset + 1, a, b);
    }
  }

  lemma {:induction false} IndexAnyFinds(sql: string, offset: nat, chars: set<char>)
    requires offset <= |sql| && IndexAny(sql, offset, chars) != -1
    ensures sql[offset + IndexAny(sql, offset, chars)] in chars
    decreases |sql| - offset
  {
    if sql[offset] !in chars {
      IndexAnyFinds(sql, offset + 1, chars);
    }
  }

  lemma {:induction false} IndexPairIsFirst(sql: string, offset: nat, a: char, b: char, k: nat)
    requires offset <= |sql| && offset <= k
    requires IndexPair(sql, offset, a, b) == -1 || k < offset + IndexPair(sql, offset, a, b)
    ensures !PairAt(sql, k, a, b)
    decreases |sql| - offset
  {
    if offset < k && offset < |sql| {
      IndexPairIsFirst(sql, offset + 1, a, b, k);
    }
  }

  lemma {:induction false} IndexAnyIsFirst(sql: string, offset: nat, chars: set<char>, k: nat)
    requires offset <= k < |sql|
    requires IndexAny(sql, offset, chars) == -1 || k < offset + IndexAny(sql, offset, chars)
    ensures sql[k] !in chars
    decreases |sql| - offset
  {
    if offset < k {
      IndexAnyIsFirst(sql, offset + 1, chars, k);
    }
  }

  // ---- literals

  predicate Closes(sql: string, k: nat, quote: char) {
    k < |sql| && sql[k] == quote && Bare(sql, k)
  }

  // The first position from p on that closes a literal, or -1.
  function CloseOf(sql: string, p: nat, quote: char): (r: int)
    ensures r == -1 || (p <= r && Closes(sql, r, quote))
    decreases |sql| - p
  {
    if Closes(sql, p, quote) then p
    else if p >= |sql| then -1
    else CloseOf(sql, p + 1, quote)
  }

  // The literals from p on, or None if the last one is never closed.
  function Literals(sql: string, p: nat): Option<seq<Literal>>
    requires p <= |sql|
    decreases |sql| - p
  {
    var i := IndexAny(sql, p, {'"', '\''});
    if i == -1 then Some([])
    else
      var close := CloseOf(sql, p + i + 1, sql[p + i]);
      if close == -1 then None
      else
        match Literals(sql, close + 1)
        case None => None
        case Some(rest) => Some([Literal(p + i, close)] + rest)
  }

  // The recorded left ends count from the end of the literal before.
  function RecordedLeft(literals: seq<Literal>, i: nat): int
    requires i < |literals|
  {
    literals[i].left - if i == 0 then 0 else literals[i - 1].right + 1
  }

  function Recorded(literals: seq<Literal>): seq<Range> {
    seq(|literals|, i requires 0 <= i < |literals| => Range(RecordedLeft(literals, i), literals[i].right))
  }

  method IsEscapeRune(sql: string, idx: nat) returns (escaped: bool)
    requires idx < |sql|
    ensures exists n :: BackslashRun(sql, idx, n) && (escaped <==> n % 2 == 1)
    ensures escaped <==> !Bare(sql, idx)
  {
    var cnt := 0;
    var i: int := idx - 1;
    while i >= 0
      invariant -1 <= i < idx && cnt == idx - 1 - i
      invariant forall k :: i < k < idx ==> sql[k] == '\\'
    {
      if sql[i] != '\\' {
        break;
      }
      cnt := cnt + 1;
      i := i - 1;
    }
    assert BackslashRun(sql, idx, cnt);
    BareIff(sql, idx, cnt);
    return cnt % 2 == 1;
  }

  lemma {:induction false} CloseIsFirst(sql: string, p: nat, quote: char, k: nat)
    requires p <= k && (CloseOf(sql, p, quote) == -1 || k < CloseOf(sql, p, quote))
    ensures !Closes(sql, k, quote)
    decreases |sql| - p
  {
    if p < k && p < |sql| {
      CloseIsFirst(sql, p + 1, quote, k);
    }
  }

  // A literal is closed by the first bare mark of its kind.
  lemma {:induction false} CloseIs(sql: string, p: nat, quote: char)
    ensures
      var r := CloseOf(sql, p, quote);
      if r == -1 then NoBare(sql, p, quote) else FirstBare(sql, p, quote, r)
    decreases |sql| - p
  {
    if p < |sql| && !Closes(sql, p, quote) {
      CloseIs(sql, p + 1, quote);
    }
  }

  // The search for the close may jump to the next quotation mark of its kind.
  lemma {:induction false} CloseSkips(sql: string, p: nat, quote: char)
    requires p <= |sql|
    ensures
      var i := IndexAny(sql, p, {quote});
      CloseOf(sql, p, quote) == if i == -1 then -1 else CloseOf(sql, p + i, quote)
    decreases |sql| - p
  {
    if p < |sql| && sql[p] != quote {
      CloseSkips(sql, p + 1, quote);
    }
  }

  // The inner search: skips the escaped quotation marks of this kind.
  method FindRightQuotationMark(sql: string, start: nat, target: char) returns (right: int)
    requires start <= |sql|
    ensures right == CloseOf(sql, start, target)
    ensures if right == -1 then NoBare(sql, start, target) else 0 <= right && FirstBare(sql, start, target, right)
  {
    var offset := start;
    CloseIs(sql, start, target);
    while true
      invariant start <= offset <= |sql| && CloseOf(sql, offset, target) == CloseOf(sql, start, target)
      decreases |sql| - offset
    {
      CloseSkips(sql, offset, target);
      var rightIdx := IndexAny(sql, offset, {target});
      if rightIdx < 0 {
        return -1;
      }
      offset := offset + rightIdx + 1;
      IndexAnyFinds(sql, offset - rightIdx - 1, {target});
      var escaped := IsEscapeRune(sql, offset - 1);
      if !escaped {
        return offset - 1;
      }
    }
  }

  lemma RecordMore(literals: seq<Literal>, offset: nat, leftIdx: nat, right: nat)
    requires offset == if literals == [] then 0 else literals[|literals| - 1].right + 1
    ensures Recorded(literals + [Literal(offset + leftIdx, right)]) == Recorded(literals) + [Range(leftIdx, right)]
  {
    var next := literals + [Literal(offset + leftIdx, right)];
    assert forall i :: 0 <= i < |literals| ==> RecordedLeft(next, i) == RecordedLeft(literals, i);
  }

  // The literals found up to offset, with their recorded ranges.
  ghost predicate Found(sql: string, found: seq<Literal>, offset: nat, ranges: seq<Range>) {
    && offset <= |sql| && offset == (if found == [] then 0 else found[|found| - 1].right + 1)
    && ranges == Recorded(found) && Literals(sql, 0) == Prepend(found, Literals(sql, offset))
  }

  lemma FoundNone(sql: string)
    ensures Found(sql, [], 0, [])
  {
    var all := Literals(sql, 0);
    assert all.Some? ==> [] + all.value == all.value;
  }

  lemma FoundAll(sql: string, found: seq<Literal>, offset: nat, ranges: seq<Range>)
    requires Found(sql, found, offset, ranges) && IndexAny(sql, offset, {'"', '\''}) == -1
    ensures Literals(sql, 0).Some? && ranges == Recorded(Literals(sql, 0).value)
  {
    assert found + [] == found;
  }

  lemma FoundNext(sql: string, found: seq<Literal>, offset: nat, ranges: seq<Range>, leftIdx: nat, right: nat)
    requires Found(sql, found, offset, ranges) && right < |sql|
    requires Literals(sql, offset) == Prepend([Literal(offset + leftIdx, right)], Literals(sql, right + 1))
    ensures Found(sql, found + [Literal(offset + leftIdx, right)], right + 1, ranges + [Range(leftIdx, right)])
  {
    RecordMore(found, offset, leftIdx, right);
    PrependMore(found, Literal(offset + leftIdx, right), Literals(sql, right + 1));
  }

  lemma FoundMore(sql: string, found: seq<Literal>, offset: nat, ranges: seq<Range>)
    requires Found(sql, found, offset, ranges) && IndexAny(sql, offset, {'"', '\''}) != -1
    ensures
      var leftIdx := IndexAny(sql, offset, {'"', '\''});
      var right := CloseOf(sql, offset + leftIdx + 1, sql[offset + leftIdx]);
      if right == -1 then Literals(sql, 0) == None
      else Found(sql, found + [Literal(offset + leftIdx, right)], right + 1, ranges + [Range(leftIdx, right)])
  {
    var leftIdx := IndexAny(sql, offset, {'"', '\''});
    var right := CloseOf(sql, offset + leftIdx + 1, sql[offset + leftIdx]);
    LiteralsNext(sql, offset);
    if right != -1 {
      FoundNext(sql, found, offset, ranges, leftIdx, right);
    }
  }

  // The first literal from p on, and those behind it.
  lemma LiteralsNext(sql: string, p: nat)
    requires p <= |sql| && IndexAny(sql, p, {'"', '\''}) != -1
    ensures
      var left := p + IndexAny(sql, p, {'"', '\''});
      var right := CloseOf(sql, left + 1, sql[left]);
      Literals(sql, p) == if right == -1 then None else Prepend([Literal(left, right)], Literals(sql, right + 1))
  {
  }

  lemma PrependMore(found: seq<Literal>, l: Literal, rest: Option<seq<Literal>>)
    ensures Prepend(found, Prepend([l], rest)) == Prepend(found + [l], rest)
  {
    if rest.Some? {
      assert found + ([l] + rest.value) == found + [l] + rest.value;
    }
  }

  method FindMatchedQuotationMarks(sql: string) returns (ranges: seq<Range>, err: bool)
    ensures err <==> Literals(sql, 0) == None
    ensures !err ==> ranges == Recorded(Literals(sql, 0).value)
  {
    ranges, err := [], false;
    ghost var found: seq<Literal> := [];
    var offset := 0;
    FoundNone(sql);
    while true
      invariant Found(sql, found, offset, ranges)
      decreases |sql| - offset
    {
      var leftIdx := IndexAny(sql, offset, {'"', '\''});
      if leftIdx < 0 {
        FoundAll(sql, found, offset, ranges);
        return ranges, false;
      }
      var right := FindRightQuotationMark(sql, offset + leftIdx + 1, sql[offset + leftIdx]);
      FoundMore(sql, found, offset, ranges);
      if right < 0 {
        return [], true;
      }
      found := found + [Literal(offset + leftIdx, right)];
      ranges, offset := ranges + [Range(leftIdx, right)], right + 1;
    }
  }

  function Prepend(first: seq<Literal>, rest: Option<seq<Literal>>): Option<seq<Literal>> {
    if rest.None? then None else Some(first + rest.value)
  }

  // ---- literals, seen from outside

  // A literal runs from a quotation mark to the first one of its kind that no odd number of
  // backslashes precedes.
  ghost predicate IsLiteral(sql: string, l: Literal) {
    l.left < l.right < |sql| && IsQuote(sql[l.left]) && FirstBare(sql, l.left + 1, sql[l.left], l.right)
  }

  ghost predicate LiteralAfter(sql: string, p: nat, l: Literal) { IsLiteral(sql, l) && p <= l.left }

  ghost predicate InLiteral(literals: seq<Literal>, k: int) {
    exists i :: 0 <= i < |literals| && literals[i].left <= k <= literals[i].right
  }

  lemma {:induction false} LiteralsAreLiterals(sql: string, p: nat)
    requires p <= |sql| && Literals(sql, p).Some?
    ensures forall l :: l in Literals(sql, p).value ==> LiteralAfter(sql, p, l)
    decreases |sql| - p
  {
    var i := IndexAny(sql, p, {'"', '\''});
    if i != -1 {
      IndexAnyFinds(sql, p, {'"', '\''});
      var close := CloseOf(sql, p + i + 1, sql[p + i]);
      CloseIs(sql, p + i + 1, sql[p + i]);
      assert LiteralAfter(sql, p, Literal(p + i, close));
      LiteralsAreLiterals(sql, close + 1);
    }
  }

  // One literal ends before the next one begins.
  lemma {:induction false} LiteralsApart(sql: string, p: nat, i: nat, j: nat)
    requires p <= |sql| && Literals(sql, p).Some? && i < j < |Literals(sql, p).value|
    ensures Literals(sql, p).value[i].right < Literals(sql, p).value[j].left
    decreases |sql| - p
  {
    var k := IndexAny(sql, p, {'"', '\''});
    var close := CloseOf(sql, p + k + 1, sql[p + k]);
    if i > 0 {
      LiteralsApart(sql, close + 1, i - 1, j - 1);
    } else {
      LiteralsAreLiterals(sql, close + 1);
      var rest := Literals(sql, close + 1).value;
      assert Literals(sql, p).value[j] == rest[j - 1] && rest[j - 1] in rest;
    }
  }

  // No quotation mark lies outside of the literals.
  lemma {:induction false} QuotesAreInLiterals(sql: string, p: nat, k: nat)
    requires p <= k < |sql| && IsQuote(sql[k]) && Literals(sql, p).Some?
    ensures InLiteral(Literals(sql, p).value, k)
    decreases |sql| - p
  {
    QuoteIsFound(sql, p, k);
    LiteralsNext(sql, p);
    var i := IndexAny(sql, p, {'"', '\''});
    var close := CloseOf(sql, p + i + 1, sql[p + i]);
    if k > close {
      QuotesAreInLiterals(sql, close + 1, k);
    }
    InFirstOrRest(Literal(p + i, close), Literals(sql, close + 1).value, k);
  }

  lemma QuoteIsFound(sql: string, p: nat, k: nat)
    requires p <= k < |sql| && IsQuote(sql[k])
    ensures IndexAny(sql, p, {'"', '\''}) != -1 && p + IndexAny(sql, p, {'"', '\''}) <= k
  {
    var i := IndexAny(sql, p, {'"', '\''});
    if i == -1 || k < p + i {
      IndexAnyIsFirst(sql, p, {'"', '\''}, k);
    }
  }

  lemma InFirstOrRest(l: Literal, rest: seq<Literal>, k: int)
    ensures InLiteral([l] + rest, k) <==> l.left <= k <= l.right || InLiteral(rest, k)
  {
    var all := [l] + rest;
    if l.left <= k <= l.right {
      assert all[0].left <= k <= all[0].right;
    }
    if j :| 0 <= j < |rest| && rest[j].left <= k <= rest[j].right {
      assert all[j + 1].left <= k <= all[j + 1].right;
    }
  }

  // Within a recorded range.
  ghost predicate Covered(ranges: seq<Range>, k: int) {
    exists i :: 0 <= i < |ranges| && Holds(ranges[i], k)
  }

  predicate Holds(r: Range, k: int) { r.left <= k <= r.right }

  // What lies in a literal is covered.
  lemma LiteralsAreCovered(literals: seq<Literal>, k: int)
    requires InLiteral(literals, k)
    ensures Covered(Recorded(literals), k)
  {
    var i :| 0 <= i < |literals| && literals[i].left <= k <= literals[i].right;
    assert Holds(Recorded(literals)[i], k);
  }

  // The literals lie back to back from the start of the text.
  ghost predicate BackToBack(literals: seq<Literal>) {
    forall i :: 0 <= i < |literals| ==> Follows(literals, i)
  }

  ghost predicate Follows(literals: seq<Literal>, i: nat)
    requires i < |literals|
  {
    literals[i].left == if i == 0 then 0 else literals[i - 1].right + 1
  }

  ghost predicate Exact(literals: seq<Literal>) {
    forall k: nat :: Covered(Recorded(literals), k) ==> InLiteral(literals, k)
  }

  // The recorded ranges are exactly the literals only for up to one literal, or for literals that lie
  // back to back from the start; any other text has covered characters outside of literals.
  lemma RangesExactIff(sql: string)
    requires Literals(sql, 0).Some?
    ensures Exact(Literals(sql, 0).value) <==> |Literals(sql, 0).value| <= 1 || BackToBack(Literals(sql, 0).value)
  {
    var literals := Literals(sql, 0).value;
    if |literals| <= 1 {
      forall k: nat | Covered(Recorded(literals), k)
        ensures InLiteral(literals, k)
      {
        assert literals[0].left <= k <= literals[0].right;
      }
    } else if BackToBack(literals) {
      forall k: nat | Covered(Recorded(literals), k)
        ensures InLiteral(literals, k)
      {
        var i :| 0 <= i < |literals| && Holds(Recorded(literals)[i], k);
        InBackToBack(literals, i, k);
      }
    } else if Exact(literals) {
      ExactMeansBackToBack(sql);
    }
  }

  lemma {:induction false} InBackToBack(literals: seq<Literal>, i: nat, k: nat)
    requires BackToBack(literals) && i < |literals| && k <= literals[i].right
    ensures InLiteral(literals, k)
    decreases i
  {
    assert Follows(literals, i);
    if k >= literals[i].left {
      assert literals[i].left <= k <= literals[i].right;
    } else {
      InBackToBack(literals, i - 1, k);
    }
  }

  lemma ExactMeansBackToBack(sql: string)
    requires Literals(sql, 0).Some? && |Literals(sql, 0).value| > 1 && Exact(Literals(sql, 0).value)
    ensures BackToBack(Literals(sql, 0).value)
  {
    var literals := Literals(sql, 0).value;
    forall i | 0 < i < |literals|
      ensures Follows(literals, i)
    {
      NextCovers(sql, i);
      var j :| 0 <= j < |literals| && literals[j].left <= literals[i].left - 1 <= literals[j].right;
      LiteralsMeet(sql, i, j);
    }
    assert Follows(literals, 1);
    assert Holds(Recorded(literals)[1], 0);
    assert Covered(Recorded(literals), 0);
    var j :| 0 <= j < |literals| && literals[j].left <= 0 <= literals[j].right;
    if j > 0 {
      LiteralsApart(sql, 0, 0, j);
    }
    assert Follows(literals, 0);
  }

  // The character in front of a literal that is not the first is covered.
  lemma NextCovers(sql: string, i: nat)
    requires Literals(sql, 0).Some? && 0 < i < |Literals(sql, 0).value|
    ensures 0 < Literals(sql, 0).value[i].left && Covered(Recorded(Literals(sql, 0).value), Literals(sql, 0).value[i].left - 1)
  {
    var literals := Literals(sql, 0).value;
    LiteralsApart(sql, 0, i - 1, i);
    LiteralsAreLiterals(sql, 0);
    assert literals[i] in literals;
    assert Holds(Recorded(literals)[i], literals[i].left - 1);
  }

  lemma LiteralBounds(sql: string, i: nat)
    requires Literals(sql, 0).Some? && i < |Literals(sql, 0).value|
    ensures Literals(sql, 0).value[i].left < Literals(sql, 0).value[i].right
  {
    LiteralsAreLiterals(sql, 0);
    assert Literals(sql, 0).value[i] in Literals(sql, 0).value;
  }

  lemma LiteralsMeet(sql: string, i: nat, j: nat)
    requires Literals(sql, 0).Some? && 0 < i < |Literals(sql, 0).value| && j < |Literals(sql, 0).value|
    requires var literals := Literals(sql, 0).value; literals[j].left <= literals[i].left - 1 <= literals[j].right
    ensures Follows(Literals(sql, 0).value, i)
  {
    var literals := Literals(sql, 0).value;
    LiteralsApart(sql, 0, i - 1, i);
    LiteralBounds(sql, i - 1);
    LiteralBounds(sql, i);
    if i < j {
      LiteralsApart(sql, 0, i, j);
    } else if j < i - 1 {
      LiteralsApart(sql, 0, j, i - 1);
    }
  }

  // The literals of the text from p on: apart and in order, and with every quotation mark.
  ghost predicate AllLiterals(sql: string, p: nat, literals: seq<Literal>) {
    && (forall l :: l in literals ==> LiteralAfter(sql, p, l))
    && (forall i, j :: 0 <= i < j < |literals| ==> literals[i].right < literals[j].left)
    && forall k :: p <= k < |sql| && IsQuote(sql[k]) ==> InLiteral(literals, k)
  }

  // The first of them begins at the first quotation mark.
  lemma FirstLiteral(sql: string, p: nat, literals: seq<Literal>)
    requires p <= |sql| && AllLiterals(sql, p, literals) && IndexAny(sql, p, {'"', '\''}) != -1
    ensures
      var left := p + IndexAny(sql, p, {'"', '\''});
      literals != [] && literals[0].left == left && literals[0].right == CloseOf(sql, left + 1, sql[left])
      && LiteralAfter(sql, p, literals[0])
  {
    var left := p + IndexAny(sql, p, {'"', '\''});
    IndexAnyFinds(sql, p, {'"', '\''});
    var i :| 0 <= i < |literals| && literals[i].left <= left <= literals[i].right;
    assert literals[0] in literals && LiteralAfter(sql, p, literals[0]);
    NoEarlierLiteral(sql, p, literals[0]);
    ClosesAt(sql, literals[0].left + 1, sql[literals[0].left], literals[0].right);
  }

  lemma NoEarlierLiteral(sql: string, p: nat, l: Literal)
    requires p <= |sql| && LiteralAfter(sql, p, l) && IndexAny(sql, p, {'"', '\''}) != -1
    ensures p + IndexAny(sql, p, {'"', '\''}) <= l.left
  {
    if l.left < p + IndexAny(sql, p, {'"', '\''}) {
      IndexAnyIsFirst(sql, p, {'"', '\''}, l.left);
    }
  }

  lemma LaterLiterals(sql: string, p: nat, literals: seq<Literal>)
    requires AllLiterals(sql, p, literals) && literals != []
    ensures AllLiterals(sql, literals[0].right + 1, literals[1..])
  {
    var rest, q := literals[1..], literals[0].right + 1;
    forall l | l in rest ensures LiteralAfter(sql, q, l) {
      var i :| 0 <= i < |rest| && rest[i] == l;
      assert literals[i + 1] == l && LiteralAfter(sql, p, l);
    }
    forall k | q <= k < |sql| && IsQuote(sql[k]) ensures InLiteral(rest, k) {
      assert literals[0] in literals && LiteralAfter(sql, p, literals[0]);
      var i :| 0 <= i < |literals| && literals[i].left <= k <= literals[i].right;
      assert literals[i] == rest[i - 1];
    }
  }

  // The search finds the literals if there are any that take up all quotation marks, and no others.
  lemma {:induction false} LiteralsIff(sql: string, p: nat, literals: seq<Literal>)
    requires p <= |sql|
    ensures Literals(sql, p) == Some(literals) <==> AllLiterals(sql, p, literals)
    decreases |sql| - p
  {
    if Literals(sql, p) == Some(literals) {
      FoundAreAll(sql, p);
    }
    if AllLiterals(sql, p, literals) {
      AllAreFound(sql, p, literals);
    }
  }

  lemma FoundAreAll(sql: string, p: nat)
    requires p <= |sql| && Literals(sql, p).Some?
    ensures AllLiterals(sql, p, Literals(sql, p).value)
  {
    var literals := Literals(sql, p).value;
    LiteralsAreLiterals(sql, p);
    forall i, j | 0 <= i < j < |literals| ensures literals[i].right < literals[j].left {
      LiteralsApart(sql, p, i, j);
    }
    forall k | p <= k < |sql| && IsQuote(sql[k]) ensures InLiteral(literals, k) {
      QuotesAreInLiterals(sql, p, k);
    }
  }

  lemma {:induction false} AllAreFound(sql: string, p: nat, literals: seq<Literal>)
    requires p <= |sql| && AllLiterals(sql, p, literals)
    ensures Literals(sql, p) == Some(literals)
    decreases |sql| - p
  {
    if IndexAny(sql, p, {'"', '\''}) == -1 {
      NothingToFind(sql, p, literals);
    } else {
      var first, rest := FirstAndRest(sql, p, literals);
      AllAreFound(sql, first.right + 1, rest);
      NextFound(sql, p, first, rest);
    }
  }

  lemma NothingToFind(sql: string, p: nat, literals: seq<Literal>)
    requires p <= |sql| && AllLiterals(sql, p, literals) && IndexAny(sql, p, {'"', '\''}) == -1
    ensures literals == []
  {
    forall l ensures l !in literals {
      NoLiteral(sql, p, l);
    }
    Inhabited(literals);
  }

  lemma NoLiteral(sql: string, p: nat, l: Literal)
    requires p <= |sql| && IndexAny(sql, p, {'"', '\''}) == -1
    ensures !LiteralAfter(sql, p, l)
  {
    if LiteralAfter(sql, p, l) {
      IndexAnyIsFirst(sql, p, {'"', '\''}, l.left);
    }
  }

  // One more literal in front of those found.
  lemma NextFound(sql: string, p: nat, l: Literal, rest: seq<Literal>)
    requires p <= |sql| && IndexAny(sql, p, {'"', '\''}) != -1 && l.left == p + IndexAny(sql, p, {'"', '\''})
    requires l.right == CloseOf(sql, l.left + 1, sql[l.left]) && l.right < |sql| && Literals(sql, l.right + 1) == Some(rest)
    ensures Literals(sql, p) == Some([l] + rest)
  {
    LiteralsNext(sql, p);
  }

  lemma FirstAndRest(sql: string, p: nat, literals: seq<Literal>) returns (first: Literal, rest: seq<Literal>)
    requires p <= |sql| && AllLiterals(sql, p, literals) && IndexAny(sql, p, {'"', '\''}) != -1
    ensures literals == [first] + rest && p <= first.right < |sql| && AllLiterals(sql, first.right + 1, rest)
    ensures first.left == p + IndexAny(sql, p, {'"', '\''}) && first.right == CloseOf(sql, first.left + 1, sql[first.left])
  {
    FirstLiteral(sql, p, literals);
    LaterLiterals(sql, p, literals);
    first, rest := literals[0], literals[1..];
    LiteralBound(sql, p, first);
  }

  lemma LiteralBound(sql: string, p: nat, l: Literal)
    requires LiteralAfter(sql, p, l)
    ensures p <= l.right < |sql|
  {
  }

  // ---- what is cut

  datatype Style = Line | Block

  // A comment marker.
  ghost predicate Opens(sql: string, style: Style, k: int) {
    if style == Line then PairAt(sql, k, '-', '-') else PairAt(sql, k, '/', '*')
  }

  // A comment marker that no recorded range covers.
  ghost predicate Marker(sql: string, ranges: seq<Range>, style: Style, k: int) {
    Opens(sql, style, k) && !Covered(ranges, k)
  }

  // A line comment ends in front of the first line break; a block comment behind the first end marker.
  ghost predicate Ends(sql: string, style: Style, c: Cut) {
    && c.from + 2 <= c.to <= |sql|
    && if style == Line then
      (c.to == |sql| || sql[c.to] == '\n') && forall k :: c.from + 2 <= k < c.to ==> sql[k] != '\n'
    else
      PairAt(sql, c.to - 2, '*', '/') && c.from + 4 <= c.to && forall k :: c.from + 2 <= k < c.to - 2 ==> !PairAt(sql, k, '*', '/')
  }

  ghost predicate IsCut(sql: string, ranges: seq<Range>, style: Style, c: Cut) {
    Marker(sql, ranges, style, c.from) && Ends(sql, style, c)
  }

  // Apart and in order, up to hi.
  ghost predicate Ordered(cuts: seq<Cut>, hi: nat)
    decreases |cuts|
  {
    cuts == [] ||
    var c := cuts[|cuts| - 1];
    c.from < c.to <= hi && Ordered(cuts[..|cuts| - 1], c.from)
  }

  lemma {:induction false} OrderedAt(cuts: seq<Cut>, hi: nat, i: nat, j: nat)
    requires Ordered(cuts, hi) && i < j < |cuts|
    ensures cuts[i].from < cuts[i].to <= cuts[j].from < cuts[j].to <= hi
    decreases |cuts|
  {
    var init := cuts[..|cuts| - 1];
    if j < |cuts| - 1 {
      OrderedAt(init, cuts[|cuts| - 1].from, i, j);
    } else if i < |cuts| - 2 {
      OrderedAt(init, cuts[|cuts| - 1].from, i, j - 1);
    }
  }

  lemma LastsBefore(cuts: seq<Cut>, hi: nat, i: nat)
    requires Ordered(cuts, hi) && i < |cuts|
    ensures cuts[i].from < cuts[i].to <= hi && (i > 0 ==> cuts[i - 1].to <= cuts[i].from)
  {
    if i > 0 {
      OrderedAt(cuts, hi, i - 1, i);
    } else if |cuts| > 1 {
      OrderedAt(cuts, hi, 0, 1);
    }
  }

  ghost predicate InCut(cuts: seq<Cut>, k: int) {
    exists i :: 0 <= i < |cuts| && Inside(cuts[i], k)
  }

  predicate Inside(c: Cut, k: int) { c.from <= k < c.to }

  // These are the cuts in the text before p: each is a comment, and no marker is left outside of them.
  ghost predicate Done(sql: string, ranges: seq<Range>, style: Style, cuts: seq<Cut>, p: nat) {
    && Ordered(cuts, p)
    && (forall i: nat :: IsCutAt(sql, ranges, style, cuts, i))
    && (forall k: nat :: CutAt(sql, ranges, style, cuts, p, k))
  }

  ghost predicate IsCutAt(sql: string, ranges: seq<Range>, style: Style, cuts: seq<Cut>, i: nat) {
    i < |cuts| ==> IsCut(sql, ranges, style, cuts[i])
  }

  ghost predicate CutAt(sql: string, ranges: seq<Range>, style: Style, cuts: seq<Cut>, p: nat, k: nat) {
    k < p && Marker(sql, ranges, style, k) ==> InCut(cuts, k)
  }

  lemma DonePass(sql: string, ranges: seq<Range>, style: Style, cuts: seq<Cut>, p: nat, next: nat)
    requires Done(sql, ranges, style, cuts, p) && p <= next
    requires forall k :: p <= k < next ==> !Marker(sql, ranges, style, k)
    ensures Done(sql, ranges, style, cuts, next)
  {
    forall k: nat
      ensures CutAt(sql, ranges, style, cuts, next, k)
    {
      assert CutAt(sql, ranges, style, cuts, p, k);
    }
  }

  lemma DoneCut(sql: string, ranges: seq<Range>, style: Style, cuts: seq<Cut>, c: Cut)
    requires Done(sql, ranges, style, cuts, c.from) && IsCut(sql, ranges, style, c)
    ensures Done(sql, ranges, style, cuts + [c], c.to)
  {
    var more := cuts + [c];
    assert more[..|cuts|] == cuts;
    forall i: nat
      ensures IsCutAt(sql, ranges, style, more, i)
    {
      assert IsCutAt(sql, ranges, style, cuts, i);
    }
    forall k: nat
      ensures CutAt(sql, ranges, style, more, c.to, k)
    {
      assert CutAt(sql, ranges, style, cuts, c.from, k);
      if k < c.from && Marker(sql, ranges, style, k) {
        var i :| 0 <= i < |cuts| && Inside(cuts[i], k);
        assert Inside(more[i], k);
      } else if c.from <= k < c.to {
        assert Inside(more[|cuts|], k);
      }
    }
  }

  lemma EndUnique(sql: string, style: Style, c: Cut, d: Cut)
    requires Ends(sql, style, c) && Ends(sql, style, d) && c.from == d.from
    ensures c == d
  {
  }

  // The next cut starts at the first marker behind the cuts before it.
  lemma CutIsNext(sql: string, ranges: seq<Range>, style: Style, cuts: seq<Cut>, p: nat, i: nat, k: nat)
    requires Done(sql, ranges, style, cuts, p) && Marker(sql, ranges, style, k) && k < p
    requires i <= |cuts| && (i > 0 ==> cuts[i - 1].to <= k)
    ensures i < |cuts| && cuts[i].from <= k
  {
    assert CutAt(sql, ranges, style, cuts, p, k);
    var j :| 0 <= j < |cuts| && Inside(cuts[j], k);
    if j < i - 1 {
      OrderedAt(cuts, p, j, i - 1);
    } else if i < j {
      OrderedAt(cuts, p, i, j);
    }
  }

  // The cuts are determined by the text: those of a longer part begin with those of a shorter one.
  lemma {:induction false} CutsAgree(sql: string, ranges: seq<Range>, style: Style, cuts: seq<Cut>, p: nat, more: seq<Cut>,
                                    q: nat, i: nat)
    requires Done(sql, ranges, style, cuts, p) && Done(sql, ranges, style, more, q) && p <= q && i <= |cuts|
    ensures i <= |more| && more[..i] == cuts[..i]
    decreases i
  {
    if i > 0 {
      CutsAgree(sql, ranges, style, cuts, p, more, q, i - 1);
      var c := cuts[i - 1];
      assert IsCutAt(sql, ranges, style, cuts, i - 1);
      LastsBefore(cuts, p, i - 1);
      if i > 1 {
        assert more[i - 2] == more[..i - 1][i - 2] == cuts[i - 2];
      }
      CutIsNext(sql, ranges, style, more, q, i - 1, c.from);
      var d := more[i - 1];
      assert IsCutAt(sql, ranges, style, more, i - 1);
      LastsBefore(more, q, i - 1);
      CutIsNext(sql, ranges, style, cuts, p, i - 1, d.from);
      EndUnique(sql, style, c, d);
    }
  }

  // ---- what is kept

  // The text before p with the filler in place of every cut.
  function Kept(sql: string, cuts: seq<Cut>, filler: string, p: nat): string
    requires p <= |sql| && Ordered(cuts, p)
    decreases |cuts|
  {
    if cuts == [] then sql[..p]
    else
      var c := cuts[|cuts| - 1];
      Kept(sql, cuts[..|cuts| - 1], filler, c.from) + filler + sql[c.to..p]
  }

  lemma Join(x: string, y: string, z: string)
    ensures x + y + z == x + (y + z)
  {
  }

  lemma Pieces(sql: string, a: nat, b: nat, c: nat)
    requires a <= b <= c <= |sql|
    ensures sql[a..b] + sql[b..c] == sql[a..c]
  {
  }

  lemma KeptMore(sql: string, cuts: seq<Cut>, filler: string, p: nat, next: nat)
    requires p <= next <= |sql| && Ordered(cuts, p)
    ensures Kept(sql, cuts, filler, next) == Kept(sql, cuts, filler, p) + sql[p..next]
  {
    if cuts == [] {
      Pieces(sql, 0, p, next);
    } else {
      var c := cuts[|cuts| - 1];
      Pieces(sql, c.to, p, next);
      Join(Kept(sql, cuts[..|cuts| - 1], filler, c.from) + filler, sql[c.to..p], sql[p..next]);
    }
  }

  lemma KeptCut(sql: string, cuts: seq<Cut>, filler: string, c: Cut)
    requires c.from < c.to <= |sql| && Ordered(cuts, c.from)
    ensures Ordered(cuts + [c], c.to)
    ensures Kept(sql, cuts + [c], filler, c.to) == Kept(sql, cuts, filler, c.from) + filler
  {
    assert (cuts + [c])[..|cuts|] == cuts;
    assert sql[c.to..c.to] == "";
  }

  // The removal has come to p and has this result.
  ghost predicate Reached(sql: string, ranges: seq<Range>, style: Style, cuts: seq<Cut>, p: nat, result: string) {
    && p <= |sql| && Done(sql, ranges, style, cuts, p)
    && result == Kept(sql, cuts, Filler(style), p)
  }

  // A block comment leaves a blank behind.
  function Filler(style: Style): string { if style == Line then "" else " " }

  lemma Pass(sql: string, ranges: seq<Range>, style: Style, cuts: seq<Cut>, p: nat, result: string, next: nat)
    requires Reached(sql, ranges, style, cuts, p, result) && p <= next <= |sql|
    requires forall k :: p <= k < next ==> !Marker(sql, ranges, style, k)
    ensures Reached(sql, ranges, style, cuts, next, result + sql[p..next])
  {
    DonePass(sql, ranges, style, cuts, p, next);
    KeptMore(sql, cuts, Filler(style), p, next);
  }

  lemma Remove(sql: string, ranges: seq<Range>, style: Style, cuts: seq<Cut>, result: string, c: Cut)
    requires Reached(sql, ranges, style, cuts, c.from, result) && IsCut(sql, ranges, style, c)
    ensures Reached(sql, ranges, style, cuts + [c], c.to, result + Filler(style))
  {
    DoneCut(sql, ranges, style, cuts, c);
    KeptCut(sql, cuts, Filler(style), c);
  }

  // ---- the two removals

  // No recorded range goes beyond the text.
  ghost predicate Within(sql: string, ranges: seq<Range>) {
    forall i :: 0 <= i < |ranges| ==> ranges[i].right < |sql|
  }

  lemma RecordedWithin(sql: string)
    requires Literals(sql, 0).Some?
    ensures Within(sql, Recorded(Literals(sql, 0).value))
  {
    LiteralsAreLiterals(sql, 0);
    var literals := Literals(sql, 0).value;
    assert forall i :: 0 <= i < |literals| ==> literals[i] in literals;
  }

  // From a covered character to the right end of its range there is no marker.
  lemma RangeCovers(sql: string, ranges: seq<Range>, style: Style, idx: nat, right: int)
    requires Within(sql, ranges)
    requires exists i :: 0 <= i < |ranges| && Holds(ranges[i], idx) && ranges[i].right == right
    ensures idx <= right < |sql|
    ensures forall k :: idx <= k <= right ==> !Marker(sql, ranges, style, k)
  {
    var i :| 0 <= i < |ranges| && Holds(ranges[i], idx) && ranges[i].right == right;
    forall k | idx <= k <= right
      ensures Covered(ranges, k)
    {
      assert Holds(ranges[i], k);
    }
  }

  // The right end of the first recorded range around idx, or -1.
  method FindRightQuotationIndex(sql: string, ranges: seq<Range>, idx: nat, ghost style: Style) returns (r: int)
    requires Within(sql, ranges) && Opens(sql, style, idx)
    ensures r < 0 ==> r == -1 && Marker(sql, ranges, style, idx)
    ensures r >= 0 ==> idx <= r < |sql| && forall k :: idx <= k <= r ==> !Marker(sql, ranges, style, k)
  {
    for i := 0 to |ranges|
      invariant forall j :: 0 <= j < i ==> !Holds(ranges[j], idx)
    {
      if idx >= ranges[i].left && idx <= ranges[i].right {
        assert Holds(ranges[i], idx);
        RangeCovers(sql, ranges, style, idx, ranges[i].right);
        return ranges[i].right;
      }
    }
    return -1;
  }

  // Searching for a marker passes over no other.
  lemma NoMarkerBefore(sql: string, ranges: seq<Range>, style: Style, p: nat, r: int)
    requires p <= |sql|
    requires r == if style == Line then IndexPair(sql, p, '-', '-') else IndexPair(sql, p, '/', '*')
    ensures forall k :: p <= k < (if r == -1 then |sql| else p + r) ==> !Marker(sql, ranges, style, k)
    ensures r != -1 ==> Opens(sql, style, p + r)
  {
    forall k | p <= k < (if r == -1 then |sql| else p + r)
      ensures !Opens(sql, style, k)
    {
      if style == Line {
        IndexPairIsFirst(sql, p, '-', '-', k);
      } else {
        IndexPairIsFirst(sql, p, '/', '*', k);
      }
    }
    if r != -1 {
      if style == Line {
        IndexPairFinds(sql, p, '-', '-');
      } else {
        IndexPairFinds(sql, p, '/', '*');
      }
    }
  }

  lemma LineEnds(sql: string, from: nat)
    requires from + 2 <= |sql|
    ensures
      var e := IndexAny(sql, from + 2, {'\n'});
      Ends(sql, Line, Cut(from, if e == -1 then |sql| else from + 2 + e))
  {
    var e := IndexAny(sql, from + 2, {'\n'});
    var to := if e == -1 then |sql| else from + 2 + e;
    forall k | from + 2 <= k < to
      ensures sql[k] != '\n'
    {
      IndexAnyIsFirst(sql, from + 2, {'\n'}, k);
    }
    if e != -1 {
      IndexAnyFinds(sql, from + 2, {'\n'});
    }
  }

  lemma BlockEnds(sql: string, from: nat)
    requires from + 2 <= |sql|
    ensures
      var e := IndexPair(sql, from + 2, '*', '/');
      if e == -1 then forall k :: from + 2 <= k ==> !PairAt(sql, k, '*', '/') else Ends(sql, Block, Cut(from, from + 2 + e + 2))
  {
    var e := IndexPair(sql, from + 2, '*', '/');
    forall k | from + 2 <= k && (e == -1 || k < from + 2 + e)
      ensures !PairAt(sql, k, '*', '/')
    {
      IndexPairIsFirst(sql, from + 2, '*', '/', k);
    }
    if e != -1 {
      IndexPairFinds(sql, from + 2, '*', '/');
    }
  }

  lemma RemoveLine(sql: string, ranges: seq<Range>, cuts: seq<Cut>, result: string, from: nat) returns (c: Cut)
    requires Reached(sql, ranges, Line, cuts, from, result) && Marker(sql, ranges, Line, from)
    ensures
      var e := IndexAny(sql, from + 2, {'\n'});
      c == Cut(from, if e == -1 then |sql| else from + 2 + e) && Reached(sql, ranges, Line, cuts + [c], c.to, result)
  {
    LineEnds(sql, from);
    var e := IndexAny(sql, from + 2, {'\n'});
    c := Cut(from, if e == -1 then |sql| else from + 2 + e);
    Remove(sql, ranges, Line, cuts, result, c);
    assert result + "" == result;
  }

  // A round at the marker at `open`: a covered one is kept with the rest of its range, another one goes
  // with the rest of its line.
  method LineRound(sql: string, ranges: seq<Range>, ghost cuts: seq<Cut>, before: string, offset: nat, open: nat)
    returns (result: string, next: nat, ghost more: seq<Cut>)
    requires Within(sql, ranges) && Reached(sql, ranges, Line, cuts, offset, before) && offset <= open && Opens(sql, Line, open)
    requires forall k :: offset <= k < open ==> !Marker(sql, ranges, Line, k)
    ensures open < next <= |sql| && Reached(sql, ranges, Line, more, next, result)
  {
    more := cuts;
    var rightQuotationIdx := FindRightQuotationIndex(sql, ranges, open, Line);
    if rightQuotationIdx >= 0 {
      next := rightQuotationIdx + 1;
      Pass(sql, ranges, Line, cuts, offset, before, next);
      result := before + sql[offset..next];
      return;
    }
    Pass(sql, ranges, Line, cuts, offset, before, open);
    result := before + sql[offset..open];
    var rightIdx := IndexAny(sql, open + 2, {'\n'});
    ghost var c := RemoveLine(sql, ranges, cuts, result, open);
    next := if rightIdx < 0 then |sql| else open + rightIdx + 2;
    more := cuts + [c];
  }

  method CutLines(sql: string, ranges: seq<Range>) returns (result: string)
    requires Within(sql, ranges)
    ensures exists cuts :: Reached(sql, ranges, Line, cuts, |sql|, result)
  {
    result := "";
    ghost var cuts: seq<Cut> := [];
    var offset := 0;
    while true
      invariant Reached(sql, ranges, Line, cuts, offset, result)
      decreases |sql| - offset
    {
      var leftIdx := IndexPair(sql, offset, '-', '-');
      NoMarkerBefore(sql, ranges, Line, offset, leftIdx);
      if leftIdx < 0 {
        Pass(sql, ranges, Line, cuts, offset, result, |sql|);
        result := result + sql[offset..];
        assert Reached(sql, ranges, Line, cuts, |sql|, result);
        break;
      }
      var next;
      result, next, cuts := LineRound(sql, ranges, cuts, result, offset, offset + leftIdx);
      offset := next;
    }
  }

  // A marker whose comment never ends, with all comments before it.
  ghost predicate Unclosed(sql: string, ranges: seq<Range>, cuts: seq<Cut>, k: nat) {
    && Done(sql, ranges, Block, cuts, k) && Marker(sql, ranges, Block, k)
    && forall j :: k + 2 <= j ==> !PairAt(sql, j, '*', '/')
  }

  lemma RemoveBlock(sql: string, ranges: seq<Range>, cuts: seq<Cut>, result: string, from: nat)
    requires Reached(sql, ranges, Block, cuts, from, result) && Marker(sql, ranges, Block, from)
    ensures
      var e := IndexPair(sql, from + 2, '*', '/');
      if e == -1 then Unclosed(sql, ranges, cuts, from)
      else Reached(sql, ranges, Block, cuts + [Cut(from, from + 2 + e + 2)], from + 2 + e + 2, result + " ")
  {
    BlockEnds(sql, from);
    var e := IndexPair(sql, from + 2, '*', '/');
    if e != -1 {
      Remove(sql, ranges, Block, cuts, result, Cut(from, from + 2 + e + 2));
    }
  }

  // A round at the marker at `open`: a covered one is kept with the rest of its range, for another one
  // there is a blank instead of its comment; next is -1 if the comment never ends.
  method BlockRound(sql: string, ranges: seq<Range>, ghost cuts: seq<Cut>, before: string, offset: nat, open: nat)
    returns (result: string, next: int, ghost more: seq<Cut>)
    requires Within(sql, ranges) && Reached(sql, ranges, Block, cuts, offset, before) && offset <= open && Opens(sql, Block, open)
    requires forall k :: offset <= k < open ==> !Marker(sql, ranges, Block, k)
    ensures next < 0 ==> Unclosed(sql, ranges, cuts, open)
    ensures next >= 0 ==> open < next && Reached(sql, ranges, Block, more, next, result)
  {
    more := cuts;
    var rightQuotationIdx := FindRightQuotationIndex(sql, ranges, open, Block);
    if rightQuotationIdx >= 0 {
      next := rightQuotationIdx + 1;
      Pass(sql, ranges, Block, cuts, offset, before, next);
      result := before + sql[offset..next];
      return;
    }
    Pass(sql, ranges, Block, cuts, offset, before, open);
    result := before + sql[offset..open];
    var rightIdx := IndexPair(sql, open + 2, '*', '/');
    RemoveBlock(sql, ranges, cuts, result, open);
    if rightIdx < 0 {
      return "", -1, cuts;
    }
    result := result + " ";
    next := open + 2 + rightIdx + 2;
    more := cuts + [Cut(open, next)];
  }

  method CutBlocks(sql: string, ranges: seq<Range>) returns (result: string, err: bool)
    requires Within(sql, ranges)
    ensures err ==> exists cuts, open :: Unclosed(sql, ranges, cuts, open)
    ensures !err ==> exists cuts :: Reached(sql, ranges, Block, cuts, |sql|, result)
  {
    result, err := "", false;
    ghost var cuts: seq<Cut> := [];
    var offset := 0;
    while true
      invariant Reached(sql, ranges, Block, cuts, offset, result) && !err
      decreases |sql| - offset
    {
      var leftIdx := IndexPair(sql, offset, '/', '*');
      NoMarkerBefore(sql, ranges, Block, offset, leftIdx);
      if leftIdx < 0 {
        Pass(sql, ranges, Block, cuts, offset, result, |sql|);
        result := result + sql[offset..];
        assert Reached(sql, ranges, Block, cuts, |sql|, result);
        break;
      }
      ghost var before := cuts;
      var next;
      result, next, cuts := BlockRound(sql, ranges, cuts, result, offset, offset + leftIdx);
      if next < 0 {
        assert Unclosed(sql, ranges, before, offset + leftIdx);
        return "", true;
      }
      offset := next;
    }
  }

  // The text without line comments, in terms of what is cut and what is kept.
  ghost predicate LinesRemoved(sql: string, result: string) {
    && Literals(sql, 0).Some?
    && exists cuts :: Reached(sql, Recorded(Literals(sql, 0).value), Line, cuts, |sql|, result)
  }

  ghost predicate BlocksRemoved(sql: string, result: string) {
    && Literals(sql, 0).Some?
    && exists cuts :: Reached(sql, Recorded(Literals(sql, 0).value), Block, cuts, |sql|, result)
  }

  ghost predicate BlockUnclosed(sql: string) {
    Literals(sql, 0).Some? && exists cuts, open :: Unclosed(sql, Recorded(Literals(sql, 0).value), cuts, open)
  }

  // The result is determined by the text, and a text with a comment that never ends has none.
  lemma RemovedUnique(sql: string, ranges: seq<Range>, style: Style, cuts: seq<Cut>, result: string,
                      cuts': seq<Cut>, result': string)
    requires Reached(sql, ranges, style, cuts, |sql|, result) && Reached(sql, ranges, style, cuts', |sql|, result')
    ensures result == result'
  {
    CutsAgree(sql, ranges, style, cuts, |sql|, cuts', |sql|, |cuts|);
    CutsAgree(sql, ranges, style, cuts', |sql|, cuts, |sql|, |cuts'|);
    assert cuts == cuts[..|cuts|] == cuts'[..|cuts'|] == cuts';
  }

  lemma UnclosedHasNoResult(sql: string, ranges: seq<Range>, cuts: seq<Cut>, open: nat, all: seq<Cut>)
    requires Unclosed(sql, ranges, cuts, open)
    ensures !Done(sql, ranges, Block, all, |sql|)
  {
    if Done(sql, ranges, Block, all, |sql|) {
      CutsAgree(sql, ranges, Block, cuts, open, all, |sql|, |cuts|);
      var n := |cuts|;
      if n > 0 {
        LastsBefore(cuts, open, n - 1);
        assert all[n - 1] == all[..n][n - 1] == cuts[n - 1];
      }
      CutIsNext(sql, ranges, Block, all, |sql|, n, open);
      LastsBefore(all, |sql|, n);
      assert IsCutAt(sql, ranges, Block, all, n);
      var c := all[n];
      if c.from < open {
        CutIsNext(sql, ranges, Block, cuts, open, n, c.from);
      }
    }
  }

  lemma LinesUnique(sql: string, result: string, result': string)
    requires LinesRemoved(sql, result) && LinesRemoved(sql, result')
    ensures result == result'
  {
    var ranges := Recorded(Literals(sql, 0).value);
    var cuts :| Reached(sql, ranges, Line, cuts, |sql|, result);
    var cuts' :| Reached(sql, ranges, Line, cuts', |sql|, result');
    RemovedUnique(sql, ranges, Line, cuts, result, cuts', result');
  }

  lemma BlocksUnique(sql: string, result: string, result': string)
    requires BlocksRemoved(sql, result) && BlocksRemoved(sql, result')
    ensures result == result'
  {
    var ranges := Recorded(Literals(sql, 0).value);
    var cuts :| Reached(sql, ranges, Block, cuts, |sql|, result);
    var cuts' :| Reached(sql, ranges, Block, cuts', |sql|, result');
    RemovedUnique(sql, ranges, Block, cuts, result, cuts', result');
  }

  lemma NotBoth(sql: string, result: string)
    requires BlocksRemoved(sql, result)
    ensures !BlockUnclosed(sql)
  {
    if BlockUnclosed(sql) {
      var ranges := Recorded(Literals(sql, 0).value);
      var all :| Reached(sql, ranges, Block, all, |sql|, result);
      var cuts, open :| Unclosed(sql, ranges, cuts, open);
      UnclosedHasNoResult(sql, ranges, cuts, open, all);
    }
  }

  // Block comments first, then line comments.
  ghost predicate CommentsRemoved(sql: string, result: string) {
    exists between :: BlocksRemoved(sql, between) && LinesRemoved(between, result)
  }

  lemma CommentsUnique(sql: string, result: string, result': string)
    requires CommentsRemoved(sql, result) && CommentsRemoved(sql, result')
    ensures result == result'
  {
    var between :| BlocksRemoved(sql, between) && LinesRemoved(between, result);
    var between' :| BlocksRemoved(sql, between') && LinesRemoved(between', result');
    BlocksUnique(sql, between, between');
    LinesUnique(between, result, result');
  }

  method RemoveSingleLineComment(sql: string) returns (result: string, err: bool)
    ensures err <==> Literals(sql, 0).None?
    ensures !err ==> LinesRemoved(sql, result)
  {
    var ranges, unmatched := FindMatchedQuotationMarks(sql);
    if unmatched {
      return "", true;
    }
    RecordedWithin(sql);
    result := CutLines(sql, ranges);
    err := false;
  }

  method RemoveMultipleLineComment(sql: string) returns (result: string, err: bool)
    ensures err <==> Literals(sql, 0).None? || BlockUnclosed(sql)
    ensures !err ==> BlocksRemoved(sql, result)
  {
    var ranges, unmatched := FindMatchedQuotationMarks(sql);
    if unmatched {
      return "", true;
    }
    RecordedWithin(sql);
    result, err := CutBlocks(sql, ranges);
    if !err {
      NotBoth(sql, result);
    }
  }

  // Fails exactly when there is no result.
  method RemoveCommentInSQLStatement(sql: string) returns (result: string, err: bool)
    ensures !err ==> CommentsRemoved(sql, result)
    ensures err ==> forall r :: !CommentsRemoved(sql, r)
  {
    var between;
    between, err := RemoveMultipleLineComment(sql);
    if err {
      forall b
        ensures !BlocksRemoved(sql, b)
      {
        if BlocksRemoved(sql, b) {
          NotBoth(sql, b);
        }
      }
      return "", true;
    }
    result, err := RemoveSingleLineComment(between);
    if err {
      forall b | BlocksRemoved(sql, b)
        ensures b == between
      {
        BlocksUnique(sql, b, between);
      }
      return "", true;
    }
  }

  // ---- what the removals achieve

  // A marker inside a literal never starts a removal.
  lemma LiteralsAreSpared(sql: string, style: Style, cuts: seq<Cut>, result: string, i: nat)
    requires Literals(sql, 0).Some? && i < |cuts|
    requires Reached(sql, Recorded(Literals(sql, 0).value), style, cuts, |sql|, result)
    ensures Opens(sql, style, cuts[i].from) && !InLiteral(Literals(sql, 0).value, cuts[i].from)
  {
    assert IsCutAt(sql, Recorded(Literals(sql, 0).value), style, cuts, i);
    if InLiteral(Literals(sql, 0).value, cuts[i].from) {
      LiteralsAreCovered(Literals(sql, 0).value, cuts[i].from);
    }
  }

  // The close is the first bare mark, wherever it was looked up.
  lemma ClosesAt(sql: string, p: nat, quote: char, k: nat)
    requires FirstBare(sql, p, quote, k)
    ensures CloseOf(sql, p, quote) == k
  {
    CloseIs(sql, p, quote);
  }

  lemma TwoLiterals()
    ensures Literals("'a'--'d'", 0) == Some([Literal(0, 2), Literal(5, 7)])
  {
    var sql := "'a'--'d'";
    var quotes := {'"', '\''};
    assert IndexAny(sql, 0, quotes) == 0;
    assert IndexAny(sql, 4, quotes) == 1 && IndexAny(sql, 3, quotes) == 2;
    assert BackslashRun(sql, 2, 0) && BackslashRun(sql, 7, 0);
    ClosesAt(sql, 1, '\'', 2);
    ClosesAt(sql, 6, '\'', 7);
    assert Literals(sql, 8) == Some([]);
    assert [Literal(5, 7)] + [] == [Literal(5, 7)];
    assert Literals(sql, 3) == Some([Literal(5, 7)]);
    assert [Literal(0, 2)] + [Literal(5, 7)] == [Literal(0, 2), Literal(5, 7)];
  }

  lemma OneLiteral(sql: string, l: Literal)
    requires IsLiteral(sql, l) && forall k :: 0 <= k < |sql| && IsQuote(sql[k]) ==> l.left <= k <= l.right
    ensures Literals(sql, 0) == Some([l])
  {
    assert LiteralAfter(sql, 0, l);
    forall k | 0 <= k < |sql| && IsQuote(sql[k]) ensures InLiteral([l], k) {
      assert [l][0].left <= k <= [l][0].right;
    }
    LiteralsIff(sql, 0, [l]);
  }

  // A mark behind a backslash does not close its literal.
  lemma EscapedMark()
    ensures Literals("'a\\'b'", 0) == Some([Literal(0, 5)]) && Literals("'a\\\\'b'", 0) == None
  {
    var sql := "'a\\'b'";
    assert BackslashRun(sql, 3, 1) && BackslashRun(sql, 5, 0);
    BareIff(sql, 3, 1);
    assert IsLiteral(sql, Literal(0, 5));
    OneLiteral(sql, Literal(0, 5));
    EscapedBackslash();
  }

  // One behind two backslashes does.
  lemma EscapedBackslash()
    ensures Literals("'a\\\\'b'", 0) == None
  {
    var sql := "'a\\\\'b'";
    assert BackslashRun(sql, 4, 2);
    ClosesAt(sql, 1, '\'', 4);
    CloseIs(sql, 7, '\'');
    assert IndexAny(sql, 0, {'"', '\''}) == 0;
    assert IndexAny(sql, 5, {'"', '\''}) == 1 by {
      assert IndexAny(sql, 6, {'"', '\''}) == 0;
    }
  }

  // A text without quotation marks and with one comment.
  lemma OneComment(sql: string, style: Style, c: Cut)
    requires forall k :: 0 <= k < |sql| ==> !IsQuote(sql[k])
    requires Opens(sql, style, c.from) && Ends(sql, style, c)
    requires forall k :: Opens(sql, style, k) ==> k == c.from
    ensures Literals(sql, 0) == Some([])
    ensures Reached(sql, Recorded([]), style, [c], |sql|, sql[..c.from] + Filler(style) + sql[c.to..])
  {
    LiteralsIff(sql, 0, []);
    assert [c][..0] == [] && Ordered([], c.from) && Ordered([c], |sql|);
    forall k: nat ensures CutAt(sql, Recorded([]), style, [c], |sql|, k) {
      assert [c][0] == c;
    }
    forall i: nat ensures IsCutAt(sql, Recorded([]), style, [c], i) {
    }
    assert sql[c.to..|sql|] == sql[c.to..];
    assert Kept(sql, [c], Filler(style), |sql|) == Kept(sql, [], Filler(style), c.from) + Filler(style) + sql[c.to..];
  }

  lemma BlockGoes()
    ensures BlocksRemoved("a/*c*/b--d\ne", "a b--d\ne")
  {
    var sql := "a/*c*/b--d\ne";
    OneComment(sql, Block, Cut(1, 6));
    assert sql[..1] + " " + sql[6..] == "a b--d\ne";
  }

  lemma LineGoes()
    ensures LinesRemoved("a b--d\ne", "a b\ne")
  {
    var sql := "a b--d\ne";
    OneComment(sql, Line, Cut(3, 6));
    assert sql[..3] + "" + sql[6..] == "a b\ne";
  }

  // A block comment leaves a blank, and a line comment leaves its line break.
  lemma BothComments()
    ensures CommentsRemoved("a/*c*/b--d\ne", "a b\ne")
  {
    BlockGoes();
    LineGoes();
  }

  // A comment that follows a literal stays when a later literal is close enough.
  lemma CommentBetweenLiteralsStays()
    ensures PairAt("'a'--'d'", 3, '-', '-') && !InLiteral([Literal(0, 2), Literal(5, 7)], 3)
    ensures Literals("'a'--'d'", 0) == Some([Literal(0, 2), Literal(5, 7)])
    ensures LinesRemoved("'a'--'d'", "'a'--'d'")
  {
    var sql := "'a'--'d'";
    TwoLiterals();
    var ranges := Recorded([Literal(0, 2), Literal(5, 7)]);
    assert Holds(ranges[1], 3);
    forall k: nat
      ensures CutAt(sql, ranges, Line, [], 8, k)
    {
      assert PairAt(sql, k, '-', '-') ==> k == 3;
    }
    assert Reached(sql, ranges, Line, [], |sql|, sql);
  }

  ghost predicate QuoteFree(s: string) { forall k :: 0 <= k < |s| ==> !IsQuote(s[k]) }

  ghost predicate Clean(s: string, a: char, b: char) { forall k :: !PairAt(s, k, a, b) }

  ghost predicate CommentFree(s: string) { Clean(s, '-', '-') && Clean(s, '/', '*') }

  lemma NoLiterals(sql: string)
    requires QuoteFree(sql)
    ensures Literals(sql, 0) == Some([]) && Recorded([]) == []
  {
    if IndexAny(sql, 0, {'"', '\''}) != -1 {
      IndexAnyFinds(sql, 0, {'"', '\''});
    }
  }

  lemma CleanJoin(x: string, y: string, a: char, b: char)
    requires Clean(x, a, b) && Clean(y, a, b) && (x == "" || y == "" || x[|x| - 1] != a || y[0] != b)
    ensures Clean(x + y, a, b)
  {
    forall k
      ensures !PairAt(x + y, k, a, b)
    {
      assert !PairAt(x, k, a, b) && !PairAt(y, k - |x|, a, b);
    }
  }

  lemma CleanSlice(sql: string, lo: nat, hi: nat, a: char, b: char)
    requires lo <= hi <= |sql| && forall k :: lo <= k < hi - 1 ==> !PairAt(sql, k, a, b)
    ensures Clean(sql[lo..hi], a, b)
  {
    forall k
      ensures !PairAt(sql[lo..hi], k, a, b)
    {
      assert 0 <= k < hi - lo - 1 ==> !PairAt(sql, lo + k, a, b);
    }
  }

  // Cutting brings no two characters together that make a marker.
  lemma {:induction false} KeptClean(sql: string, style: Style, cuts: seq<Cut>, p: nat, a: char, b: char)
    requires p <= |sql| && Ordered(cuts, p) && a !in {' ', '\n'} && b !in {' ', '\n'}
    requires forall i :: 0 <= i < |cuts| ==> Ends(sql, style, cuts[i])
    requires forall k :: 0 <= k < p - 1 && PairAt(sql, k, a, b) ==> InCut(cuts, k)
    ensures Clean(Kept(sql, cuts, Filler(style), p), a, b)
    decreases |cuts|
  {
    if cuts == [] {
      CleanSlice(sql, 0, p, a, b);
    } else {
      var n := |cuts| - 1;
      var c := cuts[n];
      forall k | 0 <= k < c.from - 1 && PairAt(sql, k, a, b)
        ensures InCut(cuts[..n], k)
      {
        var i :| 0 <= i < |cuts| && Inside(cuts[i], k);
        assert Inside(cuts[..n][i], k);
      }
      KeptClean(sql, style, cuts[..n], c.from, a, b);
      forall k | c.to <= k < p - 1
        ensures !PairAt(sql, k, a, b)
      {
        if PairAt(sql, k, a, b) {
          var i :| 0 <= i < |cuts| && Inside(cuts[i], k);
          LastsBefore(cuts, p, i);
          OrderedTo(cuts, p, i);
        }
      }
      CleanSlice(sql, c.to, p, a, b);
      var front := Kept(sql, cuts[..n], Filler(style), c.from);
      CleanJoin(front, Filler(style), a, b);
      CleanJoin(front + Filler(style), sql[c.to..p], a, b);
    }
  }

  lemma OrderedTo(cuts: seq<Cut>, hi: nat, i: nat)
    requires Ordered(cuts, hi) && i < |cuts|
    ensures cuts[i].to <= cuts[|cuts| - 1].to
  {
    if i < |cuts| - 1 {
      OrderedAt(cuts, hi, i, |cuts| - 1);
    }
  }

  lemma {:induction false} KeptQuoteFree(sql: string, style: Style, cuts: seq<Cut>, p: nat)
    requires p <= |sql| && Ordered(cuts, p) && QuoteFree(sql)
    ensures QuoteFree(Kept(sql, cuts, Filler(style), p))
    decreases |cuts|
  {
    if cuts != [] {
      KeptQuoteFree(sql, style, cuts[..|cuts| - 1], cuts[|cuts| - 1].from);
    }
  }

  // On a text without quotation marks the cuts take every marker with them.
  lemma RemovedIsClean(sql: string, style: Style, cuts: seq<Cut>, result: string)
    requires QuoteFree(sql) && Reached(sql, [], style, cuts, |sql|, result)
    ensures QuoteFree(result) && if style == Line then Clean(result, '-', '-') else Clean(result, '/', '*')
    ensures style == Line && Clean(sql, '/', '*') ==> Clean(result, '/', '*')
  {
    forall i | 0 <= i < |cuts|
      ensures Ends(sql, style, cuts[i])
    {
      assert IsCutAt(sql, [], style, cuts, i);
    }
    forall k: nat | Opens(sql, style, k)
      ensures InCut(cuts, k)
    {
      assert CutAt(sql, [], style, cuts, |sql|, k) && Marker(sql, [], style, k);
    }
    KeptQuoteFree(sql, style, cuts, |sql|);
    if style == Line {
      KeptClean(sql, style, cuts, |sql|, '-', '-');
      if Clean(sql, '/', '*') {
        KeptClean(sql, style, cuts, |sql|, '/', '*');
      }
    } else {
      KeptClean(sql, style, cuts, |sql|, '/', '*');
    }
  }

  // On a text without quotation marks a successful removal leaves no comment marker.
  lemma QuoteFreeIsCleaned(sql: string, result: string)
    requires QuoteFree(sql) && CommentsRemoved(sql, result)
    ensures QuoteFree(result) && CommentFree(result)
  {
    var between :| BlocksRemoved(sql, between) && LinesRemoved(between, result);
    NoLiterals(sql);
    var cuts :| Reached(sql, Recorded(Literals(sql, 0).value), Block, cuts, |sql|, between);
    RemovedIsClean(sql, Block, cuts, between);
    NoLiterals(between);
    var cuts' :| Reached(between, Recorded(Literals(between, 0).value), Line, cuts', |between|, result);
    RemovedIsClean(between, Line, cuts', result);
  }

  // Where there is no marker, nothing is removed.
  lemma CommentFreeIsFixed(sql: string, result: string)
    requires QuoteFree(sql) && CommentFree(sql)
    ensures CommentsRemoved(sql, result) <==> result == sql
  {
    NoLiterals(sql);
    NothingCut(sql, Block, sql);
    NothingCut(sql, Line, sql);
    assert BlocksRemoved(sql, sql) && LinesRemoved(sql, sql);
    if CommentsRemoved(sql, result) {
      CommentsUnique(sql, result, sql);
    }
  }

  // Removing comments twice is removing them once.
  lemma RemovingTwice(sql: string, result: string, again: string)
    requires QuoteFree(sql) && CommentsRemoved(sql, result)
    ensures CommentsRemoved(result, again) <==> again == result
  {
    QuoteFreeIsCleaned(sql, result);
    CommentFreeIsFixed(result, again);
  }

  lemma NothingCut(sql: string, style: Style, result: string)
    requires QuoteFree(sql) && CommentFree(sql)
    ensures Reached(sql, [], style, [], |sql|, sql)
    ensures (exists cuts :: Reached(sql, [], style, cuts, |sql|, result)) <==> result == sql
  {
    assert Kept(sql, [], Filler(style), |sql|) == sql;
    forall k: nat
      ensures CutAt(sql, [], style, [], |sql|, k)
    {
      assert !Opens(sql, style, k);
    }
    assert Reached(sql, [], style, [], |sql|, sql);
    if exists cuts :: Reached(sql, [], style, cuts, |sql|, result) {
      var cuts :| Reached(sql, [], style, cuts, |sql|, result);
      RemovedUnique(sql, [], style, cuts, result, [], sql);
    }
  }
}
