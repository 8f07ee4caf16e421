/**
  Where the literals of a line lie, told from the text alone, and what the splitter's scan has to
  do with them: it is inside quotes exactly within a literal, a line's code ends at its first
  comment outside of them, and so does a statement at a semicolon.
 */
module LineLiterals {
  import opened Characters
  import opened StatementSplitter

  // A literal of a line: opened by the mark at `open`, or on an earlier line if that is -1, and
  // closed by the mark at `close`, or not on this line if that is the end of the line.
  datatype Span = Span(open: int, close: int, mark: char)

  // It runs to the first mark of its own kind that no odd number of backslashes precedes.
  ghost predicate IsSpan(l: string, s: Span) {
    && -1 <= s.open < s.close <= |l| && (s.mark == '"' || s.mark == '\'')
    && (s.open >= 0 ==> l[s.open] == s.mark)
    && if s.close < |l| then FirstBare(l, s.open + 1, s.mark, s.close) else NoBare(l, s.open + 1, s.mark)
  }

  predicate InOrder(spans: seq<Span>) {
    forall a, b :: 0 <= a < b < |spans| ==> spans[a].close < spans[b].open
  }

  // The mark at k opens or closes one of the literals, or lies within one.
  ghost predicate Marked(spans: seq<Span>, k: int) {
    exists s :: s in spans && s.open <= k <= s.close
  }

  // Position k is behind the opening mark of a literal and not behind its end.
  ghost predicate Within(spans: seq<Span>, k: int) {
    exists s :: s in spans && s.open < k <= s.close
  }

  // The kind of quotes a line begins in, if any.
  predicate BeginsIn(q: Quote, spans: seq<Span>) {
    if q.Inside? then spans != [] && spans[0].open == -1 && (q.single <==> spans[0].mark == '\'')
    else spans == [] || spans[0].open >= 0
  }

  // All literals of a line, and no quotation mark outside of them.
  ghost predicate Layout(q: Quote, l: string, spans: seq<Span>) {
    && BeginsIn(q, spans) && InOrder(spans) && (forall s :: s in spans ==> IsSpan(l, s))
    && forall k :: 0 <= k < |l| && (l[k] == '"' || l[k] == '\'') ==> Marked(spans, k)
  }

  // ---- every line has a layout

  // The literals from p on, where no literal is open.
  ghost predicate Rest(l: string, p: nat, spans: seq<Span>) {
    && InOrder(spans) && (forall s :: s in spans ==> IsSpan(l, s) && p <= s.open)
    && forall k :: p <= k < |l| && (l[k] == '"' || l[k] == '\'') ==> Marked(spans, k)
  }

  lemma OrderPrepend(first: Span, spans: seq<Span>)
    requires InOrder(spans) && forall s :: s in spans ==> first.close < s.open
    ensures InOrder([first] + spans)
  {
    var all := [first] + spans;
    forall a, b | 0 <= a < b < |all| ensures all[a].close < all[b].open {
      assert all[b] == spans[b - 1] && spans[b - 1] in spans;
      assert a > 0 ==> all[a] == spans[a - 1];
    }
  }

  lemma MarkedPrepend(first: Span, spans: seq<Span>, k: int)
    requires first.open <= k <= first.close || Marked(spans, k)
    ensures Marked([first] + spans, k)
  {
    assert first in [first] + spans;
    assert forall s :: s in spans ==> s in [first] + spans;
  }

  lemma RestPrepend(l: string, p: nat, first: Span, spans: seq<Span>)
    requires IsSpan(l, first) && first.close < |l| && Rest(l, (first.close + 1) as nat, spans)
    requires first.open <= p
    ensures InOrder([first] + spans) && forall s :: s in [first] + spans ==> IsSpan(l, s)
    ensures forall k :: p <= k < |l| && (l[k] == '"' || l[k] == '\'') ==> Marked([first] + spans, k)
  {
    OrderPrepend(first, spans);
    forall k | p <= k < |l| && (l[k] == '"' || l[k] == '\'') ensures Marked([first] + spans, k) {
      MarkedPrepend(first, spans, k);
    }
  }

  lemma {:induction false} RestExists(l: string, p: nat) returns (spans: seq<Span>)
    requires p <= |l|
    ensures Rest(l, p, spans)
    decreases |l| - p
  {
    spans := [];
    if p < |l| {
      if l[p] == '"' || l[p] == '\'' {
        var close := SearchBare(l, p + 1, l[p]);
        var first := Span(p, close, l[p]);
        if close < |l| {
          var rest := RestExists(l, close + 1);
          RestPrepend(l, p, first, rest);
          spans := [first] + rest;
        } else {
          spans := [first];
          assert first in spans;
          assert forall k :: p <= k < |l| ==> Marked(spans, k);
        }
      } else {
        spans := RestExists(l, p + 1);
      }
    }
  }

  lemma LayoutExists(q: Quote, l: string) returns (spans: seq<Span>)
    ensures Layout(q, l, spans)
  {
    if q.Outside? {
      spans := RestExists(l, 0);
      assert spans != [] ==> spans[0] in spans;
    } else {
      var mark := if q.single then '\'' else '"';
      var close := SearchBare(l, 0, mark);
      var first := Span(-1, close, mark);
      if close < |l| {
        var rest := RestExists(l, close + 1);
        RestPrepend(l, 0, first, rest);
        spans := [first] + rest;
      } else {
        spans := [first];
        assert first in spans;
        assert forall k :: 0 <= k < |l| ==> Marked(spans, k);
      }
    }
  }

  // ---- the scan is inside quotes exactly within a literal

  // The state of the scan at k: the kind of the literal around it, and whether the next character is escaped.
  ghost predicate StateAt(q: Quote, l: string, spans: seq<Span>, k: nat) {
    && k <= |l|
    && (forall s :: s in spans && s.open < k <= s.close ==> After(q, l[..k]) == Inside(s.mark == '\'', !Bare(l, k)))
    && (!Within(spans, k) ==> After(q, l[..k]).Outside?)
  }

  lemma OneSpan(l: string, spans: seq<Span>, s: Span, t: Span, k: int)
    requires InOrder(spans) && s in spans && t in spans && s.open <= k <= s.close && t.open <= k <= t.close
    ensures s == t
  {
    var a, b :| 0 <= a < |spans| && 0 <= b < |spans| && spans[a] == s && spans[b] == t;
  }

  lemma AfterNext(q: Quote, l: string, k: nat)
    requires k < |l|
    ensures After(q, l[..k + 1]) == Step(After(q, l[..k]), l[k])
  {
    assert l[..k + 1][..k] == l[..k];
  }

  // Behind the closing mark no literal is open.
  lemma StateClosed(q: Quote, l: string, spans: seq<Span>, s: Span, k: nat)
    requires Layout(q, l, spans) && StateAt(q, l, spans, k) && k < |l| && s in spans && s.open < k == s.close
    ensures StateAt(q, l, spans, k + 1)
  {
    AfterNext(q, l, k);
    assert IsSpan(l, s);
    forall t | t in spans && t.open < k + 1 <= t.close ensures t == s {
      OneSpan(l, spans, s, t, k);
    }
  }

  lemma StateWithin(q: Quote, l: string, spans: seq<Span>, s: Span, k: nat)
    requires Layout(q, l, spans) && StateAt(q, l, spans, k) && k < |l| && s in spans && s.open < k < s.close
    ensures StateAt(q, l, spans, k + 1)
  {
    AfterNext(q, l, k);
    BareNext(l, k);
    assert IsSpan(l, s);
    assert l[k] == s.mark ==> !Bare(l, k);
    forall t | t in spans && t.open < k + 1 <= t.close ensures t == s {
      OneSpan(l, spans, s, t, k);
    }
  }

  lemma StateOpens(q: Quote, l: string, spans: seq<Span>, s: Span, k: nat)
    requires Layout(q, l, spans) && StateAt(q, l, spans, k) && k < |l| && !Within(spans, k) && s in spans && s.open == k
    ensures StateAt(q, l, spans, k + 1)
  {
    AfterNext(q, l, k);
    BareNext(l, k);
    assert IsSpan(l, s);
    forall t | t in spans && t.open < k + 1 <= t.close ensures t == s {
      OneSpan(l, spans, s, t, k);
    }
  }

  lemma StateBetween(q: Quote, l: string, spans: seq<Span>, k: nat)
    requires Layout(q, l, spans) && StateAt(q, l, spans, k) && k < |l| && !Within(spans, k)
    requires forall s :: s in spans ==> s.open != k
    ensures StateAt(q, l, spans, k + 1)
  {
    AfterNext(q, l, k);
    assert l[k] == '"' || l[k] == '\'' ==> Marked(spans, k);
  }

  lemma StateStep(q: Quote, l: string, spans: seq<Span>, k: nat)
    requires Layout(q, l, spans) && StateAt(q, l, spans, k) && k < |l|
    ensures StateAt(q, l, spans, k + 1)
  {
    if s :| s in spans && s.open < k <= s.close {
      if k == s.close {
        StateClosed(q, l, spans, s, k);
      } else {
        StateWithin(q, l, spans, s, k);
      }
    } else if s :| s in spans && s.open == k {
      StateOpens(q, l, spans, s, k);
    } else {
      StateBetween(q, l, spans, k);
    }
  }

  lemma StateStart(q: Quote, l: string, spans: seq<Span>)
    requires Layout(q, l, spans) && Calm(q)
    ensures StateAt(q, l, spans, 0)
  {
    BareStart(l);
    assert l[..0] == "";
    forall s | s in spans && s.open < 0 <= s.close ensures q.Inside? && s == spans[0] {
      var a :| 0 <= a < |spans| && spans[a] == s;
      assert IsSpan(l, s) && spans[0] in spans && IsSpan(l, spans[0]);
    }
    if q.Inside? {
      assert spans[0] in spans && IsSpan(l, spans[0]);
    }
  }

  lemma {:induction false} StateIs(q: Quote, l: string, spans: seq<Span>, k: nat)
    requires Layout(q, l, spans) && Calm(q) && k <= |l|
    ensures StateAt(q, l, spans, k)
    decreases k
  {
    if k == 0 {
      StateStart(q, l, spans);
    } else {
      StateIs(q, l, spans, k - 1);
      StateStep(q, l, spans, k - 1);
    }
  }

  // The scan is inside quotes exactly within a literal, and knows the kind of its mark.
  lemma InsideIff(q: Quote, l: string, spans: seq<Span>, k: nat)
    requires Layout(q, l, spans) && Calm(q) && k <= |l|
    ensures After(q, l[..k]).Inside? <==> Within(spans, k)
    ensures forall s :: s in spans && s.open < k <= s.close ==>
      After(q, l[..k]).Inside? && (After(q, l[..k]).single <==> s.mark == '\'')
  {
    StateIs(q, l, spans, k);
  }

  // ---- comments and semicolons outside of literals

  // A comment: two dashes outside of literals, in front of a blank or the end of the line.
  ghost predicate CommentStart(l: string, spans: seq<Span>, k: int) {
    && 0 <= k && k + 1 < |l| && l[k] == '-' && l[k + 1] == '-' && !Within(spans, k)
    && (k + 2 == |l| || l[k + 2] == ' ' || l[k + 2] == '\t' || l[k + 2] == '\n' || l[k + 2] == '\r'
        || l[k + 2] == 11 as char || l[k + 2] == 12 as char)
  }

  lemma CommentIff(q: Quote, l: string, spans: seq<Span>, k: nat)
    requires Layout(q, l, spans) && Calm(q) && k <= |l|
    ensures CommentStart(l, spans, k) <==> CommentAt(l, k) && After(q, l[..k]).Outside?
  {
    InsideIff(q, l, spans, k);
  }

  // No comment begins between i and e.
  ghost predicate NoComment(l: string, spans: seq<Span>, i: nat, e: nat) {
    forall k :: i <= k < e ==> !CommentStart(l, spans, k)
  }

  lemma NoCommentFrom(l: string, spans: seq<Span>, i: nat, e: nat)
    requires NoComment(l, spans, i + 1, e) && !CommentStart(l, spans, i)
    ensures NoComment(l, spans, i, e)
  {
  }

  lemma {:induction false} CodeEndFrom(q: Quote, l: string, spans: seq<Span>, i: nat)
    requires Layout(q, l, spans) && Calm(q) && i <= |l|
    ensures var e := CodeEnd(After(q, l[..i]), l, i); (e < |l| ==> CommentStart(l, spans, e)) && NoComment(l, spans, i, e)
    decreases |l| - i
  {
    CommentIff(q, l, spans, i);
    if i < |l| && !CommentStart(l, spans, i) {
      AfterNext(q, l, i);
      CodeEndFrom(q, l, spans, i + 1);
      NoCommentFrom(l, spans, i, CodeEnd(After(q, l[..i + 1]), l, i + 1));
    }
  }

  // The code of a line ends at its first comment, or with the line.
  lemma CodeEndIs(q: Quote, l: string, spans: seq<Span>)
    requires Layout(q, l, spans) && Calm(q)
    ensures var e := CodeEnd(q, l, 0); (e < |l| ==> CommentStart(l, spans, e)) && NoComment(l, spans, 0, e)
  {
    assert l[..0] == "";
    CodeEndFrom(q, l, spans, 0);
  }

  // A semicolon outside of literals.
  ghost predicate Divides(l: string, spans: seq<Span>, k: int) {
    0 <= k < |l| && l[k] == ';' && !Within(spans, k)
  }

  // The scan counts exactly those.
  lemma {:induction false} CountsDivisions(q: Quote, l: string, spans: seq<Span>, i: nat)
    requires Layout(q, l, spans) && Calm(q) && i <= |l|
    ensures var r := Read(Reading(q, [], 0), l[..i]);
      && r.quote == After(q, l[..i])
      && (r.semicolons == 0 <==> forall k :: 0 <= k < i ==> !Divides(l, spans, k))
    decreases i
  {
    AfterIsRead(Reading(q, [], 0), l[..i]);
    if i > 0 {
      CountsDivisions(q, l, spans, i - 1);
      assert l[..i][..i - 1] == l[..i - 1];
      InsideIff(q, l, spans, i - 1);
      assert (forall k :: 0 <= k < i ==> !Divides(l, spans, k))
        <==> !Divides(l, spans, i - 1) && forall k :: 0 <= k < i - 1 ==> !Divides(l, spans, k);
    }
  }

  // A statement is complete if its last character is its first semicolon outside of literals.
  lemma CompleteIff(stmt: string, spans: seq<Span>)
    requires Layout(Outside, stmt, spans)
    ensures Complete(stmt) <==> Divides(stmt, spans, |stmt| - 1) && forall k :: 0 <= k < |stmt| - 1 ==> !Divides(stmt, spans, k)
  {
    if stmt != "" {
      CountsDivisions(Outside, stmt, spans, |stmt| - 1);
      InsideIff(Outside, stmt, spans, |stmt| - 1);
    }
  }

  // A line ends a statement if only blanks stand behind its last semicolon outside of literals.
  lemma EndsStatementIff(q: Quote, l: string, spans: seq<Span>)
    requires Layout(q, l, spans) && Calm(q)
    ensures EndsStatement(q, l) <==> exists k :: Divides(l, spans, k) && Blank(l, (k + 1) as nat, |l|)
  {
    var n := TrimEndIs(l);
    if n > 0 {
      assert l[..n][..n - 1] == l[..n - 1];
      InsideIff(q, l, spans, n - 1);
      assert Divides(l, spans, n - 1) && Blank(l, n, |l|) <==> EndsStatement(q, l);
    }
    if k :| Divides(l, spans, k) && Blank(l, (k + 1) as nat, |l|) {
      assert n > k + 1 ==> BlankAt(l, n - 1);
      assert n <= k ==> BlankAt(l, k);
      assert n == k + 1;
    }
  }

  // When a line stops the reading.
  lemma StopsIff(q: Quote, l: string, spans: seq<Span>, first: bool)
    requires Layout(q, l, spans) && Calm(q)
    ensures (forall k :: !CommentStart(l, spans, k)) ==>
      (Stops(q, l, first) <==> exists k :: Divides(l, spans, k) && Blank(l, (k + 1) as nat, |l|))
    ensures forall e: nat :: CommentStart(l, spans, e) && NoComment(l, spans, 0, e) ==>
      (Stops(q, l, first) <==> first && Hollow(l, e))
  {
    CodeEndIs(q, l, spans);
    EndsStatementIff(q, l, spans);
  }

  // A text with one literal, which opens it.
  lemma OneLiteral(l: string, s: Span)
    requires IsSpan(l, s) && s.open == 0 && forall k :: s.close < k < |l| ==> l[k] != '"' && l[k] != '\''
    ensures Layout(Outside, l, [s])
  {
    forall k | 0 <= k < |l| && (l[k] == '"' || l[k] == '\'') ensures Marked([s], k) {
      assert s in [s] && s.open <= k <= s.close;
    }
  }

  // The semicolon at the end of a text with one literal is all that counts.
  lemma CompleteBehind(l: string, s: Span)
    requires IsSpan(l, s) && s.open == 0 && forall k :: s.close < k < |l| ==> l[k] != '"' && l[k] != '\''
    requires |l| - 2 <= s.close
    ensures Complete(l) <==> s.close == |l| - 2 && l[|l| - 1] == ';'
  {
    OneLiteral(l, s);
    CompleteIff(l, [s]);
    forall k ensures Within([s], k) <==> s.open < k <= s.close {
      assert s in [s];
    }
  }

  // A semicolon within a literal ends no statement, and a mark of the other kind does not end the literal.
  lemma OtherMarkInside()
    ensures Complete("\"it's; ok\";") && !Complete("\"it's;")
  {
    var l, cut := "\"it's; ok\";", "\"it's;";
    assert BackslashRun(l, 9, 0);
    CompleteBehind(l, Span(0, 9, '"'));
    CompleteBehind(cut, Span(0, 6, '"'));
  }

  // An escaped mark does not end it either.
  lemma EscapedMarkInside()
    ensures !Complete("'\\';")
  {
    var l := "'\\';";
    assert BackslashRun(l, 2, 1);
    BareIff(l, 2, 1);
    CompleteBehind(l, Span(0, 4, '\''));
  }

  // A mark behind two backslashes does.
  lemma MarkBehindTwo()
    ensures Complete("'\\\\';")
  {
    var l := "'\\\\';";
    assert BackslashRun(l, 3, 2);
    CompleteBehind(l, Span(0, 3, '\''));
  }

  // Two dashes and a blank start a comment, and without a blank they do not.
  lemma DashesAndBlank()
    ensures CodeEnd(Outside, "-- text", 0) == 0 && CodeEnd(Outside, "--text", 0) == 6
  {
    assert Layout(Outside, "-- text", []) && Layout(Outside, "--text", []);
    CodeEndIs(Outside, "-- text", []);
    CodeEndIs(Outside, "--text", []);
    assert CommentStart("-- text", [], 0);
  }

  lemma LineRead(s: Source, l: string)
    requires Calm(s.quote) && Layout(s.quote, l, []) && forall k :: !CommentStart(l, [], k)
    requires Unescape(if s.started then l else TrimLeft(l)) == l
    ensures var r := Read(LineStart(s), l); NextSource(s, l) == Source(NextLine(r.quote), r.tokens, true)
  {
    CodeEndIs(s.quote, l, []);
  }

  lemma PlainLines()
    ensures Layout(Outside, "a", []) && Layout(Outside, " b", [])
    ensures Unescape(TrimLeft("a")) == "a" && Unescape(" b") == " b"
  {
    assert " b"[1..] == "b";
  }

  // Lines are joined by line breaks.
  lemma TwoLines()
    ensures SourceOf(["a", " b"]) == Source(Outside, [Text('a'), Text('\n'), Text(' '), Text('b')], true)
  {
    var start, next := Source(Outside, [], false), Source(Outside, [Text('a')], true);
    PlainLines();
    LineRead(start, "a");
    LineRead(next, " b");
    ReadOne(LineStart(start), 'a');
    ReadTwo(LineStart(next), ' ', 'b');
    assert NextSource(start, "a") == next;
    assert ["a", " b"][..1] == ["a"] && ["a"][..0] == [];
    assert SourceOf(["a"]) == next;
  }

  lemma ReadOne(r: Reading, a: char)
    ensures Read(r, [a]) == Take(r, a)
  {
    assert [a][..0] == "";
  }

  lemma ReadTwo(r: Reading, a: char, b: char)
    ensures Read(r, [a, b]) == Take(Take(r, a), b)
  {
    ReadOne(r, a);
    assert [a, b][..1] == [a];
  }
}
