/**
  Which comments outside of literals a removal leaves in the text.
 */
module KeptComments {
  import opened CommentRemover

  // The ranges that the literals really have.
  function Ranges(literals: seq<Literal>): seq<Range> {
    seq(|literals|, i requires 0 <= i < |literals| => Range(literals[i].left, literals[i].right))
  }

  // The recorded range of a literal that is not the first one begins with the distance to the literal before.
  predicate ShadowedBy(literals: seq<Literal>, i: nat, k: int)
    requires 0 < i < |literals|
  {
    literals[i].left - literals[i - 1].right - 1 <= k <= literals[i].right
  }

  ghost predicate Shadowed(literals: seq<Literal>, k: int) {
    exists i: nat :: 0 < i < |literals| && ShadowedBy(literals, i, k)
  }

  lemma CoveredByLiterals(literals: seq<Literal>, k: int)
    ensures Covered(Ranges(literals), k) <==> InLiteral(literals, k)
  {
    if Covered(Ranges(literals), k) {
      var i :| 0 <= i < |literals| && Holds(Ranges(literals)[i], k);
      assert literals[i].left <= k <= literals[i].right;
    }
    if InLiteral(literals, k) {
      var i :| 0 <= i < |literals| && literals[i].left <= k <= literals[i].right;
      assert Holds(Ranges(literals)[i], k);
    }
  }

  // What the recorded ranges cover: the first literal, and the shadows of the others.
  lemma CoveredIff(literals: seq<Literal>, k: int)
    ensures Covered(Recorded(literals), k)
      <==> (literals != [] && literals[0].left <= k <= literals[0].right) || Shadowed(literals, k)
  {
    var ranges := Recorded(literals);
    if Covered(ranges, k) {
      var i :| 0 <= i < |ranges| && Holds(ranges[i], k);
      assert i > 0 ==> ShadowedBy(literals, i, k);
    }
    if literals != [] && literals[0].left <= k <= literals[0].right {
      assert Holds(ranges[0], k);
    }
    if Shadowed(literals, k) {
      var i: nat :| 0 < i < |literals| && ShadowedBy(literals, i, k);
      assert Holds(ranges[i], k);
    }
  }

  // The covered characters are those of the literals and those in a shadow.
  lemma CoveredOutside(literals: seq<Literal>, k: int)
    ensures Covered(Recorded(literals), k) <==> InLiteral(literals, k) || Shadowed(literals, k)
  {
    CoveredIff(literals, k);
    if InLiteral(literals, k) {
      LiteralsAreCovered(literals, k);
    }
  }

  lemma MarkerIff(sql: string, literals: seq<Literal>, style: Style, k: int)
    ensures Marker(sql, Ranges(literals), style, k) <==> Opens(sql, style, k) && !InLiteral(literals, k)
    ensures Marker(sql, Recorded(literals), style, k)
      <==> Opens(sql, style, k) && !InLiteral(literals, k) && !Shadowed(literals, k)
  {
    CoveredByLiterals(literals, k);
    CoveredOutside(literals, k);
  }

  // Outside of literals and shadows every marker goes.
  lemma UnshadowedGoes(sql: string, literals: seq<Literal>, style: Style, cuts: seq<Cut>, k: nat)
    requires Done(sql, Recorded(literals), style, cuts, |sql|)
    requires Opens(sql, style, k) && !InLiteral(literals, k) && !Shadowed(literals, k)
    ensures InCut(cuts, k)
  {
    MarkerIff(sql, literals, style, k);
    assert CutAt(sql, Recorded(literals), style, cuts, |sql|, k);
  }

  // Within a cut that starts earlier.
  ghost predicate CutEarlier(cuts: seq<Cut>, k: int) {
    exists i :: 0 <= i < |cuts| && Inside(cuts[i], k) && cuts[i].from < k
  }

  // A marker outside of the literals and of the comments before it stays if and only if it is shadowed.
  lemma MarkerStaysIff(sql: string, literals: seq<Literal>, style: Style, cuts: seq<Cut>, k: nat)
    requires Done(sql, Recorded(literals), style, cuts, |sql|)
    requires Opens(sql, style, k) && !InLiteral(literals, k) && !CutEarlier(cuts, k)
    ensures !InCut(cuts, k) <==> Shadowed(literals, k)
  {
    MarkerIff(sql, literals, style, k);
    assert CutAt(sql, Recorded(literals), style, cuts, |sql|, k);
    if InCut(cuts, k) {
      var i :| 0 <= i < |cuts| && Inside(cuts[i], k);
      assert IsCutAt(sql, Recorded(literals), style, cuts, i);
      assert cuts[i].from == k;
    }
  }

  // ---- all comments of a text

  // Every marker outside of the literals is cut.
  ghost predicate AllCut(sql: string, literals: seq<Literal>, style: Style, cuts: seq<Cut>) {
    forall k: nat :: MarkerCut(sql, literals, style, cuts, k)
  }

  ghost predicate MarkerCut(sql: string, literals: seq<Literal>, style: Style, cuts: seq<Cut>, k: nat) {
    Opens(sql, style, k) && !InLiteral(literals, k) ==> InCut(cuts, k)
  }

  // The comments of a text are those cut with the literals' own ranges.
  ghost predicate Comments(sql: string, literals: seq<Literal>, style: Style, comments: seq<Cut>) {
    Done(sql, Ranges(literals), style, comments, |sql|)
  }

  ghost predicate NoneShadowed(literals: seq<Literal>, comments: seq<Cut>) {
    forall i: nat :: i < |comments| ==> !Shadowed(literals, comments[i].from)
  }

  // Cuts that take every marker are the comments.
  lemma AllCutAreComments(sql: string, literals: seq<Literal>, style: Style, cuts: seq<Cut>)
    requires Done(sql, Recorded(literals), style, cuts, |sql|) && AllCut(sql, literals, style, cuts)
    ensures Comments(sql, literals, style, cuts) && NoneShadowed(literals, cuts)
  {
    forall i: nat
      ensures IsCutAt(sql, Ranges(literals), style, cuts, i)
      ensures i < |cuts| ==> !Shadowed(literals, cuts[i].from)
    {
      assert IsCutAt(sql, Recorded(literals), style, cuts, i);
      if i < |cuts| {
        MarkerIff(sql, literals, style, cuts[i].from);
      }
    }
    forall k: nat
      ensures CutAt(sql, Ranges(literals), style, cuts, |sql|, k)
    {
      MarkerIff(sql, literals, style, k);
      assert MarkerCut(sql, literals, style, cuts, k);
    }
  }

  // Comments of which none begins in a shadow are cut.
  lemma CommentsAreCut(sql: string, literals: seq<Literal>, style: Style, comments: seq<Cut>)
    requires Comments(sql, literals, style, comments) && NoneShadowed(literals, comments)
    ensures Done(sql, Recorded(literals), style, comments, |sql|)
  {
    forall i: nat
      ensures IsCutAt(sql, Recorded(literals), style, comments, i)
    {
      assert IsCutAt(sql, Ranges(literals), style, comments, i);
      if i < |comments| {
        MarkerIff(sql, literals, style, comments[i].from);
      }
    }
    forall k: nat
      ensures CutAt(sql, Recorded(literals), style, comments, |sql|, k)
    {
      MarkerIff(sql, literals, style, k);
      assert CutAt(sql, Ranges(literals), style, comments, |sql|, k);
    }
  }

  lemma CutsUnique(sql: string, ranges: seq<Range>, style: Style, cuts: seq<Cut>, more: seq<Cut>)
    requires Done(sql, ranges, style, cuts, |sql|) && Done(sql, ranges, style, more, |sql|)
    ensures cuts == more
  {
    CutsAgree(sql, ranges, style, cuts, |sql|, more, |sql|, |cuts|);
    CutsAgree(sql, ranges, style, more, |sql|, cuts, |sql|, |more|);
    assert cuts == cuts[..|cuts|] == more[..|more|] == more;
  }

  // A removal takes every comment of the text, and nothing else, if and only if no comment begins in
  // the shadow of a literal.
  lemma RemovesAllIff(sql: string, literals: seq<Literal>, style: Style, cuts: seq<Cut>, comments: seq<Cut>)
    requires Done(sql, Recorded(literals), style, cuts, |sql|) && Comments(sql, literals, style, comments)
    ensures AllCut(sql, literals, style, cuts) <==> NoneShadowed(literals, comments)
    ensures NoneShadowed(literals, comments) <==> cuts == comments
  {
    if AllCut(sql, literals, style, cuts) {
      AllCutAreComments(sql, literals, style, cuts);
      CutsUnique(sql, Ranges(literals), style, cuts, comments);
    }
    if NoneShadowed(literals, comments) {
      CommentsAreCut(sql, literals, style, comments);
      CutsUnique(sql, Recorded(literals), style, cuts, comments);
    }
    if cuts == comments {
      forall k: nat
        ensures MarkerCut(sql, literals, style, cuts, k)
      {
        MarkerIff(sql, literals, style, k);
        assert CutAt(sql, Ranges(literals), style, comments, |sql|, k);
      }
    }
  }

  // Finds the comments behind p, up to one that never ends.
  lemma {:induction false} Scan(sql: string, ranges: seq<Range>, style: Style, cuts: seq<Cut>, p: nat)
    returns (all: seq<Cut>, q: nat)
    requires Done(sql, ranges, style, cuts, p) && p <= |sql|
    ensures Done(sql, ranges, style, all, q)
    ensures q == |sql| || (style == Block && Unclosed(sql, ranges, all, q))
    decreases |sql| - p
  {
    if p == |sql| {
      all, q := cuts, p;
    } else if !Marker(sql, ranges, style, p) {
      DonePass(sql, ranges, style, cuts, p, p + 1);
      all, q := Scan(sql, ranges, style, cuts, p + 1);
    } else if c: Cut :| c.from == p && Ends(sql, style, c) {
      DoneCut(sql, ranges, style, cuts, c);
      all, q := Scan(sql, ranges, style, cuts + [c], c.to);
    } else {
      LineEnds(sql, p);
      BlockEnds(sql, p);
      all, q := cuts, p;
    }
  }

  // Every text has comments, unless a block comment never ends; and then a removal that succeeds has
  // not cut every marker.
  lemma CommentsExist(sql: string, literals: seq<Literal>, style: Style)
    ensures (exists comments :: Comments(sql, literals, style, comments))
      || (style == Block && exists comments, k :: Unclosed(sql, Ranges(literals), comments, k))
  {
    assert Done(sql, Ranges(literals), style, [], 0) by {
      assert forall i: nat :: IsCutAt(sql, Ranges(literals), style, [], i);
      assert forall k: nat :: CutAt(sql, Ranges(literals), style, [], 0, k);
    }
    var all, q := Scan(sql, Ranges(literals), style, [], 0);
    assert q == |sql| ==> Comments(sql, literals, style, all);
  }

  lemma UnclosedStays(sql: string, literals: seq<Literal>, cuts: seq<Cut>, comments: seq<Cut>, k: nat)
    requires Done(sql, Recorded(literals), Block, cuts, |sql|)
    requires Unclosed(sql, Ranges(literals), comments, k)
    ensures !AllCut(sql, literals, Block, cuts)
  {
    if AllCut(sql, literals, Block, cuts) {
      AllCutAreComments(sql, literals, Block, cuts);
      UnclosedHasNoResult(sql, Ranges(literals), comments, k, cuts);
    }
  }

  // A removal that succeeds takes every comment outside of literals if and only if the text has only
  // comments that end, none of which begins in the shadow of a literal.
  lemma EveryCommentGoesIff(sql: string, style: Style, cuts: seq<Cut>, result: string)
    requires Literals(sql, 0).Some?
    requires Reached(sql, Recorded(Literals(sql, 0).value), style, cuts, |sql|, result)
    ensures var literals := Literals(sql, 0).value;
      AllCut(sql, literals, style, cuts)
      <==> exists comments :: Comments(sql, literals, style, comments) && NoneShadowed(literals, comments)
  {
    var literals := Literals(sql, 0).value;
    CommentsExist(sql, literals, style);
    if comments :| Comments(sql, literals, style, comments) {
      RemovesAllIff(sql, literals, style, cuts, comments);
      forall other | Comments(sql, literals, style, other) ensures other == comments {
        CutsUnique(sql, Ranges(literals), style, other, comments);
      }
    } else {
      var comments, k :| Unclosed(sql, Ranges(literals), comments, k);
      UnclosedStays(sql, literals, cuts, comments, k);
    }
  }

  // ---- both removals

  // The result comes from removals that take every marker outside of literals.
  ghost predicate TakesAll(sql: string, between: string, result: string, blocks: seq<Cut>, lines: seq<Cut>) {
    && Literals(sql, 0).Some? && Literals(between, 0).Some?
    && Reached(sql, Recorded(Literals(sql, 0).value), Block, blocks, |sql|, between)
    && AllCut(sql, Literals(sql, 0).value, Block, blocks)
    && Reached(between, Recorded(Literals(between, 0).value), Line, lines, |between|, result)
    && AllCut(between, Literals(between, 0).value, Line, lines)
  }

  ghost predicate AllRemoved(sql: string, result: string) {
    exists between, blocks, lines :: TakesAll(sql, between, result, blocks, lines)
  }

  // None of these comments of the text begins in the shadow of a literal.
  ghost predicate Clear(sql: string, style: Style, comments: seq<Cut>) {
    && Literals(sql, 0).Some? && Comments(sql, Literals(sql, 0).value, style, comments)
    && NoneShadowed(Literals(sql, 0).value, comments)
  }

  // Nor does any line comment of the text without its block comments.
  ghost predicate AllClear(sql: string, blocks: seq<Cut>, lines: seq<Cut>) {
    Clear(sql, Block, blocks) && Clear(Kept(sql, blocks, " ", |sql|), Line, lines)
  }

  // The removal of comments that are clear takes them all.
  lemma ClearGoes(sql: string, style: Style, comments: seq<Cut>)
    requires Clear(sql, style, comments)
    ensures Reached(sql, Recorded(Literals(sql, 0).value), style, comments, |sql|, Kept(sql, comments, Filler(style), |sql|))
    ensures AllCut(sql, Literals(sql, 0).value, style, comments)
  {
    CommentsAreCut(sql, Literals(sql, 0).value, style, comments);
    RemovesAllIff(sql, Literals(sql, 0).value, style, comments, comments);
  }

  // Removing block comments and then line comments takes every comment outside of literals if and only
  // if all comments of the text end, and none of them begins in the shadow of a literal.
  lemma AllRemovedIff(sql: string, result: string)
    requires CommentsRemoved(sql, result)
    ensures AllRemoved(sql, result) <==> exists blocks, lines :: AllClear(sql, blocks, lines)
  {
    if AllRemoved(sql, result) {
      var between, blocks: seq<Cut>, lines: seq<Cut> :| TakesAll(sql, between, result, blocks, lines);
      AllCutAreComments(sql, Literals(sql, 0).value, Block, blocks);
      AllCutAreComments(between, Literals(between, 0).value, Line, lines);
      assert AllClear(sql, blocks, lines);
    }
    if blocks, lines :| AllClear(sql, blocks, lines) {
      var between := Kept(sql, blocks, " ", |sql|);
      ClearGoes(sql, Block, blocks);
      ClearGoes(between, Line, lines);
      var all := Kept(between, lines, "", |between|);
      assert BlocksRemoved(sql, between) && LinesRemoved(between, all);
      CommentsUnique(sql, result, all);
      assert TakesAll(sql, between, result, blocks, lines);
    }
  }

  // A text without block comment markers stays as it is.
  lemma NoBlocks(sql: string, literals: seq<Literal>)
    requires forall k :: !PairAt(sql, k, '/', '*')
    ensures Reached(sql, Recorded(literals), Block, [], |sql|, sql)
  {
    assert Kept(sql, [], Filler(Block), |sql|) == sql;
    assert forall k: nat :: CutAt(sql, Recorded(literals), Block, [], |sql|, k);
    assert forall i: nat :: IsCutAt(sql, Recorded(literals), Block, [], i);
  }

  // A first marker in a shadow is not cut.
  lemma FirstShadowedStays(sql: string, literals: seq<Literal>, style: Style, cuts: seq<Cut>, k: nat)
    requires Done(sql, Recorded(literals), style, cuts, |sql|)
    requires Opens(sql, style, k) && !InLiteral(literals, k) && Shadowed(literals, k)
    requires forall j :: Opens(sql, style, j) ==> k <= j
    ensures !AllCut(sql, literals, style, cuts)
  {
    assert !CutEarlier(cuts, k) by {
      if i: nat :| i < |cuts| && Inside(cuts[i], k) && cuts[i].from < k {
        assert IsCutAt(sql, Recorded(literals), style, cuts, i);
      }
    }
    MarkerStaysIff(sql, literals, style, cuts, k);
    assert !MarkerCut(sql, literals, style, cuts, k);
  }

  // A text without block comments whose first marker of a line comment is shadowed keeps that one.
  lemma NotAllRemoved(sql: string, k: nat)
    requires Literals(sql, 0).Some? && forall j :: !PairAt(sql, j, '/', '*')
    requires PairAt(sql, k, '-', '-') && forall j :: PairAt(sql, j, '-', '-') ==> k <= j
    requires !InLiteral(Literals(sql, 0).value, k) && Shadowed(Literals(sql, 0).value, k)
    ensures !AllRemoved(sql, sql)
  {
    if AllRemoved(sql, sql) {
      var between, blocks: seq<Cut>, lines: seq<Cut> :| TakesAll(sql, between, sql, blocks, lines);
      NoBlocks(sql, Literals(sql, 0).value);
      assert BlocksRemoved(sql, sql);
      BlocksUnique(sql, sql, between);
      FirstShadowedStays(sql, Literals(sql, 0).value, Line, lines, k);
    }
  }

  // The two removals leave the text alone.
  lemma NothingRemoved()
    ensures CommentsRemoved("'a'--'d'", "'a'--'d'")
  {
    var sql := "'a'--'d'";
    CommentBetweenLiteralsStays();
    NoBlocks(sql, Literals(sql, 0).value);
    assert BlocksRemoved(sql, sql);
  }

  // The comment between two literals stays in the result of both removals.
  lemma CommentStays()
    ensures CommentsRemoved("'a'--'d'", "'a'--'d'") && !AllRemoved("'a'--'d'", "'a'--'d'")
  {
    var sql := "'a'--'d'";
    NothingRemoved();
    TwoLiterals();
    assert ShadowedBy(Literals(sql, 0).value, 1, 3);
    NotAllRemoved(sql, 3);
  }
}
