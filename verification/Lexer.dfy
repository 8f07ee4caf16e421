/**
  The lexer of the extended syntax.  Input is ASCII text without NUL, so a character is one byte
  and NUL can stand for the end.
 */
module Lexer {
  import opened Characters

  type Ascii = c: char | 0 < c as int < 128 witness ' '

  const Eof := 0 as char

  // ---- characters

  predicate IsLetter(c: char) { 'a' <= c <= 'z' || 'A' <= c <= 'Z' }

  predicate IsDigit(c: char) { '0' <= c <= '9' }

  // A dot is consumed in front of any character, so it may also end an identifier.
  predicate IsIdent(c: char) {
    IsLetter(c) || IsDigit(c) || c == '_' || c == '/' || c == ':' || c == '-' || c == '.'
  }

  predicate IsOperator(c: char) { c in "+-*/%<>=()[]{},;!" }

  predicate IsPair(a: char, b: char) {
    (a == '*' && b == '*') || (a == '<' && b == '=') || (a == '>' && b == '=') || (a == '!' && b == '=')
    || (a == '<' && b == '>')
  }

  const Keywords := {
    "SELECT", "FROM", "WHERE", "LIMIT", "TRAIN", "PREDICT", "EXPLAIN", "EVALUATE", "RUN", "MAXIMIZE", "MINIMIZE",
    "USING", "WITH", "CMD", "COLUMN", "FOR", "LABEL", "INTO", "CONSTRAINT", "AND", "OR", "NOT", "AS", "TO", "SHOW",
    "GROUP", "BY"}

  function Upper(c: char): char {
    if 'a' <= c <= 'z' then 'A' + (c - 'a') else c
  }

  function ToUpper(s: string): string {
    seq(|s|, i requires 0 <= i < |s| => Upper(s[i]))
  }

  function At(input: seq<Ascii>, p: nat): char {
    if p < |input| then input[p] else Eof
  }

  // ---- what the tokens and the gaps between them are

  datatype Kind = Keyword(word: string) | Ident | Number | Str | Operator | PairOperator

  datatype Lexeme = Token(kind: Kind, text: seq<Ascii>) | Stop(code: int)

  // The end of the digits from p on.
  function DigitsEnd(input: seq<Ascii>, p: nat): (e: nat)
    requires p <= |input|
    ensures p <= e <= |input|
    decreases |input| - p
  {
    if p < |input| && IsDigit(input[p]) then DigitsEnd(input, p + 1) else p
  }

  // Digits, a fraction if digits follow the dot, an exponent if digits follow it.
  function NumberEnd(input: seq<Ascii>, p: nat): (e: nat)
    requires p < |input| && IsDigit(input[p])
    ensures p < e <= |input|
  {
    ExponentEnd(input, MantissaEnd(input, p))
  }

  function MantissaEnd(input: seq<Ascii>, p: nat): (e: nat)
    requires p < |input| && IsDigit(input[p])
    ensures p < e <= |input|
  {
    var d := DigitsEnd(input, p);
    if At(input, d) == '.' && IsDigit(At(input, d + 1)) then DigitsEnd(input, d + 1) else d
  }

  function ExponentEnd(input: seq<Ascii>, p: nat): (e: nat)
    requires p <= |input|
    ensures p <= e <= |input|
  {
    if At(input, p) == 'e' || At(input, p) == 'E' then
      var x := if At(input, p + 1) == '+' || At(input, p + 1) == '-' then p + 2 else p + 1;
      if IsDigit(At(input, x)) then DigitsEnd(input, x) else p
    else p
  }

  // What the regular expression for numbers allows after a first digit: digits with at most one dot,
  // a digit last, then possibly an exponent.
  ghost predicate IsNumber(input: seq<Ascii>, s: nat, e: nat) {
    exists m :: s < m <= e <= |input| && IsMantissa(input, s, m) && (m == e || IsExponent(input, m, e))
  }

  ghost predicate IsMantissa(input: seq<Ascii>, s: nat, m: nat) {
    || AllDigits(input, s, m)
    || exists d :: s < d < m && AllDigits(input, s, d) && At(input, d) == '.' && AllDigits(input, d + 1, m)
  }

  ghost predicate IsExponent(input: seq<Ascii>, m: nat, e: nat) {
    && m + 1 < e <= |input| && input[m] in {'e', 'E'}
    && (AllDigits(input, m + 1, e) || (input[m + 1] in {'+', '-'} && AllDigits(input, m + 2, e)))
  }

  ghost predicate AllDigits(input: seq<Ascii>, a: nat, b: nat) {
    a < b <= |input| && forall k :: a <= k < b ==> IsDigit(At(input, k))
  }

  lemma {:induction false} DigitsEndIsLast(input: seq<Ascii>, p: nat)
    requires p <= |input|
    ensures forall k :: p <= k < DigitsEnd(input, p) ==> IsDigit(At(input, k))
    ensures !IsDigit(At(input, DigitsEnd(input, p)))
    decreases |input| - p
  {
    if p < |input| && IsDigit(input[p]) {
      DigitsEndIsLast(input, p + 1);
    }
  }

  lemma MantissaEndIsMantissa(input: seq<Ascii>, s: nat)
    requires s < |input| && IsDigit(input[s])
    ensures IsMantissa(input, s, MantissaEnd(input, s))
  {
    var d := DigitsEnd(input, s);
    DigitsEndIsLast(input, s);
    assert AllDigits(input, s, d);
    if At(input, d) == '.' && IsDigit(At(input, d + 1)) {
      DigitsEndIsLast(input, d + 1);
    }
  }

  lemma NoLongerMantissa(input: seq<Ascii>, s: nat, m: nat)
    requires s < |input| && IsDigit(input[s]) && IsMantissa(input, s, m)
    ensures m <= MantissaEnd(input, s)
    ensures m < MantissaEnd(input, s) ==> At(input, m) == '.' || IsDigit(At(input, m))
  {
    DigitsEndIsLast(input, s);
    var e := DigitsEnd(input, s);
    if At(input, e) == '.' && IsDigit(At(input, e + 1)) {
      DigitsEndIsLast(input, e + 1);
    }
    if !AllDigits(input, s, m) {
      var d :| s < d < m && AllDigits(input, s, d) && At(input, d) == '.' && AllDigits(input, d + 1, m);
      assert d == e;
    }
  }

  lemma ExponentEndIsLongest(input: seq<Ascii>, m: nat, e: nat)
    requires m <= |input|
    ensures m < ExponentEnd(input, m) ==> IsExponent(input, m, ExponentEnd(input, m))
    ensures IsExponent(input, m, e) ==> e <= ExponentEnd(input, m)
  {
    var x := if At(input, m + 1) == '+' || At(input, m + 1) == '-' then m + 2 else m + 1;
    if x <= |input| {
      DigitsEndIsLast(input, x);
    }
  }

  // The number found is one, and the longest.
  lemma NumberEndIsLongest(input: seq<Ascii>, s: nat, e: nat)
    requires s < |input| && IsDigit(input[s])
    ensures IsNumber(input, s, NumberEnd(input, s))
    ensures IsNumber(input, s, e) ==> e <= NumberEnd(input, s)
  {
    MantissaEndIsMantissa(input, s);
    ExponentEndIsLongest(input, MantissaEnd(input, s), e);
    if IsNumber(input, s, e) {
      var m :| s < m <= e <= |input| && IsMantissa(input, s, m) && (m == e || IsExponent(input, m, e));
      NoLongerMantissa(input, s, m);
    }
  }

  // The end of a string whose inside starts at p: after the first quotation mark of either kind
  // that no backslash precedes.  Nothing if the input ends before.
  function StringEnd(input: seq<Ascii>, p: nat): (e: int)
    ensures e == -1 || p < e <= |input|
    decreases |input| - p
  {
    if p >= |input| then -1
    else if IsQuote(input[p]) then p + 1
    else if input[p] == '\\' then StringEnd(input, p + 2)
    else StringEnd(input, p + 1)
  }

  // A quotation mark of either kind behind an even number of backslashes.
  predicate EndsString(input: seq<Ascii>, k: nat) {
    k < |input| && IsQuote(input[k]) && Bare(input, k)
  }

  lemma {:induction false} StringEndFrom(input: seq<Ascii>, p: nat)
    requires p <= |input| ==> Bare(input, p)
    ensures StringEnd(input, p) == -1 ==> forall k: nat :: p <= k ==> !EndsString(input, k)
    ensures StringEnd(input, p) != -1 ==> EndsString(input, StringEnd(input, p) - 1)
    ensures StringEnd(input, p) != -1 ==> forall k: nat :: p <= k < StringEnd(input, p) - 1 ==> !EndsString(input, k)
    decreases |input| - p
  {
    if p < |input| && !IsQuote(input[p]) {
      BareNext(input, p);
      if input[p] == '\\' && p + 1 < |input| {
        BareNext(input, p + 1);
      }
      StringEndFrom(input, if input[p] == '\\' then p + 2 else p + 1);
    }
  }

  // A string ends at the first quotation mark behind an even number of backslashes.
  lemma StringEndIsFirst(input: seq<Ascii>, s: nat)
    requires s < |input| && IsQuote(input[s])
    ensures StringEnd(input, s + 1) == -1 ==> forall k: nat :: s < k ==> !EndsString(input, k)
    ensures StringEnd(input, s + 1) != -1 ==> EndsString(input, StringEnd(input, s + 1) - 1)
    ensures StringEnd(input, s + 1) != -1 ==> forall k: nat :: s < k < StringEnd(input, s + 1) - 1 ==> !EndsString(input, k)
  {
    BareNext(input, s);
    StringEndFrom(input, s + 1);
  }

  // A mark of the kind that opened the string ends it, with none of the other kind before that could.
  ghost predicate OwnMarkFirst(input: seq<Ascii>, s: nat, k: nat) {
    && s < k < |input| && EndsString(input, k) && input[k] == input[s]
    && forall j :: s < j < k && EndsString(input, j) ==> input[j] == input[s]
  }

  // A string is closed by its own mark if and only if no mark of the other kind that could end it comes
  // before the first one of its own.
  lemma OwnMarkIff(input: seq<Ascii>, s: nat)
    requires s < |input| && IsQuote(input[s]) && StringEnd(input, s + 1) != -1
    ensures input[StringEnd(input, s + 1) - 1] == input[s] <==> exists k :: OwnMarkFirst(input, s, k)
  {
    StringEndIsFirst(input, s);
    var e := StringEnd(input, s + 1) - 1;
    if input[e] == input[s] {
      assert OwnMarkFirst(input, s, e);
    }
    if k: nat :| OwnMarkFirst(input, s, k) {
      assert e <= k;
    }
  }

  // The text from s to e is a token of this kind, and as long as the rules make it.
  ghost predicate IsToken(input: seq<Ascii>, s: nat, e: nat, kind: Kind) {
    s < e <= |input| &&
    match kind
    case Keyword(word) => IsWord(input, s, e) && word == ToUpper(input[s..e]) && word in Keywords
    case Ident => IsWord(input, s, e) && ToUpper(input[s..e]) !in Keywords
    case Number => IsDigit(input[s]) && e == NumberEnd(input, s)
    case Str => IsQuote(input[s]) && e == StringEnd(input, s + 1)
    case PairOperator => e == s + 2 && IsPair(input[s], input[s + 1])
    case Operator => e == s + 1 && IsOperator(input[s]) && !(e < |input| && IsPair(input[s], input[e]))
  }

  ghost predicate IsWord(input: seq<Ascii>, s: nat, e: nat) {
    && s < e <= |input| && IsLetter(input[s])
    && (forall k :: s <= k < e ==> IsIdent(At(input, k))) && !IsIdent(At(input, e))
  }

  // A dot behind letters and the like, with nothing of that kind behind it.
  ghost predicate DotLast(input: seq<Ascii>, s: nat, k: nat) {
    && s < k < |input| && input[k] == '.' && !IsIdent(At(input, k + 1))
    && forall i :: s <= i < k ==> IsIdent(At(input, i))
  }

  // A word ends with a dot if and only if a dot in it is followed by nothing that belongs to a word.
  lemma WordEndsWithDotIff(input: seq<Ascii>, s: nat, e: nat)
    requires IsWord(input, s, e)
    ensures input[e - 1] == '.' <==> exists k :: DotLast(input, s, k)
  {
    if input[e - 1] == '.' {
      assert DotLast(input, s, e - 1);
    }
    if k: nat :| DotLast(input, s, k) {
      assert IsIdent(At(input, k));
    }
  }

  // The identifier is the letter and the dot.
  lemma DotEndsIdent()
    ensures IsToken("a.", 0, 2, Ident)
  {
    var input: seq<Ascii> := "a.";
    assert ToUpper(input[0..2]) == "A.";
  }

  // A single quotation mark and a double one make a string.
  lemma OtherMarkEndsString()
    ensures IsToken("'a\"", 0, 3, Str) && !exists k :: OwnMarkFirst("'a\"", 0, k)
  {
    OwnMarkIff("'a\"", 0);
  }

  // An escaped mark does not end a string.
  lemma EscapedMarkStays()
    ensures IsToken("\"\\\"\"", 0, 4, Str)
  {
    var input: seq<Ascii> := "\"\\\"\"";
    assert StringEnd(input, 3) == 4;
  }

  // The characters that a word may have behind its first letter.
  lemma WordCharacters()
    ensures IsToken("a-Z_z.A/9:0", 0, 11, Ident) && !IsIdent(' ') && !IsIdent('*') && !IsIdent(';') && !IsIdent('(')
  {
    var input: seq<Ascii> := "a-Z_z.A/9:0";
    assert ToUpper(input[0..11])[1] == '-';
  }

  // A number of digits, a fraction and an exponent.
  lemma NumberParts()
    ensures IsToken("10.9e-3,", 0, 7, Number)
  {
    var input: seq<Ascii> := "10.9e-3,";
    assert DigitsEnd(input, 1) == 2 && DigitsEnd(input, 0) == 2;
    assert DigitsEnd(input, 3) == 4 && DigitsEnd(input, 6) == 7;
  }

  // Keywords are told in upper and lower case.
  lemma KeywordInAnyCase()
    ensures IsToken("sElecT", 0, 6, Keyword("SELECT")) && IsToken("by ", 0, 2, Keyword("BY"))
  {
    var word: seq<Ascii>, short: seq<Ascii> := "sElecT", "by ";
    assert word[0..6] == "sElecT" && ToUpper(word[0..6]) == "SELECT";
    assert short[0..2] == "by" && ToUpper(short[0..2]) == "BY";
  }

  // The operators of two characters; a minus and an equal sign pair up with nothing.
  lemma PairsOfOperators()
    ensures IsToken("**", 0, 2, PairOperator) && IsToken("<=", 0, 2, PairOperator) && IsToken(">=", 0, 2, PairOperator)
    ensures IsToken("!=", 0, 2, PairOperator) && IsToken("<>", 0, 2, PairOperator)
    ensures forall c :: !IsPair('=', c) && !IsPair('-', c)
    ensures forall c :: c in ['+', '-', '*', '/', '%', '<', '>', '=', '(', ')', '[', ']', '{', '}', ',', ';', '!'] <==> IsOperator(c)
  {
  }

  // Two dashes up to the end of the line.
  ghost predicate LineComment(input: seq<Ascii>, s: nat, e: nat) {
    && s + 2 <= e <= |input| && input[s] == '-' && input[s + 1] == '-'
    && (forall k :: s + 2 <= k < e ==> At(input, k) != '\n') && At(input, e) in {'\n', Eof}
  }

  // From slash and star to the first star and slash; the two stars may be the same one.
  ghost predicate BlockComment(input: seq<Ascii>, s: nat, e: nat) {
    && s + 3 <= e <= |input| && input[s] == '/' && input[s + 1] == '*' && Closes(input, e - 2)
    && (forall k :: s < k < e - 2 ==> !Closes(input, k))
  }

  ghost predicate Comment(input: seq<Ascii>, s: nat, e: nat) {
    LineComment(input, s, e) || BlockComment(input, s, e)
  }

  ghost predicate BareComment(input: seq<Ascii>, s: nat, e: nat) {
    Comment(input, s, e) && e == s + if input[s] == '-' then 2 else 3
  }

  predicate Closes(input: seq<Ascii>, k: nat) {
    k + 1 < |input| && input[k] == '*' && input[k + 1] == '/'
  }

  // A comment or a string that the input ends inside.
  ghost predicate Unclosed(input: seq<Ascii>, p: nat) {
    || (p + 1 < |input| && input[p] == '/' && input[p + 1] == '*' && forall k :: p < k < |input| ==> !Closes(input, k))
    || (p < |input| && IsQuote(input[p]) && StringEnd(input, p + 1) == -1)
  }

  // No token starts with this character.
  predicate Foreign(c: char) { !IsLetter(c) && !IsDigit(c) && !IsQuote(c) && !IsOperator(c) }

  // Blanks and comments only.
  ghost predicate Gap(input: seq<Ascii>, a: nat, b: nat)
    decreases b - a
  {
    a <= b <= |input| &&
    (a == b
     || (IsSpace(input[a]) && Gap(input, a + 1, b))
     || exists m :: a < m <= b && Comment(input, a, m) && Gap(input, m, b))
  }

  // The same, with no character inside any comment.
  ghost predicate BareGap(input: seq<Ascii>, a: nat, b: nat)
    decreases b - a
  {
    a <= b <= |input| &&
    (a == b
     || (IsSpace(input[a]) && BareGap(input, a + 1, b))
     || exists m :: a < m <= b && BareComment(input, a, m) && BareGap(input, m, b))
  }

  lemma {:induction false} GapJoin(input: seq<Ascii>, a: nat, m: nat, b: nat)
    requires Gap(input, a, m) && Gap(input, m, b)
    ensures Gap(input, a, b)
    decreases m - a
  {
    if a < m {
      if IsSpace(input[a]) && Gap(input, a + 1, m) {
        GapJoin(input, a + 1, m, b);
      } else {
        var c :| a < c <= m && Comment(input, a, c) && Gap(input, c, m);
        GapJoin(input, c, m, b);
      }
    }
  }

  lemma {:induction false} BlankGap(input: seq<Ascii>, a: nat, b: nat)
    requires a <= b <= |input| && forall k :: a <= k < b ==> IsSpace(input[k])
    ensures Gap(input, a, b) && BareGap(input, a, b)
    decreases b - a
  {
    if a < b {
      BlankGap(input, a + 1, b);
    }
  }

  lemma CommentGap(input: seq<Ascii>, a: nat, b: nat)
    requires Comment(input, a, b)
    ensures Gap(input, a, b) && (BareComment(input, a, b) ==> BareGap(input, a, b))
  {
    assert Gap(input, b, b) && BareGap(input, b, b);
  }

  lemma CommentEndUnique(input: seq<Ascii>, a: nat, e: nat, e': nat)
    requires Comment(input, a, e) && Comment(input, a, e')
    ensures e == e'
  {
    if BlockComment(input, a, e) {
      assert Closes(input, e - 2) && Closes(input, e' - 2);
    } else {
      assert At(input, e) in {'\n', Eof} && At(input, e') in {'\n', Eof};
    }
  }

  // What is a bare gap to the end is one from every boundary on.
  lemma {:induction false} BareSuffix(input: seq<Ascii>, a: nat, m: nat)
    requires Gap(input, a, m) && BareGap(input, a, |input|)
    ensures BareGap(input, m, |input|)
    decreases m - a
  {
    if a < m {
      if IsSpace(input[a]) && Gap(input, a + 1, m) {
        BareSuffix(input, a + 1, m);
      } else {
        var c :| a < c <= m && Comment(input, a, c) && Gap(input, c, m);
        BareStep(input, a, c);
        BareSuffix(input, c, m);
      }
    }
  }

  lemma BareStep(input: seq<Ascii>, a: nat, c: nat)
    requires Comment(input, a, c) && BareGap(input, a, |input|)
    ensures BareComment(input, a, c) && BareGap(input, c, |input|)
  {
    var d :| a < d <= |input| && BareComment(input, a, d) && BareGap(input, d, |input|);
    CommentEndUnique(input, a, c, d);
  }

  lemma {:induction false} BareJoin(input: seq<Ascii>, a: nat, m: nat, b: nat)
    requires BareGap(input, a, m) && BareGap(input, m, b)
    ensures BareGap(input, a, b)
    decreases m - a
  {
    if a < m {
      if IsSpace(input[a]) && BareGap(input, a + 1, m) {
        BareJoin(input, a + 1, m, b);
      } else {
        var c :| a < c <= m && BareComment(input, a, c) && BareGap(input, c, m);
        BareJoin(input, c, m, b);
      }
    }
  }

  // A gap goes on over a comment, and stays bare only over a bare one.
  lemma Pass(input: seq<Ascii>, from: nat, a: nat, b: nat)
    requires Gap(input, from, a) && (a == b || Comment(input, a, b))
    ensures Gap(input, from, b)
    ensures BareGap(input, from, a) && (a == b || BareComment(input, a, b)) ==> BareGap(input, from, b)
    ensures a < b && !BareComment(input, a, b) ==> !BareGap(input, from, |input|)
  {
    if a < b {
      CommentGap(input, a, b);
      GapJoin(input, from, a, b);
      if BareGap(input, from, a) && BareComment(input, a, b) {
        BareJoin(input, from, a, b);
      }
      if BareGap(input, from, |input|) {
        BareSuffix(input, from, a);
        BareStep(input, a, b);
      }
    }
  }

  // ---- where the lexer stops skipping

  predicate OpensLine(input: seq<Ascii>, s: nat) { At(input, s) == '-' && At(input, s + 1) == '-' }

  predicate OpensBlock(input: seq<Ascii>, s: nat) { At(input, s) == '/' && At(input, s + 1) == '*' }

  // A blank, or the start of a comment.
  predicate GapGoesOn(input: seq<Ascii>, g: nat) {
    IsSpace(At(input, g)) || OpensLine(input, g) || OpensBlock(input, g)
  }

  function BlanksEnd(input: seq<Ascii>, p: nat): (e: nat)
    requires p <= |input|
    ensures p <= e <= |input|
    decreases |input| - p
  {
    if IsSpace(At(input, p)) then BlanksEnd(input, p + 1) else p
  }

  function LineEnd(input: seq<Ascii>, p: nat): (e: nat)
    requires p <= |input|
    ensures p <= e <= |input|
    decreases |input| - p
  {
    if At(input, p) in {'\n', Eof} then p else LineEnd(input, p + 1)
  }

  function BlockEnd(input: seq<Ascii>, p: nat): (e: int)
    requires p <= |input|
    ensures e == -1 || p + 2 <= e <= |input|
    decreases |input| - p
  {
    if p == |input| then -1 else if Closes(input, p) then p + 2 else BlockEnd(input, p + 1)
  }

  // The end of the comment at s, or s if there is none, or -1 for one that never ends.
  function CommentEnd(input: seq<Ascii>, s: nat): (e: int)
    requires s <= |input|
    ensures e == -1 || s <= e <= |input|
  {
    if OpensLine(input, s) then LineEnd(input, s + 2)
    else if OpensBlock(input, s) then BlockEnd(input, s + 1)
    else s
  }

  // Nothing is skipped inside of a comment that goes from s to c, if there is one at all.
  predicate SkipsNothing(input: seq<Ascii>, s: nat, c: nat)
    requires s <= |input|
  {
    c == s || c == s + if At(input, s) == '-' then 2 else 3
  }

  // Every round skips blanks and a comment; skipping stops behind a round without blanks that
  // skips no character inside of a comment.
  function GapStop(input: seq<Ascii>, p: nat): (g: int)
    requires p <= |input|
    ensures g == -1 || p <= g <= |input|
    decreases |input| - p
  {
    var s := BlanksEnd(input, p);
    var c := CommentEnd(input, s);
    if c == -1 then -1
    else if s == p && SkipsNothing(input, s, c) then c
    else GapStop(input, c)
  }

  lemma {:induction false} BlanksEndIs(input: seq<Ascii>, p: nat)
    requires p <= |input|
    ensures !IsSpace(At(input, BlanksEnd(input, p)))
    ensures forall k :: p <= k < BlanksEnd(input, p) ==> IsSpace(At(input, k))
    decreases |input| - p
  {
    if IsSpace(At(input, p)) {
      BlanksEndIs(input, p + 1);
    }
  }

  lemma {:induction false} LineEndIs(input: seq<Ascii>, p: nat)
    requires p <= |input|
    ensures At(input, LineEnd(input, p)) in {'\n', Eof}
    ensures forall k :: p <= k < LineEnd(input, p) ==> At(input, k) != '\n'
    decreases |input| - p
  {
    if At(input, p) !in {'\n', Eof} {
      LineEndIs(input, p + 1);
    }
  }

  lemma {:induction false} BlockEndIs(input: seq<Ascii>, p: nat)
    requires p <= |input|
    ensures BlockEnd(input, p) == -1 ==> forall k :: p <= k < |input| ==> !Closes(input, k)
    ensures BlockEnd(input, p) != -1 ==>
      Closes(input, BlockEnd(input, p) - 2) && forall k :: p <= k < BlockEnd(input, p) - 2 ==> !Closes(input, k)
    decreases |input| - p
  {
    if p < |input| && !Closes(input, p) {
      BlockEndIs(input, p + 1);
    }
  }

  lemma CommentEndIs(input: seq<Ascii>, s: nat)
    requires s <= |input|
    ensures var e := CommentEnd(input, s);
      if e == -1 then Unclosed(input, s)
      else if e == s then !OpensLine(input, s) && !OpensBlock(input, s)
      else Comment(input, s, e) && (SkipsNothing(input, s, e) <==> BareComment(input, s, e))
  {
    if OpensLine(input, s) {
      LineEndIs(input, s + 2);
    } else if OpensBlock(input, s) {
      BlockEndIs(input, s + 1);
    }
  }

  // The comment at s is the one that is skipped.
  lemma CommentEndOf(input: seq<Ascii>, s: nat, e: nat)
    requires Comment(input, s, e)
    ensures CommentEnd(input, s) == e > s
  {
    CommentEndIs(input, s);
    assert OpensLine(input, s) || OpensBlock(input, s);
    if LineComment(input, s, e) {
      CommentEndUnique(input, s, e, CommentEnd(input, s));
    } else {
      BlockEndIs(input, s + 1);
      assert Closes(input, e - 2);
      CommentEndUnique(input, s, e, CommentEnd(input, s));
    }
  }

  // One round skips a gap.
  lemma RoundGap(input: seq<Ascii>, p: nat)
    requires p <= |input|
    ensures var s := BlanksEnd(input, p);
      Gap(input, p, s) && (CommentEnd(input, s) != -1 ==> Gap(input, p, CommentEnd(input, s)))
  {
    var s := BlanksEnd(input, p);
    BlanksEndIs(input, p);
    assert forall k :: p <= k < s ==> IsSpace(input[k]) by {
      assert forall k :: p <= k < s ==> At(input, k) == input[k];
    }
    BlankGap(input, p, s);
    var c := CommentEnd(input, s);
    CommentEndIs(input, s);
    if c > s {
      CommentGap(input, s, c);
      GapJoin(input, p, s, c);
    }
  }

  // What is skipped is a gap; if nothing stops the skipping, a gap ends at a comment that never ends.
  lemma {:induction false} GapStopIsGap(input: seq<Ascii>, p: nat)
    requires p <= |input|
    ensures GapStop(input, p) != -1 ==> Gap(input, p, GapStop(input, p))
    ensures GapStop(input, p) == -1 ==> exists q :: Gap(input, p, q) && Unclosed(input, q)
    decreases |input| - p
  {
    var s := BlanksEnd(input, p);
    var c := CommentEnd(input, s);
    RoundGap(input, p);
    CommentEndIs(input, s);
    if c != -1 && !(s == p && SkipsNothing(input, s, c)) {
      GapStopIsGap(input, c);
      if GapStop(input, p) == -1 {
        var q :| Gap(input, c, q) && Unclosed(input, q);
        GapJoin(input, p, c, q);
      } else {
        GapJoin(input, p, c, GapStop(input, p));
      }
    }
  }

  // A comment without characters inside, at p or behind something that is no blank, in front of more
  // blanks or comments.
  ghost predicate Stumbles(input: seq<Ascii>, p: nat, m: nat, b: nat) {
    && Gap(input, p, m) && (m == p || !IsSpace(input[m - 1]))
    && BareComment(input, m, b) && GapGoesOn(input, b)
  }

  // Behind the blanks at p, a gap goes on from their end.
  lemma {:induction false} GapBehindBlanks(input: seq<Ascii>, p: nat, m: nat)
    requires p <= |input| && Gap(input, p, m) && BlanksEnd(input, p) <= m
    ensures Gap(input, BlanksEnd(input, p), m)
    decreases |input| - p
  {
    if IsSpace(At(input, p)) {
      GapBehindBlanks(input, p + 1, m);
    }
  }

  // A gap that starts with something other than a blank starts with the comment that is skipped.
  lemma GapBehindComment(input: seq<Ascii>, s: nat, m: nat)
    requires Gap(input, s, m) && s < m && !IsSpace(At(input, s))
    ensures s < CommentEnd(input, s) <= m && Gap(input, CommentEnd(input, s), m)
  {
    var c :| s < c <= m && Comment(input, s, c) && Gap(input, c, m);
    CommentEndOf(input, s, c);
  }

  lemma GapStarts(input: seq<Ascii>, s: nat, m: nat)
    requires Gap(input, s, m) && s < m
    ensures GapGoesOn(input, s)
  {
  }

  // Wherever the lexer stumbles, it stops too early.
  lemma {:induction false} StumblingStops(input: seq<Ascii>, p: nat, m: nat, b: nat)
    requires p <= |input| && Stumbles(input, p, m, b)
    ensures GapStop(input, p) != -1 && GapGoesOn(input, GapStop(input, p))
    decreases |input| - p
  {
    var s := BlanksEnd(input, p);
    BlanksEndIs(input, p);
    assert At(input, m) == input[m] && (p < m ==> At(input, m - 1) == input[m - 1]);
    assert p < m ==> s < m;
    if m == p {
      CommentEndOf(input, m, b);
      CommentEndIs(input, m);
    } else {
      GapBehindBlanks(input, p, m);
      GapBehindComment(input, s, m);
      var c := CommentEnd(input, s);
      if s == p && SkipsNothing(input, s, c) {
        if c < m {
          GapStarts(input, c, m);
        }
      } else {
        StumblingStops(input, c, m, b);
      }
    }
  }

  // The last character of a comment that is followed by another one is no blank.
  lemma CommentBefore(input: seq<Ascii>, s: nat, c: nat, b: nat)
    requires Comment(input, s, c) && Comment(input, c, b)
    ensures s < c && !IsSpace(input[c - 1])
  {
    assert At(input, c) == input[c];
  }

  lemma {:induction false} EarlyStopStumbles(input: seq<Ascii>, p: nat) returns (m: nat)
    requires p <= |input| && GapStop(input, p) != -1 && GapGoesOn(input, GapStop(input, p))
    ensures Stumbles(input, p, m, GapStop(input, p))
    decreases |input| - p
  {
    var s := BlanksEnd(input, p);
    var c := CommentEnd(input, s);
    BlanksEndIs(input, p);
    CommentEndIs(input, s);
    RoundGap(input, p);
    if s == p && SkipsNothing(input, s, c) {
      m := p;
    } else {
      m := EarlyStopStumbles(input, c);
      GapJoin(input, p, c, m);
      if m == c && c > s {
        CommentBefore(input, s, c, GapStop(input, p));
      }
    }
  }

  // The lexer stops in front of a blank or a comment if and only if it stumbles somewhere.
  lemma EarlyStopIff(input: seq<Ascii>, p: nat)
    requires p <= |input|
    ensures (GapStop(input, p) != -1 && GapGoesOn(input, GapStop(input, p)))
      <==> exists m, b :: Stumbles(input, p, m, b)
  {
    if GapStop(input, p) != -1 && GapGoesOn(input, GapStop(input, p)) {
      var m := EarlyStopStumbles(input, p);
    }
    if m, b :| Stumbles(input, p, m, b) {
      StumblingStops(input, p, m, b);
    }
  }

  // An empty line comment hides the line break behind it, which starts no token.
  lemma StopsAtLineBreak()
    ensures GapStop("1--\n+2", 1) == 3 && Foreign(At("1--\n+2", 3))
  {
  }

  // And behind an empty block comment, a line comment is read as operators.
  lemma ReadsCommentAsOperator()
    ensures GapStop("/*/--a", 0) == 3 && LineComment("/*/--a", 3, 6)
    ensures IsToken("/*/--a", 3, 4, Operator)
  {
  }

  // A gap goes on over a round, and stays bare only over a bare one.
  lemma PassRound(input: seq<Ascii>, from: nat, p: nat, commented: bool)
    requires p <= |input| && Gap(input, from, p)
    requires if commented then !BareGap(input, from, |input|) else BareGap(input, from, p)
    ensures var s := BlanksEnd(input, p);
      var c := CommentEnd(input, s);
      if c == -1 then Gap(input, from, s) && Unclosed(input, s)
      else
        && Gap(input, from, c)
        && if commented || !SkipsNothing(input, s, c) then !BareGap(input, from, |input|) else BareGap(input, from, c)
  {
    var s := BlanksEnd(input, p);
    var c := CommentEnd(input, s);
    BlanksEndIs(input, p);
    CommentEndIs(input, s);
    RoundGap(input, p);
    GapJoin(input, from, p, s);
    if c != -1 {
      Pass(input, from, s, c);
    }
    if !commented {
      assert forall k :: p <= k < s ==> At(input, k) == input[k];
      BlankGap(input, p, s);
      BareJoin(input, from, p, s);
    }
  }

  // No token begins behind the gap at p: the input is over, or a comment or a string never ends, or
  // there is a foreign character.  The code is the negated position of the latter two, and otherwise 0.
  predicate Halts(input: seq<Ascii>, p: nat, code: int, err: bool)
    requires p <= |input|
  {
    var g := GapStop(input, p);
    if g == -1 then code == 0 && err
    else if g == |input| then code == 0 && !err
    else code == -g && if err then IsQuote(input[g]) && StringEnd(input, g + 1) == -1 else Foreign(input[g])
  }

  // ---- the lexer

  class Lexer {
    const input: seq<Ascii>
    var start: nat
    var pos: nat
    var width: nat
    var previous: nat
    var err: bool

    ghost predicate Valid()
      reads this
    {
      start <= pos <= |input|
    }

    constructor (input: seq<Ascii>)
      ensures Valid() && this.input == input && start == pos == 0 && !err
    {
      this.input, start, pos, width, previous, err := input, 0, 0, 0, 0, false;
    }

    method Next() returns (r: char)
      requires Valid()
      modifies this`pos, this`width
      ensures Valid() && r == At(input, old(pos)) && (r == Eof <==> old(pos) == |input|)
      ensures width == (if old(pos) < |input| then 1 else 0) && pos == old(pos) + width
    {
      if pos >= |input| {
        width := 0;
        return Eof;
      }
      r, width := input[pos], 1;
      pos := pos + width;
    }

    method Backup()
      requires Valid() && start + width <= pos
      modifies this`pos
      ensures Valid() && pos == old(pos) - width
    {
      pos := pos - width;
    }

    // Leaves the width of the character looked at behind, or of the last one read at the end.
    method Peek() returns (r: char)
      requires Valid()
      modifies this`pos, this`width
      ensures Valid() && r == At(input, pos) && (r == Eof <==> pos == |input|)
      ensures pos == old(pos) && width == if pos < |input| then 1 else old(width)
    {
      if pos >= |input| {
        return Eof;
      }
      r := Next();
      Backup();
    }

    method SkipSpaces() returns (skipNum: nat)
      requires Valid()
      modifies this`start, this`pos, this`width
      ensures Valid() && start == pos == old(pos) + skipNum
      ensures Gap(input, old(pos), pos) && BareGap(input, old(pos), pos) && pos == BlanksEnd(input, old(pos))
    {
      skipNum := 0;
      ghost var from := pos;
      var r := Next();
      while IsSpace(r)
        invariant Valid() && from + skipNum + width == pos && r == At(input, from + skipNum) && start <= from
        invariant width == (if from + skipNum < |input| then 1 else 0)
        invariant forall k :: from <= k < from + skipNum ==> IsSpace(input[k])
        invariant BlanksEnd(input, from + skipNum) == BlanksEnd(input, from)
        decreases |input| - from - skipNum
      {
        skipNum := skipNum + 1;
        r := Next();
      }
      Backup();
      start := pos;
      BlankGap(input, from, pos);
    }

    method SkipSingleLineComment() returns (skipNum: nat)
      requires Valid() && start == pos
      modifies this`start, this`pos, this`width
      ensures Valid() && start == pos
      ensures if OpensLine(input, old(pos)) then LineComment(input, old(pos), pos) && skipNum == pos - old(pos) - 2
              else pos == old(pos) && skipNum == 0
    {
      ghost var from := pos;
      var r;
      var nextRune := Peek();
      if nextRune != '-' {
        return 0;
      }
      r := Next();
      var nextNextRune := Peek();
      if nextNextRune != '-' {
        Backup();
        return 0;
      }
      r := Next();
      skipNum := 0;
      r := Next();
      while r != '\n' && r != Eof
        invariant Valid() && start == from && from + 2 + skipNum + width == pos && r == At(input, from + 2 + skipNum)
        invariant width == (if from + 2 + skipNum < |input| then 1 else 0)
        invariant forall k :: from + 2 <= k < from + 2 + skipNum ==> At(input, k) != '\n'
        decreases |input| - from - skipNum
      {
        skipNum := skipNum + 1;
        r := Next();
      }
      Backup();
      start := pos;
    }

    // At the end of the input inside a comment, records an error and stays there.
    method SkipMultipleLineComment() returns (skipNum: nat, ghost unclosed: bool)
      requires Valid() && start == pos
      modifies this`start, this`pos, this`width, this`previous, this`err
      ensures Valid()
      ensures !unclosed ==> start == pos && err == old(err) && previous == old(previous)
      ensures !unclosed ==>
                if OpensBlock(input, old(pos)) then BlockComment(input, old(pos), pos) && skipNum == pos - old(pos) - 3
                else pos == old(pos) && skipNum == 0
      ensures unclosed ==> err && skipNum == 0 && pos == |input| && previous == old(pos)
      ensures unclosed ==> OpensBlock(input, old(pos)) && Unclosed(input, old(pos))
    {
      ghost var from := pos;
      unclosed := false;
      var r;
      var nextRune := Peek();
      if nextRune != '/' {
        return 0, false;
      }
      r := Next();
      var nextNextRune := Peek();
      if nextNextRune != '*' {
        Backup();
        return 0, false;
      }
      skipNum := 0;
      r := Next();
      var following := Peek();
      while r != '*' || following != '/'
        invariant Valid() && start == from && r == At(input, from + 1 + skipNum) && following == At(input, pos)
        invariant pos == if from + 1 + skipNum < |input| then from + 2 + skipNum else |input|
        invariant from + 1 + skipNum <= |input| && err == old(err) && previous == old(previous)
        invariant forall k :: from < k < from + 1 + skipNum ==> !Closes(input, k)
        decreases |input| - from - skipNum
      {
        if r == Eof {
          previous := start;
          err := true;
          return 0, true;
        }
        skipNum := skipNum + 1;
        r := Next();
        following := Peek();
      }
      r := Next();
      start := pos;
    }

    method Emit() returns (text: seq<Ascii>)
      requires Valid()
      modifies this`start, this`previous
      ensures Valid() && text == input[old(start)..pos] && start == pos && previous == old(start)
    {
      text := input[start..pos];
      previous := start;
      start := pos;
    }

    method LexIdentOrKeyword() returns (t: Lexeme)
      requires Valid() && start == pos && IsLetter(At(input, pos))
      modifies this`start, this`pos, this`width, this`previous
      ensures Valid() && start == pos && previous == old(pos)
      ensures t.Token? && IsToken(input, old(pos), pos, t.kind) && t.text == input[old(pos)..pos]
    {
      ghost var from, cur := pos, pos;
      var r := Next();
      while true
        invariant Valid() && start == from <= cur <= |input| && r == At(input, cur)
        invariant width == (if cur < |input| then 1 else 0) && pos == cur + width
        invariant (forall k :: from <= k < cur ==> IsIdent(At(input, k))) && IsLetter(input[from])
        invariant cur == from ==> IsLetter(r)
        decreases |input| - cur
      {
        ghost var before := cur;
        while IsLetter(r) || IsDigit(r) || r == '_' || r == '/' || r == ':' || r == '-'
          invariant before <= cur
          invariant Valid() && start == from <= cur <= |input| && r == At(input, cur)
          invariant width == (if cur < |input| then 1 else 0) && pos == cur + width
          invariant forall k :: from <= k < cur ==> IsIdent(At(input, k))
          invariant cur == from ==> IsLetter(r)
          decreases |input| - cur
        {
          r := Next();
          cur := cur + 1;
        }
        if r != '.' {
          break;
        }
        r := Next();
        cur := cur + 1;
      }
      Backup();
      var upper := ToUpper(input[start..pos]);
      var text := Emit();
      return Token(if upper in Keywords then Keyword(upper) else Ident, text);
    }

    method LexNumber() returns (t: Lexeme)
      requires Valid() && start == pos && IsDigit(At(input, pos))
      modifies this`start, this`pos, this`previous
      ensures Valid() && start == pos && previous == old(pos)
      ensures t.Token? && IsToken(input, old(pos), pos, t.kind) && t.text == input[old(pos)..pos]
    {
      pos := NumberEnd(input, pos);
      var text := Emit();
      return Token(Number, text);
    }

    method LexOperator() returns (t: Lexeme)
      requires Valid() && start == pos && IsOperator(At(input, pos))
      modifies this`start, this`pos, this`width, this`previous
      ensures Valid() && start == pos && previous == old(pos)
      ensures t.Token? && IsToken(input, old(pos), pos, t.kind) && t.text == input[old(pos)..pos]
    {
      var r := Next();
      var following := Peek();
      var kind := Operator;
      if IsPair(r, following) {
        r := Next();
        kind := PairOperator;
      }
      var text := Emit();
      return Token(kind, text);
    }

    method LexString() returns (t: Lexeme)
      requires Valid() && start == pos && IsQuote(At(input, pos))
      modifies this`start, this`pos, this`width, this`previous, this`err
      ensures Valid() && previous == old(pos)
      ensures t.Token? ==> start == pos && IsToken(input, old(pos), pos, t.kind) && err == old(err)
      ensures t.Token? ==> t.text == input[old(pos)..pos]
      ensures t.Stop? ==> err && t.code == 0 - old(pos) && Unclosed(input, old(pos))
    {
      ghost var from := pos;
      var r := Next(); // the left quotation mark
      ghost var cur := pos;
      r := Next();
      while r != '"' && r != '\''
        invariant Valid() && start == from && err == old(err) && from < cur <= |input| + 1 && r == At(input, cur)
        invariant cur <= |input| ==> width == (if cur < |input| then 1 else 0) && pos == cur + width
        invariant StringEnd(input, cur) == StringEnd(input, from + 1)
        decreases |input| + 1 - cur
      {
        if r == Eof {
          previous := start;
          err := true;
          return Stop(0 - start);
        }
        cur := cur + 1;
        if r == '\\' {
          r := Next();
          cur := cur + 1;
        }
        r := Next();
      }
      var text := Emit();
      return Token(Str, text);
    }

    // One round: blanks, and possibly a comment.
    method SkipRound() returns (skipSpaceNum: nat, skipCommentNum: nat, ghost open: bool)
      requires Valid()
      modifies this`start, this`pos, this`width, this`previous, this`err
      ensures Valid()
      ensures var s := BlanksEnd(input, old(pos));
        var c := CommentEnd(input, s);
        && (open <==> c == -1)
        && (if open then err && pos == |input| && previous == s && skipCommentNum == 0
            else start == pos == c && err == old(err) && previous == old(previous))
        && skipSpaceNum == s - old(pos)
        && (!open ==> (skipCommentNum == 0 <==> SkipsNothing(input, s, c)))
    {
      skipSpaceNum := SkipSpaces();
      ghost var s := pos;
      CommentEndIs(input, s);
      var single := SkipSingleLineComment();
      if single > 0 || start > s {
        CommentEndOf(input, s, pos);
      }
      var multiple;
      multiple, open := SkipMultipleLineComment();
      skipCommentNum := single + multiple;
      if OpensBlock(input, s) && !open {
        CommentEndOf(input, s, pos);
      }
    }

    // Blanks and comments in any order.  A comment that never ends is an error and takes the rest.
    method SkipGap() returns (hasSkipComment: bool, ghost unclosed: bool)
      requires Valid() && start == pos
      modifies this`start, this`pos, this`width, this`previous, this`err
      ensures Valid() && old(pos) <= pos
      ensures GapStop(input, old(pos)) == if unclosed then -1 else pos
      ensures !unclosed ==> start == pos && Gap(input, old(pos), pos) && err == old(err)
      ensures !unclosed && pos == |input| ==> (hasSkipComment <==> !BareGap(input, old(pos), |input|))
      ensures unclosed ==>
                && err && pos == |input|
                && old(pos) <= previous && Gap(input, old(pos), previous) && Unclosed(input, previous)
    {
      hasSkipComment := false;
      ghost var from := pos;
      unclosed := false;
      while true
        invariant Valid() && from <= pos
        invariant unclosed ==> err && pos == |input| && GapStop(input, from) == -1
        invariant unclosed ==> from <= previous && Gap(input, from, previous) && Unclosed(input, previous)
        invariant !unclosed ==> start == pos && Gap(input, from, pos) && err == old(err)
        invariant !unclosed ==> GapStop(input, pos) == GapStop(input, from)
        invariant !unclosed ==> if hasSkipComment then !BareGap(input, from, |input|) else BareGap(input, from, pos)
        decreases |input| - pos
      {
        ghost var p := pos;
        var skipSpaceNum, skipCommentNum, open := SkipRound();
        if !unclosed {
          PassRound(input, from, p, hasSkipComment);
        }
        unclosed := unclosed || open;
        if skipCommentNum != 0 {
          hasSkipComment := true;
        } else if skipSpaceNum == 0 {
          break;
        }
      }
    }

    // The next token; or a stop, with code 0 at the end and the negated position of a text that
    // starts no token.
    method Lex() returns (t: Lexeme)
      requires Valid() && start == pos
      modifies this`start, this`pos, this`width, this`previous, this`err
      ensures Valid()
      // a token follows a gap, is exactly the text consumed, and moves the lexer on
      ensures t.Token? ==>
                && old(pos) <= previous < pos == start && err == old(err)
                && previous == GapStop(input, old(pos)) && Gap(input, old(pos), previous)
                && IsToken(input, previous, pos, t.kind) && t.text == input[previous..pos]
      // and otherwise there is none
      ensures t.Stop? && !old(err) ==> Halts(input, old(pos), t.code, err)
      ensures t.Stop? && !err && t.code != 0 ==>
                && t.code == 0 - start && start == pos < |input|
                && Gap(input, old(pos), pos) && Foreign(input[pos])
      // an error comes from a comment or a string that never ends
      ensures err && !old(err) ==>
                old(pos) <= previous && Gap(input, old(pos), previous) && Unclosed(input, previous)
      // at the end, only a gap was left, and a trailing comment is left for the next statement
      ensures t.Stop? && t.code == 0 && !err ==>
                || (old(pos) == start == pos == 0 < |input| && Foreign(input[0]))
                || (Gap(input, old(pos), |input|)
                    && start == pos == if BareGap(input, old(pos), |input|) then |input| else old(pos))
    {
      var start0, pos0, width0 := start, pos, width;
      var hasSkipComment, unclosed := SkipGap();
      var r := Peek();
      if IsLetter(r) {
        t := LexIdentOrKeyword();
      } else if IsDigit(r) {
        t := LexNumber();
      } else if IsQuote(r) {
        t := LexString();
      } else if IsOperator(r) {
        t := LexOperator();
      } else if r == Eof {
        if hasSkipComment {
          start, pos, width := start0, pos0, width0;
        }
        t := Stop(0);
      } else {
        t := Stop(0 - start);
      }
    }
  }

  // The end of the input is reported at the end, and for a foreign character at the start of the input.
  lemma ReportsEndIff(input: seq<Ascii>, p: nat)
    requires p <= |input|
    ensures Halts(input, p, 0, false)
      <==> GapStop(input, p) == |input| || (GapStop(input, p) == 0 && |input| > 0 && Foreign(input[0]))
  {
  }

  lemma ForeignStartIsEnd()
    ensures Halts("#", 0, 0, false) && GapStop("#", 0) == 0
  {
  }

  // At a given place at most one text is a token, and of one kind.
  lemma TokenUnique(input: seq<Ascii>, s: nat, e: nat, kind: Kind, e': nat, kind': Kind)
    requires IsToken(input, s, e, kind) && IsToken(input, s, e', kind')
    ensures e == e' && kind == kind'
  {
  }

  datatype Span = Span(from: nat, to: nat, kind: Kind)

  // The token that the lexer finds behind p.
  ghost predicate Follows(input: seq<Ascii>, p: nat, t: Span) {
    p <= |input| && t.from == GapStop(input, p) && IsToken(input, t.from, t.to, t.kind)
  }

  // At most one token follows, and none where the lexer halts, in one way only.
  lemma FollowsUnique(input: seq<Ascii>, p: nat, t: Span, t': Span)
    requires Follows(input, p, t) && Follows(input, p, t')
    ensures t == t'
  {
    TokenUnique(input, t.from, t.to, t.kind, t'.to, t'.kind);
  }

  lemma HaltsUnique(input: seq<Ascii>, p: nat, code: int, err: bool, code': int, err': bool)
    requires p <= |input| && Halts(input, p, code, err)
    ensures Halts(input, p, code', err') ==> code == code' && err == err'
  {
  }

  lemma HaltsAlone(input: seq<Ascii>, p: nat, code: int, err: bool, t: Span)
    requires p <= |input| && Halts(input, p, code, err)
    ensures !Follows(input, p, t)
  {
  }

  function TokensEnd(tokens: seq<Span>): nat {
    if tokens == [] then 0 else tokens[|tokens| - 1].to
  }

  // Every token follows the one before it.
  ghost predicate Tiles(input: seq<Ascii>, tokens: seq<Span>)
    decreases |tokens|
  {
    tokens == [] ||
    var init := tokens[..|tokens| - 1];
    Follows(input, TokensEnd(init), tokens[|tokens| - 1]) && Tiles(input, init)
  }

  lemma TilesMore(input: seq<Ascii>, tokens: seq<Span>, t: Span)
    requires Tiles(input, tokens) && Follows(input, TokensEnd(tokens), t)
    ensures Tiles(input, tokens + [t]) && TokensEnd(tokens + [t]) == t.to
  {
    assert (tokens + [t])[..|tokens|] == tokens;
  }

  // Every character belongs to at most one token, so there are no more tokens than characters.
  lemma {:induction false} TilesBounded(input: seq<Ascii>, tokens: seq<Span>)
    requires Tiles(input, tokens)
    ensures |tokens| <= TokensEnd(tokens) <= |input|
    decreases |tokens|
  {
    if tokens != [] {
      TilesBounded(input, tokens[..|tokens| - 1]);
    }
  }

  lemma {:induction false} TileAt(input: seq<Ascii>, tokens: seq<Span>, i: nat)
    requires Tiles(input, tokens) && i < |tokens|
    ensures Follows(input, TokensEnd(tokens[..i]), tokens[i])
    decreases |tokens|
  {
    var init := tokens[..|tokens| - 1];
    if i < |init| {
      TileAt(input, init, i);
      assert init[..i] == tokens[..i];
    }
  }

  // Between the tokens there is nothing but blanks and comments.
  lemma TileBehindGap(input: seq<Ascii>, tokens: seq<Span>, i: nat)
    requires Tiles(input, tokens) && i < |tokens|
    ensures Gap(input, TokensEnd(tokens[..i]), tokens[i].from)
  {
    TileAt(input, tokens, i);
    GapStopIsGap(input, TokensEnd(tokens[..i]));
  }

  lemma TakeOne(tokens: seq<Span>, k: nat)
    requires 0 < k <= |tokens|
    ensures tokens[..k] == tokens[..k - 1] + [tokens[k - 1]]
  {
  }

  // Two tokenizations agree as far as both go.
  lemma {:induction false} TilesAgree(input: seq<Ascii>, tokens: seq<Span>, tokens': seq<Span>, k: nat)
    requires Tiles(input, tokens) && Tiles(input, tokens') && k <= |tokens| && k <= |tokens'|
    ensures tokens[..k] == tokens'[..k]
  {
    if k > 0 {
      TilesAgree(input, tokens, tokens', k - 1);
      TileAt(input, tokens, k - 1);
      TileAt(input, tokens', k - 1);
      FollowsUnique(input, TokensEnd(tokens[..k - 1]), tokens[k - 1], tokens'[k - 1]);
      TakeOne(tokens, k);
      TakeOne(tokens', k);
    }
  }

  // All tokens of the input, and how the lexer ends.
  ghost predicate Tokenization(input: seq<Ascii>, tokens: seq<Span>, code: int, err: bool) {
    Tiles(input, tokens) && TokensEnd(tokens) <= |input| && Halts(input, TokensEnd(tokens), code, err)
  }

  lemma NothingFollows(input: seq<Ascii>, tokens: seq<Span>, code: int, err: bool, tokens': seq<Span>)
    requires Tokenization(input, tokens, code, err) && Tiles(input, tokens')
    ensures |tokens'| <= |tokens|
  {
    if |tokens| < |tokens'| {
      var k := |tokens|;
      TilesAgree(input, tokens, tokens', k);
      assert tokens[..k] == tokens;
      TileAt(input, tokens', k);
      HaltsAlone(input, TokensEnd(tokens), code, err, tokens'[k]);
    }
  }

  // The tokens and the way the lexer ends are determined by the input.
  lemma TokensUnique(input: seq<Ascii>, tokens: seq<Span>, code: int, err: bool,
                     tokens': seq<Span>, code': int, err': bool)
    requires Tokenization(input, tokens, code, err) && Tokenization(input, tokens', code', err')
    ensures tokens == tokens' && code == code' && err == err'
  {
    NothingFollows(input, tokens, code, err, tokens');
    NothingFollows(input, tokens', code', err', tokens);
    TilesAgree(input, tokens, tokens', |tokens|);
    assert tokens[..|tokens|] == tokens && tokens'[..|tokens'|] == tokens';
    HaltsUnique(input, TokensEnd(tokens), code, err, code', err');
  }

  // The end behind a gap, or a foreign character behind one, or a comment or a string that never ends.
  // A foreign first character is reported with the code of the end.
  ghost predicate Reason(input: seq<Ascii>, p: nat, code: int, err: bool) {
    && (code == 0 && !err ==> Gap(input, p, |input|) || (p == 0 < |input| && Foreign(input[0])))
    && (code != 0 && !err ==> 0 <= -code < |input| && Gap(input, p, -code) && Foreign(input[-code]))
    && (err ==> exists q :: Gap(input, p, q) && Unclosed(input, q))
  }

  lemma HaltsMeans(input: seq<Ascii>, p: nat, code: int, err: bool)
    requires p <= |input| && Halts(input, p, code, err)
    ensures Reason(input, p, code, err)
  {
    GapStopIsGap(input, p);
    var g := GapStop(input, p);
    assert err && g != -1 ==> Unclosed(input, g);
  }

  // The lexer as a parser drives it: to the end, or to a text that is no token.
  method Tokenize(input: seq<Ascii>) returns (tokens: seq<Span>, code: int, err: bool)
    ensures Tokenization(input, tokens, code, err) && |tokens| <= TokensEnd(tokens)
    ensures Reason(input, TokensEnd(tokens), code, err)
  {
    var l := new Lexer(input);
    tokens, code, err := [], 0, false;
    var going := true;
    while going
      invariant fresh(l) && l.Valid() && l.input == input && Tiles(input, tokens)
      invariant |tokens| <= TokensEnd(tokens) <= |input|
      invariant if going then l.start == l.pos == TokensEnd(tokens) && !l.err && !err
                else Halts(input, TokensEnd(tokens), code, err)
      decreases going, |input| - TokensEnd(tokens)
    {
      var t := l.Lex();
      if t.Token? {
        TilesMore(input, tokens, Span(l.previous, l.pos, t.kind));
        tokens := tokens + [Span(l.previous, l.pos, t.kind)];
      } else {
        code, err, going := t.code, l.err, false;
      }
    }
    HaltsMeans(input, TokensEnd(tokens), code, err);
  }
}
