/**
  The command-line splitter: it takes a SQL program line by line and cuts it into statements at
  the semicolons outside quotes, carrying the quotation state from line to line.
 */
module StatementSplitter {
  import opened Characters

  // ---- reading a text character by character

  datatype Quote = Outside | Inside(single: bool, escaped: bool)

  function Step(q: Quote, c: char): Quote {
    match q
    case Outside => if c == '"' || c == '\'' then Inside(c == '\'', false) else Outside
    case Inside(single, escaped) =>
      if escaped then Inside(single, false)
      else if c == '\\' then Inside(single, true)
      else if c == (if single then '\'' else '"') then Outside
      else q
  }

  // What a text says, apart from empty statements and the blanks in front of a statement.
  datatype Token = Text(c: char) | Semicolon

  predicate Settled(ts: seq<Token>) {
    ts == [] || ts[|ts| - 1].Semicolon?
  }

  // At the start of a statement, blanks and the semicolon of an empty statement are dropped.
  function Add(ts: seq<Token>, t: Token): seq<Token> {
    if Settled(ts) && (t.Semicolon? || IsSpace(t.c)) then ts else ts + [t]
  }

  // The quotation state, the tokens and the number of semicolons outside quotes so far.
  datatype Reading = Reading(quote: Quote, tokens: seq<Token>, semicolons: nat)

  predicate Splits(q: Quote, c: char) {
    c == ';' && q.Outside?
  }

  function Take(r: Reading, c: char): Reading {
    Reading(Step(r.quote, c),
            Add(r.tokens, if Splits(r.quote, c) then Semicolon else Text(c)),
            if Splits(r.quote, c) then r.semicolons + 1 else r.semicolons)
  }

  function Read(r: Reading, text: string): Reading {
    if text == "" then r else Take(Read(r, text[..|text| - 1]), text[|text| - 1])
  }

  function Fresh(ts: seq<Token>): Reading { Reading(Outside, ts, 0) }

  // The tokens of the statements, one after the other.
  function AllTokens(statements: seq<string>): seq<Token> {
    if statements == [] then []
    else Read(Fresh(AllTokens(Init(statements))), Last(statements)).tokens
  }

  function Init(statements: seq<string>): seq<string>
    requires statements != []
  {
    statements[..|statements| - 1]
  }

  function Last(statements: seq<string>): string
    requires statements != []
  {
    statements[|statements| - 1]
  }

  // Outside quotes, and without a semicolon outside quotes.
  predicate Undivided(text: string) {
    Read(Fresh([]), text).quote.Outside? && Read(Fresh([]), text).semicolons == 0
  }

  // Non-empty, and ending with its only semicolon outside quotes.
  predicate Complete(stmt: string) {
    stmt != "" && stmt[|stmt| - 1] == ';' && Undivided(stmt[..|stmt| - 1])
  }

  ghost predicate EarlierComplete(statements: seq<string>) {
    forall i: nat :: CompleteAt(statements, i)
  }

  // Unless it is the last one.
  predicate CompleteAt(statements: seq<string>, i: nat) {
    i < |statements| - 1 ==> Complete(statements[i])
  }

  // ---- lines

  // A comment starts at two dashes followed by a blank or the end of the line.
  predicate CommentAt(line: string, i: nat) {
    && i + 1 < |line| && line[i] == '-' && line[i + 1] == '-'
    && (i + 2 == |line| || IsSpace(line[i + 2]))
  }

  // Where the line's first comment outside quotes starts, scanning from i in state q.
  function CodeEnd(q: Quote, line: string, i: nat): (e: nat)
    requires i <= |line|
    ensures i <= e <= |line|
    decreases |line| - i
  {
    if i == |line| || (q.Outside? && CommentAt(line, i)) then i
    else CodeEnd(Step(q, line[i]), line, i + 1)
  }

  function TrimLeft(line: string): string {
    if line != "" && (line[0] == '\t' || line[0] == ' ') then TrimLeft(line[1..]) else line
  }

  // Written-out control characters become the characters themselves.
  function Unescape(line: string): string {
    if |line| < 2 then line
    else if line[0] == '\\' && line[1] == 'n' then "\n" + Unescape(line[2..])
    else if line[0] == '\\' && line[1] == 't' then "\t" + Unescape(line[2..])
    else if line[0] == '\\' && line[1] == 'r' then "\r" + Unescape(line[2..])
    else [line[0]] + Unescape(line[1..])
  }

  function TrimStart(s: string): string {
    if s != "" && IsSpace(s[0]) then TrimStart(s[1..]) else s
  }

  function TrimEnd(s: string): string {
    if s != "" && IsSpace(s[|s| - 1]) then TrimEnd(s[..|s| - 1]) else s
  }

  function TrimSpace(s: string): string { TrimEnd(TrimStart(s)) }

  // Escapes do not outlive a line.
  function NextLine(q: Quote): Quote {
    if q.Inside? then Inside(q.single, false) else q
  }

  // The quotation state in which the next line starts.
  function LineQuote(statements: seq<string>): Quote {
    if statements == [] then Outside else NextLine(Read(Fresh([]), Last(statements)).quote)
  }

  // The line as it is scanned: the very first one without leading blanks.
  function Scanned(statements: seq<string>, line: string): string {
    Unescape(if statements == [] then TrimLeft(line) else line)
  }

  // The code of a line.  In a line with a comment, the code that belongs to the statement that the line
  // leaves unfinished goes without the blanks around it.
  function LineCode(r: Reading, l: string): string {
    var e := CodeEnd(r.quote, l, 0);
    if e == |l| then l
    else if Read(r, l[..e]).semicolons == r.semicolons then TrimSpace(l[..e])
    else if Settled(Read(r, l[..e]).tokens) then l[..e]
    else TrimEnd(l[..e])
  }

  // The source read so far: its quotation state, its tokens, and whether a line was read at all.
  datatype Source = Source(quote: Quote, tokens: seq<Token>, started: bool)

  // The state in which the next line starts; a line break separates it from the line before.
  function LineStart(s: Source): Reading {
    Reading(s.quote, if s.started then Add(s.tokens, Text('\n')) else s.tokens, 0)
  }

  // One more line.
  function NextSource(s: Source, line: string): Source {
    var l := Unescape(if s.started then line else TrimLeft(line));
    var r := Read(LineStart(s), LineCode(LineStart(s), l));
    Source(NextLine(r.quote), r.tokens, true)
  }

  function SourceOf(lines: seq<string>): Source {
    if lines == [] then Source(Outside, [], false)
    else NextSource(SourceOf(lines[..|lines| - 1]), lines[|lines| - 1])
  }

  // ---- laws of reading

  lemma ReadChar(r: Reading, text: string, c: char)
    ensures Read(r, text + [c]) == Take(Read(r, text), c)
  {
    assert (text + [c])[..|text|] == text;
  }

  lemma {:induction false} ReadText(r: Reading, a: string, b: string)
    ensures Read(r, a + b) == Read(Read(r, a), b)
    decreases |b|
  {
    if b == "" {
      assert a + b == a;
    } else {
      var b', c := b[..|b| - 1], b[|b| - 1];
      ReadText(r, a, b');
      assert a + b == (a + b') + [c];
      ReadChar(r, a + b', c);
    }
  }

  // The tokens before a text do not influence how it is divided.
  lemma {:induction false} ReadAnywhere(q: Quote, x: seq<Token>, y: seq<Token>, n: nat, text: string)
    ensures Read(Reading(q, x, n), text).quote == Read(Reading(q, y, n), text).quote
    ensures Read(Reading(q, x, n), text).semicolons == Read(Reading(q, y, n), text).semicolons
    decreases |text|
  {
    if text != "" {
      ReadAnywhere(q, x, y, n, text[..|text| - 1]);
    }
  }

  predicate Calm(q: Quote) { q.Inside? ==> !q.escaped }

  lemma BlankInFront(r: Reading, s: string)
    requires Calm(r.quote) && s != "" && IsSpace(s[0])
    ensures Read(r, s).quote == Read(r, s[1..]).quote && Read(r, s).semicolons == Read(r, s[1..]).semicolons
  {
    var head := [s[0]];
    assert s == head + s[1..] && head == "" + [s[0]];
    ReadChar(r, "", s[0]);
    ReadText(r, head, s[1..]);
    ReadAnywhere(r.quote, Take(r, s[0]).tokens, r.tokens, r.semicolons, s[1..]);
  }

  // Trimming changes neither the quotation state nor the number of semicolons.
  lemma {:induction false} TrimStartKeeps(r: Reading, s: string)
    requires Calm(r.quote)
    ensures Read(r, TrimStart(s)).quote == Read(r, s).quote && Read(r, TrimStart(s)).semicolons == Read(r, s).semicolons
    decreases |s|
  {
    if s != "" && IsSpace(s[0]) {
      TrimStartKeeps(r, s[1..]);
      BlankInFront(r, s);
    }
  }

  lemma {:induction false} TrimEndKeeps(r: Reading, s: string)
    requires Read(r, s).quote.Outside?
    ensures Read(r, TrimEnd(s)).quote.Outside? && Read(r, TrimEnd(s)).semicolons == Read(r, s).semicolons
    decreases |s|
  {
    if s != "" && IsSpace(s[|s| - 1]) {
      TrimEndKeeps(r, s[..|s| - 1]);
    }
  }

  lemma TrimSpaceKeeps(r: Reading, s: string)
    requires Calm(r.quote) && Read(r, s).quote.Outside?
    ensures Read(r, TrimSpace(s)).quote.Outside? && Read(r, TrimSpace(s)).semicolons == Read(r, s).semicolons
  {
    TrimStartKeeps(r, s);
    TrimEndKeeps(r, TrimStart(s));
  }

  // Trimming the end of a text trims the end of its last part, unless that is blank.
  lemma {:induction false} TrimEndJoin(a: string, b: string)
    requires b != "" && !IsSpace(b[0])
    ensures TrimEnd(a + b) == a + TrimEnd(b) && TrimStart(b) == b
    decreases |b|
  {
    var all := a + b;
    assert all[|all| - 1] == b[|b| - 1] && all[..|all| - 1] == a + b[..|b| - 1];
    if |b| > 1 && IsSpace(b[|b| - 1]) {
      TrimEndJoin(a, b[..|b| - 1]);
    }
  }

  // A text that begins with something other than a blank, and splits nowhere, leaves a statement open.
  lemma {:induction false} Unsettled(r: Reading, s: string)
    requires s != "" && !IsSpace(s[0]) && Read(r, s).semicolons == r.semicolons
    ensures !Settled(Read(r, s).tokens)
    decreases |s|
  {
    var k := |s| - 1;
    SemicolonsGrow(r, s[..k]);
    if k > 0 {
      Unsettled(r, s[..k]);
    }
  }

  lemma {:induction false} SemicolonsGrow(r: Reading, s: string)
    ensures Read(r, s).semicolons >= r.semicolons
    decreases |s|
  {
    if s != "" {
      SemicolonsGrow(r, s[..|s| - 1]);
    }
  }

  // ---- literals that continue on the next line

  // The quotation state after a text.
  function After(q: Quote, text: string): Quote {
    if text == "" then q else Step(After(q, text[..|text| - 1]), text[|text| - 1])
  }

  // The characters of a text that are read inside quotes.
  function Quoted(q: Quote, text: string): string {
    if text == "" then ""
    else
      var init := text[..|text| - 1];
      Quoted(q, init) + if After(q, init).Inside? then [text[|text| - 1]] else ""
  }

  lemma {:induction false} AfterIsRead(r: Reading, text: string)
    ensures After(r.quote, text) == Read(r, text).quote
    decreases |text|
  {
    if text != "" {
      AfterIsRead(r, text[..|text| - 1]);
    }
  }

  lemma {:induction false} QuotedJoin(q: Quote, a: string, b: string)
    ensures After(q, a + b) == After(After(q, a), b)
    ensures Quoted(q, a + b) == Quoted(q, a) + Quoted(After(q, a), b)
    decreases |b|
  {
    if b == "" {
      assert a + b == a;
    } else {
      var b', c := b[..|b| - 1], b[|b| - 1];
      QuotedJoin(q, a, b');
      assert (a + b)[..|a + b| - 1] == a + b' && (a + b)[|a + b| - 1] == c;
    }
  }

  lemma QuotedFirst(q: Quote, s: string)
    requires s != ""
    ensures After(q, s) == After(Step(q, s[0]), s[1..])
    ensures Quoted(q, s) == (if q.Inside? then [s[0]] else "") + Quoted(Step(q, s[0]), s[1..])
  {
    var head := [s[0]];
    assert s == head + s[1..] && head[..0] == "";
    QuotedJoin(q, head, s[1..]);
  }

  // Blanks in front of a text are lost from a literal exactly if the text begins inside one.
  lemma {:induction false} TrimStartQuoted(q: Quote, s: string)
    requires Calm(q)
    ensures After(q, TrimStart(s)) == After(q, s)
    ensures if q.Inside? && s != "" && IsSpace(s[0]) then |Quoted(q, TrimStart(s))| < |Quoted(q, s)|
            else Quoted(q, TrimStart(s)) == Quoted(q, s)
    decreases |s|
  {
    if s != "" && IsSpace(s[0]) {
      QuotedFirst(q, s);
      TrimStartQuoted(q, s[1..]);
    }
  }

  // Blanks behind a text that ends outside quotes are in no literal.
  lemma {:induction false} TrimEndQuoted(q: Quote, s: string)
    requires After(q, s).Outside?
    ensures After(q, TrimEnd(s)).Outside? && Quoted(q, TrimEnd(s)) == Quoted(q, s)
    decreases |s|
  {
    if s != "" && IsSpace(s[|s| - 1]) {
      TrimEndQuoted(q, s[..|s| - 1]);
    }
  }

  lemma {:induction false} CodeEndsOutside(q: Quote, l: string, i: nat)
    requires i <= |l|
    ensures CodeEnd(q, l, i) < |l| ==> After(q, l[i..CodeEnd(q, l, i)]).Outside?
    decreases |l| - i
  {
    var e := CodeEnd(q, l, i);
    if i < e < |l| {
      CodeEndsOutside(Step(q, l[i]), l, i + 1);
      assert l[i..e][0] == l[i] && l[i..e][1..] == l[i + 1..e];
      QuotedFirst(q, l[i..e]);
    }
  }

  // The line loses blanks of a literal: it begins inside one with a blank, and has a comment outside
  // quotes in front of which it ends no statement.
  predicate LosesBlanks(r: Reading, l: string) {
    var e := CodeEnd(r.quote, l, 0);
    r.quote.Inside? && e < |l| && IsSpace(l[0]) && Read(r, l[..e]).semicolons == r.semicolons
  }

  // Trimming in front of a comment keeps all literals of the line if and only if this is not so.
  lemma LiteralsKeptIff(r: Reading, l: string)
    requires Calm(r.quote)
    ensures Quoted(r.quote, LineCode(r, l)) == Quoted(r.quote, l[..CodeEnd(r.quote, l, 0)]) <==> !LosesBlanks(r, l)
  {
    var e := CodeEnd(r.quote, l, 0);
    var code := l[..e];
    if e == |l| {
      assert code == l;
    } else {
      CodeEndsOutside(r.quote, l, 0);
      assert l[0..e] == code;
      TrimEndQuoted(r.quote, code);
      TrimStartQuoted(r.quote, code);
      TrimEndQuoted(r.quote, TrimStart(code));
    }
  }

  // The second line of a literal loses its indentation.
  lemma IndentedLiteral()
    ensures LineCode(Reading(Inside(true, false), [], 0), "  b' --") == "b'"
    ensures LosesBlanks(Reading(Inside(true, false), [], 0), "  b' --")
  {
    var r, l := Reading(Inside(true, false), [], 0), "  b' --";
    assert CodeEnd(Outside, l, 5) == 5 && CodeEnd(Outside, l, 4) == 5;
    assert CodeEnd(r.quote, l, 2) == 5;
    assert CodeEnd(r.quote, l, 0) == 5;
    assert l[..5] == "  b' ";
    assert Read(r, "  b").quote == Inside(true, false) && Read(r, "  b").semicolons == 0 by {
      assert "  b"[..2] == "  " && "  "[..1] == " " && " "[..0] == "";
    }
    assert "  b' "[..4] == "  b'" && "  b'"[..3] == "  b";
    assert TrimStart("  b' ") == "b' " by {
      assert "  b' "[1..] == " b' " && " b' "[1..] == "b' ";
    }
    assert TrimEnd("b' ") == "b'" by {
      assert "b' "[..2] == "b'";
    }
  }

  // A backslash and a letter that are scanned as one control character.
  predicate WrittenOut(line: string, i: nat) {
    i + 1 < |line| && line[i] == '\\' && line[i + 1] in "ntr"
  }

  // A line is scanned as it was typed if and only if it has no written-out control character.
  lemma {:induction false} ScannedAsTypedIff(line: string)
    ensures |Unescape(line)| <= |line|
    ensures Unescape(line) == line <==> forall i: nat :: !WrittenOut(line, i)
    decreases |line|
  {
    if |line| >= 2 {
      if WrittenOut(line, 0) {
        ScannedAsTypedIff(line[2..]);
        assert |Unescape(line)| < |line|;
      } else {
        var rest := line[1..];
        ScannedAsTypedIff(rest);
        assert line == [line[0]] + rest && Unescape(line) == [line[0]] + Unescape(rest);
        assert Unescape(line)[1..] == Unescape(rest);
        if i: nat :| WrittenOut(line, i) {
          assert WrittenOut(rest, i - 1);
        }
        if i: nat :| WrittenOut(rest, i) {
          assert WrittenOut(line, i + 1);
        }
      }
    }
  }

  function Control(c: char): char {
    if c == 'n' then '\n' else if c == 't' then '\t' else '\r'
  }

  lemma UnescapePair(c: char, b: string)
    requires c == 'n' || c == 't' || c == 'r'
    ensures Unescape(['\\', c] + b) == [Control(c)] + Unescape(b)
  {
    assert (['\\', c] + b)[2..] == b;
  }

  lemma UnescapeOne(x: char, rest: string)
    requires !WrittenOut([x] + rest, 0)
    ensures Unescape([x] + rest) == [x] + Unescape(rest)
  {
    assert ([x] + rest)[1..] == rest;
  }

  lemma Regroup(x: char, a: string, m: string, b: string)
    ensures [x] + a + m + b == [x] + (a + m + b)
  {
  }

  // The first written-out control character becomes the character, and what follows is scanned on.
  lemma {:induction false} UnescapeFirst(a: string, c: char, b: string)
    requires c == 'n' || c == 't' || c == 'r'
    requires forall i: nat :: i < |a| ==> !WrittenOut(a + ['\\', c] + b, i)
    ensures Unescape(a + ['\\', c] + b) == a + [Control(c)] + Unescape(b)
    decreases |a|
  {
    if a == "" {
      UnescapePair(c, b);
      assert a + ['\\', c] + b == ['\\', c] + b;
    } else {
      var x, more := a[0], a[1..];
      var rest := more + ['\\', c] + b;
      assert a == [x] + more;
      Regroup(x, more, ['\\', c], b);
      Regroup(x, more, [Control(c)], Unescape(b));
      forall i: nat | i < |more| ensures !WrittenOut(rest, i) {
        assert !WrittenOut([x] + rest, i + 1);
      }
      UnescapeFirst(more, c, b);
      UnescapeOne(x, rest);
    }
  }

  // Blanks and tabs in front of the first line are dropped, and nothing else is.
  lemma {:induction false} TrimLeftIs(l: string) returns (k: nat)
    ensures k <= |l| && TrimLeft(l) == l[k..]
    ensures forall i :: 0 <= i < k ==> l[i] == ' ' || l[i] == '\t'
    ensures k < |l| ==> l[k] != ' ' && l[k] != '\t'
    decreases |l|
  {
    k := 0;
    if l != "" && (l[0] == ' ' || l[0] == '\t') {
      var n := TrimLeftIs(l[1..]);
      k := n + 1;
      forall i | 0 <= i < k ensures l[i] == ' ' || l[i] == '\t' {
        assert i > 0 ==> l[1..][i - 1] == l[i];
      }
    }
  }

  // A literal with a backslash and an n changes before it is scanned, though no blank is lost.
  lemma WrittenOutLiteral()
    ensures Unescape("'\\n'") == "'\n'" && !LosesBlanks(Fresh([]), Unescape("'\\n'"))
  {
    assert "'\\n'"[1..] == "\\n'" && "\\n'"[2..] == "'";
  }

  lemma CompleteBy(cur: string)
    requires Undivided(cur)
    ensures Complete(cur + [';'])
  {
    assert (cur + [';'])[..|cur|] == cur;
  }

  // Completeness is about all statements but the last.
  lemma LastReplaced(statements: seq<string>, last: string)
    requires statements != [] && EarlierComplete(statements)
    ensures EarlierComplete(Init(statements) + [last])
    ensures Init(Init(statements) + [last]) == Init(statements) && Last(Init(statements) + [last]) == last
  {
    forall i: nat
      ensures CompleteAt(Init(statements) + [last], i)
    {
      assert CompleteAt(statements, i);
    }
  }

  lemma LastAdded(statements: seq<string>, last: string)
    requires EarlierComplete(statements) && (statements == [] || Complete(Last(statements)))
    ensures EarlierComplete(statements + [last]) && Init(statements + [last]) == statements
  {
    forall i: nat
      ensures CompleteAt(statements + [last], i)
    {
      assert CompleteAt(statements, i);
    }
  }

  lemma InitComplete(statements: seq<string>)
    requires statements != [] && EarlierComplete(statements)
    ensures Init(statements) == [] || Complete(Last(Init(statements)))
  {
    if |statements| > 1 {
      assert CompleteAt(statements, |statements| - 2);
    }
  }

  // Complete statements leave the tokens settled.
  lemma CompleteSettles(statements: seq<string>)
    requires statements == [] || Complete(Last(statements))
    ensures Settled(AllTokens(statements))
  {
    if statements != [] {
      var stmt, x := Last(statements), AllTokens(Init(statements));
      ReadAnywhere(Outside, [], x, 0, stmt[..|stmt| - 1]);
    }
  }

  function Letters(text: string): seq<Token> {
    seq(|text|, i requires 0 <= i < |text| => Text(text[i]))
  }

  // The tokens of an undivided text that does not start with a blank are its characters.
  lemma {:induction false} TokensAreLetters(ts: seq<Token>, text: string)
    requires Settled(ts) && (text != "" ==> !IsSpace(text[0])) && Read(Fresh(ts), text).semicolons == 0
    ensures Read(Fresh(ts), text).tokens == ts + Letters(text)
    decreases |text|
  {
    if text != "" {
      var k := |text| - 1;
      SemicolonsGrow(Fresh(ts), text[..k]);
      TokensAreLetters(ts, text[..k]);
      if k > 0 {
        Unsettled(Fresh(ts), text[..k]);
      }
      assert Letters(text) == Letters(text[..k]) + [Text(text[k])];
    }
  }

  // So the tokens of a complete statement are its characters and the semicolon that ends it.
  lemma TokensOfComplete(ts: seq<Token>, stmt: string)
    requires Settled(ts) && Complete(stmt) && !IsSpace(stmt[0]) && |stmt| > 1
    ensures Read(Fresh(ts), stmt).tokens == ts + Letters(stmt[..|stmt| - 1]) + [Semicolon]
  {
    var text := stmt[..|stmt| - 1];
    ReadAnywhere(Outside, [], ts, 0, text);
    TokensAreLetters(ts, text);
    Unsettled(Fresh(ts), text);
  }

  // ---- the state of a scan

  // The unfinished last statement, read after the tokens of the statements before it.
  function Pending(statements: seq<string>, cur: string): Reading
    requires statements != []
  {
    Read(Fresh(AllTokens(Init(statements))), cur)
  }

  function Input(q0: Quote, before: seq<Token>, text: string): Reading {
    Read(Reading(q0, before, 0), text)
  }

  // What the line says before start is in the statements.
  predicate Based(statements: seq<string>, l: string, q0: Quote, before: seq<Token>, start: nat)
    requires statements != [] && start <= |l|
  {
    if start == 0 then Pending(statements, Last(statements)) == Reading(q0, before, 0)
    else
      && Last(statements) == "" && start < |l| && !IsSpace(l[start])
      && Input(q0, before, l[..start]).quote.Outside?
      && Input(q0, before, l[..start]).tokens == AllTokens(Init(statements))
  }

  // The line l, which began in state q0 after the tokens `before`, has been scanned up to i; what
  // it holds from start on has not been added to the last statement yet.
  ghost predicate Synced(statements: seq<string>, l: string, q0: Quote, before: seq<Token>, start: nat, i: nat) {
    && statements != [] && start <= i <= |l| && Calm(q0) && EarlierComplete(statements)
    && Read(Fresh([]), Last(statements)).quote == (if start == 0 then q0 else Outside)
    && Based(statements, l, q0, before, start)
    && (var a, b := Pending(statements, Last(statements) + l[start..i]), Input(q0, before, l[..i]);
        && a.quote == b.quote && a.tokens == b.tokens && a.semicolons == 0 && (start > 0 <==> b.semicolons > 0)
        && CodeEnd(q0, l, 0) == CodeEnd(b.quote, l, i))
  }

  // Between two statements: everything up to j is in the statements.
  ghost predicate Between(statements: seq<string>, l: string, q0: Quote, before: seq<Token>, j: nat) {
    && statements != [] && j <= |l| && EarlierComplete(statements)
    && (Last(statements) == "" || Complete(Last(statements)))
    && (var b := Input(q0, before, l[..j]);
        && b.quote.Outside? && AllTokens(statements) == b.tokens && Settled(b.tokens) && b.semicolons > 0
        && CodeEnd(q0, l, 0) == CodeEnd(Outside, l, j))
  }

  lemma PartMore(last: string, l: string, start: nat, i: nat)
    requires start <= i < |l|
    ensures last + l[start..i + 1] == (last + l[start..i]) + [l[i]]
  {
  }

  // One more character of the line.
  lemma InputMore(q0: Quote, before: seq<Token>, l: string, i: nat)
    requires i < |l|
    ensures Input(q0, before, l[..i + 1]) == Take(Input(q0, before, l[..i]), l[i])
  {
    assert l[..i + 1] == l[..i] + [l[i]];
    ReadChar(Reading(q0, before, 0), l[..i], l[i]);
  }

  lemma Advance(statements: seq<string>, l: string, q0: Quote, before: seq<Token>, start: nat, i: nat)
    requires Synced(statements, l, q0, before, start, i) && i < |l|
    requires Input(q0, before, l[..i]).quote.Outside? ==> l[i] != ';' && !CommentAt(l, i)
    ensures Synced(statements, l, q0, before, start, i + 1)
    ensures Input(q0, before, l[..i + 1]).quote == Step(Input(q0, before, l[..i]).quote, l[i])
  {
    PartMore(Last(statements), l, start, i);
    InputMore(q0, before, l, i);
    ReadChar(Fresh(AllTokens(Init(statements))), Last(statements) + l[start..i], l[i]);
  }

  // The text of the last statement up to a semicolon at i.
  function Ended(statements: seq<string>, l: string, start: nat, i: nat): seq<string>
    requires statements != [] && start <= i < |l|
  {
    if Last(statements) + l[start..i] == "" then statements
    else Init(statements) + [Last(statements) + l[start..i + 1]]
  }

  lemma EndEmpty(statements: seq<string>, l: string, q0: Quote, before: seq<Token>, start: nat, i: nat)
    requires Synced(statements, l, q0, before, start, i) && i < |l|
    requires l[i] == ';' && Input(q0, before, l[..i]).quote.Outside?
    requires Last(statements) + l[start..i] == ""
    ensures Between(statements, l, q0, before, i + 1)
  {
    InputMore(q0, before, l, i);
    InitComplete(statements);
    CompleteSettles(Init(statements));
  }

  lemma TextComplete(x: seq<Token>, cur: string)
    requires Read(Fresh(x), cur).quote.Outside? && Read(Fresh(x), cur).semicolons == 0
    ensures Complete(cur + [';'])
    ensures Read(Fresh(x), cur + [';']).tokens == Add(Read(Fresh(x), cur).tokens, Semicolon)
  {
    ReadAnywhere(Outside, x, [], 0, cur);
    CompleteBy(cur);
    ReadChar(Fresh(x), cur, ';');
  }

  lemma EndText(statements: seq<string>, l: string, q0: Quote, before: seq<Token>, start: nat, i: nat)
    requires Synced(statements, l, q0, before, start, i) && i < |l|
    requires l[i] == ';' && Input(q0, before, l[..i]).quote.Outside?
    requires Last(statements) + l[start..i] != ""
    ensures Between(Init(statements) + [Last(statements) + l[start..i + 1]], l, q0, before, i + 1)
  {
    var cur, init := Last(statements) + l[start..i], Init(statements);
    PartMore(Last(statements), l, start, i);
    InputMore(q0, before, l, i);
    TextComplete(AllTokens(init), cur);
    LastReplaced(statements, cur + [';']);
    SemicolonsGrow(Reading(q0, before, 0), l[..i]);
  }

  lemma EndStatement(statements: seq<string>, l: string, q0: Quote, before: seq<Token>, start: nat, i: nat)
    requires Synced(statements, l, q0, before, start, i) && i < |l|
    requires l[i] == ';' && Input(q0, before, l[..i]).quote.Outside?
    ensures Between(Ended(statements, l, start, i), l, q0, before, i + 1)
  {
    if Last(statements) + l[start..i] == "" {
      EndEmpty(statements, l, q0, before, start, i);
    } else {
      EndText(statements, l, q0, before, start, i);
    }
  }

  lemma SkipBlank(statements: seq<string>, l: string, q0: Quote, before: seq<Token>, j: nat)
    requires Between(statements, l, q0, before, j) && j < |l| && IsSpace(l[j])
    ensures Between(statements, l, q0, before, j + 1)
  {
    InputMore(q0, before, l, j);
  }

  // The line is over behind its last semicolon.
  lemma EndsBetween(statements: seq<string>, l: string, q0: Quote, before: seq<Token>)
    requires Between(statements, l, q0, before, |l|)
    ensures var r := Input(q0, before, LineCode(Reading(q0, before, 0), l));
      AllTokens(statements) == r.tokens && r.quote.Outside?
  {
    assert l[..|l|] == l;
  }

  function Reopened(statements: seq<string>): seq<string>
    requires statements != []
  {
    if Last(statements) != "" then statements + [""] else statements
  }

  // The next statement starts at j, in a fresh string unless the last one is still empty.
  lemma Reopen(statements: seq<string>, l: string, q0: Quote, before: seq<Token>, j: nat)
    requires Between(statements, l, q0, before, j) && Calm(q0) && 0 < j < |l| && !IsSpace(l[j])
    ensures Synced(Reopened(statements), l, q0, before, j, j)
  {
    assert l[j..j] == "" && "" + "" == "";
    if Last(statements) != "" {
      LastAdded(statements, "");
    }
  }

  function Started(statements: seq<string>): seq<string> {
    if statements == [] then [""] else Init(statements) + [Last(statements) + "\n"]
  }

  // The tokens in front of the next line.
  function StartTokens(statements: seq<string>): seq<Token> {
    LineStart(Source(LineQuote(statements), AllTokens(statements), statements != [])).tokens
  }

  lemma FirstLineStarts(l: string)
    ensures Synced([""], l, Outside, [], 0, 0)
  {
    assert l[0..0] == "" && l[..0] == "" && "" + "" == "";
  }

  lemma NextLineStarts(statements: seq<string>, l: string)
    requires statements != [] && Read(Fresh([]), Last(statements)).semicolons == 0 && EarlierComplete(statements)
    ensures Synced(Started(statements), l, LineQuote(statements), StartTokens(statements), 0, 0)
  {
    var next, x, last := Started(statements), AllTokens(Init(statements)), Last(statements);
    assert Last(next) + l[0..0] == last + "\n" && l[..0] == "" && Last(next) == last + "\n";
    LastReplaced(statements, last + "\n");
    NewLine(Fresh(x), last);
    NewLine(Fresh([]), last);
    ReadAnywhere(Outside, x, [], 0, last);
  }

  lemma LineStarts(statements: seq<string>, l: string)
    requires statements != [] ==> Read(Fresh([]), Last(statements)).semicolons == 0 && EarlierComplete(statements)
    ensures Synced(Started(statements), l, LineQuote(statements), StartTokens(statements), 0, 0)
  {
    if statements == [] {
      FirstLineStarts(l);
    } else {
      NextLineStarts(statements, l);
    }
  }

  // The line break in front of a line ends an escape and separates the lines.
  lemma NewLine(r: Reading, last: string)
    ensures var b := Read(r, last);
      Read(r, last + "\n") == Reading(NextLine(b.quote), Add(b.tokens, Text('\n')), b.semicolons)
  {
    ReadChar(r, last, '\n');
  }

  // Counting does not influence reading.
  lemma {:induction false} ReadCount(q: Quote, x: seq<Token>, n: nat, m: nat, text: string)
    ensures Read(Reading(q, x, n), text).quote == Read(Reading(q, x, m), text).quote
    ensures Read(Reading(q, x, n), text).tokens == Read(Reading(q, x, m), text).tokens
    decreases |text|
  {
    if text != "" {
      ReadCount(q, x, n, m, text[..|text| - 1]);
    }
  }

  // The line is over at i, at its end or at a comment, with this left of it.
  predicate Over(l: string, q0: Quote, before: seq<Token>, start: nat, i: nat, rest: string)
    requires start <= i <= |l|
  {
    || (i == |l| && rest == l[start..])
    || (CommentAt(l, i) && Input(q0, before, l[..i]).quote.Outside? && rest == TrimSpace(l[start..i]))
  }

  // What the last statement and what the line come to, once the rest is added.
  predicate Ends(statements: seq<string>, l: string, q0: Quote, before: seq<Token>, rest: string)
    requires statements != []
  {
    var a, b := Pending(statements, Last(statements) + rest), Input(q0, before, LineCode(Reading(q0, before, 0), l));
    a.quote == b.quote && a.tokens == b.tokens && a.semicolons == 0
  }

  lemma EndsWhole(statements: seq<string>, l: string, q0: Quote, before: seq<Token>, start: nat)
    requires Synced(statements, l, q0, before, start, |l|)
    ensures Ends(statements, l, q0, before, l[start..])
  {
    assert l[start..|l|] == l[start..] && l[..|l|] == l;
  }

  // A comment in a line that has ended no statement.
  lemma EndsFirst(statements: seq<string>, l: string, q0: Quote, before: seq<Token>, i: nat)
    requires Synced(statements, l, q0, before, 0, i) && CommentAt(l, i) && Input(q0, before, l[..i]).quote.Outside?
    ensures Ends(statements, l, q0, before, TrimSpace(l[..i]))
    ensures Input(q0, before, LineCode(Reading(q0, before, 0), l)).quote.Outside?
  {
    var text, x := TrimSpace(l[..i]), AllTokens(Init(statements));
    ReadText(Fresh(x), Last(statements), text);
    TrimSpaceKeeps(Reading(q0, before, 0), l[..i]);
  }

  // A comment right behind the end of a statement.
  lemma EndsAtStart(statements: seq<string>, l: string, q0: Quote, before: seq<Token>, i: nat)
    requires Synced(statements, l, q0, before, i, i) && 0 < i
    requires CommentAt(l, i) && Input(q0, before, l[..i]).quote.Outside?
    ensures Ends(statements, l, q0, before, "") && LineCode(Reading(q0, before, 0), l) == l[..i]
  {
    assert Last(statements) + l[i..i] == "" && Last(statements) + "" == "";
    InitComplete(statements);
    CompleteSettles(Init(statements));
  }

  // The part of a line that belongs to the unfinished statement leaves it open.
  lemma PartUnsettled(statements: seq<string>, l: string, q0: Quote, before: seq<Token>, start: nat, i: nat)
    requires Synced(statements, l, q0, before, start, i) && 0 < start < i
    ensures !Settled(Input(q0, before, l[..i]).tokens) && Input(q0, before, l[..i]).semicolons > 0
  {
    var part := l[start..i];
    assert Last(statements) + part == part && part[0] == l[start];
    Unsettled(Fresh(AllTokens(Init(statements))), part);
  }

  // The code of a line whose last part is not blank.
  lemma CodeOfPart(statements: seq<string>, l: string, q0: Quote, before: seq<Token>, start: nat, i: nat)
    requires Synced(statements, l, q0, before, start, i) && 0 < start < i
    requires CommentAt(l, i) && Input(q0, before, l[..i]).quote.Outside?
    ensures LineCode(Reading(q0, before, 0), l) == l[..start] + TrimEnd(l[start..i])
    ensures TrimSpace(l[start..i]) == TrimEnd(l[start..i])
  {
    PartUnsettled(statements, l, q0, before, start, i);
    assert l[start..i][0] == l[start] && l[..i] == l[..start] + l[start..i];
    TrimEndJoin(l[..start], l[start..i]);
  }

  // A comment behind a statement that the line has started.
  lemma EndsInPart(statements: seq<string>, l: string, q0: Quote, before: seq<Token>, start: nat, i: nat)
    requires Synced(statements, l, q0, before, start, i) && 0 < start < i
    requires CommentAt(l, i) && Input(q0, before, l[..i]).quote.Outside?
    ensures Ends(statements, l, q0, before, TrimSpace(l[start..i]))
    ensures Input(q0, before, LineCode(Reading(q0, before, 0), l)).quote.Outside?
  {
    var part, x := l[start..i], AllTokens(Init(statements));
    CodeOfPart(statements, l, q0, before, start, i);
    assert Last(statements) + part == part;
    TrimEndKeeps(Fresh(x), part);
    var text := TrimEnd(part);
    assert Last(statements) + text == text;
    ReadText(Reading(q0, before, 0), l[..start], text);
    ReadCount(Outside, x, Input(q0, before, l[..start]).semicolons, 0, text);
  }

  // What is left of the line goes to the last statement.
  lemma LineEnds(statements: seq<string>, l: string, q0: Quote, before: seq<Token>, start: nat, i: nat, rest: string)
    requires Synced(statements, l, q0, before, start, i) && Over(l, q0, before, start, i, rest)
    ensures var next, r := Init(statements) + [Last(statements) + rest], Input(q0, before, LineCode(Reading(q0, before, 0), l));
      && EarlierComplete(next)
      && Read(Fresh([]), Last(next)).quote == r.quote == Input(q0, before, l[..i]).quote
      && Read(Fresh([]), Last(next)).semicolons == 0
      && AllTokens(next) == r.tokens
  {
    var x := AllTokens(Init(statements));
    LastReplaced(statements, Last(statements) + rest);
    if i == |l| && rest == l[start..] {
      assert l[..i] == l;
      EndsWhole(statements, l, q0, before, start);
    } else if start == 0 {
      assert l[0..i] == l[..i];
      EndsFirst(statements, l, q0, before, i);
    } else {
      if start == i {
        EndsAtStart(statements, l, q0, before, i);
      } else {
        EndsInPart(statements, l, q0, before, start, i);
      }
    }
    ReadAnywhere(Outside, x, [], 0, Last(statements) + rest);
  }

  // ---- the line that ends the reading

  predicate BlankAt(l: string, j: nat)
    requires j < |l|
  {
    IsSpace(l[j])
  }

  // The line has only blanks from k to i.
  ghost predicate Blank(l: string, k: nat, i: nat)
    requires i <= |l|
  {
    forall j: nat :: k <= j < i ==> BlankAt(l, j)
  }

  predicate PlainAt(l: string, j: nat)
    requires j < |l|
  {
    l[j] == ';' || IsSpace(l[j])
  }

  // The line begins with i semicolons and blanks.
  ghost predicate Plain(l: string, i: nat)
    requires i <= |l|
  {
    forall j: nat :: j < i ==> PlainAt(l, j)
  }

  // Nothing but blanks, or nothing but blanks behind semicolons of which the first one starts the line.
  ghost predicate Hollow(l: string, i: nat)
    requires i <= |l|
  {
    Blank(l, 0, i) || (l[0] == ';' && Plain(l, i))
  }

  // Blanks apart, the line ends with a semicolon outside quotes.
  predicate EndsStatement(q: Quote, l: string) {
    var t := TrimEnd(l);
    t != "" && t[|t| - 1] == ';' && After(q, t[..|t| - 1]).Outside?
  }

  // Reading stops behind the line: it has no comment and ends a statement, or it is the first one
  // and has nothing in front of a comment.
  ghost predicate Stops(q: Quote, l: string, first: bool) {
    var e := CodeEnd(q, l, 0);
    if e == |l| then EndsStatement(q, l) else first && Hollow(l, e)
  }

  // The line is the last one that is read.
  ghost predicate StopsReading(s: Source, line: string) {
    Stops(s.quote, Unescape(if s.started then line else TrimLeft(line)), !s.started)
  }

  // What trimming the end of a line takes away.
  lemma {:induction false} TrimEndIs(l: string) returns (k: nat)
    ensures k <= |l| && TrimEnd(l) == l[..k] && Blank(l, k, |l|) && (k > 0 ==> !IsSpace(l[k - 1]))
    decreases |l|
  {
    var n := |l| - 1;
    if l != "" && IsSpace(l[n]) {
      k := TrimEndIs(l[..n]);
      assert l[..n][..k] == l[..k];
      forall j: nat | k <= j < |l| ensures BlankAt(l, j) {
        assert j < n ==> BlankAt(l[..n], j);
      }
    } else {
      k := |l|;
      assert l[..k] == l;
    }
  }

  lemma TrimEndAt(l: string, k: nat)
    requires k <= |l| && Blank(l, k, |l|) && (k > 0 ==> !IsSpace(l[k - 1]))
    ensures TrimEnd(l) == l[..k]
  {
    var k' := TrimEndIs(l);
    assert k < k' ==> BlankAt(l, k' - 1);
    assert k' < k ==> BlankAt(l, k - 1);
  }

  lemma {:induction false} TrimStartBlank(l: string, k: nat, i: nat)
    requires k <= i <= |l|
    ensures TrimStart(l[k..i]) == "" <==> Blank(l, k, i)
    ensures TrimStart(l[k..i]) != "" ==> !IsSpace(TrimStart(l[k..i])[0])
    decreases i - k
  {
    if k < i {
      assert l[k..i][0] == l[k] && l[k..i][1..] == l[k + 1..i];
      if IsSpace(l[k]) {
        TrimStartBlank(l, k + 1, i);
        assert Blank(l, k, i) <==> Blank(l, k + 1, i) by {
          assert BlankAt(l, k);
        }
      } else {
        assert !BlankAt(l, k);
      }
    }
  }

  lemma TrimmedBlank(l: string, k: nat, i: nat)
    requires k <= i <= |l|
    ensures TrimSpace(l[k..i]) == "" <==> Blank(l, k, i)
  {
    TrimStartBlank(l, k, i);
    var t := TrimStart(l[k..i]);
    var n := TrimEndIs(t);
    if t != "" {
      assert n == 0 ==> BlankAt(t, 0);
    }
  }

  // The semicolon at i ends the line.
  lemma StopsAt(statements: seq<string>, l: string, q0: Quote, before: seq<Token>, i: nat, first: bool)
    requires i < |l| && l[i] == ';' && Input(q0, before, l[..i]).quote.Outside? && Blank(l, i + 1, |l|)
    requires Between(statements, l, q0, before, |l|)
    ensures Stops(q0, l, first)
  {
    TrimEndAt(l, i + 1);
    AfterIsRead(Reading(q0, before, 0), l[..i]);
    assert l[..i + 1][..i] == l[..i];
  }

  // A semicolon outside quotes is counted.
  lemma SplitCounts(r: Reading, text: string, i: nat)
    requires i < |text| && text[i] == ';' && Read(r, text[..i]).quote.Outside?
    ensures Read(r, text).semicolons > r.semicolons
  {
    assert text == text[..i] + [';'] + text[i + 1..];
    SemicolonsGrow(r, text[..i]);
    ReadChar(r, text[..i], ';');
    ReadText(r, text[..i] + [';'], text[i + 1..]);
    SemicolonsGrow(Take(Read(r, text[..i]), ';'), text[i + 1..]);
  }

  // The last statement and the line are read in the same quotation state.
  lemma SameQuote(statements: seq<string>, l: string, q0: Quote, before: seq<Token>, start: nat, i: nat)
    requires statements != [] && start <= i <= |l| && Based(statements, l, q0, before, start)
    ensures Pending(statements, Last(statements) + l[start..i]).quote == Input(q0, before, l[..i]).quote
  {
    var x, part := AllTokens(Init(statements)), l[start..i];
    assert l[..i] == l[..start] + part;
    ReadText(Fresh(x), Last(statements), part);
    ReadText(Reading(q0, before, 0), l[..start], part);
    if start > 0 {
      ReadCount(Outside, x, Input(q0, before, l[..start]).semicolons, 0, part);
    }
  }

  lemma JoinAt(last: string, l: string, start: nat, k: nat, i: nat)
    requires start <= k < i <= |l|
    ensures var text, at := last + l[start..i], |last| + k - start;
      at < |text| && text[..at] == last + l[start..k] && text[at] == l[k]
  {
  }

  lemma NoSplit(r: Reading, last: string, l: string, start: nat, k: nat, i: nat)
    requires start <= k < i <= |l| && Read(r, last + l[start..i]).semicolons == r.semicolons
    ensures l[k] != ';' || !Read(r, last + l[start..k]).quote.Outside?
  {
    JoinAt(last, l, start, k, i);
    if l[k] == ';' && Read(r, last + l[start..k]).quote.Outside? {
      SplitCounts(r, last + l[start..i], |last| + k - start);
    }
  }

  // So no semicolon outside quotes lies between start and i.
  lemma PartDivides(statements: seq<string>, l: string, q0: Quote, before: seq<Token>, start: nat, k: nat, i: nat)
    requires Synced(statements, l, q0, before, start, i) && start <= k < i
    ensures l[k] != ';' || !Input(q0, before, l[..k]).quote.Outside?
  {
    SameQuote(statements, l, q0, before, start, k);
    NoSplit(Fresh(AllTokens(Init(statements))), Last(statements), l, start, k, i);
  }

  // A line without a comment that was scanned to its end does not stop the reading.
  lemma RunsOn(statements: seq<string>, l: string, q0: Quote, before: seq<Token>, start: nat, first: bool)
    requires Synced(statements, l, q0, before, start, |l|)
    ensures !Stops(q0, l, first)
  {
    if EndsStatement(q0, l) {
      var k := TrimEndIs(l);
      var i := k - 1;
      assert l[..k][..i] == l[..i];
      AfterIsRead(Reading(q0, before, 0), l[..i]);
      assert k <= start < |l| ==> BlankAt(l, start);
      PartDivides(statements, l, q0, before, start, i, |l|);
    }
  }

  // Everything up to start is semicolons and blanks, and nothing is in the statements.
  ghost predicate Empty(statements: seq<string>, l: string, start: nat, first: bool)
    requires start <= |l|
  {
    statements == [""] <==> first && (start > 0 ==> l[0] == ';' && Plain(l, start))
  }

  // Blanks and semicolons stay outside quotes, and blanks divide nothing.
  lemma {:induction false} PlainText(r: Reading, l: string, i: nat)
    requires i <= |l| && r.quote.Outside? && Plain(l, i)
    ensures Read(r, l[..i]).quote.Outside?
    ensures Blank(l, 0, i) ==> Read(r, l[..i]).semicolons == r.semicolons
    decreases i
  {
    if i > 0 {
      PlainText(r, l, i - 1);
      assert l[..i][..i - 1] == l[..i - 1] && PlainAt(l, i - 1);
      assert Blank(l, 0, i) ==> BlankAt(l, i - 1);
    }
  }

  // The text up to a comment is hollow exactly if the statements are empty and nothing is left.
  lemma HollowUpTo(statements: seq<string>, l: string, q0: Quote, before: seq<Token>, start: nat, i: nat)
    requires Synced(statements, l, q0, before, start, i) && q0.Outside? && Hollow(l, i)
    ensures start > 0 ==> l[0] == ';' && Plain(l, start)
    ensures Blank(l, start, i)
  {
    var r := Reading(q0, before, 0);
    forall j: nat | j < i ensures PlainAt(l, j) {
      assert Blank(l, 0, i) ==> BlankAt(l, j);
    }
    PlainText(r, l, i);
    forall k: nat | start <= k < i ensures BlankAt(l, k) {
      PlainText(r, l, k);
      PartDivides(statements, l, q0, before, start, k, i);
      assert PlainAt(l, k);
    }
  }

  // A line up to a comment at i stops the reading exactly if nothing is in the statements.
  lemma CommentStops(statements: seq<string>, l: string, q0: Quote, before: seq<Token>, start: nat, i: nat, first: bool)
    requires Synced(statements, l, q0, before, start, i) && Empty(statements, l, start, first)
    requires first ==> q0.Outside?
    requires CommentAt(l, i) && Input(q0, before, l[..i]).quote.Outside?
    ensures statements == [""] && Blank(l, start, i) <==> Stops(q0, l, first)
  {
    assert CodeEnd(q0, l, 0) == i;
    if first && Hollow(l, i) {
      HollowUpTo(statements, l, q0, before, start, i);
    }
    if statements == [""] && Blank(l, start, i) && start > 0 {
      forall j: nat | j < i ensures PlainAt(l, j) {
        assert if j < start then PlainAt(l, j) else BlankAt(l, j);
      }
    }
  }

  // Text between two semicolons of a hollow line would have ended a statement.
  lemma NoText(statements: seq<string>, l: string, q0: Quote, before: seq<Token>, start: nat, i: nat)
    requires Synced(statements, l, q0, before, start, i) && i < |l| && l[0] == ';' && q0.Outside?
    requires Plain(l, i)
    ensures i == start
  {
    if start < i {
      PlainText(Reading(q0, before, 0), l, start);
      assert PlainAt(l, start);
      PartDivides(statements, l, q0, before, start, start, i);
    }
  }

  lemma ReopenedEmpty(statements: seq<string>, l: string, start: nat, i: nat)
    requires statements != [] && start <= i < |l|
    ensures Reopened(Ended(statements, l, start, i)) == [""] <==> statements == [""] && i == start
  {
    var cur := Last(statements) + l[start..i];
    assert |cur| == |Last(statements)| + i - start;
    if cur != "" {
      assert |Last(statements) + l[start..i + 1]| > 0;
    }
  }

  lemma PlainOn(l: string, i: nat, next: nat)
    requires i < next <= |l| && l[i] == ';' && Blank(l, i + 1, next)
    ensures Plain(l, next) <==> Plain(l, i)
  {
    if Plain(l, i) {
      forall j: nat | j < next ensures PlainAt(l, j) {
        assert j > i ==> BlankAt(l, j);
        assert j < i ==> PlainAt(l, j);
      }
    }
    if Plain(l, next) {
      forall j: nat | j < i ensures PlainAt(l, j) {
      }
    }
  }

  // Ending a statement and opening the next one leaves nothing in the statements exactly if the
  // line still has nothing but semicolons and blanks.
  lemma EndKeepsEmpty(statements: seq<string>, l: string, q0: Quote, before: seq<Token>, start: nat, i: nat, next: nat,
                      first: bool)
    requires Synced(statements, l, q0, before, start, i) && i < next < |l| && l[i] == ';'
    requires first ==> q0.Outside?
    requires Empty(statements, l, start, first) && Blank(l, i + 1, next)
    ensures Empty(Reopened(Ended(statements, l, start, i)), l, next, first)
  {
    var untouched := statements == [""] && i == start;
    ReopenedEmpty(statements, l, start, i);
    PlainOn(l, i, next);
    if first && l[0] == ';' && Plain(l, i) {
      NoText(statements, l, q0, before, start, i);
      assert untouched;
    }
    assert untouched <==> first && l[0] == ';' && Plain(l, i);
  }

  // ---- the splitter

  class Splitter {
    var inQuotedString: bool
    var isSingleQuoted: bool
    var statements: seq<string>

    ghost predicate Flags(q: Quote)
      reads this
    {
      inQuotedString == q.Inside? && (q.Inside? ==> isSingleQuoted == q.single)
    }

    // Between lines: the flags are those of scanning the last statement from its start, it has no
    // semicolon outside quotes yet, and the statements before it are complete.
    ghost predicate Valid()
      reads this
    {
      if statements == [] then !inQuotedString
      else
        && Flags(Read(Fresh([]), Last(statements)).quote)
        && Read(Fresh([]), Last(statements)).semicolons == 0
        && EarlierComplete(statements)
    }

    // After the last line: outside quotes, with complete statements and at most an empty one.
    ghost predicate Finished()
      reads this
    {
      && !inQuotedString && EarlierComplete(statements)
      && (statements == [] || Last(statements) == "" || Complete(Last(statements)))
    }

    // The scan of a line has come to i, with its quotation state in the flags and isEscape.
    ghost predicate At(line: string, start: nat, i: nat, isEscape: bool, q0: Quote, before: seq<Token>)
      reads this
    {
      && Synced(statements, line, q0, before, start, i)
      && var q := Input(q0, before, line[..i]).quote; Flags(q) && isEscape == (q.Inside? && q.escaped)
    }

    // What the rounds of the scan keep.
    ghost predicate Scanning(line: string, start: nat, i: nat, isEscape: bool, q0: Quote, before: seq<Token>, first: bool)
      reads this
    {
      At(line, start, i, isEscape, q0, before) && Empty(statements, line, start, first) && (first ==> q0.Outside?)
    }

    // The tokens and the quotation state after a line are those of its code.
    ghost predicate Taken(done: bool, line: string, q0: Quote, before: seq<Token>)
      reads this
    {
      var r := Input(q0, before, LineCode(Reading(q0, before, 0), line));
      && (if done then Finished() else Valid())
      && AllTokens(statements) == r.tokens
      && (if done then r.quote.Outside? else statements != [] && LineQuote(statements) == NextLine(r.quote))
    }

    constructor ()
      ensures Valid() && statements == []
    {
      inQuotedString, isSingleQuoted, statements := false, false, [];
    }

    // A character that neither ends a statement nor starts a comment updates the flags.
    method Track(c: char, isEscape: bool, ghost q: Quote) returns (escape: bool)
      requires Flags(q) && isEscape == (q.Inside? && q.escaped)
      modifies this`inQuotedString, this`isSingleQuoted
      ensures Flags(Step(q, c)) && escape == (Step(q, c).Inside? && Step(q, c).escaped)
    {
      escape := false;
      if isEscape {
        return;
      }
      if c == '\\' {
        escape := inQuotedString;
      } else if c == '"' || c == '\'' {
        if inQuotedString {
          if isSingleQuoted == (c == '\'') {
            inQuotedString := false;
          }
        } else {
          inQuotedString := true;
          isSingleQuoted := c == '\'';
        }
      }
    }

    // Ignores blanks in front of the next statement and opens it.
    method NextStart(line: string, j: nat, ghost q0: Quote, ghost before: seq<Token>) returns (next: nat)
      requires Between(statements, line, q0, before, j) && Calm(q0) && 0 < j
      modifies this`statements
      ensures j <= next <= |line|
      ensures Between(statements, line, q0, before, next) || next < |line|
      ensures next < |line| ==>
                Synced(statements, line, q0, before, next, next) && Input(q0, before, line[..next]).quote.Outside?
      ensures statements == if next < |line| then Reopened(old(statements)) else old(statements)
      ensures Blank(line, j, next)
    {
      next := j;
      while next < |line| && IsSpace(line[next])
        invariant j <= next <= |line| && Between(statements, line, q0, before, next)
        invariant statements == old(statements) && Blank(line, j, next)
      {
        assert BlankAt(line, next);
        SkipBlank(statements, line, q0, before, next);
        next := next + 1;
      }
      if next < |line| {
        Reopen(statements, line, q0, before, next);
        if Last(statements) != "" {
          statements := statements + [""];
        }
      }
    }

    // Ends the statement at the semicolon at i.
    method FinishAt(line: string, start: nat, i: nat, ghost q0: Quote, ghost before: seq<Token>)
      requires Synced(statements, line, q0, before, start, i) && i < |line|
      requires line[i] == ';' && Input(q0, before, line[..i]).quote.Outside?
      modifies this`statements
      ensures statements == Ended(old(statements), line, start, i) && Between(statements, line, q0, before, i + 1)
    {
      EndStatement(statements, line, q0, before, start, i);
      var last := Last(statements);
      assert last + line[start..i] == "" <==> last == "" && start == i;
      if (i == 0 && last != "") || i != start {
        statements := Init(statements) + [last + line[start..i + 1]];
      }
    }

    // Ends the statement at the semicolon at i and looks for the start of the next one.
    method EndAt(line: string, start: nat, i: nat, ghost q0: Quote, ghost before: seq<Token>, ghost first: bool)
      returns (next: nat)
      requires Scanning(line, start, i, false, q0, before, first) && i < |line| && line[i] == ';' && !inQuotedString
      modifies this`statements
      ensures i < next <= |line|
      ensures if next < |line| then Scanning(line, next, next, false, q0, before, first)
              else Taken(true, line, q0, before) && Stops(q0, line, first)
    {
      ghost var whole := statements;
      FinishAt(line, start, i, q0, before);
      next := NextStart(line, i + 1, q0, before);
      if next == |line| {
        EndsBetween(statements, line, q0, before);
        StopsAt(statements, line, q0, before, i, first);
      } else {
        EndKeepsEmpty(whole, line, q0, before, start, i, next, first);
      }
    }

    // Adds what is left of the line to the last statement.
    method EndLine(line: string, start: nat, i: nat, rest: string, ghost q0: Quote, ghost before: seq<Token>)
      requires Synced(statements, line, q0, before, start, i) && Flags(Input(q0, before, line[..i]).quote)
      requires Over(line, q0, before, start, i, rest)
      modifies this`statements
      ensures statements == Init(old(statements)) + [Last(old(statements)) + rest] && Taken(false, line, q0, before)
      ensures Input(q0, before, LineCode(Reading(q0, before, 0), line)).quote == Input(q0, before, line[..i]).quote
    {
      LineEnds(statements, line, q0, before, start, i, rest);
      statements := Init(statements) + [Last(statements) + rest];
    }

    // Passes over a character that stays where it is.
    method Pass(line: string, start: nat, i: nat, isEscape: bool, ghost q0: Quote, ghost before: seq<Token>,
                ghost first: bool)
      returns (escape: bool)
      requires Scanning(line, start, i, isEscape, q0, before, first) && i < |line|
      requires !isEscape && !inQuotedString ==> line[i] != ';' && !CommentAt(line, i)
      modifies this`inQuotedString, this`isSingleQuoted
      ensures Scanning(line, start, i + 1, escape, q0, before, first)
    {
      Advance(statements, line, q0, before, start, i);
      escape := Track(line[i], isEscape, Input(q0, before, line[..i]).quote);
    }

    // Ends the line at the comment at i; nothing else in all lines is an end as well.
    method EndAtComment(line: string, start: nat, i: nat, ghost q0: Quote, ghost before: seq<Token>, ghost first: bool)
      returns (done: bool)
      requires Scanning(line, start, i, false, q0, before, first) && CommentAt(line, i) && !inQuotedString
      modifies this`statements
      ensures Taken(done, line, q0, before) && (done <==> Stops(q0, line, first))
    {
      CommentStops(statements, line, q0, before, start, i, first);
      TrimmedBlank(line, start, i);
      EndLine(line, start, i, TrimSpace(line[start..i]), q0, before);
      done := statements == [""];
      if done {
        statements := [];
      }
    }

    // Scans a line that starts in state q0 after the tokens `before`.
    method ScanLine(line: string, ghost q0: Quote, ghost before: seq<Token>, ghost first: bool) returns (done: bool)
      requires Scanning(line, 0, 0, false, q0, before, first)
      modifies this
      ensures Taken(done, line, q0, before) && (done <==> Stops(q0, line, first))
    {
      var isEscape, start, i := false, 0, 0;
      while i < |line|
        invariant start <= i <= |line| && Scanning(line, start, i, isEscape, q0, before, first)
      {
        if !isEscape && line[i] == ';' && !inQuotedString {
          i := EndAt(line, start, i, q0, before, first);
          start := i;
          if start == |line| {
            return true;
          }
        } else if !isEscape && !inQuotedString && CommentAt(line, i) {
          done := EndAtComment(line, start, i, q0, before, first);
          return;
        } else {
          isEscape := Pass(line, start, i, isEscape, q0, before, first);
          i := i + 1;
        }
      }
      RunsOn(statements, line, q0, before, start, first);
      EndLine(line, start, i, line[start..], q0, before);
      return false;
    }

    method AddLine(line0: string) returns (done: bool)
      requires Valid()
      modifies this
      ensures if done then Finished() else Valid()
      // every token of the line's code, and no other, is added to the statements, which end
      // outside quotes or in the state in which the line leaves off
      ensures var src := Source(LineQuote(old(statements)), AllTokens(old(statements)), old(statements) != []);
        && AllTokens(statements) == NextSource(src, line0).tokens
        && (if done then NextSource(src, line0).quote.Outside?
            else statements != [] && LineQuote(statements) == NextSource(src, line0).quote)
        && (done <==> StopsReading(src, line0))
    {
      var line := line0;
      ghost var q0, before, first := LineQuote(statements), StartTokens(statements), statements == [];
      LineStarts(statements, Scanned(statements, line0));
      if |statements| == 0 {
        statements := [""];
        line := TrimLeft(line);
      } else {
        statements := Init(statements) + [Last(statements) + "\n"];
      }
      line := Unescape(line);
      done := ScanLine(line, q0, before, first);
    }
  }

  // The k-th line stops the reading.
  ghost predicate StopsBehind(lines: seq<string>, k: nat)
    requires 0 < k <= |lines|
  {
    StopsReading(SourceOf(lines[..k - 1]), lines[k - 1])
  }

  // None of the first i lines stops the reading.
  ghost predicate RunsTo(lines: seq<string>, i: nat)
    requires i <= |lines|
  {
    forall k :: 0 < k <= i ==> !StopsBehind(lines, k)
  }

  lemma RunsOneMore(lines: seq<string>, i: nat)
    requires i < |lines| && RunsTo(lines, i)
    ensures StopsBehind(lines, i + 1) || RunsTo(lines, i + 1)
    ensures StopsBehind(lines, i + 1) <==> StopsReading(SourceOf(lines[..i]), lines[i])
  {
  }

  // Reads the lines of one or more statements, up to a line that ends outside quotes with a
  // semicolon, or to the end.
  method ReadStmt(lines: seq<string>) returns (stmts: seq<string>, ended: bool, used: nat)
    ensures used <= |lines| && (!ended ==> used == |lines|)
    // the statements say what the lines say, comments and empty statements apart
    ensures AllTokens(stmts) == SourceOf(lines[..used]).tokens
    ensures EarlierComplete(stmts)
    ensures ended ==> SourceOf(lines[..used]).quote.Outside?
    // the reading ends at the first line that stops it
    ensures if ended then used > 0 && RunsTo(lines, used - 1) && StopsBehind(lines, used) else RunsTo(lines, used)
    ensures if ended then stmts == [] || Last(stmts) == "" || Complete(Last(stmts))
            else stmts == [] || Read(Fresh([]), Last(stmts)).semicolons == 0
  {
    var splitter := new Splitter();
    for i := 0 to |lines|
      invariant splitter.Valid() && (splitter.statements != [] <==> i > 0)
      invariant RunsTo(lines, i)
      invariant SourceOf(lines[..i])
        == Source(LineQuote(splitter.statements), AllTokens(splitter.statements), splitter.statements != [])
    {
      assert lines[..i + 1][..i] == lines[..i];
      var done := splitter.AddLine(lines[i]);
      RunsOneMore(lines, i);
      if done {
        return splitter.statements, true, i + 1;
      }
    }
    return splitter.statements, false, |lines|;
  }
}
