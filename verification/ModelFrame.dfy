/**
  The frame that puts model metadata in front of the model's tarball: the length of the
  metadata as "0x" and at least eight hex digits, the metadata, the tarball.
 */
module ModelFrame {
  import opened Base64
  import opened Wrappers

  const HeaderSize := 10

  const Limit := 0x1_0000_0000

  function HexDigit(d: nat): char
    requires d < 16
  {
    if d < 10 then '0' + d as char else 'a' + (d - 10) as char
  }

  // Letters count from ten on, whatever the base.
  function DigitValue(c: char): Option<nat> {
    if '0' <= c <= '9' then Some((c - '0') as nat)
    else if 'a' <= c <= 'z' then Some((c - 'a') as nat + 10)
    else if 'A' <= c <= 'Z' then Some((c - 'A') as nat + 10)
    else None
  }

  // Lower-case hex, padded with zeros to the given width.
  function HexText(n: nat, width: nat): (s: string)
    ensures |s| > 0
    decreases n, width
  {
    if n < 16 && width <= 1 then [HexDigit(n)]
    else HexText(n / 16, if width > 0 then width - 1 else 0) + [HexDigit(n % 16)]
  }

  // The digits of a number in this base, with underscores between them.
  function DigitsValue(base: nat, s: string): Option<nat> {
    if s == "" then Some(0)
    else
      var init, c := DigitsValue(base, s[..|s| - 1]), s[|s| - 1];
      if c == '_' then init
      else
        var d := DigitValue(c);
        if init.None? || d.None? || d.value >= base then None else Some(init.value * base + d.value)
  }

  function Header(metaLen: nat): string {
    "0x" + HexText(metaLen, 8)
  }

  // Eight hexadecimal digits behind the prefix.
  lemma HeaderOf255()
    ensures Header(255) == "0x000000ff"
  {
    assert HexText(0, 2) == "00" && HexText(0, 4) == "0000";
    assert HexText(0, 6) == "000000" && HexText(15, 7) == "000000f";
  }

  predicate Prefixed(s: string) { |s| >= 2 && s[0] == '0' && s[1] in "bBoOxX" }

  // What precedes a character: nothing, a digit or a base prefix, an underscore, or something else.
  datatype Before = First | Digit | Underscore | Letter

  // Every underscore stands behind a digit and in front of one.
  predicate Separated(s: string, hex: bool, before: Before) {
    if s == "" then before != Underscore
    else
      var c := s[0];
      if '0' <= c <= '9' || (hex && ('a' <= c <= 'f' || 'A' <= c <= 'F')) then Separated(s[1..], hex, Digit)
      else if c == '_' then before == Digit && Separated(s[1..], hex, Underscore)
      else before != Underscore && Separated(s[1..], hex, Letter)
  }

  // Underscores stand between digits, or between the base prefix and a digit.
  predicate UnderscoresOK(s: string) {
    if Prefixed(s) then Separated(s[2..], s[1] in "xX", Digit) else Separated(s, false, First)
  }

  // The number after a sign, in the base that its prefix says.
  function ParseUnsigned(s: string): Option<nat> {
    var v :=
      if s == "" then None
      else if s[0] != '0' then DigitsValue(10, s)
      else if |s| >= 3 && s[1] in "bB" then DigitsValue(2, s[2..])
      else if |s| >= 3 && s[1] in "oO" then DigitsValue(8, s[2..])
      else if |s| >= 3 && s[1] in "xX" then DigitsValue(16, s[2..])
      else DigitsValue(8, s[1..]);
    if '_' in s && !UnderscoresOK(s) then None else v
  }

  // The length that a header gives.
  function ParseHeader(s: string): Option<int> {
    var signed := s != "" && s[0] in "+-";
    var v := ParseUnsigned(if signed then s[1..] else s);
    if v.None? then None
    else
      var n: int := v.value;
      Some(if signed && s[0] == '-' then -n else n)
  }

  lemma OneDigit(base: nat, a: char)
    requires a != '_' && DigitValue(a).Some?
    ensures DigitsValue(base, [a]) == if DigitValue(a).value < base then DigitValue(a) else None
  {
    assert [a][..0] == "" && DigitsValue(base, "") == Some(0);
  }

  lemma TwoDigits(base: nat, a: char, b: char)
    requires a != '_' && b != '_' && DigitValue(a).Some? && DigitValue(b).Some?
    ensures var x, y := DigitValue(a).value, DigitValue(b).value;
      DigitsValue(base, [a, b]) == if x < base && y < base then Some(x * base + y) else None
  {
    OneDigit(base, a);
    assert [a, b][..1] == [a];
  }

  // A sign stands in front of the number.
  lemma SignedHeader()
    ensures ParseHeader("-12") == Some(-12) && ParseHeader("+12") == Some(12) && ParseHeader("-1f") == None
  {
    TwoDigits(10, '1', '2');
    TwoDigits(10, '1', 'f');
    assert "-12"[1..] == "12" && "+12"[1..] == "12" && "-1f"[1..] == "1f";
  }

  // A leading zero means base eight, and so does a letter behind it.
  lemma OctalHeader()
    ensures ParseUnsigned("010") == Some(8) && ParseUnsigned("0O17") == Some(15)
  {
    TwoDigits(8, '1', '0');
    TwoDigits(8, '1', '7');
    assert "010"[1..] == "10" && "0O17"[2..] == "17";
  }

  // Other letters mean base two or sixteen.
  lemma PrefixedHeader()
    ensures ParseUnsigned("0b11") == Some(3) && ParseUnsigned("0x1F") == Some(31)
  {
    TwoDigits(2, '1', '1');
    TwoDigits(16, '1', 'F');
    assert "0b11"[2..] == "11" && "0x1F"[2..] == "1F";
  }

  // An underscore stands between digits.
  lemma UnderscoredHeader()
    ensures ParseUnsigned("1_0") == Some(10) && ParseUnsigned("1_") == None && ParseUnsigned("_1") == None
  {
    TwoDigits(10, '1', '0');
    OneDigit(10, '1');
    assert "1_0"[..2] == "1_" && "1_"[..1] == "1";
    assert "1_0"[1..] == "_0" && "_0"[1..] == "0" && "0"[1..] == "" && "1_"[1..] == "_" && "_"[1..] == "";
  }

  function ToBytes(s: string): seq<Byte> {
    seq(|s|, i requires 0 <= i < |s| => if (s[i] as int) < 256 then s[i] as Byte else 0)
  }

  function ToText(b: seq<Byte>): string {
    seq(|b|, i requires 0 <= i < |b| => b[i] as char)
  }

  function Frame(metadata: seq<Byte>, tarball: seq<Byte>): seq<Byte> {
    ToBytes(Header(|metadata|)) + metadata + tarball
  }

  // What the readers of a frame make of the bytes of a file.
  function Unframe(bytes: seq<Byte>): Option<(seq<Byte>, seq<Byte>)> {
    if |bytes| < HeaderSize then None
    else
      var len := ParseHeader(ToText(bytes[..HeaderSize]));
      if len.None? || len.value < 0 || |bytes| < HeaderSize + len.value then None
      else Some((bytes[HeaderSize..HeaderSize + len.value], bytes[HeaderSize + len.value..]))
  }

  // The header gives a negative length, for which no buffer can be made.
  predicate NegativeLength(bytes: seq<Byte>) {
    && |bytes| >= HeaderSize
    && var len := ParseHeader(ToText(bytes[..HeaderSize]));
      len.Some? && len.value < 0
  }

  // ---- the header

  lemma HexDigitIs(d: nat)
    requires d < 16
    ensures DigitValue(HexDigit(d)) == Some(d) && (HexDigit(d) as int) < 128 && HexDigit(d) != '_'
  {
  }

  lemma {:induction false} HexAscii(n: nat, width: nat)
    ensures forall c :: c in HexText(n, width) ==> (c as int) < 128 && c != '_'
    decreases n, width
  {
    if n < 16 && width <= 1 {
      HexDigitIs(n);
    } else {
      HexDigitIs(n % 16);
      HexAscii(n / 16, if width > 0 then width - 1 else 0);
    }
  }

  // Reading the first k digits gives back the number when k is all of them, and less otherwise.
  lemma {:induction false} HexTake(n: nat, width: nat, k: nat)
    requires k <= |HexText(n, width)|
    ensures var v := DigitsValue(16, HexText(n, width)[..k]);
      v.Some? && (k == |HexText(n, width)| ==> v.value == n)
      && (k < |HexText(n, width)| ==> v.value <= n / 16)
    decreases n, width
  {
    var s := HexText(n, width);
    if n < 16 && width <= 1 {
      HexDigitIs(n);
      if k == 1 {
        assert s[..1][..0] == "" && s[..1][0] == HexDigit(n);
      }
    } else {
      var w := if width > 0 then width - 1 else 0;
      var init := HexText(n / 16, w);
      if k == |s| {
        HexTake(n / 16, w, k - 1);
        HexDigitIs(n % 16);
        assert s[..k][..k - 1] == init[..k - 1] && s[..k][k - 1] == HexDigit(n % 16);
      } else {
        HexTake(n / 16, w, k);
        assert s[..k] == init[..k];
      }
    }
  }

  function Pow16(k: nat): nat { if k == 0 then 1 else 16 * Pow16(k - 1) }

  lemma {:induction false} HexLength(n: nat, width: nat)
    requires width > 0
    ensures |HexText(n, width)| >= width
    ensures |HexText(n, width)| == width <==> n < Pow16(width)
    decreases n, width
  {
    if width > 1 {
      HexLength(n / 16, width - 1);
    } else if n >= 16 {
      assert |HexText(n / 16, 0)| > 0;
    }
  }

  lemma EightDigits(n: nat)
    ensures |HexText(n, 8)| >= 8
    ensures |HexText(n, 8)| == 8 <==> n < Limit
  {
    HexLength(n, 8);
    assert Pow16(8) == Limit by {
      assert Pow16(4) == 0x1_0000;
    }
  }

  lemma BehindPrefix(digits: string)
    requires |digits| >= 8
    ensures ("0x" + digits)[..HeaderSize][2..] == digits[..8]
  {
  }

  // The header is ten bytes, and its first ten bytes give the length back, exactly below 2^32.
  lemma HeaderExact(n: nat)
    ensures |Header(n)| >= HeaderSize
    ensures |Header(n)| == HeaderSize <==> n < Limit
    ensures ParseHeader(Header(n)[..HeaderSize]) == Some(n) <==> n < Limit
    ensures ParseHeader(Header(n)[..HeaderSize]).Some?
    ensures ToText(ToBytes(Header(n))) == Header(n)
  {
    EightDigits(n);
    HexTake(n, 8, 8);
    HexAscii(n, 8);
    var s := Header(n)[..HeaderSize];
    BehindPrefix(HexText(n, 8));
    assert s[2..] == HexText(n, 8)[..8];
    assert '_' !in s by {
      assert forall c :: c in s[2..] ==> c in HexText(n, 8);
      assert s == "0x" + s[2..];
    }
    var text := Header(n);
    forall i | 0 <= i < |text| ensures (text[i] as int) < 128 {
      assert i >= 2 ==> text[i] in HexText(n, 8);
    }
  }

  lemma FrameHeader(metaLen: nat, rest: seq<Byte>)
    ensures var bytes := ToBytes(Header(metaLen)) + rest;
      |bytes| >= HeaderSize && |Header(metaLen)| >= HeaderSize && ToText(bytes[..HeaderSize]) == Header(metaLen)[..HeaderSize]
  {
    HeaderExact(metaLen);
    var bytes := ToBytes(Header(metaLen)) + rest;
    forall i | 0 <= i < HeaderSize
      ensures ToText(bytes[..HeaderSize])[i] == Header(metaLen)[..HeaderSize][i]
    {
      assert ToText(ToBytes(Header(metaLen)))[i] == Header(metaLen)[i];
    }
  }

  // A frame of which the metadata was cut to its first `kept` bytes reads back as the pair that
  // was saved exactly when nothing was cut and the length fits the header.
  lemma FrameRoundTrip(metadata: seq<Byte>, kept: nat, tarball: seq<Byte>)
    requires kept <= |metadata|
    ensures Unframe(ToBytes(Header(|metadata|)) + metadata[..kept] + tarball) == Some((metadata, tarball))
      <==> |metadata| < Limit && kept == |metadata|
  {
    var n := |metadata|;
    var rest := metadata[..kept] + tarball;
    var bytes := ToBytes(Header(n)) + metadata[..kept] + tarball;
    assert bytes == ToBytes(Header(n)) + rest;
    HeaderExact(n);
    FrameHeader(n, rest);
    if n < Limit {
      assert |bytes| == HeaderSize + kept + |tarball|;
      if kept == n {
        assert bytes[HeaderSize..HeaderSize + n] == metadata;
        assert bytes[HeaderSize + n..] == tarball;
      }
    }
  }

  // Metadata cut to its first `kept` bytes is read on into the tarball, if that is long enough.
  function ReadOn(metadata: seq<Byte>, kept: nat, tarball: seq<Byte>): Option<(seq<Byte>, seq<Byte>)>
    requires kept <= |metadata|
  {
    var lost := |metadata| - kept;
    if |tarball| < lost then None else Some((metadata[..kept] + tarball[..lost], tarball[lost..]))
  }

  lemma CutFrame(metadata: seq<Byte>, kept: nat, tarball: seq<Byte>)
    requires kept <= |metadata| < Limit
    ensures Unframe(ToBytes(Header(|metadata|)) + metadata[..kept] + tarball) == ReadOn(metadata, kept, tarball)
  {
    var n, lost := |metadata|, |metadata| - kept;
    var rest := metadata[..kept] + tarball;
    var header := ToBytes(Header(n));
    HeaderExact(n);
    FrameHeader(n, rest);
    assert header + metadata[..kept] + tarball == header + rest;
    if |tarball| >= lost {
      assert (header + rest)[HeaderSize..HeaderSize + n] == metadata[..kept] + tarball[..lost];
      assert (header + rest)[HeaderSize + n..] == tarball[lost..];
    }
  }

  lemma FrameRoundTripWhole(metadata: seq<Byte>, tarball: seq<Byte>)
    ensures Unframe(Frame(metadata, tarball)) == Some((metadata, tarball)) <==> |metadata| < Limit
  {
    FrameRoundTrip(metadata, |metadata|, tarball);
    assert metadata[..|metadata|] == metadata;
  }
}
