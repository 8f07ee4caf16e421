/**
  The standard base64 encoding of section 4 of RFC 4648, which sqlfs uses to keep bytes in a
  text column: bytes are regrouped into six-bit digits, and digits are written as symbols.
 */
module Base64 {
  import opened Wrappers

  newtype Byte = b: int | 0 <= b < 256

  type Sextet = v: int | 0 <= v < 64

  datatype Digit = Six(value: Sextet) | Pad

  // ---- bytes and digits

  function Six1(x: Byte): Digit { Six(x as int / 4) }

  function Six2(x: Byte, y: Byte): Digit { Six(x as int % 4 * 16 + y as int / 16) }

  function Six3(y: Byte, z: Byte): Digit { Six(y as int % 16 * 4 + z as int / 64) }

  function Six4(z: Byte): Digit { Six(z as int % 64) }

  // Three bytes make four digits; one or two left over are padded.
  function Digits(s: seq<Byte>): seq<Digit> {
    if |s| == 0 then []
    else if |s| == 1 then [Six1(s[0]), Six2(s[0], 0), Pad, Pad]
    else if |s| == 2 then [Six1(s[0]), Six2(s[0], s[1]), Six3(s[1], 0), Pad]
    else [Six1(s[0]), Six2(s[0], s[1]), Six3(s[1], s[2]), Six4(s[2])] + Digits(s[3..])
  }

  // Four digits make three bytes, or fewer when padded; unused low bits are ignored.
  function Quantum(a: Digit, b: Digit, c: Digit, d: Digit): Option<seq<Byte>> {
    if a.Pad? || b.Pad? || (c.Pad? && !d.Pad?) then None
    else
      var x := (a.value * 4 + b.value / 16) as Byte;
      if c.Pad? then Some([x])
      else
        var y := (b.value % 16 * 16 + c.value / 4) as Byte;
        if d.Pad? then Some([x, y])
        else Some([x, y, (c.value % 4 * 64 + d.value) as Byte])
  }

  // Padding may only end the text.
  function Bytes(ds: seq<Digit>): Option<seq<Byte>> {
    if |ds| == 0 then Some([])
    else if |ds| < 4 then None
    else
      var q := Quantum(ds[0], ds[1], ds[2], ds[3]);
      if q.None? || |ds| == 4 then q
      else if |q.value| < 3 then None
      else
        var rest := Bytes(ds[4..]);
        if rest.None? then None else Some(q.value + rest.value)
  }

  lemma HighBits(x: int, y: int)
    requires 0 <= x && 0 <= y < 256
    ensures (x % 4 * 16 + y / 16) / 16 == x % 4 && (x % 4 * 16 + y / 16) % 16 == y / 16
  {
  }

  lemma MiddleBits(y: int, z: int)
    requires 0 <= y && 0 <= z < 256
    ensures (y % 16 * 4 + z / 64) / 4 == y % 16 && (y % 16 * 4 + z / 64) % 4 == z / 64
  {
  }

  lemma FullQuantum(x: Byte, y: Byte, z: Byte)
    ensures Quantum(Six1(x), Six2(x, y), Six3(y, z), Six4(z)) == Some([x, y, z])
  {
    HighBits(x as int, y as int);
    MiddleBits(y as int, z as int);
  }

  // A padded quantum holds the first bytes of the one that is not padded.
  lemma PaddedQuantum(a: Digit, b: Digit, c: Digit, d: Digit, x: Byte, y: Byte, z: Byte)
    requires Quantum(a, b, c, d) == Some([x, y, z])
    ensures Quantum(a, b, Pad, Pad) == Some([x]) && Quantum(a, b, c, Pad) == Some([x, y])
  {
    var bytes := Quantum(a, b, c, d).value;
    assert bytes == [x, y, z] && bytes[0] == x && bytes[1] == y;
  }

  lemma OneByteQuantum(x: Byte)
    ensures Quantum(Six1(x), Six2(x, 0), Pad, Pad) == Some([x])
  {
    FullQuantum(x, 0, 0);
    PaddedQuantum(Six1(x), Six2(x, 0), Six3(0, 0), Six4(0), x, 0, 0);
  }

  lemma TwoByteQuantum(x: Byte, y: Byte)
    ensures Quantum(Six1(x), Six2(x, y), Six3(y, 0), Pad) == Some([x, y])
  {
    FullQuantum(x, y, 0);
    PaddedQuantum(Six1(x), Six2(x, y), Six3(y, 0), Six4(0), x, y, 0);
  }

  lemma {:induction false} BytesDigits(s: seq<Byte>)
    ensures Bytes(Digits(s)) == Some(s)
    decreases |s|
  {
    if |s| == 1 {
      OneByteQuantum(s[0]);
      assert s == [s[0]];
    } else if |s| == 2 {
      TwoByteQuantum(s[0], s[1]);
      assert s == [s[0], s[1]];
    } else if |s| >= 3 {
      BytesDigits(s[3..]);
      FullQuantum(s[0], s[1], s[2]);
      var ds, rest := Digits(s), Digits(s[3..]);
      assert ds[4..] == rest && s == [s[0], s[1], s[2]] + s[3..];
      if rest == [] {
        assert s == [s[0], s[1], s[2]];
      }
    }
  }

  // ---- digits and symbols

  function Symbol(d: Digit): char {
    match d
    case Pad => '='
    case Six(v) =>
      if v < 26 then 'A' + v as char
      else if v < 52 then 'a' + (v - 26) as char
      else if v < 62 then '0' + (v - 52) as char
      else if v == 62 then '+'
      else '/'
  }

  // The symbols are those of Table 1 of RFC 4648, in its order.
  lemma SymbolOf(v: Sextet)
    ensures v < 26 ==> Symbol(Six(v)) == "ABCDEFGHIJKLMNOPQRSTUVWXYZ"[v]
    ensures 26 <= v < 52 ==> Symbol(Six(v)) == "abcdefghijklmnopqrstuvwxyz"[v - 26]
    ensures 52 <= v < 62 ==> Symbol(Six(v)) == "0123456789"[v - 52]
    ensures v == 62 ==> Symbol(Six(v)) == '+'
    ensures v == 63 ==> Symbol(Six(v)) == '/'
  {
  }

  function DigitOf(c: char): Option<Digit> {
    if c == '=' then Some(Pad)
    else if 'A' <= c <= 'Z' then Some(Six((c - 'A') as int))
    else if 'a' <= c <= 'z' then Some(Six((c - 'a') as int + 26))
    else if '0' <= c <= '9' then Some(Six((c - '0') as int + 52))
    else if c == '+' then Some(Six(62))
    else if c == '/' then Some(Six(63))
    else None
  }

  function Text(ds: seq<Digit>): string {
    seq(|ds|, i requires 0 <= i < |ds| => Symbol(ds[i]))
  }

  // Line breaks are skipped wherever they occur.
  function Parse(s: string): Option<seq<Digit>> {
    if s == "" then Some([])
    else
      var rest := Parse(s[1..]);
      if s[0] == '\r' || s[0] == '\n' then rest
      else if rest.None? || DigitOf(s[0]).None? then None
      else Some([DigitOf(s[0]).value] + rest.value)
  }

  lemma SymbolDigit(d: Digit)
    ensures DigitOf(Symbol(d)) == Some(d) && Symbol(d) != '\r' && Symbol(d) != '\n'
  {
  }

  lemma {:induction false} ParseText(ds: seq<Digit>)
    ensures Parse(Text(ds)) == Some(ds)
    decreases |ds|
  {
    if ds != [] {
      ParseText(ds[1..]);
      SymbolDigit(ds[0]);
      assert Text(ds)[1..] == Text(ds[1..]);
      assert ds == [ds[0]] + ds[1..];
    }
  }

  // ---- the codec

  function Encode(s: seq<Byte>): string { Text(Digits(s)) }

  function Decode(s: string): Option<seq<Byte>> {
    var ds := Parse(s);
    if ds.None? then None else Bytes(ds.value)
  }

  // Decoding undoes encoding.
  lemma DecodeEncode(s: seq<Byte>)
    ensures Decode(Encode(s)) == Some(s)
  {
    ParseText(Digits(s));
    BytesDigits(s);
  }

  // Test vectors of section 10 of RFC 4648: the encodings of "f", "fo", "foo" and "foob".
  lemma TestVectors()
    ensures Encode([102]) == "Zg==" && Encode([102, 111]) == "Zm8="
    ensures Encode([102, 111, 111]) == "Zm9v" && Encode([102, 111, 111, 98]) == "Zm9vYg=="
  {
    assert Digits([102, 111, 111]) == [Six(25), Six(38), Six(61), Six(47)] by {
      assert Digits([]) == [];
    }
    assert [102 as Byte, 111, 111, 98][3..] == [98];
  }

  lemma {:induction false} DigitCount(s: seq<Byte>)
    ensures |Digits(s)| == 4 * ((|s| + 2) / 3)
    decreases |s|
  {
    if |s| >= 3 {
      DigitCount(s[3..]);
    }
  }

  const BufSize := 32 * 1024

  const MaxText := 65535

  // A block takes four symbols for every three bytes begun; it fits a MySQL TEXT column exactly
  // up to 49149 bytes, so one flushed buffer does.
  lemma BlockFitsText(s: seq<Byte>)
    ensures |Encode(s)| == 4 * ((|s| + 2) / 3)
    ensures |Encode(s)| <= MaxText <==> |s| <= 49149
    ensures |s| <= BufSize ==> |Encode(s)| <= 43692 < MaxText
  {
    DigitCount(s);
  }
}
