/**
  What the buffered writer does to a table, as a function of which inserts the database refuses.
 */
module WriteRuns {
  import opened Base64
  import opened Sqlfs

  // The inserts into a table that are refused, counted from 0 in the order in which they are tried.
  type Refused = set<nat>

  // The blocks stored, the bytes in the buffer, and the number of inserts tried.
  datatype Stream = Stream(blocks: seq<seq<Byte>>, buf: seq<Byte>, attempts: nat)

  // Where an operation leaves the stream, the number of bytes that it took, and whether it failed.
  datatype Outcome = Outcome(stream: Stream, n: nat, failed: bool) {
    function Ahead(k: nat): Outcome { this.(n := k + n) }
  }

  const Start := Stream([], [], 0)

  function Taken(f: Stream): seq<Byte> { Concat(f.blocks) + f.buf }

  function Least(a: int, b: int): int { if a < b then a else b }

  // An empty buffer is not inserted; a refused one is kept.
  function Flush(f: Stream, refused: Refused): Outcome {
    if f.buf == [] then Outcome(f, 0, false)
    else if f.attempts in refused then Outcome(f.(attempts := f.attempts + 1), 0, true)
    else Outcome(Stream(f.blocks + [f.buf], [], f.attempts + 1), 0, false)
  }

  // The bytes of p that the buffer has room for.
  function Fill(f: Stream, p: seq<Byte>, cap: nat): (n: nat)
    requires |f.buf| <= cap
    ensures n <= |p| && n <= cap - |f.buf|
  {
    Least(cap - |f.buf|, |p|)
  }

  function Filled(f: Stream, p: seq<Byte>, cap: nat): Stream
    requires |f.buf| <= cap
  {
    f.(buf := f.buf + p[..Fill(f, p, cap)])
  }

  // Fills the buffer and flushes it whenever it is full, up to the first refusal.
  function Write(f: Stream, p: seq<Byte>, cap: nat, refused: Refused): Outcome
    requires 0 < cap && |f.buf| <= cap
    decreases |p|, |f.buf|
  {
    var n := Fill(f, p, cap);
    var g := Filled(f, p, cap);
    if p == [] then Outcome(f, 0, false)
    else if |g.buf| < cap then Outcome(g, n, false)
    else if Flush(g, refused).failed then Outcome(Flush(g, refused).stream, n, true)
    else
      Write(Flush(g, refused).stream, p[n..], cap, refused).Ahead(n)
  }

  // One round of writing: the outcome is that of writing the rest.
  lemma WriteRound(f: Stream, p: seq<Byte>, cap: nat, refused: Refused)
    requires 0 < cap && |f.buf| <= cap && p != []
    ensures var n, g := Fill(f, p, cap), Filled(f, p, cap);
      var h := if |g.buf| < cap then Outcome(g, 0, false) else Flush(g, refused);
      Write(f, p, cap, refused) ==
      if h.failed then Outcome(h.stream, n, true) else Write(h.stream, p[n..], cap, refused).Ahead(n)
  {
  }

  // From f to g one insert was tried for every new block, and the last one was refused on failure.
  ghost predicate Counted(f: Stream, g: Stream, failed: bool, refused: Refused) {
    && f.blocks <= g.blocks
    && g.attempts == f.attempts + |g.blocks| - |f.blocks| + (if failed then 1 else 0)
    && (failed ==> g.attempts - 1 in refused)
  }

  // Flushing loses nothing.
  lemma FlushFacts(f: Stream, refused: Refused)
    ensures var r := Flush(f, refused);
      Taken(r.stream) == Taken(f) && Counted(f, r.stream, r.failed, refused)
  {
    if f.buf != [] && f.attempts !in refused {
      ConcatAppend(f.blocks, f.buf);
      assert Taken(f) + [] == Taken(f);
    }
  }

  // Everything is taken unless an insert is refused, which leaves a full buffer.
  lemma {:induction false} WriteSize(f: Stream, p: seq<Byte>, cap: nat, refused: Refused)
    requires 0 < cap && |f.buf| <= cap
    ensures var r := Write(f, p, cap, refused);
      r.n <= |p| && |r.stream.buf| <= cap &&
      if r.failed then |r.stream.buf| == cap else r.n == |p| && (p != [] ==> |r.stream.buf| < cap)
    decreases |p|, |f.buf|
  {
    var g := Filled(f, p, cap);
    if p != [] && |g.buf| == cap && !Flush(g, refused).failed {
      WriteSize(Flush(g, refused).stream, p[Fill(f, p, cap)..], cap, refused);
    }
  }

  lemma Advance(taken: seq<Byte>, p: seq<Byte>, n: nat, fill: nat)
    requires n + fill <= |p|
    ensures p[n..][fill..] == p[n + fill..]
    ensures (taken + p[..n]) + p[n..][..fill] == taken + p[..n + fill]
  {
  }

  // Nothing that was taken is lost.
  lemma {:induction false} WriteBytes(f: Stream, p: seq<Byte>, cap: nat, refused: Refused)
    requires 0 < cap && |f.buf| <= cap
    ensures var r := Write(f, p, cap, refused);
      r.n <= |p| && Taken(r.stream) == Taken(f) + p[..r.n]
    decreases |p|, |f.buf|
  {
    if p == [] {
      assert Taken(f) + [] == Taken(f);
    } else {
      var n, g := Fill(f, p, cap), Filled(f, p, cap);
      assert Taken(g) == Taken(f) + p[..n];
      FlushFacts(g, refused);
      var h := Flush(g, refused);
      if |g.buf| == cap && !h.failed {
        WriteBytes(h.stream, p[n..], cap, refused);
        Advance(Taken(f), p, n, Write(h.stream, p[n..], cap, refused).n);
      }
    }
  }

  // Only full buffers are flushed, and only a refusal stops the writing.
  lemma {:induction false} WriteCounts(f: Stream, p: seq<Byte>, cap: nat, refused: Refused)
    requires 0 < cap && |f.buf| <= cap
    ensures var r := Write(f, p, cap, refused);
      Counted(f, r.stream, r.failed, refused) && FullFrom(r.stream.blocks, |f.blocks|, cap)
    decreases |p|, |f.buf|
  {
    if p != [] {
      var g := Filled(f, p, cap);
      if |g.buf| == cap && !Flush(g, refused).failed {
        var h := Flush(g, refused).stream;
        WriteCounts(h, p[Fill(f, p, cap)..], cap, refused);
        assert h.blocks[|f.blocks|] == g.buf;
      }
    }
  }

  // ---- a stream that arrives in pieces

  // Writes the pieces one after another, up to the first refusal.
  function WritePieces(f: Stream, pieces: seq<seq<Byte>>, cap: nat, refused: Refused): (r: Outcome)
    requires 0 < cap && |f.buf| <= cap
    ensures |r.stream.buf| <= cap
  {
    if pieces == [] then Outcome(f, 0, false)
    else
      var k := |pieces| - 1;
      var before := WritePieces(f, pieces[..k], cap, refused);
      if before.failed then before
      else
        WriteSize(before.stream, pieces[k], cap, refused);
        Write(before.stream, pieces[k], cap, refused)
  }

  // Nothing is written after the first refusal.
  lemma {:induction false} PiecesStop(f: Stream, pieces: seq<seq<Byte>>, k: nat, cap: nat, refused: Refused)
    requires 0 < cap && |f.buf| <= cap && k <= |pieces|
    requires WritePieces(f, pieces[..k], cap, refused).failed
    ensures WritePieces(f, pieces, cap, refused) == WritePieces(f, pieces[..k], cap, refused)
    decreases |pieces|
  {
    if k == |pieces| {
      assert pieces[..k] == pieces;
    } else {
      var init := pieces[..|pieces| - 1];
      assert init[..k] == pieces[..k];
      PiecesStop(f, init, k, cap, refused);
    }
  }

  lemma Join(a: seq<Byte>, b: seq<Byte>, c: seq<Byte>)
    ensures (a + b) + c[..|c|] == a + (b + c)
  {
  }

  // Pieces are written completely, one insert for every full buffer, unless an insert is refused,
  // which leaves a full buffer of bytes taken from them.
  lemma {:induction false} PiecesCounts(f: Stream, pieces: seq<seq<Byte>>, cap: nat, refused: Refused)
    requires 0 < cap && |f.buf| <= cap
    ensures var r := WritePieces(f, pieces, cap, refused);
      && Counted(f, r.stream, r.failed, refused) && FullFrom(r.stream.blocks, |f.blocks|, cap)
      && (if r.failed then |r.stream.buf| == cap else |f.buf| < cap ==> |r.stream.buf| < cap)
    decreases |pieces|
  {
    if pieces != [] {
      var k := |pieces| - 1;
      PiecesCounts(f, pieces[..k], cap, refused);
      var before := WritePieces(f, pieces[..k], cap, refused);
      if !before.failed {
        WriteSize(before.stream, pieces[k], cap, refused);
        WriteCounts(before.stream, pieces[k], cap, refused);
      }
    }
  }

  lemma {:induction false} PiecesBytes(f: Stream, pieces: seq<seq<Byte>>, cap: nat, refused: Refused)
    requires 0 < cap && |f.buf| <= cap
    ensures var r := WritePieces(f, pieces, cap, refused);
      if r.failed then |Taken(r.stream)| <= |Taken(f)| + |Concat(pieces)|
      else Taken(r.stream) == Taken(f) + Concat(pieces)
    decreases |pieces|
  {
    if pieces == [] {
      assert Taken(f) + [] == Taken(f);
    } else {
      var k := |pieces| - 1;
      PiecesBytes(f, pieces[..k], cap, refused);
      var before := WritePieces(f, pieces[..k], cap, refused);
      if !before.failed {
        WriteSize(before.stream, pieces[k], cap, refused);
        WriteBytes(before.stream, pieces[k], cap, refused);
        Join(Taken(f), Concat(pieces[..k]), pieces[k]);
      }
    }
  }

  lemma {:induction false} FullLength(blocks: seq<seq<Byte>>, size: nat)
    requires FullFrom(blocks, 0, size)
    ensures |Concat(blocks)| == |blocks| * size
  {
    if blocks != [] {
      var k := |blocks| - 1;
      FullLength(blocks[..k], size);
      assert |blocks[k]| == size;
      assert (k + 1) * size == k * size + size;
    }
  }
}
