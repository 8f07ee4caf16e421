/**
  Saving and releasing a model, as functions of which inserts the database refuses.
 */
module ModelRuns {
  import opened Base64
  import opened ModelFrame
  import opened Sqlfs
  import opened SqlfsReader
  import opened SqlfsWriter
  import opened Wrappers
  import opened WriteRuns

  // The rows that a save or a release leaves, and whether it reports success.
  datatype Run = Run(stream: Stream, ok: bool) {
    function Rows(): Rows { RowsOf(stream.blocks) }
  }

  // The writer is closed, and closed again by the deferred call; only the first failure counts.
  function Closed(f: Stream, failed: bool, refused: Refused): Run {
    if failed then Run(Flush(f, refused).stream, false)
    else
      var first := Flush(f, refused);
      Run(Flush(first.stream, refused).stream, !first.failed)
  }

  function Save(pieces: seq<seq<Byte>>, refused: Refused): Run {
    var r := WritePieces(Start, pieces, BufSize, refused);
    Closed(r.stream, r.failed, refused)
  }

  // The header and the metadata are written first, and failures of these writes go unnoticed.
  function Prefix(metadata: seq<Byte>, refused: Refused): (f: Stream)
    ensures |f.buf| <= BufSize
  {
    var header := ToBytes(Header(|metadata|));
    WriteSize(Start, header, BufSize, refused);
    var h := Write(Start, header, BufSize, refused).stream;
    WriteSize(h, metadata, BufSize, refused);
    Write(h, metadata, BufSize, refused).stream
  }

  function SaveWithMetadata(metadata: seq<Byte>, tarball: seq<seq<Byte>>, refused: Refused): Run {
    var r := WritePieces(Prefix(metadata, refused), tarball, BufSize, refused);
    Closed(r.stream, r.failed, refused)
  }

  // The zoo's table is completed by a deferred close whose failure goes unnoticed.
  function Release(pieces: seq<seq<Byte>>, refused: Refused): Run {
    var r := WritePieces(Start, pieces, BufSize, refused);
    Run(Flush(r.stream, refused).stream, !r.failed)
  }

  // ---- saving

  // A close that succeeds completes the canonical rows.
  lemma ClosedFile(f: Stream, failed: bool, refused: Refused)
    requires FullFrom(f.blocks, 0, BufSize) && |f.buf| <= BufSize
    ensures var r := Closed(f, failed, refused);
      r.ok ==> r.Rows() == FileRows(Taken(f), BufSize)
  {
    ClosedRows(f.blocks, f.buf, BufSize);
  }

  // A run fails only because an insert that it tried was refused, and the deferred close has tried
  // once more behind it.
  ghost predicate HitRefusal(r: Run, refused: Refused) {
    exists k :: k in refused && k + 1 < r.stream.attempts
  }

  lemma ClosedFails(f: Stream, failed: bool, refused: Refused)
    requires failed ==> 0 < f.attempts && f.attempts - 1 in refused && f.buf != []
    ensures var r := Closed(f, failed, refused);
      !r.ok ==> HitRefusal(r, refused)
  {
    var r := Closed(f, failed, refused);
    if failed {
      assert f.attempts - 1 in refused;
    } else if !r.ok {
      assert f.attempts in refused;
    }
  }

  // A save that reports success holds exactly the stream; one that fails has met a refusal.
  lemma SaveFacts(pieces: seq<seq<Byte>>, refused: Refused)
    ensures var r := Save(pieces, refused);
      if r.ok then r.Rows() == FileRows(Concat(pieces), BufSize) else HitRefusal(r, refused)
  {
    var r := WritePieces(Start, pieces, BufSize, refused);
    PiecesCounts(Start, pieces, BufSize, refused);
    PiecesBytes(Start, pieces, BufSize, refused);
    assert Taken(Start) + Concat(pieces) == Concat(pieces);
    ClosedFile(r.stream, r.failed, refused);
    ClosedFails(r.stream, r.failed, refused);
  }

  // What a save with metadata leaves of header and metadata: everything, when they fit the buffer.
  lemma PrefixFacts(metadata: seq<Byte>, refused: Refused)
    ensures FullFrom(Prefix(metadata, refused).blocks, 0, BufSize)
  {
    var header := ToBytes(Header(|metadata|));
    var h := Write(Start, header, BufSize, refused).stream;
    WriteCounts(Start, header, BufSize, refused);
    WriteSize(Start, header, BufSize, refused);
    WriteCounts(h, metadata, BufSize, refused);
  }

  lemma ShortHeader(metadata: seq<Byte>)
    requires |metadata| < Limit
    ensures |ToBytes(Header(|metadata|))| == HeaderSize
  {
    HeaderExact(|metadata|);
  }

  lemma HeaderWritten(metadata: seq<Byte>, refused: Refused)
    requires |metadata| < Limit
    ensures Write(Start, ToBytes(Header(|metadata|)), BufSize, refused).stream
            == Stream([], ToBytes(Header(|metadata|)), 0)
  {
    ShortHeader(metadata);
    var header := ToBytes(Header(|metadata|));
    assert Start.buf + header[..|header|] == header;
  }

  lemma FittingPrefix(metadata: seq<Byte>, refused: Refused)
    requires HeaderSize + |metadata| <= BufSize
    ensures Taken(Prefix(metadata, refused)) == ToBytes(Header(|metadata|)) + metadata
  {
    var header := ToBytes(Header(|metadata|));
    HeaderWritten(metadata, refused);
    ShortHeader(metadata);
    var h := Stream([], header, 0);
    WriteBytes(h, metadata, BufSize, refused);
    assert metadata[..|metadata|] == metadata;
    assert Write(h, metadata, BufSize, refused).n == |metadata|;
    assert [] + header == header;
  }

  // What is left of header and metadata is what their writes took.
  lemma PrefixBytes(metadata: seq<Byte>, refused: Refused)
    ensures var header := ToBytes(Header(|metadata|));
      var h := Write(Start, header, BufSize, refused);
      && h.n <= |header| && |h.stream.buf| <= BufSize
      && var m := Write(h.stream, metadata, BufSize, refused);
        m.n <= |metadata| && Taken(Prefix(metadata, refused)) == header[..h.n] + metadata[..m.n]
  {
    var header := ToBytes(Header(|metadata|));
    var h := Write(Start, header, BufSize, refused);
    WriteSize(Start, header, BufSize, refused);
    WriteBytes(Start, header, BufSize, refused);
    assert [] + header[..h.n] == header[..h.n];
    WriteSize(h.stream, metadata, BufSize, refused);
    WriteBytes(h.stream, metadata, BufSize, refused);
  }

  lemma SaveFrom(metadata: seq<Byte>, tarball: seq<seq<Byte>>, refused: Refused)
    ensures var r := SaveWithMetadata(metadata, tarball, refused);
      if r.ok then r.Rows() == FileRows(Taken(Prefix(metadata, refused)) + Concat(tarball), BufSize)
      else HitRefusal(r, refused)
  {
    var f := Prefix(metadata, refused);
    var r := WritePieces(f, tarball, BufSize, refused);
    PrefixFacts(metadata, refused);
    PiecesCounts(f, tarball, BufSize, refused);
    PiecesBytes(f, tarball, BufSize, refused);
    assert FullFrom(r.stream.blocks, 0, BufSize);
    ClosedFile(r.stream, r.failed, refused);
    ClosedFails(r.stream, r.failed, refused);
  }

  // A save that reports success holds what the first two writes took and all of the tarball, and
  // all of the metadata when header and metadata fit the buffer.
  lemma SaveKeeps(metadata: seq<Byte>, tarball: seq<seq<Byte>>, refused: Refused)
    ensures var r := SaveWithMetadata(metadata, tarball, refused);
      var header := ToBytes(Header(|metadata|));
      var h := Write(Start, header, BufSize, refused);
      && h.n <= |header| && |h.stream.buf| <= BufSize
      && var kept := Write(h.stream, metadata, BufSize, refused).n;
      && kept <= |metadata|
      && (r.ok ==> r.Rows() == FileRows(header[..h.n] + metadata[..kept] + Concat(tarball), BufSize))
      && (r.ok && HeaderSize + |metadata| <= BufSize ==>
            r.Rows() == FileRows(Frame(metadata, Concat(tarball)), BufSize))
      && (!r.ok ==> HitRefusal(r, refused))
  {
    PrefixBytes(metadata, refused);
    SaveFrom(metadata, tarball, refused);
    if HeaderSize + |metadata| <= BufSize {
      FittingPrefix(metadata, refused);
    }
  }

  // Pieces behind the first insert are all written when only that one is refused, or none is.
  lemma LaterPieces(f: Stream, pieces: seq<seq<Byte>>, refused: Refused)
    requires |f.buf| <= BufSize && forall k :: k in refused ==> k < f.attempts
    ensures !WritePieces(f, pieces, BufSize, refused).failed
    ensures WritePieces(f, pieces, BufSize, refused).stream.attempts >= f.attempts
  {
    PiecesCounts(f, pieces, BufSize, refused);
  }

  // So a save succeeds if the writes of header and metadata have met all refusals.
  lemma LaterSucceeds(metadata: seq<Byte>, tarball: seq<seq<Byte>>, refused: Refused)
    requires forall k :: k in refused ==> k < Prefix(metadata, refused).attempts
    ensures SaveWithMetadata(metadata, tarball, refused).ok
  {
    LaterPieces(Prefix(metadata, refused), tarball, refused);
  }

  // Refusing the first insert alone cuts longer metadata, and the save reports success.
  lemma CutSave(metadata: seq<Byte>, tarball: seq<seq<Byte>>)
    requires BufSize < HeaderSize + |metadata| && |metadata| < Limit
    ensures var r := SaveWithMetadata(metadata, tarball, {0});
      && r.ok
      && r.Rows() == FileRows(ToBytes(Header(|metadata|)) + metadata[..BufSize - HeaderSize] + Concat(tarball), BufSize)
  {
    var header := ToBytes(Header(|metadata|));
    HeaderWritten(metadata, {0});
    ShortHeader(metadata);
    var h := Stream([], header, 0);
    var full := header + metadata[..BufSize - HeaderSize];
    assert Fill(h, metadata, BufSize) == BufSize - HeaderSize;
    assert Filled(h, metadata, BufSize) == Stream([], full, 0);
    assert Prefix(metadata, {0}) == Stream([], full, 1);
    LaterSucceeds(metadata, tarball, {0});
    SaveFrom(metadata, tarball, {0});
    assert [] + full == full;
  }

  // The dump of a table gives back what was saved.
  ghost predicate Dumps(rows: Rows, metadata: seq<Byte>, tarball: seq<Byte>) {
    Contents(rows).Some? && Unframe(Contents(rows).value) == Some((metadata, tarball))
  }

  // A frame of which only the first `kept` bytes of metadata were stored dumps as the pair that was
  // saved exactly when nothing was lost and the length fits the header.
  lemma SavedModelReadsBack(metadata: seq<Byte>, kept: nat, tarball: seq<Byte>, size: nat)
    requires kept <= |metadata| && size > 0
    ensures var rows := FileRows(ToBytes(Header(|metadata|)) + metadata[..kept] + tarball, size);
      Contents(rows).Some? && (Dumps(rows, metadata, tarball) <==> |metadata| < Limit && kept == |metadata|)
  {
    ContentsOfFile(ToBytes(Header(|metadata|)) + metadata[..kept] + tarball, size);
    FrameRoundTrip(metadata, kept, tarball);
  }

  ghost predicate ReadsBack(metadata: seq<Byte>, tarball: seq<seq<Byte>>, refused: Refused) {
    var r := SaveWithMetadata(metadata, tarball, refused);
    r.ok ==> Dumps(r.Rows(), metadata, Concat(tarball))
  }

  // Without refusals nothing is cut.
  lemma WholeSave(metadata: seq<Byte>, tarball: seq<seq<Byte>>)
    ensures var r := SaveWithMetadata(metadata, tarball, {});
      r.ok && r.Rows() == FileRows(Frame(metadata, Concat(tarball)), BufSize)
  {
    var header := ToBytes(Header(|metadata|));
    var h := Write(Start, header, BufSize, {});
    WriteSize(Start, header, BufSize, {});
    WriteCounts(Start, header, BufSize, {});
    WriteSize(h.stream, metadata, BufSize, {});
    WriteCounts(h.stream, metadata, BufSize, {});
    PrefixBytes(metadata, {});
    assert header[..|header|] == header && metadata[..|metadata|] == metadata;
    LaterSucceeds(metadata, tarball, {});
    SaveFrom(metadata, tarball, {});
  }

  // The dump of such a save takes the bytes that were lost from the tarball, or fails.
  lemma LosingSave(metadata: seq<Byte>, tarball: seq<seq<Byte>>)
    requires BufSize < HeaderSize + |metadata| && |metadata| < Limit
    ensures var r := SaveWithMetadata(metadata, tarball, {0});
      && r.ok && Contents(r.Rows()).Some? && !ReadsBack(metadata, tarball, {0})
      && Unframe(Contents(r.Rows()).value) == ReadOn(metadata, BufSize - HeaderSize, Concat(tarball))
  {
    var kept, bytes := BufSize - HeaderSize, Concat(tarball);
    CutSave(metadata, tarball);
    SavedModelReadsBack(metadata, kept, bytes, BufSize);
    ContentsOfFile(ToBytes(Header(|metadata|)) + metadata[..kept] + bytes, BufSize);
    CutFrame(metadata, kept, bytes);
  }

  // Every save that reports success reads back as what was saved, whichever inserts are refused, if
  // and only if header and metadata fit the buffer; and that for every tarball.
  lemma SavesReadBackIff(metadata: seq<Byte>, tarball: seq<seq<Byte>>)
    ensures (forall refused :: ReadsBack(metadata, tarball, refused)) <==> HeaderSize + |metadata| <= BufSize
  {
    assert metadata[..|metadata|] == metadata;
    SavedModelReadsBack(metadata, |metadata|, Concat(tarball), BufSize);
    if HeaderSize + |metadata| <= BufSize {
      forall refused ensures ReadsBack(metadata, tarball, refused) {
        SaveKeeps(metadata, tarball, refused);
      }
    } else if |metadata| < Limit {
      LosingSave(metadata, tarball);
    } else {
      WholeSave(metadata, tarball);
      assert !ReadsBack(metadata, tarball, {});
    }
  }

  // With 32759 bytes of metadata, refusing the first insert loses the last of them, for every tarball.
  lemma OneByteTooMany(tarball: seq<seq<Byte>>)
    ensures var metadata := seq(32759, _ => 'a' as Byte);
      var r := SaveWithMetadata(metadata, tarball, {0});
      && r.ok && r.Rows() == FileRows(ToBytes(Header(32759)) + metadata[..32758] + Concat(tarball), BufSize)
      && !ReadsBack(metadata, tarball, {0})
  {
    var metadata := seq(32759, _ => 'a' as Byte);
    CutSave(metadata, tarball);
    LosingSave(metadata, tarball);
  }

  // ---- releasing

  lemma WholeBlocks(k: nat, rest: nat)
    requires rest < BufSize
    ensures (k * BufSize + rest) % BufSize == rest && (k * BufSize + rest) / BufSize == k
  {
  }

  // A release that reports success leaves the file that it copied, or all of it but a last block
  // that is not full; one that fails has met a refusal.
  lemma ReleaseFacts(pieces: seq<seq<Byte>>, refused: Refused)
    ensures var r := Release(pieces, refused);
      var bytes := Concat(pieces);
      if !r.ok then HitRefusal(r, refused)
      else r.Rows() == FileRows(bytes, BufSize)
           || (|bytes| % BufSize != 0 && r.stream.blocks < Chunks(bytes, BufSize)
               && |Chunks(bytes, BufSize)| == |r.stream.blocks| + 1)
  {
    var w := WritePieces(Start, pieces, BufSize, refused);
    PiecesCounts(Start, pieces, BufSize, refused);
    PiecesBytes(Start, pieces, BufSize, refused);
    assert [] + Concat(pieces) == Concat(pieces);
    if w.failed {
      assert w.stream.attempts - 1 in refused;
    } else {
      FullLength(w.stream.blocks, BufSize);
      WholeBlocks(|w.stream.blocks|, |w.stream.buf|);
      ChunksOfFull(w.stream.blocks, w.stream.buf, BufSize);
    }
  }

  ghost predicate Releases(pieces: seq<seq<Byte>>, refused: Refused) {
    var r := Release(pieces, refused);
    r.ok ==> r.Rows() == FileRows(Concat(pieces), BufSize)
  }

  // Refusing the last insert alone loses the last block, and the release reports success.
  lemma LosingRelease(pieces: seq<seq<Byte>>)
    requires |Concat(pieces)| % BufSize != 0
    ensures var last := |Concat(pieces)| / BufSize;
      var r := Release(pieces, {last});
      r.ok && |r.Rows()| == last && |FileRows(Concat(pieces), BufSize)| == last + 1
  {
    var last := |Concat(pieces)| / BufSize;
    var w := WritePieces(Start, pieces, BufSize, {last});
    PiecesCounts(Start, pieces, BufSize, {last});
    PiecesBytes(Start, pieces, BufSize, {last});
    assert [] + Concat(pieces) == Concat(pieces);
    FullLength(w.stream.blocks, BufSize);
    if !w.failed {
      WholeBlocks(|w.stream.blocks|, |w.stream.buf|);
      ChunksOfFull(w.stream.blocks, w.stream.buf, BufSize);
    }
  }

  // Every release that reports success leaves the file that it copied, whichever inserts are
  // refused, if and only if the file is a whole number of blocks.
  lemma ReleasesIff(pieces: seq<seq<Byte>>)
    ensures (forall refused :: Releases(pieces, refused)) <==> |Concat(pieces)| % BufSize == 0
  {
    if |Concat(pieces)| % BufSize == 0 {
      forall refused ensures Releases(pieces, refused) {
        ReleaseFacts(pieces, refused);
      }
    } else {
      LosingRelease(pieces);
      assert !Releases(pieces, {|Concat(pieces)| / BufSize});
    }
  }
}
