/**
  Saving models to tables, dumping them, releasing them to the model zoo and downloading them.
 */
module ModelStore {
  import opened Base64
  import opened Sqlfs
  import opened SqlfsWriter
  import opened SqlfsReader
  import opened ModelFrame
  import opened Wrappers
  import opened WriteRuns
  import ModelRuns

  const CopySize := 4096

  // ---- writing

  method Create(bufSize: nat, refused: Refused, refusedQueries: set<nat>) returns (w: FlushWriteCloser)
    requires 0 < bufSize
    ensures w.Valid() && fresh(w) && fresh(w.flusher) && fresh(w.flusher.table) && w.flushCap == bufSize
    ensures w.State() == Start && w.flusher.table.refused == refused
    ensures w.flusher.table.refusedQueries == refusedQueries && w.flusher.table.queries == 0
  {
    var table := new SqlTable(refused, refusedQueries);
    var flusher := new Flusher(table);
    w := new FlushWriteCloser(flusher, bufSize);
  }

  // Writes a stream that arrives in pieces, stopping at the first failure.
  method WriteAll(w: FlushWriteCloser, pieces: seq<seq<Byte>>) returns (failed: bool)
    requires w.Valid()
    modifies w, w.flusher, w.flusher.table`attempts, w.flusher.table`rows
    ensures w.Valid()
    ensures var r := WritePieces(old(w.State()), pieces, w.flushCap, w.flusher.table.refused);
      w.State() == r.stream && failed == r.failed
  {
    failed := false;
    for i := 0 to |pieces|
      invariant w.Valid() && !failed
      invariant var r := WritePieces(old(w.State()), pieces[..i], w.flushCap, w.flusher.table.refused);
        w.State() == r.stream && !r.failed
    {
      var _, late := w.Write(pieces[i]);
      assert pieces[..i + 1][..i] == pieces[..i];
      if late {
        PiecesStop(old(w.State()), pieces, i + 1, w.flushCap, w.flusher.table.refused);
        return true;
      }
    }
    assert pieces[..|pieces|] == pieces;
  }

  // Closes a file, and closes it again as the deferred call does.
  method CloseTwice(w: FlushWriteCloser, failed: bool) returns (ok: bool)
    requires w.Valid()
    modifies w, w.flusher, w.flusher.table`attempts, w.flusher.table`rows
    ensures w.Valid()
    ensures ModelRuns.Run(w.State(), ok) == ModelRuns.Closed(old(w.State()), failed, w.flusher.table.refused)
  {
    ok := !failed;
    if !failed {
      var closeFailed := w.Close();
      ok := !closeFailed;
    }
    var _ := w.Close();
  }

  // Saves a stream of bytes.
  method SaveDB(pieces: seq<seq<Byte>>, refused: Refused, refusedQueries: set<nat>) returns (table: SqlTable, ok: bool)
    ensures fresh(table) && table.refused == refused
    ensures table.refusedQueries == refusedQueries && table.queries == 0
    ensures var r := ModelRuns.Save(pieces, refused);
      table.rows == r.Rows() && table.attempts == r.stream.attempts && ok == r.ok
    // success leaves exactly the stream; only a refused insert makes a save fail, and the deferred
    // close tries again behind it
    ensures ok ==> table.rows == FileRows(Concat(pieces), BufSize)
    ensures !ok ==> exists k :: k in refused && k + 1 < table.attempts
  {
    var w := Create(BufSize, refused, refusedQueries);
    table := w.flusher.table;
    var failed := WriteAll(w, pieces);
    ok := CloseTwice(w, failed);
    ModelRuns.SaveFacts(pieces, refused);
  }

  // The first two writes, whose failures go unnoticed.
  method WritePrefix(w: FlushWriteCloser, metadata: seq<Byte>) returns (headerKept: nat, kept: nat)
    requires w.Valid() && w.flushCap == BufSize && w.State() == Start
    modifies w, w.flusher, w.flusher.table`attempts, w.flusher.table`rows
    ensures w.Valid() && w.State() == ModelRuns.Prefix(metadata, w.flusher.table.refused)
    ensures var h := Write(Start, ToBytes(Header(|metadata|)), BufSize, w.flusher.table.refused);
      headerKept == h.n && kept == Write(h.stream, metadata, BufSize, w.flusher.table.refused).n
  {
    var failed;
    headerKept, failed := w.Write(ToBytes(Header(|metadata|)));
    kept, failed := w.Write(metadata);
  }

  // Writes header, metadata and tarball to a new file and closes it.
  method WriteModel(metadata: seq<Byte>, tarball: seq<seq<Byte>>, refused: Refused, refusedQueries: set<nat>)
    returns (w: FlushWriteCloser, ok: bool, headerKept: nat, kept: nat)
    ensures w.Valid() && fresh(w.flusher.table) && w.flusher.table.refused == refused
    ensures w.flusher.table.refusedQueries == refusedQueries && w.flusher.table.queries == 0
    ensures ModelRuns.Run(w.State(), ok) == ModelRuns.SaveWithMetadata(metadata, tarball, refused)
    ensures var h := Write(Start, ToBytes(Header(|metadata|)), BufSize, refused);
      headerKept == h.n && kept == Write(h.stream, metadata, BufSize, refused).n
  {
    w := Create(BufSize, refused, refusedQueries);
    headerKept, kept := WritePrefix(w, metadata);
    var failed := WriteAll(w, tarball);
    ok := CloseTwice(w, failed);
  }

  // Saves header, metadata and tarball.  Failures of the first two writes go unnoticed, so a
  // save that reports success may have kept only part of them.
  method SaveDBExperimental(metadata: seq<Byte>, tarball: seq<seq<Byte>>, refused: Refused, refusedQueries: set<nat>)
    returns (table: SqlTable, ok: bool, headerKept: nat, kept: nat)
    ensures fresh(table) && table.refused == refused
    ensures table.refusedQueries == refusedQueries && table.queries == 0
    ensures var r := ModelRuns.SaveWithMetadata(metadata, tarball, refused);
      table.rows == r.Rows() && table.attempts == r.stream.attempts && ok == r.ok
    ensures headerKept <= |ToBytes(Header(|metadata|))| && kept <= |metadata|
    ensures ok ==> table.rows
                   == FileRows(ToBytes(Header(|metadata|))[..headerKept] + metadata[..kept] + Concat(tarball), BufSize)
    // nothing is lost when header and metadata fit the buffer
    ensures HeaderSize + |metadata| <= BufSize && ok ==>
              table.rows == FileRows(Frame(metadata, Concat(tarball)), BufSize)
    ensures !ok ==> exists k :: k in refused && k + 1 < table.attempts
  {
    var w;
    w, ok, headerKept, kept := WriteModel(metadata, tarball, refused, refusedQueries);
    table := w.flusher.table;
    ModelRuns.SaveKeeps(metadata, tarball, refused);
  }

  // ---- reading

  // A reader that is open and has met no corrupt block.
  ghost predicate Sound(r: Reader)
    reads r, r.table`rows
  {
    r.Valid() && r.open && !r.corrupt
  }

  method Open(table: SqlTable, rowBufSize: nat) returns (r: Option<Reader>)
    ensures r.None? <==> rowBufSize == 0
    ensures r.Some? ==> fresh(r.value) && Sound(r.value) && r.value.table == table && r.value.delivered == []
  {
    if rowBufSize <= 0 {
      return None;
    }
    var reader := new Reader(table, rowBufSize);
    return Some(reader);
  }

  // The rows the reader has not taken yet.
  ghost function Remaining(r: Reader): nat
    requires r.Valid()
    reads r, r.table`rows
  {
    LeadingSize(r.table.rows, r.consumed);
    |r.table.rows| - |r.consumed|
  }

  // Reads up to len bytes into a buffer of its own.
  method ReadSome(r: Reader, len: nat) returns (bytes: seq<Byte>, e: ReadError)
    requires Sound(r)
    modifies r, r.table`queries
    ensures e.QueryFailed? <==> r.table.RefusedSince(old(r.table.queries))
    ensures old(r.table.queries) <= r.table.queries
    ensures r.Valid() && r.open && !e.ReadClosed? && (!e.CorruptBlock? ==> Sound(r))
    ensures r.delivered == old(r.delivered) + bytes && |bytes| <= len
    ensures e.EOF? ==> r.AtEnd() && bytes == []
    ensures e.NoError? ==> |bytes| == len || (0 < |bytes| && r.AtEnd())
    ensures Contents(r.table.rows).Some? ==>
              && r.delivered <= Contents(r.table.rows).value
              && FileRead(Contents(r.table.rows).value, old(r.delivered), |bytes|, len, e)
    // every byte handed out came from the buffer or from a further row
    ensures Remaining(r) <= old(Remaining(r))
    ensures Sound(r) && Remaining(r) == old(Remaining(r)) ==> |r.buf| == |old(r.buf)| - |bytes|
  {
    var p := new Byte[len];
    var n;
    n, e := r.Read(p);
    bytes := p[..n];
    assert |r.consumed| == |old(r.consumed)| ==> r.consumed == old(r.consumed);
  }

  lemma HeadRead(bytes: seq<Byte>, head: seq<Byte>)
    requires head <= bytes && |head| == Least(HeaderSize, |bytes|)
    ensures Unframe(bytes).Some? ==>
      |head| == HeaderSize && ParseHeader(ToText(head)).Some? && ParseHeader(ToText(head)).value >= 0
    ensures NegativeLength(bytes) <==>
      |head| == HeaderSize && ParseHeader(ToText(head)).Some? && ParseHeader(ToText(head)).value < 0
  {
    assert |bytes| >= HeaderSize ==> bytes[..HeaderSize] == head;
  }

  lemma MetadataRead(bytes: seq<Byte>, head: seq<Byte>, len: nat, metadata: seq<Byte>)
    requires head + metadata <= bytes && |head| == HeaderSize && ParseHeader(ToText(head)) == Some(len as int)
    requires |metadata| == Least(len, |bytes| - HeaderSize)
    ensures Unframe(bytes).Some? <==> |metadata| == len
    ensures Unframe(bytes).Some? ==> Unframe(bytes).value == (metadata, bytes[HeaderSize + len..])
  {
    assert bytes[..HeaderSize] == head;
    if |metadata| == len {
      assert bytes[HeaderSize..HeaderSize + len] == metadata;
    }
  }

  // Reads the length of the metadata from the start of a file.
  method ReadLength(r: Reader) returns (len: Option<int>, e: ReadError)
    requires Sound(r) && r.delivered == []
    modifies r, r.table`queries
    ensures e.QueryFailed? <==> r.table.RefusedSince(old(r.table.queries))
    ensures old(r.table.queries) <= r.table.queries
    ensures len.Some? ==>
              Sound(r) && e.NoError? && |r.delivered| == HeaderSize && ParseHeader(ToText(r.delivered)) == len
    ensures Contents(r.table.rows).Some? ==> r.delivered <= Contents(r.table.rows).value
    ensures Contents(r.table.rows).Some? && !e.QueryFailed? ==>
              var bytes := Contents(r.table.rows).value;
              && (Unframe(bytes).Some? ==> len.Some? && len.value >= 0)
              && (NegativeLength(bytes) <==> len.Some? && len.value < 0)
  {
    ghost var contents := Contents(r.table.rows);
    var lengthHexStr;
    lengthHexStr, e := ReadSome(r, HeaderSize);
    assert r.delivered == lengthHexStr;
    if contents.Some? && !e.QueryFailed? {
      HeadRead(contents.value, lengthHexStr);
    }
    if !e.NoError? || |lengthHexStr| != HeaderSize {
      return None, e;
    }
    len := ParseHeader(ToText(lengthHexStr));
  }

  // Reads the metadata in front of a tarball; panics at a negative length.
  method ReadMetadata(r: Reader) returns (metadata: Option<seq<Byte>>, e: ReadError, panics: bool)
    requires Sound(r) && r.delivered == []
    modifies r, r.table`queries
    ensures e.QueryFailed? <==> r.table.RefusedSince(old(r.table.queries))
    ensures old(r.table.queries) <= r.table.queries
    ensures metadata.Some? ==> Sound(r) && e.NoError? && !panics
    ensures panics ==> e.NoError?
    ensures Contents(r.table.rows).Some? ==> r.delivered <= Contents(r.table.rows).value
    ensures Contents(r.table.rows).Some? && !e.QueryFailed? ==>
              var bytes := Contents(r.table.rows).value;
              && (panics <==> NegativeLength(bytes))
              && (metadata.Some? <==> Unframe(bytes).Some?)
              && (metadata.Some? ==>
                    |r.delivered| <= |bytes| && Unframe(bytes).value == (metadata.value, bytes[|r.delivered|..]))
  {
    ghost var contents := Contents(r.table.rows);
    var metaLength, metaStr;
    metaLength, e := ReadLength(r);
    if metaLength.None? {
      return None, e, false;
    }
    if metaLength.value < 0 {
      return None, e, true;
    }
    ghost var head := r.delivered;
    metaStr, e := ReadSome(r, metaLength.value);
    if contents.Some? && !e.QueryFailed? {
      MetadataRead(contents.value, head, metaLength.value, metaStr);
    }
    if !e.NoError? || |metaStr| != metaLength.value {
      return None, e, false;
    }
    metadata, panics := Some(metaStr), false;
  }

  lemma Join(start: seq<Byte>, a: seq<Byte>, b: seq<Byte>)
    ensures (start + a) + b == start + (a + b) && a + [] == a
  {
  }

  lemma Rest(start: seq<Byte>, bytes: seq<Byte>)
    ensures (start + bytes)[|start|..] == bytes
  {
  }

  // Copies what the reader still has, as io.Copy does.
  method CopyRest(r: Reader) returns (bytes: seq<Byte>, e: ReadError)
    requires Sound(r)
    modifies r, r.table`queries
    ensures e.QueryFailed? <==> r.table.RefusedSince(old(r.table.queries))
    ensures old(r.table.queries) <= r.table.queries
    ensures Contents(r.table.rows).Some? ==> e.NoError? || e.QueryFailed?
    ensures Contents(r.table.rows).Some? && e.NoError? ==>
              |old(r.delivered)| <= |Contents(r.table.rows).value| && bytes == Contents(r.table.rows).value[|old(r.delivered)|..]
  {
    ghost var start := r.delivered;
    bytes, e := [], NoError;
    while e.NoError?
      invariant old(r.table.queries) <= r.table.queries
      invariant e.QueryFailed? <==> r.table.RefusedSince(old(r.table.queries))
      invariant r.Valid() && !e.ReadClosed? && (e.NoError? ==> Sound(r)) && r.delivered == start + bytes
      invariant Contents(r.table.rows).Some? ==> e.NoError? || e.QueryFailed? || e.EOF?
      invariant Contents(r.table.rows).Some? && e.EOF? ==> start + bytes == Contents(r.table.rows).value
      decreases e.NoError?, Remaining(r), |r.buf|
    {
      var some;
      some, e := ReadSome(r, BufSize);
      Join(start, bytes, some);
      bytes := bytes + some;
    }
    Rest(start, bytes);
    if e.EOF? {
      e := NoError;
    }
  }

  // Dumps a model saved with its metadata.
  method DumpDBModelExperimental(table: SqlTable, rowBufSize: nat)
    returns (model: Option<(seq<Byte>, seq<Byte>)>, e: ReadError, panics: bool)
    modifies table`queries
    ensures rowBufSize == 0 || e.QueryFailed? ==> model.None? && !panics
    ensures e.QueryFailed? <==> table.RefusedSince(old(table.queries))
    ensures old(table.queries) <= table.queries
    // on a stored file, unless a query was refused: the metadata and tarball of its frame
    ensures Contents(table.rows).Some? && rowBufSize > 0 && !table.RefusedSince(old(table.queries)) ==>
              && model == Unframe(Contents(table.rows).value)
              && (panics <==> NegativeLength(Contents(table.rows).value))
  {
    var sqlf := Open(table, rowBufSize);
    if sqlf.None? {
      return None, NoError, false;
    }
    var r := sqlf.value;
    var metadata, tarball;
    metadata, e, panics := ReadMetadata(r);
    if metadata.None? {
      return None, e, panics;
    }
    tarball, e := CopyRest(r);
    if !e.NoError? {
      return None, e, false;
    }
    model := Some((metadata.value, tarball));
  }

  // ---- the model zoo

  // The blocks taken from a stored file of which a start had been handed out before.
  ghost predicate Taking(bytes: seq<Byte>, start: seq<Byte>, now: seq<Byte>, blocks: seq<seq<Byte>>) {
    now <= bytes && now == start + Concat(blocks) && Cut(blocks, CopySize, now == bytes)
  }

  // A further read hands out a further block, or nothing at the end.
  lemma TakeBlock(bytes: seq<Byte>, start: seq<Byte>, now: seq<Byte>, blocks: seq<seq<Byte>>, block: seq<Byte>, e: ReadError)
    requires Taking(bytes, start, now, blocks) && now + block <= bytes
    requires FileRead(bytes, now, |block|, CopySize, e) && !e.QueryFailed?
    ensures e.EOF? <==> now == bytes
    ensures block == [] <==> now == bytes
    ensures block != [] ==> Taking(bytes, start, now + block, blocks + [block])
  {
    if block != [] {
      ConcatAppend(blocks, block);
      Join(start, Concat(blocks), block);
      CutMore(blocks, block, CopySize, now + block == bytes);
    }
  }

  lemma TakenIsCut(bytes: seq<Byte>, start: seq<Byte>, now: seq<Byte>, blocks: seq<seq<Byte>>)
    requires Taking(bytes, start, now, blocks)
    ensures start <= bytes && blocks <= Chunks(bytes[|start|..], CopySize)
    ensures now == bytes ==> blocks == Chunks(bytes[|start|..], CopySize)
  {
    var rest := bytes[|now|..];
    assert bytes == now + rest;
    Join(start, Concat(blocks), rest);
    Rest(start, Concat(blocks) + rest);
    CutIsChunks(blocks, rest, CopySize);
  }

  lemma SentSoFar(contents: Option<seq<Byte>>, start: seq<Byte>, now: seq<Byte>, blocks: seq<seq<Byte>>)
    requires contents.Some? ==> Taking(contents.value, start, now, blocks)
    ensures contents.Some? ==>
              && start <= contents.value && blocks <= Chunks(contents.value[|start|..], CopySize)
              && (now == contents.value ==> blocks == Chunks(contents.value[|start|..], CopySize))
  {
    if contents.Some? {
      TakenIsCut(contents.value, start, now, blocks);
    }
  }

  // The copy loop of a release: reads blocks of 4096 bytes and writes them to the zoo's table.
  method CopyTable(from: Reader, to: FlushWriteCloser)
    returns (e: ReadError, failed: bool, ghost pieces: seq<seq<Byte>>)
    requires Sound(from) && from.delivered == []
    requires to.Valid() && to.flusher.table != from.table
    modifies from, from.table`queries, to, to.flusher, to.flusher.table`attempts, to.flusher.table`rows
    ensures to.Valid()
    ensures e.QueryFailed? <==> from.table.RefusedSince(old(from.table.queries))
    ensures old(from.table.queries) <= from.table.queries
    ensures var r := WritePieces(old(to.State()), pieces, to.flushCap, to.flusher.table.refused);
      to.State() == r.stream && failed == r.failed
    ensures Contents(from.table.rows).Some? ==> e.NoError? || e.QueryFailed?
    ensures Contents(from.table.rows).Some? ==>
              var blocks := Chunks(Contents(from.table.rows).value, CopySize);
              pieces <= blocks && (e.NoError? && !failed ==> pieces == blocks)
  {
    ghost var contents := Contents(from.table.rows);
    ghost var now: seq<Byte> := [];
    var eof := false;
    e, failed, pieces := NoError, false, [];
    assert Concat([]) == [];
    while !eof
      invariant old(from.table.queries) <= from.table.queries && !from.table.RefusedSince(old(from.table.queries))
      invariant Sound(from) && to.Valid() && e.NoError? && !failed
      invariant var r := WritePieces(old(to.State()), pieces, to.flushCap, to.flusher.table.refused);
        to.State() == r.stream && !r.failed
      invariant from.delivered == now
      invariant contents.Some? ==> Taking(contents.value, [], now, pieces) && (eof ==> now == contents.value)
      decreases !eof, Remaining(from), |from.buf|
    {
      var block;
      block, e := ReadSome(from, CopySize);
      if e.EOF? {
        eof := true;
        e := NoError;
      } else if !e.NoError? {
        SentSoFar(contents, [], now, pieces);
        return;
      }
      if contents.Some? {
        TakeBlock(contents.value, [], now, pieces, block, if eof then EOF else e);
      }
      now := now + block;
      if |block| > 0 {
        assert (pieces + [block])[..|pieces|] == pieces;
        var n;
        n, failed := to.Write(block);
        pieces := pieces + [block];
        if failed {
          SentSoFar(contents, [], now, pieces);
          return;
        }
      }
    }
    SentSoFar(contents, [], now, pieces);
  }

  // What a release that wrote all blocks of a stored file has left in the zoo.
  lemma ReleasedRows(pieces: seq<seq<Byte>>, refused: Refused, rows: Rows)
    ensures var r := ModelRuns.Release(pieces, refused);
      && (!r.ok ==> ModelRuns.HitRefusal(r, refused))
      && (r.ok && Contents(rows).Some? ==>
            var bytes := Contents(rows).value;
            pieces == Chunks(bytes, CopySize) && |bytes| % BufSize == 0 ==> r.Rows() == FileRows(bytes, BufSize))
    ensures forall bytes :: rows == FileRows(bytes, BufSize) ==> Contents(rows) == Some(bytes)
  {
    ModelRuns.ReleaseFacts(pieces, refused);
    if Contents(rows).Some? {
      ConcatChunks(Contents(rows).value, CopySize);
    }
    forall bytes | rows == FileRows(bytes, BufSize)
      ensures Contents(rows) == Some(bytes)
    {
      ContentsOfFile(bytes, BufSize);
    }
  }

  // Releases a model that is kept with its metadata.  The zoo's table is completed by a deferred
  // close whose failure goes unnoticed.
  method ReleaseModel(source: SqlTable, rowBufSize: nat, refused: Refused, refusedQueries: set<nat>)
    returns (zoo: SqlTable, ok: bool, e: ReadError, ghost pieces: seq<seq<Byte>>)
    modifies source`queries
    ensures fresh(zoo) && zoo.refused == refused && source.rows == old(source.rows)
    ensures zoo.refusedQueries == refusedQueries && zoo.queries == 0
    ensures e.QueryFailed? <==> source.RefusedSince(old(source.queries))
    ensures old(source.queries) <= source.queries
    ensures var r := ModelRuns.Release(pieces, refused);
      && zoo.rows == r.Rows() && zoo.attempts == r.stream.attempts
      && (ok <==> r.ok && e.NoError? && rowBufSize > 0)
    ensures Contents(source.rows).Some? ==> e.NoError? || e.QueryFailed?
    // of a stored file the blocks of 4096 bytes are written, all of them on success
    ensures Contents(source.rows).Some? ==>
              var blocks := Chunks(Contents(source.rows).value, CopySize);
              pieces <= blocks && (ok ==> pieces == blocks)
    // a whole number of full buffers is copied completely, and so is a table of them row for row
    ensures Contents(source.rows).Some? && ok && |Contents(source.rows).value| % BufSize == 0 ==>
              zoo.rows == FileRows(Contents(source.rows).value, BufSize)
    ensures forall bytes :: ok && |bytes| % BufSize == 0 && source.rows == FileRows(bytes, BufSize) ==>
              zoo.rows == source.rows
    // there is no other cause of failure
    ensures !ok ==> rowBufSize == 0 || !e.NoError? || exists k :: k in refused && k + 1 < zoo.attempts
  {
    var sqlf := Create(BufSize, refused, refusedQueries);
    zoo, pieces := sqlf.flusher.table, [];
    var sendFile := Open(source, rowBufSize);
    if sendFile.None? {
      return zoo, false, NoError, [];
    }
    var failed;
    e, failed, pieces := CopyTable(sendFile.value, sqlf);
    ok := e.NoError? && !failed;
    var _ := sqlf.Close();
    ReleasedRows(pieces, refused, source.rows);
  }

  // How a download ends.
  datatype Download = Sent | NotOpened | NoMetadata | Panicked | ReadFailed | SendFailed

  // Every message has between one and 4096 bytes, and none of them was refused.
  ghost predicate Received(messages: seq<seq<Byte>>, refusedSends: set<nat>) {
    forall i: nat :: i < |messages| ==> ReceivedAt(messages, i, refusedSends)
  }

  predicate ReceivedAt(messages: seq<seq<Byte>>, i: nat, refusedSends: set<nat>)
    requires i < |messages|
  {
    0 < |messages[i]| <= CopySize && i !in refusedSends
  }

  method Send(messages: seq<seq<Byte>>, block: seq<Byte>, refusedSends: set<nat>)
    returns (after: seq<seq<Byte>>, sent: bool)
    requires Received(messages, refusedSends) && 0 < |block| <= CopySize
    ensures Received(after, refusedSends) && (sent <==> |messages| !in refusedSends)
    ensures after == if sent then messages + [block] else messages
  {
    sent := |messages| !in refusedSends;
    after := if sent then messages + [block] else messages;
    forall i: nat | i < |after| ensures ReceivedAt(after, i, refusedSends) {
      assert i < |messages| ==> ReceivedAt(messages, i, refusedSends);
    }
  }

  // Sends what the reader still has, cut into messages of 4096 bytes.
  method SendRest(r: Reader, refusedSends: set<nat>) returns (messages: seq<seq<Byte>>, d: Download, e: ReadError)
    requires Sound(r)
    requires Contents(r.table.rows).Some? ==> r.delivered <= Contents(r.table.rows).value
    modifies r, r.table`queries
    ensures e.QueryFailed? <==> r.table.RefusedSince(old(r.table.queries))
    ensures old(r.table.queries) <= r.table.queries
    ensures Received(messages, refusedSends)
    ensures Contents(r.table.rows).Some? ==>
              var rest := Contents(r.table.rows).value[|old(r.delivered)|..];
              messages <= Chunks(rest, CopySize) && (d.Sent? ==> messages == Chunks(rest, CopySize))
    ensures d.Sent? || d.ReadFailed? || d.SendFailed?
    ensures Contents(r.table.rows).Some? && d.ReadFailed? ==> e.QueryFailed?
    ensures e.QueryFailed? ==> d.ReadFailed?
    ensures d.SendFailed? ==> |messages| in refusedSends
  {
    ghost var contents := Contents(r.table.rows);
    ghost var start, now := r.delivered, r.delivered;
    messages, d, e := [], Sent, NoError;
    assert Concat([]) == [] && start + [] == start;
    var eof := false;
    while !eof
      invariant old(r.table.queries) <= r.table.queries && !r.table.RefusedSince(old(r.table.queries))
      invariant !e.QueryFailed? && Sound(r) && r.delivered == now && d.Sent?
      invariant Received(messages, refusedSends)
      invariant contents.Some? ==> Taking(contents.value, start, now, messages) && (eof ==> now == contents.value)
      decreases !eof, Remaining(r), |r.buf|
    {
      var block;
      block, e := ReadSome(r, CopySize);
      if e.EOF? {
        eof := true;
      } else if !e.NoError? {
        SentSoFar(contents, start, now, messages);
        return messages, ReadFailed, e;
      }
      if contents.Some? {
        TakeBlock(contents.value, start, now, messages, block, e);
      }
      if |block| > 0 {
        var sent;
        messages, sent := Send(messages, block, refusedSends);
        if !sent {
          SentSoFar(contents, start, now, messages);
          return messages, SendFailed, e;
        }
      }
      now := now + block;
    }
    SentSoFar(contents, start, now, messages);
  }

  // Sends a model's tarball in messages of at most 4096 bytes, without its metadata when it is
  // kept with metadata.  The receiver refuses some of the messages, counted from 0.
  method DownloadModel(table: SqlTable, rowBufSize: nat, experimental: bool, refusedSends: set<nat>)
    returns (messages: seq<seq<Byte>>, d: Download, e: ReadError)
    modifies table`queries
    ensures e.QueryFailed? <==> table.RefusedSince(old(table.queries))
    ensures old(table.queries) <= table.queries
    ensures Received(messages, refusedSends)
    // on a stored file the messages are the canonical cut of what is to be sent, or its beginning
    ensures Contents(table.rows).Some? && d.Sent? ==>
              var bytes := Contents(table.rows).value;
              if experimental then Unframe(bytes).Some? && messages == Chunks(Unframe(bytes).value.1, CopySize)
              else messages == Chunks(bytes, CopySize)
    ensures Contents(table.rows).Some? && messages != [] ==>
              var bytes := Contents(table.rows).value;
              if experimental then Unframe(bytes).Some? && messages <= Chunks(Unframe(bytes).value.1, CopySize)
              else messages <= Chunks(bytes, CopySize)
    // on a stored file a download fails only for batch size zero, a failed query, a missing frame, a
    // negative length or a refused message
    ensures d.NotOpened? <==> rowBufSize == 0
    ensures Contents(table.rows).Some? && d.NoMetadata? ==>
              experimental && (e.QueryFailed? || (Unframe(Contents(table.rows).value).None? && !NegativeLength(Contents(table.rows).value)))
    ensures Contents(table.rows).Some? && d.Panicked? ==> experimental && NegativeLength(Contents(table.rows).value)
    ensures Contents(table.rows).Some? && d.ReadFailed? ==> e.QueryFailed?
    ensures e.QueryFailed? ==> d.NoMetadata? || d.ReadFailed?
    ensures d.SendFailed? ==> |messages| in refusedSends
  {
    messages, d, e := [], NotOpened, NoError;
    var sqlf := Open(table, rowBufSize);
    if sqlf.None? {
      return;
    }
    var r := sqlf.value;
    if experimental {
      var metadata;
      var panics;
      metadata, e, panics := ReadMetadata(r);
      if metadata.None? {
        return [], if panics then Panicked else NoMetadata, e;
      }
    }
    messages, d, e := SendRest(r, refusedSends);
  }
}
