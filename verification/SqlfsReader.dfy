/**
  The batched reader: it fetches rows a batch at a time, in whatever order the database
  returns them, checks that they continue the file, and hands out their bytes.
 */
module SqlfsReader {
  import opened Base64
  import opened Sqlfs
  import opened SqlfsWriter
  import opened Wrappers

  // ---- what the rows of an arbitrary table say

  // Exactly one row carries the id, and this is its block.
  ghost predicate OnlyRow(rows: Rows, id: int, block: string) {
    rows[Row(id, block)] == 1 && forall b :: Row(id, b) in rows ==> b == block
  }

  ghost predicate NoRow(rows: Rows, id: int) {
    forall b :: Row(id, b) !in rows
  }

  // The blocks of the ids 0, 1, 2, ... as far as each has exactly one row.
  ghost predicate Leading(rows: Rows, blocks: seq<string>) {
    forall i :: 0 <= i < |blocks| ==> OnlyRow(rows, i, blocks[i])
  }

  function DecodedOr(block: string, default: seq<Byte>): seq<Byte> {
    if Decode(block).Some? then Decode(block).value else default
  }

  // The bytes of the blocks; a block that does not decode contributes none.
  function DecodeAll(blocks: seq<string>): seq<Byte> {
    if blocks == [] then [] else DecodeAll(blocks[..|blocks| - 1]) + DecodedOr(blocks[|blocks| - 1], [])
  }

  lemma {:induction false} DecodeAllAppend(blocks: seq<string>, block: string)
    ensures DecodeAll(blocks + [block]) == DecodeAll(blocks) + DecodedOr(block, [])
  {
    assert (blocks + [block])[..|blocks|] == blocks;
  }

  lemma {:induction false} DecodeAllEncoded(blocks: seq<seq<Byte>>)
    ensures DecodeAll(Encoded(blocks)) == Concat(blocks)
    decreases |blocks|
  {
    if blocks != [] {
      var n := |blocks| - 1;
      DecodeAllEncoded(blocks[..n]);
      DecodeEncode(blocks[n]);
      assert Encoded(blocks) == Encoded(blocks[..n]) + [Encode(blocks[n])];
      DecodeAllAppend(Encoded(blocks[..n]), Encode(blocks[n]));
    }
  }

  lemma NumberedRow(blocks: seq<string>, r: Row)
    ensures multiset(Numbered(blocks))[r] == if 0 <= r.id < |blocks| && blocks[r.id] == r.block then 1 else 0
  {
    var s := Numbered(blocks);
    if r in s {
      var k :| 0 <= k < |s| && s[k] == r;
      assert s == s[..k] + [s[k]] + s[k + 1..];
      assert multiset(s) == multiset(s[..k]) + multiset{s[k]} + multiset(s[k + 1..]);
      assert r !in s[..k] && r !in s[k + 1..];
    }
    if 0 <= r.id < |blocks| && blocks[r.id] == r.block {
      assert s[r.id] == r;
    }
  }

  // There are at least as many rows as leading blocks.
  lemma LeadingSize(rows: Rows, blocks: seq<string>)
    requires Leading(rows, blocks)
    ensures |blocks| <= |rows|
  {
    var leading := multiset(Numbered(blocks));
    forall r: Row ensures leading[r] <= rows[r] {
      NumberedRow(blocks, r);
    }
    assert leading <= rows;
    assert rows == leading + (rows - leading);
    assert |Numbered(blocks)| == |blocks|;
  }

  // On a table with the ids 0 to k-1, the leading blocks are a prefix of its blocks.
  lemma LeadingOfFile(blocks: seq<string>, leading: seq<string>)
    requires Leading(multiset(Numbered(blocks)), leading)
    ensures leading <= blocks
    ensures NoRow(multiset(Numbered(blocks)), |leading|) <==> leading == blocks
  {
    var rows := multiset(Numbered(blocks));
    forall i | 0 <= i < |leading| ensures i < |blocks| && leading[i] == blocks[i] {
      NumberedRow(blocks, Row(i, leading[i]));
      assert OnlyRow(rows, i, leading[i]);
    }
    if leading != [] {
      var last := |leading| - 1;
      NumberedRow(blocks, Row(last, leading[last]));
      assert OnlyRow(rows, last, leading[last]);
    }
    if |leading| < |blocks| {
      NumberedRow(blocks, Row(|leading|, blocks[|leading|]));
      assert Row(|leading|, blocks[|leading|]) in rows;
    } else {
      forall b ensures Row(|leading|, b) !in rows {
        NumberedRow(blocks, Row(|leading|, b));
      }
    }
  }

  // ---- sorting a batch

  function InsertById(r: Row, s: seq<Row>): (t: seq<Row>)
    ensures multiset(t) == multiset{r} + multiset(s)
  {
    if s == [] || r.id <= s[0].id then [r] + s
    else
      assert s == [s[0]] + s[1..];
      [s[0]] + InsertById(r, s[1..])
  }

  function SortById(s: seq<Row>): (t: seq<Row>)
    ensures multiset(t) == multiset(s)
  {
    if s == [] then []
    else
      assert s == [s[0]] + s[1..];
      InsertById(s[0], SortById(s[1..]))
  }

  predicate Ordered(s: seq<Row>) {
    forall i, j :: 0 <= i < j < |s| ==> s[i].id <= s[j].id
  }

  lemma {:induction false} InsertOrdered(r: Row, s: seq<Row>)
    requires Ordered(s)
    ensures Ordered(InsertById(r, s))
    decreases |s|
  {
    if s != [] && r.id > s[0].id {
      InsertOrdered(r, s[1..]);
      var t := InsertById(r, s[1..]);
      forall x | x in t ensures s[0].id <= x.id {
        assert x in multiset(t);
        assert x == r || x in s[1..];
      }
    }
  }

  lemma {:induction false} SortOrdered(s: seq<Row>)
    ensures Ordered(SortById(s))
    decreases |s|
  {
    if s != [] {
      SortOrdered(s[1..]);
      InsertOrdered(s[0], SortById(s[1..]));
    }
  }

  // ---- checking a batch

  predicate Consecutive(fs: seq<Row>, lo: int) {
    forall i :: 0 <= i < |fs| ==> fs[i].id == lo + i
  }

  // A checked batch: the only rows with the ids from lo on.
  ghost predicate Fetched(rows: Rows, fs: seq<Row>, lo: int) {
    Consecutive(fs, lo) && forall i :: 0 <= i < |fs| ==> OnlyRow(rows, fs[i].id, fs[i].block)
  }

  lemma CountOnce(fs: seq<Row>, lo: int, i: nat)
    requires Consecutive(fs, lo) && i < |fs|
    ensures multiset(fs)[fs[i]] == 1
  {
    assert fs == fs[..i] + [fs[i]] + fs[i + 1..];
    assert multiset(fs) == multiset(fs[..i]) + multiset{fs[i]} + multiset(fs[i + 1..]);
    assert fs[i] !in fs[..i] && fs[i] !in fs[i + 1..];
  }

  // A batch that passes the check holds the only rows with its ids, and a short one ends the run.
  lemma CheckedBatch(rows: Rows, lo: int, hi: int, answer: seq<Row>, fs: seq<Row>)
    requires Answers(rows, lo, hi, answer) && multiset(fs) == multiset(answer)
    requires Consecutive(fs, lo) && |fs| <= hi - lo
    ensures Fetched(rows, fs, lo)
    ensures |fs| < hi - lo ==> NoRow(rows, lo + |fs|)
  {
    forall i | 0 <= i < |fs| ensures OnlyRow(rows, fs[i].id, fs[i].block) {
      CountOnce(fs, lo, i);
      var id := lo + i;
      assert fs[i] == Row(id, fs[i].block);
      forall b | Row(id, b) in rows ensures b == fs[i].block {
        RowInBatch(rows, lo, hi, answer, fs, Row(id, b));
      }
    }
    var next := lo + |fs|;
    forall b ensures next < hi ==> Row(next, b) !in rows {
      if next < hi {
        RowInBatch(rows, lo, hi, answer, fs, Row(next, b));
      }
    }
  }

  lemma RowInBatch(rows: Rows, lo: int, hi: int, answer: seq<Row>, fs: seq<Row>, r: Row)
    requires Answers(rows, lo, hi, answer) && multiset(fs) == multiset(answer) && lo <= r.id < hi
    ensures r in rows <==> exists i :: 0 <= i < |fs| && fs[i] == r
  {
    assert multiset(answer)[r] == rows[r];
    assert r in multiset(fs) <==> r in fs;
  }

  // On a table with the ids 0 to k-1, every sorted batch passes the check.
  lemma FileBatch(blocks: seq<string>, lo: int, hi: int, answer: seq<Row>, fs: seq<Row>)
    requires Answers(multiset(Numbered(blocks)), lo, hi, answer) && multiset(fs) == multiset(answer)
    requires Ordered(fs) && 0 <= lo < hi
    ensures Consecutive(fs, lo) && |fs| <= hi - lo
  {
    var rows := multiset(Numbered(blocks));
    forall i | 0 <= i < |fs| ensures lo <= fs[i].id < hi && fs[i] in rows {
      assert fs[i] in multiset(fs);
      assert multiset(answer)[fs[i]] > 0;
    }
    forall i, j | 0 <= i < j < |fs| ensures fs[i].id < fs[j].id {
      NumberedRow(blocks, fs[i]);
      NumberedRow(blocks, fs[j]);
      assert multiset(answer)[fs[i]] == rows[fs[i]];
      if fs[i].id == fs[j].id {
        CountTwice(fs, i, j);
      }
    }
    forall n | 0 <= n < |fs| ensures fs[n].id == lo + n {
      FileBatchAt(blocks, lo, hi, answer, fs, n);
    }
    assert |fs| > 0 ==> fs[|fs| - 1].id < hi;
  }

  lemma CountTwice(fs: seq<Row>, i: nat, j: nat)
    requires i < j < |fs| && fs[i] == fs[j]
    ensures multiset(fs)[fs[i]] >= 2
  {
    assert fs == fs[..j] + fs[j..];
    assert multiset(fs) == multiset(fs[..j]) + multiset(fs[j..]);
    assert fs[i] in fs[..j] && fs[j] in fs[j..];
  }

  lemma {:induction false} FileBatchAt(blocks: seq<string>, lo: int, hi: int, answer: seq<Row>, fs: seq<Row>, n: nat)
    requires Answers(multiset(Numbered(blocks)), lo, hi, answer) && multiset(fs) == multiset(answer)
    requires 0 <= lo < hi && n < |fs|
    requires forall i :: 0 <= i < |fs| ==> lo <= fs[i].id < hi && fs[i] in multiset(Numbered(blocks))
    requires forall i, j :: 0 <= i < j < |fs| ==> fs[i].id < fs[j].id
    ensures fs[n].id == lo + n
    decreases n
  {
    if n > 0 {
      FileBatchAt(blocks, lo, hi, answer, fs, n - 1);
    }
    NumberedRow(blocks, fs[n]);
    var r := Row(lo + n, blocks[lo + n]);
    NumberedRow(blocks, r);
    RowInBatch(multiset(Numbered(blocks)), lo, hi, answer, fs, r);
    var k :| 0 <= k < |fs| && fs[k] == r;
  }

  // The table holds the ids 0 to k-1, once each.
  ghost predicate IsFile(rows: Rows) {
    exists blocks :: rows == multiset(Numbered(blocks))
  }

  lemma AnyFileBatch(rows: Rows, lo: int, hi: int, answer: seq<Row>, fs: seq<Row>)
    requires Answers(rows, lo, hi, answer) && multiset(fs) == multiset(answer) && Ordered(fs) && 0 <= lo < hi
    ensures IsFile(rows) ==> Consecutive(fs, lo) && |fs| <= hi - lo
  {
    if IsFile(rows) {
      var blocks :| rows == multiset(Numbered(blocks));
      FileBatch(blocks, lo, hi, answer, fs);
    }
  }

  method Continues(fs: seq<Row>, rowIdx: int) returns (ok: bool)
    ensures ok <==> Consecutive(fs, rowIdx)
  {
    for i := 0 to |fs|
      invariant forall k :: 0 <= k < i ==> fs[k].id == rowIdx + k
    {
      if fs[i].id != i + rowIdx {
        return false;
      }
    }
    return true;
  }

  // The bytes of the file a table stores, if its rows are those of some blocks.
  ghost function Contents(rows: Rows): Option<seq<Byte>> {
    if blocks :| rows == RowsOf(blocks) then Some(Concat(blocks)) else None
  }

  lemma ContentsBlocks(rows: Rows) returns (blocks: seq<seq<Byte>>)
    requires Contents(rows).Some?
    ensures rows == RowsOf(blocks) && Contents(rows) == Some(Concat(blocks))
  {
    blocks :| rows == RowsOf(blocks) && Contents(rows) == Some(Concat(blocks));
  }

  lemma LeadingSelf(blocks: seq<string>)
    ensures Leading(multiset(Numbered(blocks)), blocks)
  {
    var rows := multiset(Numbered(blocks));
    forall i | 0 <= i < |blocks| ensures OnlyRow(rows, i, blocks[i]) {
      NumberedRow(blocks, Row(i, blocks[i]));
      forall b | Row(i, b) in rows ensures b == blocks[i] {
        NumberedRow(blocks, Row(i, b));
      }
    }
  }

  // The rows determine the bytes.
  lemma ContentsOf(blocks: seq<seq<Byte>>)
    ensures Contents(RowsOf(blocks)) == Some(Concat(blocks))
  {
    var bytes := Contents(RowsOf(blocks));
    assert RowsOf(blocks) == RowsOf(blocks);
    var other := ContentsBlocks(RowsOf(blocks));
    LeadingSelf(Encoded(blocks));
    LeadingSelf(Encoded(other));
    LeadingOfFile(Encoded(blocks), Encoded(other));
    LeadingOfFile(Encoded(other), Encoded(blocks));
    DecodeAllEncoded(blocks);
    DecodeAllEncoded(other);
  }

  // What a closed writer leaves reads back as what it accepted.
  lemma ContentsOfFile(bytes: seq<Byte>, size: nat)
    requires size > 0
    ensures Contents(FileRows(bytes, size)) == Some(bytes)
  {
    ContentsOf(Chunks(bytes, size));
    ConcatChunks(bytes, size);
  }

  // A read of up to len bytes from a file of which a part has been handed out before.
  ghost predicate FileRead(bytes: seq<Byte>, before: seq<Byte>, n: nat, len: nat, e: ReadError) {
    && before <= bytes
    && (e.NoError? || e.EOF? || e.QueryFailed?)
    && (!e.QueryFailed? ==> n == if len < |bytes| - |before| then len else |bytes| - |before|)
    && (!e.QueryFailed? ==> (e.EOF? <==> before == bytes && 0 < len))
  }

  lemma {:induction false} DecodeAllPrefix(a: seq<string>, b: seq<string>)
    requires a <= b
    ensures DecodeAll(a) <= DecodeAll(b)
    decreases |b|
  {
    if |a| < |b| {
      DecodeAllPrefix(a, b[..|b| - 1]);
    } else {
      assert a == b;
    }
  }

  // What the leading blocks of a stored file are.
  lemma FileFacts(blocks: seq<seq<Byte>>, consumed: seq<string>)
    requires Leading(RowsOf(blocks), consumed)
    ensures IsFile(RowsOf(blocks))
    ensures forall i :: 0 <= i < |consumed| ==> Decode(consumed[i]).Some?
    ensures DecodeAll(consumed) <= Concat(blocks)
    ensures NoRow(RowsOf(blocks), |consumed|) ==> DecodeAll(consumed) == Concat(blocks)
  {
    LeadingOfFile(Encoded(blocks), consumed);
    DecodeAllPrefix(consumed, Encoded(blocks));
    DecodeAllEncoded(blocks);
    forall i | 0 <= i < |consumed| ensures Decode(consumed[i]).Some? {
      DecodeEncode(blocks[i]);
    }
  }

  lemma FullRead(rows: Rows, consumed: seq<string>, before: seq<Byte>, after: seq<Byte>, buf: seq<Byte>,
                 n: nat, len: nat, e: ReadError)
    requires Leading(rows, consumed) && before <= after && |after| == |before| + n && n <= len
    requires after <= DecodeAll(consumed) && (!e.CorruptBlock? ==> after + buf == DecodeAll(consumed))
    requires e.EOF? ==> n == 0 < len && buf == [] && NoRow(rows, |consumed|)
    requires e.NoError? ==> n == len || (0 < n && buf == [] && NoRow(rows, |consumed|))
    requires e.InvalidTable? ==> !IsFile(rows)
    requires e.CorruptBlock? ==> exists i :: 0 <= i < |consumed| && Decode(consumed[i]).None?
    requires !e.ReadClosed?
    ensures Contents(rows).Some? ==>
              after <= Contents(rows).value && FileRead(Contents(rows).value, before, n, len, e)
  {
    if Contents(rows).Some? {
      var blocks := ContentsBlocks(rows);
      FileFacts(blocks, consumed);
      if n == 0 {
        assert after == before;
      }
    }
  }

  // ---- the reader

  datatype ReadError = NoError | EOF | QueryFailed | InvalidTable | CorruptBlock | ReadClosed

  class Reader {
    const table: SqlTable
    const rowBufSize: nat
    var open: bool
    var buf: seq<Byte>
    var fragments: seq<Row>
    var fragmentIdx: nat
    var rowIdx: nat
    // The blocks taken so far, the bytes handed out so far, and whether a block was corrupt.
    ghost var consumed: seq<string>
    ghost var delivered: seq<Byte>
    ghost var corrupt: bool

    // The rows fetched and not yet taken continue the rows taken.
    ghost predicate BatchValid()
      reads this, table`rows
    {
      && 0 < rowBufSize
      && fragmentIdx <= |fragments| <= rowIdx
      && |consumed| == rowIdx - |fragments| + fragmentIdx
      && Leading(table.rows, consumed)
      && Fetched(table.rows, fragments, rowIdx - |fragments|)
      && (rowIdx > 0 && |fragments| < rowBufSize ==> NoRow(table.rows, rowIdx))
    }

    ghost predicate Valid()
      reads this, table`rows
    {
      BatchValid() && (!corrupt ==> delivered + buf == DecodeAll(consumed))
    }

    // Nothing is left to hand out.
    ghost predicate AtEnd()
      reads this, table`rows
    {
      buf == [] && NoRow(table.rows, |consumed|)
    }

    constructor (table: SqlTable, rowBufSize: nat)
      requires 0 < rowBufSize
      ensures Valid() && open && this.table == table && this.rowBufSize == rowBufSize
      ensures consumed == [] && delivered == [] && buf == [] && !corrupt
    {
      this.table, this.rowBufSize, open := table, rowBufSize, true;
      buf, fragments, fragmentIdx, rowIdx := [], [], 0, 0;
      consumed, delivered, corrupt := [], [], false;
    }

    // Queries the next batch, sorts it and checks that it continues the file.
    method FetchBatch() returns (fs: seq<Row>, e: ReadError)
      requires 0 < rowBufSize
      modifies table`queries
      ensures e.NoError? || e.QueryFailed? || e.InvalidTable?
      ensures e.QueryFailed? <==> old(table.queries) in table.refusedQueries
      ensures table.queries == old(table.queries) + 1
      ensures e.NoError? ==> Fetched(table.rows, fs, rowIdx)
      ensures e.NoError? && |fs| < rowBufSize ==> NoRow(table.rows, rowIdx + |fs|)
      ensures e.InvalidTable? ==> !IsFile(table.rows)
    {
      var answer, failed := table.Query(rowIdx, rowIdx + rowBufSize);
      if failed {
        return [], QueryFailed;
      }
      fs := SortById(answer);
      SortOrdered(answer);
      AnyFileBatch(table.rows, rowIdx, rowIdx + rowBufSize, answer, fs);
      if |fs| > rowBufSize {
        return fs, InvalidTable;
      }
      var continued := Continues(fs, rowIdx);
      if !continued {
        return fs, InvalidTable;
      }
      CheckedBatch(table.rows, rowIdx, rowIdx + rowBufSize, answer, fs);
      e := NoError;
    }

    method ReadNextFragments() returns (e: ReadError)
      requires BatchValid() && fragmentIdx == |fragments|
      modifies this`fragments, this`fragmentIdx, this`rowIdx, table`queries
      ensures BatchValid()
      ensures e.NoError? || e.QueryFailed? || e.InvalidTable?
      ensures e.QueryFailed? <==> old(table.queries) in table.refusedQueries
      ensures table.queries == old(table.queries) + 1
      ensures e.NoError? ==> fragmentIdx == 0 && (fragments == [] ==> NoRow(table.rows, |consumed|))
      ensures !e.NoError? ==> fragmentIdx == |fragments|
      ensures e.InvalidTable? ==> !IsFile(table.rows)
    {
      var fs;
      fs, e := FetchBatch();
      if e.NoError? {
        fragments := fs;
        rowIdx := rowIdx + |fragments|;
        fragmentIdx := 0;
      }
    }

    method NextBlock() returns (block: string, e: ReadError)
      requires BatchValid()
      modifies this`fragments, this`fragmentIdx, this`rowIdx, this`consumed, table`queries
      ensures BatchValid()
      ensures e.QueryFailed? <==> table.RefusedSince(old(table.queries))
      ensures old(table.queries) <= table.queries
      ensures e.NoError? ==> consumed == old(consumed) + [block] && |consumed| <= |table.rows|
      ensures !e.NoError? ==> consumed == old(consumed)
      ensures e.NoError? || e.EOF? || e.QueryFailed? || e.InvalidTable?
      ensures e.EOF? ==> NoRow(table.rows, |consumed|)
      ensures e.InvalidTable? ==> !IsFile(table.rows)
    {
      block := "";
      if fragmentIdx == |fragments| {
        if rowIdx > 0 && |fragments| < rowBufSize {
          fragments, fragmentIdx := [], 0;
          return block, EOF;
        }
        e := ReadNextFragments();
        if !e.NoError? {
          return;
        }
      }
      if |fragments| == 0 {
        fragments, fragmentIdx := [], 0;
        return block, EOF;
      }
      block := fragments[fragmentIdx].block;
      fragmentIdx := fragmentIdx + 1;
      consumed := consumed + [block];
      LeadingSize(table.rows, consumed);
      e := NoError;
    }

    // Copies what fits from the buffer to p[n..].
    method CopyOut(p: array<Byte>, n: nat) returns (m: nat)
      requires Valid() && n <= p.Length
      modifies this`buf, this`delivered, p
      ensures Valid() && m == (if |old(buf)| < p.Length - n then |old(buf)| else p.Length - n)
      ensures buf == old(buf)[m..] && delivered == old(delivered) + old(buf)[..m]
      ensures p[..n] == old(p[..n]) && p[n..n + m] == old(buf)[..m] && p[n + m..] == old(p[n + m..])
    {
      m := if |buf| < p.Length - n then |buf| else p.Length - n;
      forall k | 0 <= k < m {
        p[n + k] := buf[k];
      }
      assert buf == buf[..m] + buf[m..];
      delivered := delivered + buf[..m];
      buf := buf[m..];
    }

    // Takes the next block and decodes it into the buffer.
    method Refill() returns (e: ReadError)
      requires Valid() && buf == []
      modifies this`buf, this`fragments, this`fragmentIdx, this`rowIdx, this`consumed, this`corrupt, table`queries
      ensures Valid()
      ensures e.QueryFailed? <==> table.RefusedSince(old(table.queries))
      ensures old(table.queries) <= table.queries
      ensures e.NoError? ==> |old(consumed)| < |consumed|
      ensures |old(consumed)| < |consumed| ==> |consumed| <= |table.rows|
      ensures e.CorruptBlock? ==> corrupt
      ensures !e.CorruptBlock? ==> corrupt == old(corrupt)
      ensures old(consumed) <= consumed && (!old(corrupt) ==> delivered <= DecodeAll(consumed))
      ensures e.EOF? ==> AtEnd()
      ensures e.InvalidTable? ==> !IsFile(table.rows)
      ensures e.CorruptBlock? ==> |consumed| == |old(consumed)| + 1 && Decode(consumed[|old(consumed)|]).None?
      ensures !e.ReadClosed?
    {
      assert delivered + [] == delivered;
      var block;
      block, e := NextBlock();
      if !e.NoError? {
        return;
      }
      DecodeAllAppend(old(consumed), block);
      var decoded := Decode(block);
      if decoded.None? {
        buf, corrupt := *, true;
        return CorruptBlock;
      }
      buf := decoded.value;
    }

    // One turn of the read loop.
    method CopyAndRefill(p: array<Byte>, n0: nat) returns (n: nat, e: ReadError)
      requires Valid() && n0 < p.Length
      modifies this`buf, this`fragments, this`fragmentIdx, this`rowIdx, this`consumed, this`delivered, this`corrupt
      modifies table`queries, p
      ensures Valid() && n0 <= n <= p.Length && !e.ReadClosed?
      ensures e.QueryFailed? <==> table.RefusedSince(old(table.queries))
      ensures old(table.queries) <= table.queries
      ensures p[..n0] == old(p[..n0]) && delivered == old(delivered) + p[n0..n] && p[n..] == old(p[n..])
      ensures old(consumed) <= consumed && (!old(corrupt) ==> delivered <= DecodeAll(consumed))
      ensures e.NoError? ==> n0 < n || |old(consumed)| < |consumed|
      ensures |old(consumed)| < |consumed| ==> |consumed| <= |table.rows|
      ensures e.EOF? ==> AtEnd()
      ensures e.InvalidTable? ==> !IsFile(table.rows)
      ensures e.CorruptBlock? ==> exists i :: |old(consumed)| <= i < |consumed| && Decode(consumed[i]).None?
      ensures e.CorruptBlock? || corrupt == old(corrupt)
    {
      e := NoError;
      var m := CopyOut(p, n0);
      n := n0 + m;
      assert !corrupt ==> delivered <= delivered + buf;
      if |buf| == 0 {
        e := Refill();
      }
    }

    method Read(p: array<Byte>) returns (n: nat, e: ReadError)
      requires Valid()
      modifies this, table`queries, p
      ensures Valid() && open == old(open) && n <= p.Length
      // only a refused query is reported as a failed one
      ensures e.QueryFailed? <==> table.RefusedSince(old(table.queries))
      ensures old(table.queries) <= table.queries
      ensures delivered == old(delivered) + p[..n] && p[n..] == old(p[n..])
      // up to the first corrupt block, what was handed out is a prefix of the leading blocks
      ensures old(consumed) <= consumed && (!old(corrupt) ==> delivered <= DecodeAll(consumed))
      ensures e.ReadClosed? <==> !open
      ensures e.EOF? ==> n == 0 < p.Length && AtEnd()
      ensures e.NoError? ==> n == p.Length || (0 < n && AtEnd())
      ensures e.InvalidTable? ==> !IsFile(table.rows)
      ensures e.CorruptBlock? ==> exists i :: |old(consumed)| <= i < |consumed| && Decode(consumed[i]).None?
      ensures e.CorruptBlock? || corrupt == old(corrupt)
      // on a stored file, reads are full and the end is reported exactly when nothing is left
      ensures Contents(table.rows).Some? && !old(corrupt) && open ==>
                delivered <= Contents(table.rows).value && FileRead(Contents(table.rows).value, old(delivered), n, p.Length, e)
    {
      n, e := 0, NoError;
      if !open {
        return 0, ReadClosed;
      }
      LeadingSize(table.rows, consumed);
      assert delivered + [] == delivered && p[..0] == [];
      while n < p.Length
        invariant Valid() && e.NoError? && open && n <= p.Length && |consumed| <= |table.rows|
        invariant delivered == old(delivered) + p[..n] && p[n..] == old(p[n..])
        invariant old(consumed) <= consumed && corrupt == old(corrupt)
        invariant old(table.queries) <= table.queries && !table.RefusedSince(old(table.queries))
        decreases |table.rows| - |consumed|, p.Length - n
      {
        ghost var before := p[..n];
        ghost var from := n;
        n, e := CopyAndRefill(p, n);
        assert p[..n] == before + p[from..n];
        if !e.NoError? {
          break;
        }
      }
      if e.EOF? && n > 0 {
        e := NoError;
      }
      if !old(corrupt) {
        FullRead(table.rows, consumed, old(delivered), delivered, buf, n, p.Length, e);
      }
    }

    method Close()
      modifies this`open
      ensures !open
    {
      open := false;
    }
  }
}
