/**
  A file kept in a database table: what the rows of a table say about the bytes of the file.
 */
module Sqlfs {
  import opened Base64

  datatype Row = Row(id: int, block: string)

  type Rows = multiset<Row>

  function Concat(blocks: seq<seq<Byte>>): seq<Byte> {
    if blocks == [] then [] else Concat(blocks[..|blocks| - 1]) + blocks[|blocks| - 1]
  }

  // The rows of a table that holds the given blocks under the ids 0, 1, 2, ...
  function Numbered(blocks: seq<string>): seq<Row> {
    seq(|blocks|, i requires 0 <= i < |blocks| => Row(i, blocks[i]))
  }

  function Encoded(blocks: seq<seq<Byte>>): seq<string> {
    seq(|blocks|, i requires 0 <= i < |blocks| => Encode(blocks[i]))
  }

  function RowsOf(blocks: seq<seq<Byte>>): Rows {
    multiset(Numbered(Encoded(blocks)))
  }

  // The bytes cut into blocks of the given size, the last one possibly shorter.
  function Chunks(bytes: seq<Byte>, size: nat): seq<seq<Byte>>
    requires size > 0
  {
    if bytes == [] then []
    else if |bytes| <= size then [bytes]
    else [bytes[..size]] + Chunks(bytes[size..], size)
  }

  // The table a closed writer leaves for these bytes.
  function FileRows(bytes: seq<Byte>, size: nat): Rows
    requires size > 0
  {
    RowsOf(Chunks(bytes, size))
  }

  lemma {:induction false} ConcatAppend(blocks: seq<seq<Byte>>, block: seq<Byte>)
    ensures Concat(blocks + [block]) == Concat(blocks) + block
  {
    assert (blocks + [block])[..|blocks|] == blocks;
  }

  lemma {:induction false} ConcatPrepend(block: seq<Byte>, blocks: seq<seq<Byte>>)
    ensures Concat([block] + blocks) == block + Concat(blocks)
    decreases |blocks|
  {
    if blocks == [] {
      assert [block] + blocks == [] + [block];
      ConcatAppend([], block);
    } else {
      var n := |blocks| - 1;
      ConcatPrepend(block, blocks[..n]);
      assert [block] + blocks == ([block] + blocks[..n]) + [blocks[n]];
      ConcatAppend([block] + blocks[..n], blocks[n]);
    }
  }

  lemma RowsAppend(blocks: seq<seq<Byte>>, block: seq<Byte>)
    ensures RowsOf(blocks + [block]) == RowsOf(blocks) + multiset{Row(|blocks|, Encode(block))}
  {
    assert Numbered(Encoded(blocks + [block])) == Numbered(Encoded(blocks)) + [Row(|blocks|, Encode(block))];
  }

  ghost predicate FullFrom(blocks: seq<seq<Byte>>, k: nat, size: nat) {
    forall i :: k <= i < |blocks| ==> |blocks[i]| == size
  }

  // A run of full blocks and a remainder no longer than a block are the chunks of their bytes.
  lemma {:induction false} ChunksOfFull(blocks: seq<seq<Byte>>, last: seq<Byte>, size: nat)
    requires size > 0 && FullFrom(blocks, 0, size) && |last| <= size
    ensures Chunks(Concat(blocks) + last, size) == if last == [] then blocks else blocks + [last]
    decreases |blocks|
  {
    if blocks == [] {
      assert Concat(blocks) + last == last;
    } else {
      var first, rest := blocks[0], blocks[1..];
      assert blocks == [first] + rest;
      ChunksOfFull(rest, last, size);
      ChunksPrepend(first, Concat(rest) + last, size);
      assert Concat(blocks) + last == first + (Concat(rest) + last) by {
        ConcatPrepend(first, rest);
      }
    }
  }

  // Blocks taken from a stream one after another: all are full, except for the last when the
  // stream has ended.
  ghost predicate Cut(blocks: seq<seq<Byte>>, size: nat, ended: bool) {
    forall i: nat :: i < |blocks| ==> CutAt(blocks, size, ended, i)
  }

  predicate CutAt(blocks: seq<seq<Byte>>, size: nat, ended: bool, i: nat)
    requires i < |blocks|
  {
    if ended && i == |blocks| - 1 then 0 < |blocks[i]| <= size else |blocks[i]| == size
  }

  lemma CutMore(blocks: seq<seq<Byte>>, block: seq<Byte>, size: nat, ended: bool)
    requires size > 0 && Cut(blocks, size, false)
    requires if ended then 0 < |block| <= size else |block| == size
    ensures Cut(blocks + [block], size, ended)
  {
    forall i: nat | i < |blocks + [block]| ensures CutAt(blocks + [block], size, ended, i) {
      assert i < |blocks| ==> CutAt(blocks, size, false, i);
    }
  }

  // Such blocks are the first ones of the canonical cut, and all of it when the stream has ended.
  lemma {:induction false} CutIsChunks(blocks: seq<seq<Byte>>, rest: seq<Byte>, size: nat)
    requires size > 0 && Cut(blocks, size, rest == [])
    ensures Chunks(Concat(blocks) + rest, size) == blocks + Chunks(rest, size)
    decreases |blocks|
  {
    if blocks == [] {
      assert Concat(blocks) + rest == rest;
    } else {
      var first, more, ended := blocks[0], blocks[1..], rest == [];
      assert blocks == [first] + more;
      assert CutAt(blocks, size, ended, 0);
      forall i: nat | i < |more| ensures CutAt(more, size, ended, i) {
        assert CutAt(blocks, size, ended, i + 1);
      }
      CutIsChunks(more, rest, size);
      assert Concat(blocks) + rest == first + (Concat(more) + rest) by {
        ConcatPrepend(first, more);
      }
      if |first| == size {
        ChunksPrepend(first, Concat(more) + rest, size);
      } else {
        assert Concat(blocks) + rest == first;
      }
    }
  }

  lemma ChunksPrepend(first: seq<Byte>, rest: seq<Byte>, size: nat)
    requires |first| == size > 0
    ensures Chunks(first + rest, size) == [first] + Chunks(rest, size)
  {
    var bytes := first + rest;
    if rest == [] {
      assert bytes == first;
    } else {
      assert bytes[..size] == first && bytes[size..] == rest;
    }
  }

  // Cutting loses nothing.
  lemma {:induction false} ConcatChunks(bytes: seq<Byte>, size: nat)
    requires size > 0
    ensures Concat(Chunks(bytes, size)) == bytes
    decreases |bytes|
  {
    if bytes == [] {
    } else if |bytes| <= size {
      ConcatAppend([], bytes);
      assert [bytes] == [] + [bytes];
    } else {
      ConcatChunks(bytes[size..], size);
      ConcatPrepend(bytes[..size], Chunks(bytes[size..], size));
    }
  }

  // N bytes take ceil(N / size) rows, all full except possibly the last.
  lemma {:induction false} ChunksShape(bytes: seq<Byte>, size: nat)
    requires size > 0
    ensures var c := Chunks(bytes, size);
      && (|c| - 1) * size < |bytes| <= |c| * size
      && (forall i :: 0 <= i < |c| ==> 0 < |c[i]| <= size && (i < |c| - 1 ==> |c[i]| == size))
    decreases |bytes|
  {
    if |bytes| > size {
      var rest := Chunks(bytes[size..], size);
      ChunksShape(bytes[size..], size);
      assert |rest| * size == (|rest| - 1) * size + size;
    }
  }
}
