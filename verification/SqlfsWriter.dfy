/**
  The database table as the file system sees it, and the buffered writer that fills it.
 */
module SqlfsWriter {
  import opened Base64
  import opened Sqlfs
  import WriteRuns

  // What a query for ids from lo to hi may answer: the matching rows, in any order.
  ghost predicate Answers(rows: Rows, lo: int, hi: int, answer: seq<Row>) {
    forall r: Row :: multiset(answer)[r] == if lo <= r.id < hi then rows[r] else 0
  }

  class SqlTable {
    // The inserts and the queries that the database refuses, and the number of those tried so far.
    const refused: WriteRuns.Refused
    const refusedQueries: set<nat>
    var attempts: nat
    var queries: nat
    var rows: Rows

    // A created table is empty.
    constructor (refused: WriteRuns.Refused, refusedQueries: set<nat>)
      ensures rows == multiset{} && attempts == 0 && this.refused == refused
      ensures queries == 0 && this.refusedQueries == refusedQueries
    {
      this.refused, attempts, rows := refused, 0, multiset{};
      this.refusedQueries, queries := refusedQueries, 0;
    }

    // One of the queries from the given one on was refused.
    ghost predicate RefusedSince(first: nat)
      reads this`queries
    {
      exists k :: k in refusedQueries && first <= k < queries
    }

    // The database may refuse, and then nothing is stored.
    method Insert(row: Row) returns (failed: bool)
      modifies this`attempts, this`rows
      ensures failed <==> old(attempts) in refused
      ensures attempts == old(attempts) + 1
      ensures rows == if failed then old(rows) else old(rows) + multiset{row}
    {
      failed := attempts in refused;
      attempts := attempts + 1;
      if !failed {
        rows := rows + multiset{row};
      }
    }

    // The database may refuse, and then there is no answer.
    method Query(lo: int, hi: int) returns (answer: seq<Row>, failed: bool)
      modifies this`queries
      ensures failed <==> old(queries) in refusedQueries
      ensures queries == old(queries) + 1
      ensures !failed ==> Answers(rows, lo, hi, answer)
    {
      answer, failed := [], queries in refusedQueries;
      queries := queries + 1;
      var rest := rows;
      while !failed && exists r :: r in rest && lo <= r.id < hi
        invariant multiset(answer) + rest == rows
        invariant forall r :: r in answer ==> lo <= r.id < hi
        decreases |rest|
      {
        var r :| r in rest && lo <= r.id < hi;
        answer, rest := answer + [r], rest - multiset{r};
      }
      forall r: Row ensures !failed ==> multiset(answer)[r] == if lo <= r.id < hi then rows[r] else 0 {
        assert multiset(answer)[r] + rest[r] == rows[r];
        assert !failed && lo <= r.id < hi ==> r !in rest;
        assert r in multiset(answer) ==> r in answer;
      }
    }
  }

  // The flush hook: one row per non-empty buffer, under the next id.
  class Flusher {
    const table: SqlTable
    var row: nat

    constructor (table: SqlTable)
      ensures this.table == table && row == 0
    {
      this.table, row := table, 0;
    }

    method Flush(buf: seq<Byte>) returns (failed: bool)
      modifies this`row, table`attempts, table`rows
      ensures failed <==> buf != [] && old(table.attempts) in table.refused
      ensures table.attempts == if buf == [] then old(table.attempts) else old(table.attempts) + 1
      ensures row == if failed || buf == [] then old(row) else old(row) + 1
      ensures table.rows == if failed || buf == [] then old(table.rows)
                            else old(table.rows) + multiset{Row(old(row), Encode(buf))}
    {
      failed := false;
      if |buf| > 0 {
        var block := Encode(buf);
        failed := table.Insert(Row(row, block));
        if failed {
          return;
        }
        row := row + 1;
      }
    }
  }

  class FlushWriteCloser {
    const flushCap: nat
    const flusher: Flusher
    var buf: seq<Byte>
    // The blocks flushed so far.
    ghost var blocks: seq<seq<Byte>>

    ghost predicate Valid()
      reads this, flusher, flusher.table
    {
      && 0 < flushCap && |buf| <= flushCap
      && flusher.row == |blocks|
      && flusher.table.rows == RowsOf(blocks)
    }

    // The state as the specification sees it.
    ghost function State(): WriteRuns.Stream
      reads this, flusher, flusher.table
    {
      WriteRuns.Stream(blocks, buf, flusher.table.attempts)
    }

    // All bytes taken so far: those in the table, in order, and those in the buffer.
    ghost function Accepted(): seq<Byte>
      reads this, flusher, flusher.table
    {
      WriteRuns.Taken(State())
    }

    constructor (flusher: Flusher, flushCap: nat)
      requires 0 < flushCap && flusher.row == 0
      requires flusher.table.rows == multiset{} && flusher.table.attempts == 0
      ensures this.flusher == flusher && this.flushCap == flushCap
      ensures Valid() && State() == WriteRuns.Start
    {
      this.flushCap, this.flusher, buf := flushCap, flusher, [];
      blocks := [];
    }

    // Hands the buffer to the flush hook and empties it, or leaves everything as it was.
    method FlushBuffer() returns (failed: bool)
      requires Valid()
      modifies this`buf, this`blocks, flusher, flusher.table`attempts, flusher.table`rows
      ensures Valid()
      ensures var r := WriteRuns.Flush(old(State()), flusher.table.refused);
        State() == r.stream && failed == r.failed
      ensures failed || old(buf) == [] ==> flusher.table.rows == old(flusher.table.rows)
    {
      failed := flusher.Flush(buf);
      if !failed {
        if buf != [] {
          RowsAppend(blocks, buf);
          blocks := blocks + [buf];
        }
        buf := [];
      }
    }

    // Fills the buffer and flushes it whenever it is full.
    method WriteLoop(p0: seq<Byte>) returns (n: nat, failed: bool)
      requires Valid()
      modifies this, flusher, flusher.table`attempts, flusher.table`rows
      ensures Valid()
      ensures WriteRuns.Write(old(State()), p0, flushCap, flusher.table.refused) == WriteRuns.Outcome(State(), n, failed)
    {
      ghost var whole := WriteRuns.Write(State(), p0, flushCap, flusher.table.refused);
      n, failed := 0, false;
      var p := p0;
      while |p| > 0
        invariant Valid() && !failed
        // what is still to do leads to the same outcome
        invariant WriteRuns.Write(State(), p, flushCap, flusher.table.refused).Ahead(n) == whole
        decreases |p|, |buf|
      {
        ghost var f, q := State(), p;
        WriteRuns.WriteRound(f, q, flushCap, flusher.table.refused);
        var fill := flushCap - |buf|;
        if fill > |p| {
          fill := |p|;
        }
        buf := buf + p[..fill];
        p := p[fill..];
        n := n + fill;
        assert State() == WriteRuns.Filled(f, q, flushCap) && p == q[WriteRuns.Fill(f, q, flushCap)..];
        if |buf| >= flushCap {
          failed := FlushBuffer();
          if failed {
            return;
          }
        }
      }
    }

    method Write(p0: seq<Byte>) returns (n: nat, failed: bool)
      requires Valid()
      modifies this, flusher, flusher.table`attempts, flusher.table`rows
      ensures Valid() && n <= |p0| && Accepted() == old(Accepted()) + p0[..n]
      // success takes everything; failure leaves a full buffer to be flushed again
      ensures if failed then |buf| == flushCap else n == |p0| && (p0 != [] ==> |buf| < flushCap)
      // only full buffers are flushed
      ensures old(blocks) <= blocks && FullFrom(blocks, |old(blocks)|, flushCap)
      ensures WriteRuns.Write(old(State()), p0, flushCap, flusher.table.refused) == WriteRuns.Outcome(State(), n, failed)
    {
      WriteRuns.WriteSize(State(), p0, flushCap, flusher.table.refused);
      WriteRuns.WriteBytes(State(), p0, flushCap, flusher.table.refused);
      WriteRuns.WriteCounts(State(), p0, flushCap, flusher.table.refused);
      n, failed := WriteLoop(p0);
    }

    method Close() returns (failed: bool)
      requires Valid()
      modifies this, flusher, flusher.table`attempts, flusher.table`rows
      ensures Valid() && Accepted() == old(Accepted())
      ensures var r := WriteRuns.Flush(old(State()), flusher.table.refused);
        State() == r.stream && failed == r.failed
      // closing again changes nothing and cannot fail
      ensures old(buf) == [] ==> !failed && State() == old(State()) && flusher.table.rows == old(flusher.table.rows)
    {
      WriteRuns.FlushFacts(State(), flusher.table.refused);
      failed := FlushBuffer();
    }
  }

  // A writer that has flushed only full buffers and is then closed leaves the canonical rows,
  // however the bytes were split into writes and however often a flush had to be retried.
  lemma ClosedRows(blocks: seq<seq<Byte>>, buf: seq<Byte>, size: nat)
    requires size > 0 && FullFrom(blocks, 0, size) && |buf| <= size
    ensures RowsOf(if buf == [] then blocks else blocks + [buf]) == FileRows(Concat(blocks) + buf, size)
  {
    ChunksOfFull(blocks, buf, size);
  }
}
