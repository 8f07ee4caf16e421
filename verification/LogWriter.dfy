/**
  The writer that turns the output of a subprocess, which arrives in arbitrary chunks, into one
  pipe item per line.
 */
module LogWriter {

  function Flatten(items: seq<string>): string {
    if items == [] then "" else items[0] + Flatten(items[1..])
  }

  // One line: its only line break is at its end.
  predicate IsLine(s: string) {
    s != "" && s[|s| - 1] == '\n' && '\n' !in s[..|s| - 1]
  }

  // The position after the first line break, or the length of the text.
  function LineEnd(s: string): (e: nat)
    ensures e <= |s| && (s != "" ==> e > 0)
    ensures '\n' in s ==> IsLine(s[..e])
    ensures '\n' !in s ==> e == |s|
  {
    if s == "" then 0
    else if s[0] == '\n' then 1
    else
      var e := 1 + LineEnd(s[1..]);
      assert s[..e] == [s[0]] + s[1..][..e - 1];
      assert '\n' in s ==> '\n' in s[1..];
      e
  }

  // The lines of a text, the last one possibly without a line break.
  function Lines(s: string): seq<string>
    decreases |s|
  {
    if s == "" then [] else [s[..LineEnd(s)]] + Lines(s[LineEnd(s)..])
  }

  lemma {:induction false} FlattenAppend(items: seq<string>, item: string)
    ensures Flatten(items + [item]) == Flatten(items) + item
    decreases |items|
  {
    if items == [] {
      assert [item][1..] == [] && items + [item] == [item];
    } else {
      FlattenAppend(items[1..], item);
      assert (items + [item])[1..] == items[1..] + [item];
    }
  }

  lemma {:induction false} LineFirst(line: string, rest: string)
    requires IsLine(line)
    ensures LineEnd(line + rest) == |line|
    decreases |line|
  {
    assert |line| > 1 ==> line[..|line| - 1][0] == line[0];
    if line[0] != '\n' {
      assert line[1..][..|line| - 2] == line[..|line| - 1][1..];
      LineFirst(line[1..], rest);
      assert (line + rest)[1..] == line[1..] + rest;
    }
  }

  lemma LinesPrepend(line: string, rest: string)
    requires IsLine(line)
    ensures Lines(line + rest) == [line] + Lines(rest)
  {
    LineFirst(line, rest);
    assert (line + rest)[..|line|] == line && (line + rest)[|line|..] == rest;
  }

  // Lines followed by a remainder without a line break are the lines of their concatenation: there
  // is no other way to cut a text into lines.
  lemma {:induction false} LinesUnique(items: seq<string>, rest: string)
    requires (forall i :: 0 <= i < |items| ==> IsLine(items[i])) && '\n' !in rest
    ensures Lines(Flatten(items) + rest) == if rest == "" then items else items + [rest]
    decreases |items|
  {
    if items == [] {
      assert "" + rest == rest;
      assert rest != "" ==> rest[..|rest|] == rest && rest[|rest|..] == "";
    } else {
      LinesUnique(items[1..], rest);
      LinesPrepend(items[0], Flatten(items[1..]) + rest);
      assert Flatten(items) + rest == items[0] + (Flatten(items[1..]) + rest);
    }
  }

  // A line keeps its line break.
  lemma TwoLines()
    ensures Lines("a\n" + "b") == ["a\n", "b"]
  {
    LinesPrepend("a\n", "b");
    assert LineEnd("b") == 1 && "b"[..1] == "b" && "b"[1..] == "";
    assert Lines("b") == ["b"];
  }

  // The writing end of the pipe.  Which writes are refused, counted from 0, is up to the reader: it
  // refuses none before it has closed.
  class PipeEnd {
    const refused: set<nat>
    var tried: nat
    ghost var sent: seq<string>

    constructor (refused: set<nat>)
      ensures this.refused == refused && tried == 0 && sent == []
    {
      this.refused, tried, sent := refused, 0, [];
    }

    // One of the writes from the given one on was refused.
    ghost predicate RefusedSince(first: nat)
      reads this`tried
    {
      exists k :: k in refused && first <= k < tried
    }

    method Write(item: string) returns (failed: bool)
      modifies this
      ensures failed <==> old(tried) in refused
      ensures tried == old(tried) + 1
      ensures sent == if failed then old(sent) else old(sent) + [item]
    {
      failed := tried in refused;
      tried := tried + 1;
      if !failed {
        sent := sent + [item];
      }
    }
  }

  class LogChanWriter {
    const wr: PipeEnd
    var buf: string
    var prev: string
    // Everything written so far.
    ghost var written: string

    // Nothing is lost: what was sent, the unfinished line and the buffer are what was written.
    ghost predicate Valid()
      reads this, wr
    {
      Flatten(wr.sent) + prev + buf == written
    }

    // Every item sent is one line and only an unfinished line is held back.
    ghost predicate Clean()
      reads this, wr
    {
      buf == "" && '\n' !in prev && forall i :: 0 <= i < |wr.sent| ==> IsLine(wr.sent[i])
    }

    constructor (wr: PipeEnd)
      requires wr.sent == []
      ensures Valid() && Clean() && this.wr == wr && written == ""
    {
      this.wr, buf, prev, written := wr, "", "", "";
    }

    // Takes the buffer up to and including its next line break, or all of it.
    method ReadString() returns (line: string, eof: bool)
      modifies this`buf
      ensures old(buf) == line + buf
      ensures if eof then '\n' !in line && buf == "" else IsLine(line)
    {
      var e := LineEnd(buf);
      line, eof := buf[..e], '\n' !in buf;
      buf := buf[e..];
    }

    method Write(p: string) returns (n: nat, failed: bool)
      requires Valid()
      modifies this, wr
      ensures Valid() && written == old(written) + p
      // it fails exactly if an item is refused, and stops there
      ensures failed <==> wr.RefusedSince(old(wr.tried))
      ensures old(wr.tried) <= wr.tried && (failed ==> wr.tried - 1 in wr.refused)
      ensures n == if failed then |prev| else |p|
      ensures !failed && old(Clean()) ==> Clean()
      ensures old(wr.sent) <= wr.sent
    {
      n, failed := |p|, false;
      assert Flatten(wr.sent) + prev + (buf + p) == (Flatten(wr.sent) + prev + buf) + p;
      buf, written := buf + p, written + p;
      ghost var clean := old(Clean());
      while true
        invariant Valid() && !failed && n == |p| && written == old(written) + p && old(wr.sent) <= wr.sent
        invariant old(wr.tried) <= wr.tried && !wr.RefusedSince(old(wr.tried))
        invariant clean ==> '\n' !in prev && forall i :: 0 <= i < |wr.sent| ==> IsLine(wr.sent[i])
        decreases |buf|
      {
        ghost var before := Flatten(wr.sent);
        ghost var held, rest := prev, buf;
        var line, eof := ReadString();
        prev := prev + line;
        assert before + prev + buf == before + held + rest;
        if eof {
          break;
        }
        LineJoin(held, line);
        failed := SendLine();
        if failed {
          return |prev|, true;
        }
      }
    }

    // Sends the line that is finished now.
    method SendLine() returns (failed: bool)
      requires Valid()
      modifies this`prev, wr
      ensures Valid()
      ensures failed <==> old(wr.tried) in wr.refused
      ensures wr.tried == old(wr.tried) + 1
      ensures if failed then prev == old(prev) && wr.sent == old(wr.sent)
              else prev == "" && wr.sent == old(wr.sent) + [old(prev)]
    {
      failed := wr.Write(prev);
      if !failed {
        FlattenAppend(old(wr.sent), prev);
        assert Flatten(wr.sent) + "" + buf == Flatten(old(wr.sent)) + prev + buf;
        prev := "";
      }
    }

    // Sends the unfinished line, if any, whether or not the pipe still takes it.
    method Close() returns (ghost lost: bool)
      requires Valid()
      modifies this, wr
      ensures prev == "" && written == old(written)
      ensures lost <==> old(prev) != "" && old(wr.tried) in wr.refused
      // unless an item is refused, the items sent are the lines of all that was written, whatever
      // the chunks were
      ensures old(Clean()) && !lost ==> wr.sent == Lines(written)
    {
      lost := false;
      if old(Clean()) {
        LinesUnique(wr.sent, prev);
        assert Flatten(wr.sent) + prev + "" == Flatten(wr.sent) + prev;
      }
      if |prev| > 0 {
        lost := wr.Write(prev);
        prev := "";
      }
    }
  }

  lemma LineJoin(held: string, line: string)
    requires IsLine(line)
    ensures '\n' !in held ==> IsLine(held + line)
  {
    var s := held + line;
    assert s[..|s| - 1] == held + line[..|line| - 1];
  }
}
