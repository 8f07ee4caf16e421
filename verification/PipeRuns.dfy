/**
  The in-memory pipe as a step system: any number of writers, one reader, an unbuffered channel
  and a channel the reader closes to turn writers away.
 */
module PipeRuns {

  // The items a writer has offered with their outcomes (true: Write returned nil), whether a
  // Write is under way for the next item, and the items still to be offered.
  datatype Proc<T> = Proc(outcomes: seq<(T, bool)>, pending: bool, todo: seq<T>)

  // Received items carry the number of the writer that sent them.
  datatype State<T> = State(procs: seq<Proc<T>>, received: seq<(nat, T)>, receiving: bool, done: bool, wrClosed: bool)

  datatype Event = Start(w: nat) | Transfer(w: nat) | Refuse(w: nat) | StopReceiving | CloseReader | CloseWriter

  // ---- steps

  ghost predicate Pending<T>(s: State<T>, w: nat) {
    w < |s.procs| && s.procs[w].pending && s.procs[w].todo != []
  }

  ghost predicate AllReturned<T>(s: State<T>) {
    forall w :: 0 <= w < |s.procs| ==> !s.procs[w].pending && s.procs[w].todo == []
  }

  ghost predicate Enabled<T>(s: State<T>, e: Event) {
    match e
    case Start(w) => w < |s.procs| && !s.procs[w].pending && s.procs[w].todo != []
    // the rendezvous: a pending Write meets the reader's receive
    case Transfer(w) => Pending(s, w) && s.receiving
    // the other branch of the select
    case Refuse(w) => Pending(s, w) && s.done
    case StopReceiving => s.receiving
    case CloseReader => !s.done
    case CloseWriter => !s.wrClosed && AllReturned(s)
  }

  function Return<T>(p: Proc<T>, ok: bool): Proc<T>
    requires p.todo != []
  {
    Proc(p.outcomes + [(p.todo[0], ok)], false, p.todo[1..])
  }

  ghost function Do<T>(s: State<T>, e: Event): State<T>
    requires Enabled(s, e)
  {
    match e
    case Start(w) => s.(procs := s.procs[w := s.procs[w].(pending := true)])
    case Transfer(w) => s.(procs := s.procs[w := Return(s.procs[w], true)], received := s.received + [(w, s.procs[w].todo[0])])
    case Refuse(w) => s.(procs := s.procs[w := Return(s.procs[w], false)])
    case StopReceiving => s.(receiving := false)
    case CloseReader => s.(done := true)
    case CloseWriter => s.(wrClosed := true)
  }

  ghost predicate Runs<T>(s: State<T>, events: seq<Event>)
    decreases |events|
  {
    events == [] || (Enabled(s, events[0]) && Runs(Do(s, events[0]), events[1..]))
  }

  ghost function After<T>(s: State<T>, events: seq<Event>): State<T>
    requires Runs(s, events)
    decreases |events|
  {
    if events == [] then s else After(Do(s, events[0]), events[1..])
  }

  ghost predicate Initial<T>(s: State<T>, programs: seq<seq<T>>) {
    && |s.procs| == |programs|
    && (forall w :: 0 <= w < |programs| ==> s.procs[w] == Proc([], false, programs[w]))
    && s.received == [] && s.receiving && !s.done && !s.wrClosed
  }

  // ---- safety

  function Items<T>(outcomes: seq<(T, bool)>): seq<T> {
    if outcomes == [] then [] else Items(outcomes[..|outcomes| - 1]) + [outcomes[|outcomes| - 1].0]
  }

  function Accepted<T>(outcomes: seq<(T, bool)>): seq<T> {
    if outcomes == [] then []
    else
      var o := outcomes[|outcomes| - 1];
      Accepted(outcomes[..|outcomes| - 1]) + if o.1 then [o.0] else []
  }

  function From<T>(received: seq<(nat, T)>, w: nat): seq<T> {
    if received == [] then []
    else
      var r := received[|received| - 1];
      From(received[..|received| - 1], w) + if r.0 == w then [r.1] else []
  }

  lemma OutcomeAppend<T>(outcomes: seq<(T, bool)>, o: (T, bool))
    ensures Items(outcomes + [o]) == Items(outcomes) + [o.0]
    ensures Accepted(outcomes + [o]) == if o.1 then Accepted(outcomes) + [o.0] else Accepted(outcomes)
  {
    assert (outcomes + [o])[..|outcomes|] == outcomes;
  }

  lemma FromAppend<T>(received: seq<(nat, T)>, r: (nat, T), w: nat)
    ensures From(received + [r], w) == if r.0 == w then From(received, w) + [r.1] else From(received, w)
  {
    assert (received + [r])[..|received|] == received;
  }

  ghost predicate ProcInv<T>(p: Proc<T>, received: seq<(nat, T)>, w: nat, program: seq<T>) {
    && Items(p.outcomes) + p.todo == program
    && Accepted(p.outcomes) == From(received, w)
    && (p.pending ==> p.todo != [])
  }

  lemma ReturnInv<T>(p: Proc<T>, received: seq<(nat, T)>, w: nat, program: seq<T>, ok: bool)
    requires ProcInv(p, received, w, program) && p.todo != []
    ensures ProcInv(Return(p, ok), if ok then received + [(w, p.todo[0])] else received, w, program)
  {
    OutcomeAppend(p.outcomes, (p.todo[0], ok));
    FromAppend(received, (w, p.todo[0]), w);
    assert Items(p.outcomes) + [p.todo[0]] + p.todo[1..] == Items(p.outcomes) + p.todo;
  }

  // No Write of this writer has failed.
  ghost predicate NoFailure<T>(p: Proc<T>) {
    forall k :: 0 <= k < |p.outcomes| ==> p.outcomes[k].1
  }

  // What the reader has from each writer is exactly what its successful writes sent, in the order
  // in which the writer offered its items; nothing else was received; the writing end is closed
  // only when every Write has returned; and no Write fails before the reader has closed.
  ghost predicate Inv<T>(s: State<T>, programs: seq<seq<T>>) {
    && |s.procs| == |programs|
    && (forall w :: 0 <= w < |programs| ==> ProcInv(s.procs[w], s.received, w, programs[w]))
    && (forall k :: 0 <= k < |s.received| ==> s.received[k].0 < |programs|)
    && (s.wrClosed ==> AllReturned(s))
    && (!s.done ==> forall w :: 0 <= w < |s.procs| ==> NoFailure(s.procs[w]))
  }

  lemma StepInv<T>(s: State<T>, e: Event, programs: seq<seq<T>>)
    requires Inv(s, programs) && Enabled(s, e)
    ensures Inv(Do(s, e), programs)
  {
    var t := Do(s, e);
    forall w | 0 <= w < |programs|
      ensures ProcInv(t.procs[w], t.received, w, programs[w])
    {
      assert ProcInv(s.procs[w], s.received, w, programs[w]);
      if (e.Transfer? || e.Refuse?) && e.w == w {
        ReturnInv(s.procs[w], s.received, w, programs[w], e.Transfer?);
      } else if e.Transfer? {
        FromAppend(s.received, (e.w, s.procs[e.w].todo[0]), w);
      }
    }
    if !t.done {
      forall w | 0 <= w < |t.procs| ensures NoFailure(t.procs[w]) {
        assert NoFailure(s.procs[w]);
      }
    }
  }

  lemma {:induction false} RunInv<T>(s: State<T>, events: seq<Event>, programs: seq<seq<T>>)
    requires Inv(s, programs) && Runs(s, events)
    ensures Inv(After(s, events), programs)
    decreases |events|
  {
    if events != [] {
      StepInv(s, events[0], programs);
      RunInv(Do(s, events[0]), events[1..], programs);
    }
  }

  // Every run keeps the invariant.
  lemma Safety<T>(s: State<T>, events: seq<Event>, programs: seq<seq<T>>)
    requires Initial(s, programs) && Runs(s, events)
    ensures Inv(After(s, events), programs)
  {
    RunInv(s, events, programs);
  }

  // ---- no writer stays blocked

  // Two steps for every item still to be offered, one of which a pending Write has made.
  function Rest<T>(p: Proc<T>): nat {
    if p.todo == [] then 0 else 2 * |p.todo| - if p.pending then 1 else 0
  }

  // The steps the writers still have to make.
  function Work<T>(procs: seq<Proc<T>>): nat {
    if procs == [] then 0 else Work(procs[..|procs| - 1]) + Rest(procs[|procs| - 1])
  }

  lemma {:induction false} WorkUpdate<T>(procs: seq<Proc<T>>, w: nat, p: Proc<T>)
    requires w < |procs|
    ensures Work(procs[w := p]) - Work(procs) == Rest(p) - Rest(procs[w])
    decreases |procs|
  {
    var n := |procs| - 1;
    if w < n {
      WorkUpdate(procs[..n], w, p);
      assert procs[w := p][..n] == procs[..n][w := p];
    } else {
      assert procs[w := p][..n] == procs[..n];
    }
  }

  predicate WriterEvent(e: Event) {
    e.Start? || e.Transfer? || e.Refuse?
  }

  // Every writer step uses up one unit of work; the others leave it alone.
  lemma StepWork<T>(s: State<T>, e: Event)
    requires Enabled(s, e)
    ensures if WriterEvent(e) then Work(Do(s, e).procs) == Work(s.procs) - 1 else Do(s, e).procs == s.procs
  {
    if WriterEvent(e) {
      WorkUpdate(s.procs, e.w, Do(s, e).procs[e.w]);
    }
  }

  function WriterEvents(events: seq<Event>): nat {
    if events == [] then 0 else WriterEvents(events[1..]) + if WriterEvent(events[0]) then 1 else 0
  }

  // The writer steps of a run are exactly the work that it uses up.
  lemma {:induction false} WorkUsedUp<T>(s: State<T>, events: seq<Event>)
    requires Runs(s, events)
    ensures WriterEvents(events) + Work(After(s, events).procs) == Work(s.procs)
    decreases |events|
  {
    if events != [] {
      StepWork(s, events[0]);
      WorkUsedUp(Do(s, events[0]), events[1..]);
    }
  }

  function Total<T>(programs: seq<seq<T>>): nat {
    if programs == [] then 0 else Total(programs[..|programs| - 1]) + |programs[|programs| - 1]|
  }

  lemma {:induction false} InitialWork<T>(procs: seq<Proc<T>>, programs: seq<seq<T>>)
    requires |procs| == |programs| && forall w :: 0 <= w < |programs| ==> procs[w] == Proc([], false, programs[w])
    ensures Work(procs) == 2 * Total(programs)
    decreases |procs|
  {
    if procs != [] {
      InitialWork(procs[..|procs| - 1], programs[..|procs| - 1]);
    }
  }

  lemma {:induction false} NoWorkLeft<T>(procs: seq<Proc<T>>, w: nat)
    requires Work(procs) == 0 && w < |procs|
    ensures procs[w].todo == []
    decreases |procs|
  {
    if w < |procs| - 1 {
      NoWorkLeft(procs[..|procs| - 1], w);
    }
  }

  lemma {:induction false} NothingToDo<T>(procs: seq<Proc<T>>)
    requires forall w :: 0 <= w < |procs| ==> procs[w].todo == []
    ensures Work(procs) == 0
    decreases |procs|
  {
    if procs != [] {
      NothingToDo(procs[..|procs| - 1]);
    }
  }

  // A run has at most two writer steps for every item to offer, and that many exactly when all
  // writers have finished.
  lemma BoundedRuns<T>(s: State<T>, events: seq<Event>, programs: seq<seq<T>>)
    requires Initial(s, programs) && Runs(s, events)
    ensures WriterEvents(events) <= 2 * Total(programs)
    ensures WriterEvents(events) == 2 * Total(programs) <==> AllReturned(After(s, events))
  {
    WorkUsedUp(s, events);
    InitialWork(s.procs, programs);
    Safety(s, events, programs);
    var t := After(s, events);
    if Work(t.procs) == 0 {
      forall w | 0 <= w < |t.procs| ensures !t.procs[w].pending && t.procs[w].todo == [] {
        NoWorkLeft(t.procs, w);
        assert ProcInv(t.procs[w], t.received, w, programs[w]);
      }
    }
    if AllReturned(t) {
      NothingToDo(t.procs);
    }
  }

  // Once the reader has closed, a pending Write can return, and whenever some writer has not
  // finished, some writer step is possible: with the bound on writer steps, all of them finish.
  lemma NoWriterBlocked<T>(s: State<T>, programs: seq<seq<T>>)
    requires Inv(s, programs) && s.done
    ensures forall w :: 0 <= w < |s.procs| && s.procs[w].pending ==> Enabled(s, Refuse(w))
    ensures !AllReturned(s) ==> exists e :: WriterEvent(e) && Enabled(s, e)
  {
    if !AllReturned(s) {
      var w :| 0 <= w < |s.procs| && (s.procs[w].pending || s.procs[w].todo != []);
      assert WriterEvent(Refuse(w)) && WriterEvent(Start(w));
      assert Enabled(s, if s.procs[w].pending then Refuse(w) else Start(w));
    }
  }
}
