/** Capture thread and decode loop under every interleaving of their critical sections. */
module CapturePlayback {
  import opened CaptureQueues

  /** Where the decode loop is between two of its critical sections. */
  datatype Phase =
    | Idle
    | Draining
    | InHand(f: Frame)
    | Testing
    | Finished

  /** `reading` is false once the reader has left its loop, be it at the end of the file or because it was
      broken off. The histories say which frames have been accepted into the queue, popped and dispatched. */
  datatype State = State(
    file: seq<Frame>, next: nat, reading: bool, closed: bool, eof: bool, queue: seq<Frame>, phase: Phase,
    accepted: seq<Frame>, popped: seq<Frame>, dispatched: seq<Dispatch>)

  function Start(file: seq<Frame>): State {
    State(file, 0, true, false, false, [], Idle, [], [], [])
  }

  datatype Event =
    | Read
    | ReachEnd
    | BreakOff
    | CloseCache
    | Tick
    | Pop
    | Send
    | Test

  /** Every event is the whole of one critical section, or lies between two. One that is not due changes
      nothing. */
  function Step(st: State, e: Event): State {
    match e
    case Read =>
      if !st.reading || st.next >= |st.file| then st
      else
        var f := st.file[st.next];
        if st.closed then st.(next := st.next + 1)
        else st.(next := st.next + 1, queue := st.queue + [f], accepted := st.accepted + [f])
    case ReachEnd =>
      if !st.reading || st.next < |st.file| then st else st.(reading := false, eof := true)
    case BreakOff => st.(reading := false)
    case CloseCache => st.(closed := true)
    case Tick => if st.phase.Idle? then st.(phase := Draining) else st
    case Pop =>
      if !st.phase.Draining? then st
      else if st.queue == [] then st.(phase := Testing)
      else
        var f := st.queue[0];
        st.(queue := st.queue[1..], popped := st.popped + [f],
            phase := if HandedLength(f) == 0 then Testing else InHand(f))
    case Send =>
      if !st.phase.InHand? then st
      else st.(dispatched := st.dispatched + [DispatchOf(st.phase.f)], phase := Draining)
    case Test =>
      if !st.phase.Testing? then st
      else st.(phase := if st.eof && st.queue == [] then Finished else Idle)
  }

  function Run(st: State, es: seq<Event>): State {
    if es == [] then st else Step(Run(st, es[..|es| - 1]), es[|es| - 1])
  }

  /** The dispatches that frames give rise to: one each, but none for a frame that looks empty. */
  function Due(fs: seq<Frame>): seq<Dispatch> {
    if fs == [] then []
    else
      var f := fs[|fs| - 1];
      Due(fs[..|fs| - 1]) + if HandedLength(f) == 0 then [] else [DispatchOf(f)]
  }

  function Hand(p: Phase): seq<Frame> {
    if p.InHand? then [p.f] else []
  }

  // ---- The invariant -----------------------------------------------------------------------------

  ghost predicate Inv(st: State) {
    && st.next <= |st.file| && |st.accepted| <= st.next && st.accepted == st.file[..|st.accepted|]
    && (!st.closed ==> |st.accepted| == st.next)
    && st.popped + st.queue == st.accepted
    && (st.eof ==> !st.reading && st.next == |st.file|)
    && st.dispatched + Due(Hand(st.phase)) == Due(st.popped)
    && (st.phase.InHand? ==> HandedLength(st.phase.f) != 0)
    && (st.phase.Finished? ==> st.eof && st.queue == [])
  }

  lemma StartInv(file: seq<Frame>)
    ensures Inv(Start(file))
  {
  }

  lemma DueOfHand(f: Frame)
    ensures Due([f]) == if HandedLength(f) == 0 then [] else [DispatchOf(f)]
  {
    assert [f][..0] == [];
  }

  lemma DueSnoc(fs: seq<Frame>, f: Frame)
    ensures Due(fs + [f]) == Due(fs) + if HandedLength(f) == 0 then [] else [DispatchOf(f)]
  {
    assert (fs + [f])[..|fs|] == fs;
  }

  lemma ReadKeepsInv(st: State)
    requires Inv(st)
    ensures Inv(Step(st, Read))
  {
    hide Due;
    if st.reading && st.next < |st.file| && !st.closed {
      var f := st.file[st.next];
      assert st.file[..st.next + 1] == st.file[..st.next] + [f];
      assert st.popped + (st.queue + [f]) == st.popped + st.queue + [f];
    }
  }

  lemma PopKeepsInv(st: State)
    requires Inv(st)
    ensures Inv(Step(st, Pop))
  {
    hide Due, DispatchOf, HandedLength;
    if st.phase.Draining? && st.queue != [] {
      var f := st.queue[0];
      assert st.popped + [f] + st.queue[1..] == st.popped + st.queue;
      DueSnoc(st.popped, f);
      DueOfHand(f);
      NothingDue(st.dispatched);
    }
  }

  lemma NothingDue(ds: seq<Dispatch>)
    ensures Due([]) == [] && ds + [] == ds
  {
  }

  lemma SendKeepsInv(st: State)
    requires Inv(st)
    ensures Inv(Step(st, Send))
  {
    hide Due, DispatchOf, HandedLength;
    if st.phase.InHand? {
      DueOfHand(st.phase.f);
      NothingDue(st.dispatched + [DispatchOf(st.phase.f)]);
    }
  }

  lemma StepKeepsInv(st: State, e: Event)
    requires Inv(st)
    ensures Inv(Step(st, e))
  {
    hide Due, DispatchOf, HandedLength;
    match e
    case Read => ReadKeepsInv(st);
    case Pop => PopKeepsInv(st);
    case Send => SendKeepsInv(st);
    case _ =>
  }

  lemma {:induction false} RunKeepsInv(st: State, es: seq<Event>)
    requires Inv(st)
    ensures Inv(Run(st, es))
  {
    hide Inv;
    if es != [] {
      RunKeepsInv(st, es[..|es| - 1]);
      StepKeepsInv(Run(st, es[..|es| - 1]), es[|es| - 1]);
    }
  }

  function Reads(es: seq<Event>): nat {
    if es == [] then 0 else Reads(es[..|es| - 1]) + if es[|es| - 1] == Read then 1 else 0
  }

  /** A reader that is not broken off takes one frame each time until the file ends, closed queue or not, and leaves
      its loop only then. */
  lemma {:induction false} ReaderGetsOn(file: seq<Frame>, es: seq<Event>)
    requires BreakOff !in es
    ensures var st := Run(Start(file), es);
      && st.next == (if Reads(es) < |file| then Reads(es) else |file|)
      && (st.reading <==> !st.eof) && (st.eof ==> st.next == |file|)
  {
    if es != [] {
      var n := |es| - 1;
      assert BreakOff !in es[..n] && es[n] != BreakOff;
      ReaderGetsOn(file, es[..n]);
      RunKeepsFile(Start(file), es[..n]);
    }
  }

  // ---- Order and completeness ----------------------------------------------------------------------

  lemma {:induction false} DuePrefix(fs: seq<Frame>, n: nat)
    requires n <= |fs|
    ensures Due(fs[..n]) <= Due(fs)
  {
    if n == |fs| {
      assert fs[..n] == fs;
    } else {
      DuePrefix(fs[..|fs| - 1], n);
      assert fs[..|fs| - 1][..n] == fs[..n];
    }
  }

  lemma {:induction false} RunKeepsFile(st: State, es: seq<Event>)
    ensures Run(st, es).file == st.file
    ensures CloseCache !in es ==> Run(st, es).closed == st.closed
  {
    if es != [] {
      RunKeepsFile(st, es[..|es| - 1]);
      assert CloseCache !in es ==> CloseCache !in es[..|es| - 1] && es[|es| - 1] != CloseCache;
    }
  }

  /** At every moment of every run, what has been dispatched is what is due of some first frames of the file: in
      capture order, each with its own data and time, none twice and none left out. */
  lemma InCaptureOrder(file: seq<Frame>, es: seq<Event>)
    ensures Run(Start(file), es).dispatched <= Due(file)
  {
    var st := Run(Start(file), es);
    StartInv(file);
    RunKeepsInv(Start(file), es);
    RunKeepsFile(Start(file), es);
    var n := |st.popped|;
    assert st.popped == (st.popped + st.queue)[..n];
    assert st.accepted[..n] == file[..|st.accepted|][..n] == file[..n];
    DuePrefix(file, n);
  }

  /** When the end of playback is announced and the session was not closed before, every frame of the file has
      been dispatched, once each, in order. The reader may still have been at work between the last pop and the
      test: if it added anything, the test does not succeed. */
  lemma FinishedMeansAll(file: seq<Frame>, es: seq<Event>)
    requires CloseCache !in es && Run(Start(file), es).phase.Finished?
    ensures Run(Start(file), es).dispatched == Due(file)
  {
    hide Step, Due;
    var st := Run(Start(file), es);
    StartInv(file);
    RunKeepsInv(Start(file), es);
    RunKeepsFile(Start(file), es);
    NothingDue(st.dispatched);
    assert st.popped + [] == st.popped;
    assert file[..|file|] == file;
  }

  lemma {:induction false} DueConcat(a: seq<Frame>, b: seq<Frame>)
    ensures Due(a + b) == Due(a) + Due(b)
  {
    if b == [] {
      assert a + b == a;
    } else {
      var n := |b| - 1;
      DueConcat(a, b[..n]);
      assert (a + b)[..|a + b| - 1] == a + b[..n];
    }
  }

  lemma {:induction false} NoneDueIff(fs: seq<Frame>)
    ensures Due(fs) == [] <==> forall i | 0 <= i < |fs| :: HandedLength(fs[i]) == 0
  {
    hide HandedLength, DispatchOf;
    if fs != [] {
      var n := |fs| - 1;
      NoneDueIff(fs[..n]);
      assert forall i | 0 <= i < n :: fs[..n][i] == fs[i];
    }
  }

  /** With the session closed on the way, the end can still be announced. Then all that was due has gone out
      exactly when every frame the closed queue turned away looked empty. */
  lemma FinishedAllIff(file: seq<Frame>, es: seq<Event>)
    requires Run(Start(file), es).phase.Finished?
    ensures var st := Run(Start(file), es);
      && |st.accepted| <= |file|
      && (st.dispatched == Due(file) <==> forall i | |st.accepted| <= i < |file| :: HandedLength(file[i]) == 0)
  {
    hide Step, Due, HandedLength, DispatchOf;
    var st := Run(Start(file), es);
    StartInv(file);
    RunKeepsInv(Start(file), es);
    RunKeepsFile(Start(file), es);
    NothingDue(st.dispatched);
    assert st.popped + [] == st.popped;
    var n := |st.accepted|;
    assert file == file[..n] + file[n..];
    DueConcat(file[..n], file[n..]);
    NoneDueIff(file[n..]);
    assert forall i | n <= i < |file| :: file[i] == file[n..][i - n];
  }

  // ---- Playback does end -----------------------------------------------------------------------------

  /** What the decode loop does next, ticking again whenever it is idle. */
  function NextEvent(p: Phase): Event {
    match p
    case Idle => Tick
    case Draining => Pop
    case InHand(_) => Send
    case Testing => Test
    case Finished => Test
  }

  function Loop(st: State, n: nat): State
    decreases n
  {
    if n == 0 then st else Loop(Step(st, NextEvent(st.phase)), n - 1)
  }

  function Rank(st: State): nat {
    var n := 4 * |st.queue|;
    match st.phase
    case Finished => 0
    case Testing => if st.queue == [] then 1 else n + 4
    case Draining => n + 2
    case Idle => n + 3
    case InHand(_) => n + 3
  }

  /** Once the reader is through, the loop alone brings playback to its end, frames that look empty included. */
  lemma {:induction false} PlaybackEnds(st: State)
    requires Inv(st) && st.eof
    ensures Loop(st, Rank(st)).phase.Finished?
    decreases Rank(st)
  {
    if !st.phase.Finished? {
      var st' := Step(st, NextEvent(st.phase));
      StepKeepsInv(st, NextEvent(st.phase));
      PlaybackEnds(st');
      LoopStays(st', Rank(st'), Rank(st) - 1);
    }
  }

  lemma {:induction false} LoopStays(st: State, n: nat, m: nat)
    requires n <= m && Loop(st, n).phase.Finished?
    ensures Loop(st, m).phase.Finished?
    decreases m
  {
    if m > 0 {
      LoopStays(Step(st, NextEvent(st.phase)), if n > 0 then n - 1 else 0, m - 1);
    }
  }

  // ---- One undisturbed tick is one call of the decode loop -----------------------------------------

  lemma {:induction false} DrainIsBatch(st: State)
    requires st.phase.Draining?
    ensures var end := Loop(st, 2 * |Batch(st.queue)| + 1);
      && end.phase.Testing? && end.queue == LeftOver(st.queue) && end.eof == st.eof
      && end.dispatched == st.dispatched + DispatchesOf(Batch(st.queue))
    decreases |st.queue|
  {
    hide DispatchOf, HandedLength;
    if st.queue != [] && HandedLength(st.queue[0]) != 0 {
      var f := st.queue[0];
      var st1 := Step(Step(st, Pop), Send);
      DrainIsBatch(st1);
      assert Loop(st, 2 * |Batch(st.queue)| + 1) == Loop(Step(st, Pop), 2 * |Batch(st.queue)|)
             == Loop(st1, 2 * |Batch(st1.queue)| + 1);
      DispatchesCons(f, Batch(st.queue[1..]));
      Regroup(st.dispatched, DispatchOf(f), DispatchesOf(Batch(st.queue[1..])));
    } else {
      assert st.dispatched + [] == st.dispatched;
    }
  }

  /** From idle, with nothing captured in between, the sections of one tick dispatch and leave behind just what
      the call does. */
  lemma TickIsACall(st: State)
    requires st.phase.Idle?
    ensures var end := Loop(st, 2 * |Batch(st.queue)| + 3);
      && end.queue == LeftOver(st.queue)
      && end.dispatched == st.dispatched + DispatchesOf(Batch(st.queue))
      && end.phase == if st.eof && LeftOver(st.queue) == [] then Finished else Idle
  {
    hide Batch, LeftOver, DispatchesOf;
    var st1 := Step(st, Tick);
    DrainIsBatch(st1);
    var n := 2 * |Batch(st.queue)| + 1;
    LoopSum(st1, n, 1);
    var end := Loop(st1, n);
    assert Loop(end, 1) == Step(end, Test);
  }

  lemma {:induction false} LoopSum(st: State, n: nat, m: nat)
    ensures Loop(st, n + m) == Loop(Loop(st, n), m)
    decreases n
  {
    hide Step;
    if n > 0 {
      LoopSum(Step(st, NextEvent(st.phase)), n - 1, m);
    }
  }
}
