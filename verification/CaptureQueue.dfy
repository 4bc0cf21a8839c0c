/** The linked queue between the thread that captures frames and the loop that decodes them. Each method is one
    critical section. */
module CaptureQueues {
  const UINT16_MODULUS := 0x1_0000

  datatype Frame = Frame(data: seq<int>, ts: int)

  /** The length a popped frame is handed over with: 16 bits of it. */
  function HandedLength(f: Frame): (r: nat)
    ensures r <= |f.data|
  {
    |f.data| % UINT16_MODULUS
  }

  /** A frame is handed over whole exactly if it is shorter than 64 KB, and looks empty exactly if its length is a
      multiple of that. */
  lemma HandedWholeIff(f: Frame)
    ensures HandedLength(f) == |f.data| <==> |f.data| < 65536
    ensures HandedLength(f) == 0 <==> exists k: nat :: |f.data| == 65536 * k
    ensures HandedLength(f) < 65536 && exists k: nat :: |f.data| == 65536 * k + HandedLength(f)
  {
    var k := |f.data| / 65536;
    assert |f.data| == 65536 * k + HandedLength(f);
  }

  /** What popping hands over: of the oldest frame as much as its 16-bit length says, of none nothing. */
  function Handed(fs: seq<Frame>): (nat, seq<int>) {
    if fs == [] then (0, []) else (HandedLength(fs[0]), fs[0].data[..HandedLength(fs[0])])
  }

  function Behind(fs: seq<Frame>): seq<Frame> {
    if fs == [] then [] else fs[1..]
  }

  class Node {
    const frame: Frame
    var next: Node?

    constructor (frame: Frame)
      ensures this.frame == frame && next == null
    {
      this.frame := frame;
      next := null;
    }
  }

  function FramesOf(ns: seq<Node>): (r: seq<Frame>)
    ensures |r| == |ns| && forall i | 0 <= i < |ns| :: r[i] == ns[i].frame
  {
    seq(|ns|, i requires 0 <= i < |ns| => ns[i].frame)
  }

  function Successor(ns: seq<Node>, i: nat): Node?
    requires i < |ns|
  {
    if i + 1 < |ns| then ns[i + 1] else null
  }

  class CaptureQueue {
    var first: Node?
    var last: Node?
    var closed: bool
    var offlineEof: bool
    var lastCaptureMs: int

    ghost var spine: seq<Node>

    ghost predicate Valid()
      reads this, spine
    {
      && (forall i, j | 0 <= i < j < |spine| :: spine[i] != spine[j])
      && (if spine == [] then first == null && last == null
          else first == spine[0] && last == spine[|spine| - 1])
      && forall i | 0 <= i < |spine| :: spine[i].next == Successor(spine, i)
    }

    ghost function Contents(): seq<Frame>
      reads this
    {
      FramesOf(spine)
    }

    constructor ()
      ensures Valid() && Contents() == [] && closed && !offlineEof && spine == []
    {
      first, last, closed, offlineEof, lastCaptureMs := null, null, true, false, 0;
      spine := [];
    }

    /** A capture session begins. */
    method Open()
      modifies this
      ensures Valid() && Contents() == [] && !closed
      ensures offlineEof == old(offlineEof)
    {
      closed := false;
      first, last := null, null;
      spine := [];
    }

    method Close()
      requires Valid()
      modifies this`closed
      ensures Valid() && Contents() == old(Contents()) && closed
    {
      closed := true;
    }

    method Enqueue(frame: Frame)
      requires Valid()
      modifies this`first, this`last, this`spine, spine
      ensures Valid()
      ensures Contents() == old(Contents()) + if closed then [] else [frame]
      ensures fresh(set n | n in spine && n !in old(spine))
    {
      var pc := new Node(frame);
      if !closed {
        if last != null {
          last.next := pc;
        }
        last := pc;
        if first == null {
          first := pc;
        }
        spine := spine + [pc];
        assert Contents() == old(Contents()) + [frame];
      }
    }

    /** The oldest frame. With none, or with one whose length is 0 in 16 bits, the length is 0. */
    method GetPacket() returns (ret: nat, buf: seq<int>)
      requires Valid()
      modifies this`first, this`last, this`spine, this`lastCaptureMs
      ensures Valid()
      ensures (ret, buf) == Handed(old(Contents())) && Contents() == Behind(old(Contents()))
      ensures lastCaptureMs == if old(Contents()) == [] then old(lastCaptureMs) else old(Contents())[0].ts
    {
      ret, buf := 0, [];
      var pc := first;
      if pc != null {
        first := pc.next;
        if first == null {
          last := null;
        }
        ret := |pc.frame.data| % UINT16_MODULUS;
        lastCaptureMs := pc.frame.ts;
        buf := pc.frame.data[..ret];
        spine := spine[1..];
        assert Contents() == old(Contents())[1..];
      }
    }

    method SignalOfflineEof()
      requires Valid()
      modifies this`offlineEof
      ensures Valid() && Contents() == old(Contents()) && offlineEof
    {
      offlineEof := true;
    }

    method OfflinePlaybackComplete() returns (done: bool)
      requires Valid()
      ensures done <==> offlineEof && Contents() == []
    {
      done := offlineEof && first == null;
    }
  }

  // ---- One call of the decode loop -----------------------------------------------------------------

  datatype Dispatch = Dispatch(size: int, data: seq<int>, time: int)

  /** The decode loop keeps the length in a signed 16-bit variable. */
  function AsShort(n: nat): int {
    if n < 0x8000 then n else n - UINT16_MODULUS
  }

  function DispatchOf(f: Frame): Dispatch {
    Dispatch(AsShort(HandedLength(f)), f.data[..HandedLength(f)], f.ts)
  }

  /** What is dispatched of a frame: its time and its first bytes, and their number as a signed 16-bit one. */
  lemma DispatchKeeps(f: Frame)
    ensures var d := DispatchOf(f);
      && d.time == f.ts && d.data <= f.data && |d.data| == |f.data| % 65536
      && -0x8000 <= d.size < 0x8000 && (d.size - |f.data|) % 65536 == 0
  {
    assert |f.data| == 65536 * (|f.data| / 65536) + HandedLength(f);
  }

  /** What a call dispatches of the frames there are: those before the first that looks empty. */
  function Batch(fs: seq<Frame>): seq<Frame> {
    if fs == [] || HandedLength(fs[0]) == 0 then [] else [fs[0]] + Batch(fs[1..])
  }

  /** What it leaves: that one is taken too. */
  function LeftOver(fs: seq<Frame>): seq<Frame> {
    if fs == [] then [] else if HandedLength(fs[0]) == 0 then fs[1..] else LeftOver(fs[1..])
  }

  function DispatchesOf(fs: seq<Frame>): (r: seq<Dispatch>)
    ensures |r| == |fs|
  {
    if fs == [] then [] else [DispatchOf(fs[0])] + DispatchesOf(fs[1..])
  }

  class EQPacketPlayback {
    const capture: CaptureQueue
    var offline: bool
    var busyDecoding: bool
    var finished: bool
    var dispatched: seq<Dispatch>

    constructor (capture: CaptureQueue, offline: bool)
      ensures this.capture == capture && this.offline == offline
      ensures !busyDecoding && !finished && dispatched == []
    {
      this.capture := capture;
      this.offline := offline;
      busyDecoding, finished, dispatched := false, false, [];
    }

    /** The frames up to the first that looks empty go out, each with its own capture time. */
    method Drain()
      requires capture.Valid() && offline
      modifies this`dispatched, capture`first, capture`last, capture`spine, capture`lastCaptureMs
      ensures capture.Valid()
      ensures dispatched == old(dispatched) + DispatchesOf(Batch(old(capture.Contents())))
      ensures capture.Contents() == LeftOver(old(capture.Contents()))
    {
      hide Batch, LeftOver, DispatchesOf, DispatchOf, Handed, Behind, CaptureQueue.Valid, CaptureQueue.Contents;
      // The frame in hand and those behind it in the queue.
      ghost var left := capture.Contents();
      var size, buffer := capture.GetPacket();
      while size != 0
        invariant capture.Valid()
        invariant (size, buffer) == Handed(left) && capture.Contents() == Behind(left)
        invariant left != [] ==> capture.lastCaptureMs == left[0].ts
        invariant dispatched + DispatchesOf(Batch(left)) ==
                  old(dispatched) + DispatchesOf(Batch(old(capture.Contents())))
        invariant LeftOver(left) == LeftOver(old(capture.Contents()))
        decreases |left|
      {
        NextBatch(left, dispatched);
        dispatched := dispatched + [Dispatch(AsShort(size), buffer, capture.lastCaptureMs)];
        left := Behind(left);
        size, buffer := capture.GetPacket();
      }
      EndOfBatch(left, dispatched);
    }

    /** One tick, when nothing is captured meanwhile. A tick within a tick does nothing. */
    method ProcessPackets()
      requires capture.Valid() && offline
      modifies this`busyDecoding, this`finished, this`dispatched,
               capture`first, capture`last, capture`spine, capture`lastCaptureMs
      ensures capture.Valid() && busyDecoding == old(busyDecoding)
      ensures old(busyDecoding) ==>
        capture.Contents() == old(capture.Contents()) && dispatched == old(dispatched) && finished == old(finished)
      ensures !old(busyDecoding) ==>
        && dispatched == old(dispatched) + DispatchesOf(Batch(old(capture.Contents())))
        && capture.Contents() == LeftOver(old(capture.Contents()))
        && finished == (old(finished) || (capture.offlineEof && LeftOver(old(capture.Contents())) == []))
    {
      hide Batch, LeftOver, DispatchesOf, CaptureQueue.Valid, CaptureQueue.Contents;
      if busyDecoding {
        return;
      }
      busyDecoding := true;
      Drain();
      busyDecoding := false;
      var complete := capture.OfflinePlaybackComplete();
      if complete {
        finished := true;
      }
    }
  }

  lemma EndOfBatch(fs: seq<Frame>, out: seq<Dispatch>)
    requires Handed(fs).0 == 0
    ensures out + DispatchesOf(Batch(fs)) == out
    ensures LeftOver(fs) == Behind(fs)
  {
    assert out + [] == out;
  }

  lemma NextBatch(fs: seq<Frame>, out: seq<Dispatch>)
    requires Handed(fs).0 != 0
    ensures fs != [] && |Behind(fs)| < |fs|
    ensures DispatchOf(fs[0]) == Dispatch(AsShort(Handed(fs).0), Handed(fs).1, fs[0].ts)
    ensures out + DispatchesOf(Batch(fs)) == out + [DispatchOf(fs[0])] + DispatchesOf(Batch(Behind(fs)))
    ensures LeftOver(fs) == LeftOver(Behind(fs))
  {
    hide DispatchOf, DispatchesOf;
    DispatchesCons(fs[0], Batch(fs[1..]));
    Regroup(out, DispatchOf(fs[0]), DispatchesOf(Batch(fs[1..])));
    DispatchIsHanded(fs);
  }

  lemma DispatchIsHanded(fs: seq<Frame>)
    requires fs != []
    ensures DispatchOf(fs[0]) == Dispatch(AsShort(Handed(fs).0), Handed(fs).1, fs[0].ts)
  {
  }

  lemma DispatchesCons(f: Frame, fs: seq<Frame>)
    ensures DispatchesOf([f] + fs) == [DispatchOf(f)] + DispatchesOf(fs)
  {
    assert ([f] + fs)[1..] == fs;
  }

  lemma Regroup(out: seq<Dispatch>, d: Dispatch, rest: seq<Dispatch>)
    ensures out + ([d] + rest) == out + [d] + rest
  {
  }
}
