/** From sequenced packets, taken one after the other, to messages. */
module OversizedStream {
  import opened Options
  import opened Bytes
  import opened Wire
  import opened Fragments

  const ARQ_MODULUS := 0x1_0000

  // ---- Taking packets in their turn --------------------------------------------------------------

  /** The message being put together, and what has been dispatched. */
  datatype Fed = Fed(asm: Assembly, out: seq<seq<byte>>)

  /** One sequenced packet in its turn. What is dispatched is the packet's own message, or the one that it
      completes. Nothing, if a piece that starts a message lacks its four length bytes: they are read all the
      same, from behind the packet. */
  function Feed(f: Fed, k: Parsed): Option<Fed> {
    if k.netOp != OP_OVERSIZED then Some(Fed(f.asm, f.out + [k.payload]))
    else if !Readable(f.asm, k.payload) then None
    else
      var a := Add(f.asm, k.payload);
      if a.Complete() then Some(Fed(Assembly([], 0, a.alloc), f.out + [a.filled])) else Some(Fed(a, f.out))
  }

  function FeedAll(f: Fed, ks: seq<Parsed>): Option<Fed> {
    if ks == [] then Some(f)
    else
      var g := FeedAll(f, ks[..|ks| - 1]);
      if g.None? then None else Feed(g.value, ks[|ks| - 1])
  }

  lemma FedOne(f: Fed, ks: seq<Parsed>, i: nat)
    requires i < |ks| && FeedAll(f, ks[..i]).Some?
    ensures FeedAll(f, ks[..i + 1]) == Feed(FeedAll(f, ks[..i]).value, ks[i])
  {
    assert ks[..i + 1][..i] == ks[..i];
  }

  lemma {:induction false} FedPrefix(f: Fed, ks: seq<Parsed>, i: nat)
    requires i <= |ks| && FeedAll(f, ks).Some?
    ensures FeedAll(f, ks[..i]).Some?
  {
    if i < |ks| {
      var n := |ks| - 1;
      FedPrefix(f, ks[..n], i);
      assert ks[..n][..i] == ks[..i];
    } else {
      assert ks[..i] == ks;
    }
  }

  lemma {:induction false} FedInTwo(f: Fed, ks: seq<Parsed>, ls: seq<Parsed>)
    requires FeedAll(f, ks).Some?
    ensures FeedAll(f, ks + ls) == FeedAll(FeedAll(f, ks).value, ls)
    decreases |ls|
  {
    hide Feed;
    if ls == [] {
      assert ks + ls == ks;
    } else {
      var n := |ls| - 1;
      FedInTwo(f, ks, ls[..n]);
      assert (ks + ls)[..|ks + ls| - 1] == ks + ls[..n];
    }
  }

  // ---- Messages on their way ----------------------------------------------------------------------

  /** A message on its way: in one packet, or cut in pieces; and how each packet is framed. */
  datatype Sending =
    | Whole(body: seq<byte>, framing: Framing, crc: seq<byte>)
    | Pieces(chunks: seq<seq<byte>>, framings: seq<Framing>, crcs: seq<seq<byte>>)
  {
    function Message(): seq<byte> {
      if Whole? then body else Concat(chunks)
    }

    function Count(): nat {
      if Whole? then 1 else |chunks|
    }

    predicate Valid(max: nat) {
      if Whole? then ValidFraming(framing) && |crc| == 2 && |body| + 2 <= max
      else
        && Cut(chunks) && |framings| == |crcs| == |chunks|
        && forall i | 0 <= i < |chunks| ::
             ValidFraming(framings[i]) && |crcs[i]| == 2 && |Payloads(chunks)[i]| + 2 <= max
    }

    function Load(i: nat, max: nat): seq<byte>
      requires Valid(max) && i < Count()
    {
      if Whole? then body else Payloads(chunks)[i]
    }

    function How(i: nat, max: nat): (Framing, seq<byte>)
      requires Valid(max) && i < Count()
    {
      if Whole? then (framing, crc) else (framings[i], crcs[i])
    }

    /** The `i`th packet on the wire, the first having number `s`. */
    function Frame(deflate: Deflate, max: nat, s: nat, i: nat): seq<byte>
      requires Valid(max) && i < Count()
    {
      var (f, c) := How(i, max);
      FrameNet(deflate, if Whole? then 0x09 else 0x0d, ToBe16((s + i) % ARQ_MODULUS) + Load(i, max), f, c)
    }

    /** What the receiver knows of it. */
    function Carried(max: nat, s: nat, i: nat): Parsed
      requires Valid(max) && i < Count()
    {
      Parsed(if Whole? then OP_PACKET else OP_OVERSIZED, FlagOf(How(i, max).0), Load(i, max),
             (s + i) % ARQ_MODULUS, true)
    }

    function Frames(deflate: Deflate, max: nat, s: nat): (r: seq<seq<byte>>)
      requires Valid(max)
      ensures |r| == Count() && forall i | 0 <= i < Count() :: r[i] == Frame(deflate, max, s, i)
    {
      seq(Count(), i requires 0 <= i < Count() => Frame(deflate, max, s, i))
    }

    function AllCarried(max: nat, s: nat): (r: seq<Parsed>)
      requires Valid(max)
      ensures |r| == Count() && forall i | 0 <= i < Count() :: r[i] == Carried(max, s, i)
    {
      seq(Count(), i requires 0 <= i < Count() => Carried(max, s, i))
    }
  }

  ghost predicate AllValid(ms: seq<Sending>, max: nat) {
    forall m | m in ms :: m.Valid(max)
  }

  /** The packets of all messages, numbered on from `s`. */
  function AllFrames(ms: seq<Sending>, deflate: Deflate, max: nat, s: nat): seq<seq<byte>>
    requires AllValid(ms, max)
  {
    if ms == [] then []
    else ms[0].Frames(deflate, max, s) + AllFrames(ms[1..], deflate, max, s + ms[0].Count())
  }

  function AllCarried(ms: seq<Sending>, max: nat, s: nat): seq<Parsed>
    requires AllValid(ms, max)
  {
    if ms == [] then [] else ms[0].AllCarried(max, s) + AllCarried(ms[1..], max, s + ms[0].Count())
  }

  function Messages(ms: seq<Sending>): seq<seq<byte>> {
    if ms == [] then [] else [ms[0].Message()] + Messages(ms[1..])
  }

  lemma FrameOpens(m: Sending, inflate: Inflate, deflate: Deflate, max: nat, s: nat, i: nat)
    requires m.Valid(max) && i < m.Count() && Inverse(inflate, deflate, max)
    ensures Reads(m.Frame(deflate, max, s, i), inflate, max, m.Carried(max, s, i))
  {
    hide Inverse, Reads, FrameNet, Payloads;
    assert HasArqSeq(U16(0x09, 0)) && HasArqSeq(U16(0x0d, 0));
    var (f, c) := m.How(i, max);
    LoadFits(m, max, i);
    var op: byte := if m.Whole? then 0x09 else 0x0d;
    SequencedRoundTrip(inflate, deflate, max, op, (s + i) % ARQ_MODULUS, m.Load(i, max), f, c);
  }

  lemma LoadFits(m: Sending, max: nat, i: nat)
    requires m.Valid(max) && i < m.Count()
    ensures |m.Load(i, max)| + 2 <= max && ValidFraming(m.How(i, max).0) && |m.How(i, max).1| == 2
  {
  }

  /** Packet `j` of the session opens to packet `j` of what is carried, which has number `s + j`. */
  lemma {:induction false} SessionFrames(
    ms: seq<Sending>, inflate: Inflate, deflate: Deflate, max: nat, s: nat, j: nat)
    requires AllValid(ms, max) && Inverse(inflate, deflate, max) && j < |AllCarried(ms, max, s)|
    ensures |AllFrames(ms, deflate, max, s)| == |AllCarried(ms, max, s)|
    ensures Reads(AllFrames(ms, deflate, max, s)[j], inflate, max, AllCarried(ms, max, s)[j])
    ensures HasArqSeq(AllCarried(ms, max, s)[j].netOp) && AllCarried(ms, max, s)[j].arqSeq == (s + j) % ARQ_MODULUS
    decreases |ms|
  {
    hide Reads, Inverse, Sending.Valid, Sending.Frame, Sending.Load;
    var m := ms[0];
    assert m in ms;
    SameLength(ms, deflate, max, s);
    if j < m.Count() {
      FrameOpens(m, inflate, deflate, max, s, j);
    } else {
      SessionFrames(ms[1..], inflate, deflate, max, s + m.Count(), j - m.Count());
    }
  }

  lemma {:induction false} SameLength(ms: seq<Sending>, deflate: Deflate, max: nat, s: nat)
    requires AllValid(ms, max)
    ensures |AllFrames(ms, deflate, max, s)| == |AllCarried(ms, max, s)|
    decreases |ms|
  {
    hide Sending.Valid, Sending.Frame, Sending.Load, Sending.Carried;
    if ms != [] {
      assert ms[0] in ms;
      SameLength(ms[1..], deflate, max, s + ms[0].Count());
    }
  }

  // ---- Taken in order, all messages come out whole ---------------------------------------------------

  /** The message being put together once the first `i` pieces have been taken. */
  predicate Midway(asm: Assembly, chunks: seq<seq<byte>>, i: nat, alloc: nat)
    requires i <= |chunks|
  {
    var whole := |Concat(chunks)|;
    if i == 0 then asm.filled == [] && asm.alloc <= MAX_FRAGMENT_BUFFER && alloc == Max(asm.alloc, whole)
    else asm == Assembly(Concat(chunks[..i]), whole, alloc) && whole <= alloc
  }

  lemma {:induction false} ConcatSnoc(ps: seq<seq<byte>>, k: nat)
    requires k < |ps|
    ensures Concat(ps[..k + 1]) == Concat(ps[..k]) + ps[k]
  {
    ConcatSplit(ps[..k + 1], k);
    assert ps[..k + 1][..k] == ps[..k] && ps[..k + 1][k..] == [ps[k]];
    var one := [ps[k]];
    assert one[1..] == [];
    assert Concat(one) == ps[k];
  }

  /** Adding the `i`th payload moves on by one piece; it completes the message only if it is the last. */
  lemma AddNext(asm: Assembly, chunks: seq<seq<byte>>, i: nat, alloc: nat)
    requires Cut(chunks) && i < |chunks| && Midway(asm, chunks, i, alloc)
    ensures var p := Payloads(chunks)[i];
      && Readable(asm, p)
      && Add(asm, p) == Assembly(Concat(chunks[..i + 1]), |Concat(chunks)|, alloc) && |Concat(chunks)| <= alloc
      && (Add(asm, p).Complete() <==> i + 1 == |chunks|)
  {
    PieceReadable(chunks, i);
    ConcatSnoc(chunks, i);
    if i == 0 {
      FirstPayload(asm.(total := 0), chunks);
      assert chunks[..0] == [];
    }
  }

  lemma PieceReadable(chunks: seq<seq<byte>>, i: nat)
    requires Cut(chunks) && i < |chunks|
    ensures |Concat(chunks[..i + 1])| <= |Concat(chunks)|
    ensures i > 0 ==> Concat(chunks[..i]) != []
    ensures |Concat(chunks[..i + 1])| == |Concat(chunks)| <==> i + 1 == |chunks|
  {
    ConcatSplit(chunks, i + 1);
    if i > 0 {
      TailNotEmpty(chunks[..i]);
    }
    if i + 1 < |chunks| {
      TailNotEmpty(chunks[i + 1..]);
    } else {
      assert chunks[..i + 1] == chunks;
    }
  }

  /** All pieces but the last leave the message unfinished, and the last gives it out. */
  lemma {:induction false} FeedPieces(f: Fed, m: Sending, max: nat, s: nat, i: nat, alloc: nat)
    requires m.Pieces? && m.Valid(max) && i <= |m.chunks| && Midway(f.asm, m.chunks, 0, alloc)
    ensures var r := FeedAll(f, m.AllCarried(max, s)[..i]);
      && r.Some?
      && if i == |m.chunks| then r.value == Fed(Assembly([], 0, alloc), f.out + [m.Message()])
         else Midway(r.value.asm, m.chunks, i, alloc) && r.value.out == f.out
    decreases i
  {
    hide Midway, Readable, Add, Concat, Payloads, FeedAll, Max;
    var ks := m.AllCarried(max, s);
    if i == 0 {
      FedNone(f, ks);
    } else {
      FeedPieces(f, m, max, s, i - 1, alloc);
      FedOne(f, ks, i - 1);
      var asm := FeedAll(f, ks[..i - 1]).value.asm;
      AddNext(asm, m.chunks, i - 1, alloc);
      assert m.chunks[..|m.chunks|] == m.chunks;
      MidwayIs(Add(asm, Payloads(m.chunks)[i - 1]), m.chunks, i, alloc);
    }
  }

  lemma FedNone(f: Fed, ks: seq<Parsed>)
    ensures FeedAll(f, ks[..0]) == Some(f)
  {
  }

  lemma MidwayIs(asm: Assembly, chunks: seq<seq<byte>>, i: nat, alloc: nat)
    requires 0 < i <= |chunks| && asm == Assembly(Concat(chunks[..i]), |Concat(chunks)|, alloc)
    requires |Concat(chunks)| <= alloc
    ensures Midway(asm, chunks, i, alloc)
  {
  }

  /** Between two messages. */
  predicate Idle(asm: Assembly) {
    asm.filled == [] && asm.alloc <= MAX_FRAGMENT_BUFFER
  }

  lemma FeedMessage(f: Fed, m: Sending, max: nat, s: nat)
    requires m.Valid(max) && Idle(f.asm)
    ensures var r := FeedAll(f, m.AllCarried(max, s));
      r.Some? && Idle(r.value.asm) && r.value.out == f.out + [m.Message()]
  {
    hide Concat, Payloads, Add;
    var ks := m.AllCarried(max, s);
    if m.Whole? {
      FedNone(f, ks);
      FedOne(f, ks, 0);
      assert ks[..1] == ks;
    } else {
      FeedPieces(f, m, max, s, |m.chunks|, Max(f.asm.alloc, |m.Message()|));
      assert ks[..|m.chunks|] == ks;
    }
  }

  /** Any number of messages, each in one packet or cut in pieces, come out whole and in order, and nothing else
      does. */
  lemma {:induction false} FeedMessages(f: Fed, ms: seq<Sending>, max: nat, s: nat)
    requires AllValid(ms, max) && Idle(f.asm)
    ensures var r := FeedAll(f, AllCarried(ms, max, s));
      r.Some? && Idle(r.value.asm) && r.value.out == f.out + Messages(ms)
    decreases |ms|
  {
    hide FeedAll, Idle, Sending.Valid, Sending.AllCarried, Sending.Message;
    if ms == [] {
      assert AllCarried(ms, max, s)[..0] == [];
      FedNone(f, AllCarried(ms, max, s));
      assert f.out + [] == f.out;
    } else {
      var m := ms[0];
      assert m in ms;
      FeedMessage(f, m, max, s);
      var g := FeedAll(f, m.AllCarried(max, s)).value;
      FeedMessages(g, ms[1..], max, s + m.Count());
      FedInTwo(f, m.AllCarried(max, s), AllCarried(ms[1..], max, s + m.Count()));
      assert (f.out + [m.Message()]) + Messages(ms[1..]) == f.out + Messages(ms);
    }
  }
}
