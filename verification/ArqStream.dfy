/** The sequenced packets of one direction of a session: each taken in its turn, those ahead of it kept until then. */
module ArqStream {
  import opened Options
  import opened Bytes
  import opened Wire
  import opened Fragments
  import opened OversizedStream

  const ARQ_SEQ_WRAP_CUTOFF := 1024

  /** The number awaited, what has been made of the packets taken, and the packets kept, by number. */
  datatype Stream = Stream(expected: nat, fed: Fed, kept: map<nat, Parsed>)

  /** What counts as ahead of its turn. Numbers wrap round. */
  predicate Early(number: nat, expected: nat) {
    expected < number < expected + ARQ_SEQ_WRAP_CUTOFF || number < expected - ARQ_SEQ_WRAP_CUTOFF
  }

  function Next(number: nat): (r: nat)
    ensures r < ARQ_MODULUS
  {
    (number + 1) % ARQ_MODULUS
  }

  function Take(st: Stream, k: Parsed): Option<Stream> {
    var f := Feed(st.fed, k);
    if f.None? then None else Some(st.(expected := Next(st.expected), fed := f.value))
  }

  /** One packet. Nothing, if taking it would read outside its bytes. */
  function Process(st: Stream, k: Parsed): Option<Stream> {
    if !HasArqSeq(k.netOp) then Some(st)
    else if k.arqSeq == st.expected then Take(st, k)
    else if Early(k.arqSeq, st.expected) then Some(st.(kept := st.kept[k.arqSeq := k]))
    else Some(st)
  }

  /** Take what was kept for this moment, as far as the numbers follow one another. */
  function Drain(st: Stream): Option<Stream>
    decreases |st.kept|
  {
    if st.expected !in st.kept then Some(st)
    else
      var t := Take(st.(kept := st.kept - {st.expected}), st.kept[st.expected]);
      if t.None? then None else Drain(t.value)
  }

  /** The first number from `n` on that is kept. */
  function FirstKept(kept: map<nat, Parsed>, n: nat, left: nat): nat
    decreases left
  {
    if left == 0 || n in kept then n else FirstKept(kept, Next(n), left - 1)
  }

  /** With as many kept as are allowed, the numbers up to the next one kept are given up. */
  function GiveUp(st: Stream, limit: nat): Stream {
    if |st.kept| >= limit then st.(expected := FirstKept(st.kept, st.expected, ARQ_MODULUS)) else st
  }

  function Settle(st: Stream, limit: nat): Option<Stream> {
    if st.kept == map[] then Some(st) else Drain(GiveUp(st, limit))
  }

  function Handle(st: Stream, k: Parsed, limit: nat): Option<Stream> {
    var t := Process(st, k);
    if t.None? then None else Settle(t.value, limit)
  }

  /** One packet off the wire. */
  function Receive(st: Stream, p: seq<byte>, inflate: Inflate, max: nat, limit: nat): Option<Stream> {
    if !(WellSized(p, false) && LongEnough(p, Initial(p, false), inflate, max)) then None
    else
      var k := Open(p, inflate, max);
      if k.None? then Some(st) else Handle(st, k.value, limit)
  }

  function ReceiveAll(st: Stream, ps: seq<seq<byte>>, inflate: Inflate, max: nat, limit: nat): Option<Stream> {
    if ps == [] then Some(st)
    else
      var t := ReceiveAll(st, ps[..|ps| - 1], inflate, max, limit);
      if t.None? then None else Receive(t.value, ps[|ps| - 1], inflate, max, limit)
  }

  /** How many numbers on from `a` is `b`. */
  function Distance(a: nat, b: nat): nat {
    (b - a) % ARQ_MODULUS
  }

  lemma OneCloser(a: nat, b: nat)
    requires a < ARQ_MODULUS && b < ARQ_MODULUS && a != b
    ensures Distance(Next(a), b) == Distance(a, b) - 1
  {
  }

  lemma Near(a: nat, b: nat)
    ensures Distance(a, b) < ARQ_MODULUS
  {
  }

  // ---- The stream object ---------------------------------------------------------------------------

  /** Packets are kept under their own numbers. */
  predicate KeptOk(kept: map<nat, Parsed>) {
    forall n | n in kept :: n < ARQ_MODULUS && kept[n].arqSeq == n && HasArqSeq(kept[n].netOp)
  }

  /** The least key of the map from `low` on. */
  method LeastFrom(kept: map<nat, Parsed>, low: nat) returns (r: Option<nat>)
    ensures r.None? ==> forall n | n in kept :: n < low
    ensures r.Some? ==> r.value in kept && r.value >= low && forall n | n in kept && n >= low :: r.value <= n
  {
    r := None;
    var rest := kept.Keys;
    while rest != {}
      invariant rest <= kept.Keys
      invariant r.None? ==> forall n | n in kept && n !in rest :: n < low
      invariant r.Some? ==>
        r.value in kept && r.value >= low && forall n | n in kept && n !in rest && n >= low :: r.value <= n
      decreases rest
    {
      var n :| n in rest;
      if n >= low && (r.None? || n < r.value) {
        r := Some(n);
      }
      rest := rest - {n};
    }
  }

  /** What is next in turn can be taken before it is let go of. */
  lemma DrainStep(st: Stream)
    requires KeptOk(st.kept) && st.expected in st.kept && Drain(st).Some?
    ensures var r := Process(st, st.kept[st.expected]);
      && r.Some? && r.value.expected == Next(st.expected) && r.value.kept == st.kept
      && Drain(r.value.(kept := st.kept - {st.expected})) == Drain(st)
  {
  }

  lemma DrainEnds(st: Stream)
    requires st.expected !in st.kept
    ensures Drain(st) == Some(st)
  {
  }

  class EQPacketStream {
    const fragment: FragmentSequence
    const arqSeqGiveUp: nat
    var arqSeqExp: nat
    var cache: map<nat, Parsed>
    // What has been handed to the dispatcher.
    var dispatched: seq<seq<byte>>

    ghost predicate Valid()
      reads this, fragment
    {
      fragment.Valid() && arqSeqExp < ARQ_MODULUS && KeptOk(cache)
    }

    ghost function View(): Stream
      requires Valid()
      reads this, fragment, fragment.data
    {
      Stream(arqSeqExp, Fed(fragment.View(), dispatched), cache)
    }

    constructor (giveUp: nat)
      ensures Valid() && fresh(fragment) && fresh(fragment.data) && arqSeqGiveUp == giveUp
      ensures View() == Stream(0, Fed(Assembly([], 0, 0), []), map[])
    {
      fragment := new FragmentSequence();
      arqSeqGiveUp, arqSeqExp, cache, dispatched := giveUp, 0, map[], [];
    }

    method SetCache(serverArqSeq: nat, packet: Parsed)
      modifies this`cache
      ensures cache == old(cache)[serverArqSeq := packet]
    {
      if serverArqSeq in cache {
        cache := cache - {serverArqSeq};
      }
      cache := cache[serverArqSeq := packet];
    }

    method ProcessPacket(packet: Parsed)
      requires Valid() && Process(View(), packet).Some? && packet.arqSeq < ARQ_MODULUS
      modifies this`arqSeqExp, this`cache, this`dispatched, fragment, fragment.data
      ensures Valid() && (fragment.data == old(fragment.data) || fresh(fragment.data))
      ensures View() == old(Process(View(), packet).value)
    {
      var number := packet.arqSeq;
      if packet.netOp == OP_PACKET {
        if number == arqSeqExp {
          arqSeqExp := Next(arqSeqExp);
          dispatched := dispatched + [packet.payload];
        } else if Early(number, arqSeqExp) {
          SetCache(number, packet);
        }
      } else if packet.netOp == OP_OVERSIZED {
        if number == arqSeqExp {
          arqSeqExp := Next(arqSeqExp);
          fragment.AddFragment(packet.payload);
          if fragment.IsComplete() {
            dispatched := dispatched + [fragment.Collected()];
            fragment.Reset();
          }
        } else if Early(number, arqSeqExp) {
          SetCache(number, packet);
        }
      }
    }

    /** Give up the numbers up to the next one kept. */
    method SkipToKept() returns (it: Option<nat>)
      requires Valid() && cache != map[]
      modifies this`arqSeqExp
      ensures Valid() && it == Some(arqSeqExp) && arqSeqExp in cache
      ensures arqSeqExp == FirstKept(cache, old(arqSeqExp), ARQ_MODULUS)
    {
      hide Distance, Next;
      ghost var n :| n in cache;
      ghost var left: nat := ARQ_MODULUS;
      assert Distance(arqSeqExp, n) < left by {
        Near(arqSeqExp, n);
      }
      while arqSeqExp !in cache
        invariant arqSeqExp < ARQ_MODULUS && Distance(arqSeqExp, n) < left
        invariant FirstKept(cache, arqSeqExp, left) == FirstKept(cache, old(arqSeqExp), ARQ_MODULUS)
        decreases left
      {
        OneCloser(arqSeqExp, n);
        arqSeqExp := Next(arqSeqExp);
        left := left - 1;
      }
      it := Some(arqSeqExp);
    }

    /** Take the packet just processed out of the cache, and go on to the one behind it. */
    method LetGo(number: nat) returns (it: Option<nat>)
      requires KeptOk(cache) && number in cache && arqSeqExp == Next(number)
      modifies this`cache
      ensures KeptOk(cache) && cache == old(cache) - {number}
      ensures it.Some? ==> it.value in cache
      ensures arqSeqExp in cache ==> it == Some(arqSeqExp)
    {
      it := LeastFrom(cache, number + 1);
      cache := cache - {number};
      if arqSeqExp == 0 {
        it := LeastFrom(cache, 0);
      }
    }

    method ProcessCache()
      requires Valid() && cache != map[] && Drain(GiveUp(View(), arqSeqGiveUp)).Some?
      modifies this`arqSeqExp, this`cache, this`dispatched, fragment, fragment.data
      ensures Valid() && (fragment.data == old(fragment.data) || fresh(fragment.data))
      ensures View() == old(Drain(GiveUp(View(), arqSeqGiveUp)).value)
    {
      hide Process, Drain, FirstKept, FragmentSequence.View;
      ghost var goal := Drain(GiveUp(View(), arqSeqGiveUp));
      var it := None;
      if |cache| >= arqSeqGiveUp {
        it := SkipToKept();
      } else if arqSeqExp in cache {
        it := Some(arqSeqExp);
      }
      while it.Some?
        invariant Valid() && (fragment.data == old(fragment.data) || fresh(fragment.data))
        invariant Drain(View()) == goal
        invariant it.Some? ==> it.value in cache
        invariant arqSeqExp in cache ==> it == Some(arqSeqExp)
        decreases |cache|
      {
        var packet := cache[it.value];
        if packet.arqSeq != arqSeqExp {
          break;
        }
        var erased := it.value;
        DrainStep(View());
        ProcessPacket(packet);
        it := LetGo(erased);
      }
      DrainEnds(View());
    }

    /** One packet off the wire, and what was kept for the moment after it. */
    method HandlePacket(p: seq<byte>, inflate: Inflate, max: nat)
      requires Valid() && Receive(View(), p, inflate, max, arqSeqGiveUp).Some?
      modifies this`arqSeqExp, this`cache, this`dispatched, fragment, fragment.data
      ensures Valid() && (fragment.data == old(fragment.data) || fresh(fragment.data))
      ensures View() == old(Receive(View(), p, inflate, max, arqSeqGiveUp).value)
    {
      hide Process, Drain, GiveUp, WellSized, LongEnough, Initial, Decoded;
      var packet := new ProtocolPacket.Init(p, false);
      var ok := packet.Decode(inflate, max);
      if ok {
        var k := packet.View();
        NumberInRange(p, inflate, max);
        ProcessPacket(k);
        if cache != map[] {
          ProcessCache();
        }
      }
    }
  }

  lemma NumberInRange(p: seq<byte>, inflate: Inflate, max: nat)
    requires WellSized(p, false) && LongEnough(p, Initial(p, false), inflate, max)
    ensures Open(p, inflate, max).Some? ==> Open(p, inflate, max).value.arqSeq < ARQ_MODULUS
  {
  }
}
