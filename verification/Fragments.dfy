/** Reassembly of oversized messages in a buffer that is kept from one message to the next. */
module Fragments {
  import opened Bytes

  const MAX_FRAGMENT_BUFFER := 0x40_0000

  /** The bytes collected, the total the first fragment declared, and the size of the buffer. */
  datatype Assembly = Assembly(filled: seq<byte>, total: nat, alloc: nat) {
    predicate Complete() {
      filled != [] && total == |filled|
    }
  }

  function Max(a: nat, b: nat): nat {
    if a < b then b else a
  }

  predicate Acceptable(total: nat) {
    0 < total <= MAX_FRAGMENT_BUFFER
  }

  /** A first fragment has its four length bytes. */
  predicate Readable(a: Assembly, p: seq<byte>) {
    a.filled == [] ==> |p| >= 4
  }

  /** What is copied of a first fragment is not held against the buffer; only a later one is. */
  function Add(a: Assembly, p: seq<byte>): Assembly
    requires Readable(a, p)
  {
    if a.filled == [] then
      if !Acceptable(Be32(p)) then Assembly([], 0, a.alloc)
      else Assembly(p[4..], Be32(p), Max(a.alloc, Be32(p)))
    else if |a.filled| + |p| > a.alloc then Assembly([], 0, a.alloc)
    else a.(filled := a.filled + p)
  }

  predicate Sound(a: Assembly) {
    |a.filled| <= a.alloc <= MAX_FRAGMENT_BUFFER
  }

  // ---- Histories ---------------------------------------------------------------------------

  predicate AllReadable(a: Assembly, ps: seq<seq<byte>>)
    decreases |ps|
  {
    ps == [] || (Readable(a, ps[0]) && AllReadable(Add(a, ps[0]), ps[1..]))
  }

  function AddAll(a: Assembly, ps: seq<seq<byte>>): Assembly
    requires AllReadable(a, ps)
    decreases |ps|
  {
    if ps == [] then a else AddAll(Add(a, ps[0]), ps[1..])
  }

  /** Whatever is fed in, the buffer never grows past its cap, and never shrinks. */
  lemma {:induction false} BufferIsBounded(a: Assembly, ps: seq<seq<byte>>)
    requires a.alloc <= 4 * 1024 * 1024 && AllReadable(a, ps)
    ensures a.alloc <= AddAll(a, ps).alloc <= 4 * 1024 * 1024
    decreases |ps|
  {
    if ps != [] {
      BufferIsBounded(Add(a, ps[0]), ps[1..]);
    }
  }

  /** A first fragment that brings more bytes than the total it declares and than the buffer it finds. */
  predicate Oversteps(a: Assembly, p: seq<byte>) {
    a.filled == [] && |p| >= 4 && Acceptable(Be32(p)) && |p| - 4 > Max(a.alloc, Be32(p))
  }

  /** The bytes collected stay within the allocation except in one case, for which there is no test: the part of
      the message in a first fragment is longer than the buffer and than the total declared. */
  lemma StaysWithinIff(a: Assembly, p: seq<byte>)
    requires Sound(a) && Readable(a, p)
    ensures Sound(Add(a, p)) <==> !Oversteps(a, p)
    ensures Oversteps(a, p) ==> |Add(a, p).filled| == |p| - 4 > Add(a, p).alloc
  {
  }

  predicate AlwaysWithin(a: Assembly, ps: seq<seq<byte>>)
    requires AllReadable(a, ps)
    decreases |ps|
  {
    Sound(a) && (ps == [] || AlwaysWithin(Add(a, ps[0]), ps[1..]))
  }

  predicate NoneOversteps(a: Assembly, ps: seq<seq<byte>>)
    requires AllReadable(a, ps)
    decreases |ps|
  {
    ps == [] || (!Oversteps(a, ps[0]) && NoneOversteps(Add(a, ps[0]), ps[1..]))
  }

  /** The same of a whole history: the bytes stay within the allocation after every payload exactly when no
      payload oversteps where it comes. */
  lemma {:induction false} HistoryStaysWithinIff(a: Assembly, ps: seq<seq<byte>>)
    requires Sound(a) && AllReadable(a, ps)
    ensures AlwaysWithin(a, ps) <==> NoneOversteps(a, ps)
    decreases |ps|
  {
    if ps != [] {
      StaysWithinIff(a, ps[0]);
      hide Oversteps, Add;
      if Sound(Add(a, ps[0])) {
        HistoryStaysWithinIff(Add(a, ps[0]), ps[1..]);
      }
    }
  }

  /** The smallest case, from power-on: a total of 1 is declared and two bytes are copied. */
  lemma OverstepHappens()
    ensures var a, p: seq<byte> := Assembly([], 0, 0), [0, 0, 0, 1, 7, 7];
            Sound(a) && Readable(a, p) && Oversteps(a, p) && Add(a, p) == Assembly([7, 7], 1, 1)
  {
    var p: seq<byte> := [0, 0, 0, 1, 7, 7];
    assert p[4..] == [7, 7] && Be32(p) == 1;
  }

  /** A sequence that overstepped is never taken for complete, and the next payload abandons it. */
  lemma OverstepIsAbandoned(a: Assembly, p: seq<byte>, q: seq<byte>)
    requires Oversteps(a, p)
    ensures !Add(a, p).Complete()
    ensures Readable(Add(a, p), q) && Add(Add(a, p), q) == Assembly([], 0, Add(a, p).alloc)
  {
  }

  function Concat(chunks: seq<seq<byte>>): seq<byte> {
    if chunks == [] then [] else chunks[0] + Concat(chunks[1..])
  }

  /** The payloads a message cut into `chunks` travels as. */
  function Payloads(chunks: seq<seq<byte>>): (r: seq<seq<byte>>)
    requires chunks != [] && |Concat(chunks)| <= MAX_FRAGMENT_BUFFER
    ensures |r| == |chunks|
  {
    [ToBe32(|Concat(chunks)|) + chunks[0]] + chunks[1..]
  }

  /** A message from 1 byte to the cap, cut where you like, into pieces none of which is empty. */
  predicate Cut(chunks: seq<seq<byte>>) {
    && chunks != [] && |Concat(chunks)| <= MAX_FRAGMENT_BUFFER
    && forall i | 0 <= i < |chunks| :: chunks[i] != []
  }

  /** Continuation fragments are appended as they come. */
  lemma {:induction false} Continue(a: Assembly, ps: seq<seq<byte>>)
    requires a.filled != [] && |a.filled| + |Concat(ps)| <= a.alloc
    ensures AllReadable(a, ps) && AddAll(a, ps) == a.(filled := a.filled + Concat(ps))
    decreases |ps|
  {
    if ps == [] {
      assert a.filled + [] == a.filled;
    } else {
      var b := Add(a, ps[0]);
      Continue(b, ps[1..]);
      assert a.filled + ps[0] + Concat(ps[1..]) == a.filled + Concat(ps);
    }
  }

  lemma {:induction false} ConcatSplit(ps: seq<seq<byte>>, k: nat)
    requires k <= |ps|
    ensures Concat(ps) == Concat(ps[..k]) + Concat(ps[k..])
  {
    if k > 0 {
      ConcatSplit(ps[1..], k - 1);
      assert ps[..k][1..] == ps[1..][..k - 1];
    } else {
      assert ps[..0] == [] && ps[0..] == ps;
    }
  }

  /** The first payload sizes the buffer and puts its own bytes in. */
  lemma FirstPayload(a: Assembly, chunks: seq<seq<byte>>)
    requires a.filled == [] && Sound(a) && Cut(chunks)
    ensures var p, n := Payloads(chunks)[0], |Concat(chunks)|;
            Readable(a, p) && Add(a, p) == Assembly(chunks[0], n, Max(a.alloc, n)) && |chunks[0]| <= n
  {
    var p := Payloads(chunks)[0];
    assert p[..4] == ToBe32(|Concat(chunks)|);
    assert Be32(p) == Be32(p[..4]);
    assert p[4..] == chunks[0];
  }

  lemma OneByOne(a: Assembly, ps: seq<seq<byte>>)
    requires ps != [] && Readable(a, ps[0]) && AllReadable(Add(a, ps[0]), ps[1..])
    ensures AllReadable(a, ps) && AddAll(a, ps) == AddAll(Add(a, ps[0]), ps[1..])
  {
  }

  lemma HeadOfPrefix(chunks: seq<seq<byte>>, k: nat)
    requires Cut(chunks) && 1 <= k <= |chunks|
    ensures Payloads(chunks)[..k][0] == Payloads(chunks)[0]
    ensures Payloads(chunks)[..k][1..] == chunks[1..k]
    ensures Concat(chunks[..k]) == chunks[0] + Concat(chunks[1..k])
  {
    assert chunks[..k][1..] == chunks[1..k];
    TailOfPayloads(chunks);
    hide Payloads, Concat;
    assert Payloads(chunks)[..k][1..] == Payloads(chunks)[1..][..k - 1] == chunks[1..k];
  }

  lemma TailOfPayloads(chunks: seq<seq<byte>>)
    requires chunks != [] && |Concat(chunks)| <= MAX_FRAGMENT_BUFFER
    ensures Payloads(chunks)[1..] == chunks[1..]
  {
  }

  lemma PrefixOfWhole(chunks: seq<seq<byte>>, k: nat)
    requires k <= |chunks|
    ensures |Concat(chunks[..k])| <= |Concat(chunks)|
    ensures |Concat(chunks[..k])| == |Concat(chunks)| <==> Concat(chunks[..k]) == Concat(chunks)
  {
    ConcatSplit(chunks, k);
  }

  /** The assembler, between messages and whatever buffer earlier ones left, holds after each prefix
      of the payloads exactly the bytes they carry; it is complete when that is the whole message. */
  lemma PrefixesReassemble(a: Assembly, chunks: seq<seq<byte>>, k: nat)
    requires a.filled == [] && Sound(a) && Cut(chunks) && 1 <= k <= |chunks|
    ensures var ps := Payloads(chunks)[..k];
      && AllReadable(a, ps)
      && AddAll(a, ps) == Assembly(Concat(chunks[..k]), |Concat(chunks)|, Max(a.alloc, |Concat(chunks)|))
      && (AddAll(a, ps).Complete() <==> Concat(chunks[..k]) == Concat(chunks))
  {
    var ps := Payloads(chunks)[..k];
    HeadOfPrefix(chunks, k);
    PrefixOfWhole(chunks, k);
    FirstPayload(a, chunks);
    hide AllReadable, AddAll, Readable, Add, Concat, Payloads;
    Continue(Add(a, ps[0]), ps[1..]);
    OneByOne(a, ps);
  }

  lemma {:induction false} TailNotEmpty(chunks: seq<seq<byte>>)
    requires chunks != [] && forall i | 0 <= i < |chunks| :: chunks[i] != []
    ensures Concat(chunks) != []
  {
  }

  /** The message comes out whole with its last fragment ... */
  lemma Reassembles(a: Assembly, chunks: seq<seq<byte>>)
    requires a.filled == [] && Sound(a) && Cut(chunks)
    ensures var ps := Payloads(chunks);
      && AllReadable(a, ps)
      && AddAll(a, ps).filled == Concat(chunks) && AddAll(a, ps).Complete()
      && Sound(AddAll(a, ps))
  {
    hide AllReadable, AddAll, Concat;
    assert Payloads(chunks)[..|chunks|] == Payloads(chunks) && chunks[..|chunks|] == chunks;
    PrefixesReassemble(a, chunks, |chunks|);
  }

  /** ... and not before. */
  lemma NotCompleteBefore(a: Assembly, chunks: seq<seq<byte>>, k: nat)
    requires a.filled == [] && Sound(a) && Cut(chunks) && 1 <= k < |chunks|
    ensures AllReadable(a, Payloads(chunks)[..k]) && !AddAll(a, Payloads(chunks)[..k]).Complete()
  {
    hide AllReadable, AddAll, Concat;
    PrefixesReassemble(a, chunks, k);
    ConcatSplit(chunks, k);
    TailNotEmpty(chunks[k..]);
  }

  /** After any garbage at all, even if it overstepped the buffer, once a sequence has been abandoned or reset
      the next message arrives whole. */
  lemma RecoversFromGarbage(a: Assembly, garbage: seq<seq<byte>>, chunks: seq<seq<byte>>)
    requires a.alloc <= MAX_FRAGMENT_BUFFER && AllReadable(a, garbage)
    requires AddAll(a, garbage).filled == [] && Cut(chunks)
    ensures var b := AddAll(a, garbage);
            AllReadable(b, Payloads(chunks)) && AddAll(b, Payloads(chunks)).filled == Concat(chunks)
            && AddAll(b, Payloads(chunks)).Complete()
  {
    BufferIsBounded(a, garbage);
    Reassembles(AddAll(a, garbage), chunks);
  }

  // ---- The declared total is not the limit -----------------------------------------------------

  /** A fragment takes the collected bytes past the declared total, with nothing abandoned, exactly
      when it runs over the total but not over a buffer some larger message left behind. */
  lemma OverrunsTotalIff(a: Assembly, p: seq<byte>)
    requires a.filled != [] && |a.filled| <= a.total <= a.alloc
    ensures |Add(a, p).filled| > Add(a, p).total <==> a.total < |a.filled| + |p| <= a.alloc
  {
  }

  /** The overrun the source's comment rules out: after a 10-byte message, one that declared 2 bytes
      collects 6; it is not abandoned and does not complete. */
  lemma OverrunHappens()
    ensures var left := Assembly([], 0, 10);
            var ps: seq<seq<byte>> := [[0, 0, 0, 2, 7], [7, 7, 7, 7, 7]];
            AllReadable(left, ps) && |AddAll(left, ps).filled| == 6 && AddAll(left, ps).total == 2
            && !AddAll(left, ps).Complete()
  {
    var left := Assembly([], 0, 10);
    var ps: seq<seq<byte>> := [[0, 0, 0, 2, 7], [7, 7, 7, 7, 7]];
    var one := Add(left, ps[0]);
    assert one == Assembly([7], 2, 10);
    assert ps[1..] == [ps[1]] && ps[1..][1..] == [];
    assert Add(one, ps[1]).filled == [7, 7, 7, 7, 7, 7];
  }

  // ---- The assembler object ----------------------------------------------------------------------

  class FragmentSequence {
    var data: array<byte>
    var totalLength: nat
    var dataSize: nat
    // What has been copied past the end of the buffer.
    var beyond: seq<byte>

    ghost predicate Valid()
      reads this
    {
      if dataSize <= data.Length then beyond == [] else dataSize == data.Length + |beyond|
    }

    ghost function View(): Assembly
      requires Valid()
      reads this, data
    {
      Assembly(if beyond == [] then data[..dataSize] else data[..] + beyond, totalLength, data.Length)
    }

    constructor ()
      ensures Valid() && fresh(data) && View() == Assembly([], 0, 0)
    {
      data := new byte[0];
      totalLength, dataSize, beyond := 0, 0, [];
    }

    method Reset()
      requires Valid()
      modifies this`totalLength, this`dataSize, this`beyond
      ensures Valid() && View() == Assembly([], 0, old(data.Length)) && beyond == []
    {
      dataSize := 0;
      totalLength := 0;
      beyond := [];
    }

    /** memcpy into the buffer at `at`. */
    method Copy(at: nat, p: seq<byte>)
      requires at + |p| <= data.Length
      modifies data
      ensures data[..] == old(data[..at]) + p + old(data[at + |p|..])
    {
      for i := 0 to |p|
        invariant data[..at] == old(data[..at]) && data[at..at + i] == p[..i]
        invariant data[at + i..] == old(data[at + i..])
      {
        data[at + i] := p[i];
      }
    }

    /** memcpy to the start of the buffer, and on behind it if it is too short. */
    method CopyFirst(p: seq<byte>)
      requires Valid() && dataSize == 0
      modifies this`dataSize, this`beyond, data
      ensures Valid() && dataSize == |p|
      ensures View() == Assembly(p, totalLength, data.Length)
    {
      var n := if |p| < data.Length then |p| else data.Length;
      Copy(0, p[..n]);
      beyond := p[n..];
      dataSize := |p|;
      assert data[..n] == p[..n] && p == p[..n] + p[n..];
    }

    /** Bytes end up past the buffer exactly when a first fragment oversteps it. */
    method AddFragment(payload: seq<byte>)
      requires Valid() && Readable(View(), payload)
      modifies this, data
      ensures Valid() && (data == old(data) || fresh(data))
      ensures View() == Add(old(View()), payload)
      ensures beyond != [] <==> Oversteps(old(View()), payload)
    {
      if dataSize == 0 {
        totalLength := Be32(payload);
        if totalLength == 0 {
          Reset();
          return;
        } else if totalLength > MAX_FRAGMENT_BUFFER {
          Reset();
          return;
        } else if totalLength > data.Length {
          data := new byte[totalLength];
        }
        CopyFirst(payload[4..]);
      } else {
        if dataSize + |payload| > data.Length {
          Reset();
          return;
        }
        Copy(dataSize, payload);
        assert data[..dataSize + |payload|] == data[..][..dataSize + |payload|] == old(data[..dataSize]) + payload;
        dataSize := dataSize + |payload|;
      }
    }

    /** The bytes of the message, once complete. */
    function Collected(): seq<byte>
      requires Valid()
      reads this, data
      ensures Collected() == View().filled
    {
      if beyond == [] then data[..dataSize] else data[..] + beyond
    }

    predicate IsComplete()
      requires Valid()
      reads this, data
      ensures IsComplete() == View().Complete()
    {
      dataSize != 0 && totalLength == dataSize
    }
  }
}
