/** The recording on disk: length-prefixed envelopes, appended one at a time and read back from a file
    that may have been cut off anywhere. */
module Recording {
  import opened Bytes

  const MAX_ENVELOPE := 0x8000_0000 - 4

  /** Envelopes short enough for their length to be put in front of them. */
  predicate Fit(ps: seq<seq<byte>>) {
    forall i | 0 <= i < |ps| :: |ps[i]| < MAX_ENVELOPE
  }

  /** What is on disk once `ps` have been sent. */
  function Framed(ps: seq<seq<byte>>): seq<byte>
    requires Fit(ps)
  {
    if ps == [] then [] else ToLe32(|ps[0]|) + ps[0] + Framed(ps[1..])
  }

  lemma LeBytes(n: nat)
    requires n < 0x1_0000_0000
    ensures ToLe32(n) == [n % 256, n / 0x100 % 256, n / 0x1_0000 % 256, n / 0x100_0000]
  {
    var lo, hi := n % 0x1_0000, n / 0x1_0000;
    HalvesOf(lo, hi);
    assert n == 0x1_0000 * hi + lo;
  }

  lemma HalvesOf(lo: nat, hi: nat)
    requires lo < 0x1_0000
    ensures (0x1_0000 * hi + lo) % 256 == lo % 256
    ensures (0x1_0000 * hi + lo) / 0x100 % 256 == lo / 256
    ensures (0x1_0000 * hi + lo) / 0x100_0000 == hi / 256
  {
    var n := 0x1_0000 * hi + lo;
    assert n / 0x100 == 0x100 * hi + lo / 256;
    assert n == 0x100_0000 * (hi / 256) + (0x1_0000 * (hi % 256) + lo);
  }

  lemma {:induction false} FramedSnoc(ps: seq<seq<byte>>, p: seq<byte>)
    requires Fit(ps) && |p| < MAX_ENVELOPE
    ensures Fit(ps + [p])
    ensures Framed(ps + [p]) == Framed(ps) + ToLe32(|p|) + p
  {
    hide ToLe32;
    if ps == [] {
      assert ps + [p] == [p];
      assert [p][1..] == [];
    } else {
      assert (ps + [p])[1..] == ps[1..] + [p];
      FramedSnoc(ps[1..], p);
    }
  }

  lemma LengthThenPayload(buf: seq<byte>, payload: seq<byte>)
    requires |buf| == 4 + |payload| < 0x8000_0000
    requires buf[0] == |payload| % 256 && buf[1] == |payload| / 0x100 % 256
    requires buf[2] == |payload| / 0x1_0000 % 256 && buf[3] == |payload| / 0x100_0000
    requires forall i | 0 <= i < |payload| :: buf[4 + i] == payload[i]
    ensures buf == ToLe32(|payload|) + payload
  {
    LeBytes(|payload|);
    hide ToLe32;
    assert buf[..4] == ToLe32(|payload|);
    assert buf[4..] == payload;
    assert buf == buf[..4] + buf[4..];
  }

  method Prefixed(payload: seq<byte>) returns (buf: array<byte>)
    requires |payload| < MAX_ENVELOPE
    ensures buf[..] == ToLe32(|payload|) + payload
  {
    hide ToLe32;
    var len := |payload|;
    buf := new byte[4 + len];
    buf[0] := len % 256;
    buf[1] := len / 0x100 % 256;
    buf[2] := len / 0x1_0000 % 256;
    buf[3] := len / 0x100_0000;
    forall i | 0 <= i < len {
      buf[4 + i] := payload[i];
    }
    LengthThenPayload(buf[..], payload);
  }

  class FileSink {
    var file: seq<byte>
    ghost var sent: seq<seq<byte>>

    ghost predicate Valid()
      reads this
    {
      Fit(sent) && file == Framed(sent)
    }

    constructor ()
      ensures Valid() && sent == []
    {
      file := [];
      sent := [];
    }

    /** Append the serialized envelope behind its length. */
    method Send(payload: seq<byte>)
      requires Valid() && |payload| < MAX_ENVELOPE
      modifies this
      ensures Valid() && sent == old(sent) + [payload]
      ensures file == old(file) + ToLe32(|payload|) + payload
    {
      hide ToLe32, Framed, Fit;
      var buf := Prefixed(payload);
      FramedSnoc(sent, payload);
      file := file + buf[..];
      sent := sent + [payload];
    }
  }

  // ---- Reading ---------------------------------------------------------------------------------

  /** Where the records lie from `i` on: their starts and ends. */
  function Spans(data: seq<byte>, i: nat): (r: seq<(nat, nat)>)
    requires i <= |data|
    ensures forall s | s in r :: i + 4 <= s.0 <= s.1 <= |data|
    decreases |data| - i
  {
    if i + 4 > |data| then []
    else
      var size := Le32(data[i..i + 4]);
      if i + 4 + size > |data| then []
      else [(i + 4, i + 4 + size)] + Spans(data, i + 4 + size)
  }

  lemma SpansStep(data: seq<byte>, i: nat)
    requires i <= |data|
    ensures i + 4 > |data| ==> Spans(data, i) == []
    ensures i + 4 <= |data| ==>
      var j := i + 4 + Le32(data[i..i + 4]);
      Spans(data, i) == if j > |data| then [] else [(i + 4, j)] + Spans(data, j)
  {
  }

  lemma Reassociate(a: seq<(nat, nat)>, x: (nat, nat), rest: seq<(nat, nat)>)
    ensures a + ([x] + rest) == a + [x] + rest
  {
  }

  method IterRecords(data: seq<byte>) returns (r: seq<(nat, nat)>)
    ensures r == Spans(data, 0)
  {
    hide Spans, Le32;
    r := [];
    var i := 0;
    assert Spans(data, 0) == r + Spans(data, 0);
    while i + 4 <= |data|
      invariant i <= |data|
      invariant Spans(data, 0) == r + Spans(data, i)
      decreases |data| - i
    {
      SpansStep(data, i);
      var size := Le32(data[i..i + 4]);
      i := i + 4;
      if i + size > |data| {
        break;
      }
      Reassociate(r, (i, i + size), Spans(data, i + size));
      r := r + [(i, i + size)];
      i := i + size;
    }
    SpansStep(data, i);
  }

  function Contents(data: seq<byte>, spans: seq<(nat, nat)>): seq<seq<byte>>
    requires forall s | s in spans :: s.0 <= s.1 <= |data|
  {
    if spans == [] then [] else [data[spans[0].0..spans[0].1]] + Contents(data, spans[1..])
  }

  lemma {:induction false} ContentsAt(data: seq<byte>, spans: seq<(nat, nat)>)
    requires forall s | s in spans :: s.0 <= s.1 <= |data|
    ensures |Contents(data, spans)| == |spans|
    ensures forall i | 0 <= i < |spans| :: Contents(data, spans)[i] == data[spans[i].0..spans[i].1]
  {
    if spans != [] {
      ContentsAt(data, spans[1..]);
    }
  }

  /** What reading a file gives. */
  function ReadBack(data: seq<byte>): seq<seq<byte>> {
    Contents(data, Spans(data, 0))
  }

  /** How many of the envelopes lie wholly within the first `k` bytes. */
  function WholeWithin(ps: seq<seq<byte>>, k: int): (n: nat)
    ensures n <= |ps|
  {
    if ps == [] || 4 + |ps[0]| > k then 0 else 1 + WholeWithin(ps[1..], k - 4 - |ps[0]|)
  }

  /** The count is the right one: that many fit, and one more would not. */
  lemma {:induction false} WholeWithinIsMost(ps: seq<seq<byte>>, k: nat)
    requires Fit(ps)
    ensures var n := WholeWithin(ps, k);
      && |Framed(ps[..n])| <= k
      && (n < |ps| ==> |Framed(ps[..n + 1])| > k)
  {
    hide ToLe32;
    if ps != [] && 4 + |ps[0]| <= k {
      var n := WholeWithin(ps[1..], k - 4 - |ps[0]|);
      WholeWithinIsMost(ps[1..], k - 4 - |ps[0]|);
      assert ps[..n + 1][1..] == ps[1..][..n];
      if n + 1 < |ps| {
        assert ps[..n + 2][1..] == ps[1..][..n + 1];
      }
    } else if ps != [] {
      assert ps[..1][1..] == [];
      assert Framed(ps[..1]) == ToLe32(|ps[0]|) + ps[0];
    }
  }

  /** The length in front of the first envelope, and where the envelopes after it start. */
  lemma FramedStep(file: seq<byte>, i: nat, ps: seq<seq<byte>>)
    requires Fit(ps)
    requires ps != [] && i <= |file| && file[i..] == Framed(ps)
    ensures var j := i + 4 + |ps[0]|;
      && j <= |file| && file[i..i + 4] == ToLe32(|ps[0]|)
      && file[i + 4..j] == ps[0] && file[j..] == Framed(ps[1..])
  {
    hide ToLe32;
    var p, j := ps[0], i + 4 + |ps[0]|;
    var rest := file[i..];
    assert rest == ToLe32(|p|) + p + Framed(ps[1..]);
    assert file[i..i + 4] == rest[..4] == ToLe32(|p|);
    assert file[i + 4..j] == rest[4..4 + |p|] == p;
    assert file[j..] == rest[4 + |p|..] == Framed(ps[1..]);
  }

  lemma {:induction false} SpansReadBack(file: seq<byte>, i: nat, ps: seq<seq<byte>>, k: nat)
    requires Fit(ps)
    requires i <= k <= |file| && file[i..] == Framed(ps)
    ensures Contents(file[..k], Spans(file[..k], i)) == ps[..WholeWithin(ps, k - i)]
    decreases |ps|
  {
    hide Spans, Contents, Framed, ToLe32, Le32;
    var data := file[..k];
    SpansStep(data, i);
    NoContent(data);
    if ps == [] {
      assert |file[i..]| == 0 by {
        EmptyFrame();
      }
    } else {
      var p, j := ps[0], i + 4 + |ps[0]|;
      FramedStep(file, i, ps);
      if i + 4 <= k {
        assert data[i..i + 4] == file[i..i + 4];
        if j <= k {
          assert data[i + 4..j] == file[i + 4..j];
          SpansReadBack(file, j, ps[1..], k);
          OneMoreContent(data, (i + 4, j), Spans(data, j));
          assert ps[..WholeWithin(ps, k - i)] == [p] + ps[1..][..WholeWithin(ps[1..], k - j)];
        }
      }
    }
  }

  lemma EmptyFrame()
    ensures Framed([]) == []
  {
  }

  lemma NoContent(data: seq<byte>)
    ensures Contents(data, []) == []
  {
  }

  lemma OneMoreContent(data: seq<byte>, s: (nat, nat), spans: seq<(nat, nat)>)
    requires forall t | t in [s] + spans :: t.0 <= t.1 <= |data|
    ensures forall t | t in spans :: t in [s] + spans
    ensures Contents(data, [s] + spans) == [data[s.0..s.1]] + Contents(data, spans)
  {
    assert ([s] + spans)[1..] == spans;
    assert forall t | t in spans :: t in [s] + spans;
  }

  /** A recording cut off after any number of bytes reads back as exactly the envelopes it holds whole. */
  lemma TruncatedReadBack(ps: seq<seq<byte>>, k: nat)
    requires Fit(ps)
    ensures k <= |Framed(ps)| ==> ReadBack(Framed(ps)[..k]) == ps[..WholeWithin(ps, k)]
  {
    var file := Framed(ps);
    assert file[0..] == file;
    if k <= |file| {
      SpansReadBack(file, 0, ps, k);
    }
  }
}
