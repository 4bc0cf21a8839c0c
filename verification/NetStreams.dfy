/** The byte cursor: every read takes what it needs from the front of the remaining bytes, or gives 0 and
    takes nothing. */
module NetStreams {
  import opened Bytes

  function TakeU8(r: seq<byte>): (nat, seq<byte>) {
    if |r| >= 1 then (r[0], r[1..]) else (0, r)
  }

  function TakeU32(r: seq<byte>): (nat, seq<byte>) {
    if |r| >= 4 then (Le32(r), r[4..]) else (0, r)
  }

  function TakeUpTo(r: seq<byte>, n: nat): (seq<byte>, seq<byte>) {
    if n <= |r| then (r[..n], r[n..]) else (r, [])
  }

  /** Text behind its length; less of it when the bytes run out. */
  function TakeText(r: seq<byte>): (seq<byte>, seq<byte>) {
    var (n, r1) := TakeU32(r);
    TakeUpTo(r1, n)
  }

  /** All of `n` bytes or none. */
  function TakeSkip(r: seq<byte>, n: nat): seq<byte> {
    if n <= |r| then r[n..] else r
  }

  /** What is read near the end: numbers and skips that do not fit read 0 and move nothing, text takes what there
      is. */
  lemma NearTheEnd(r: seq<byte>, n: nat)
    ensures r == [] ==> TakeU8(r) == (0, [])
    ensures |r| < 4 ==> TakeU32(r) == (0, r) && TakeText(r) == ([], r)
    ensures |r| < n ==> TakeSkip(r, n) == r
    ensures |r| >= 4 && Le32(r) > |r| - 4 ==> TakeText(r) == (r[4..], [])
  {
  }

  class NetStream {
    const data: seq<byte>
    var pos: nat

    ghost predicate Valid()
      reads this
    {
      pos <= |data|
    }

    ghost function Rest(): seq<byte>
      requires Valid()
      reads this
    {
      data[pos..]
    }

    constructor (data: seq<byte>)
      ensures Valid() && this.data == data && Rest() == data
    {
      this.data := data;
      pos := 0;
    }

    predicate End()
      reads this
      requires Valid()
      ensures End() <==> Rest() == []
    {
      pos >= |data|
    }

    method ReadUInt8() returns (val: nat)
      requires Valid()
      modifies this
      ensures Valid() && (val, Rest()) == TakeU8(old(Rest()))
    {
      if |data| - pos >= 1 {
        val := data[pos];
        pos := pos + 1;
        assert Rest() == old(Rest())[1..];
      } else {
        val := 0;
      }
    }

    method ReadUInt32NC() returns (val: nat)
      requires Valid()
      modifies this
      ensures Valid() && (val, Rest()) == TakeU32(old(Rest()))
    {
      if |data| - pos >= 4 {
        val := Le32(data[pos..]);
        pos := pos + 4;
        assert Rest() == old(Rest())[4..];
      } else {
        val := 0;
      }
    }

    method ReadLPText() returns (text: seq<byte>)
      requires Valid()
      modifies this
      ensures Valid() && (text, Rest()) == TakeText(old(Rest()))
    {
      var len := ReadUInt32NC();
      ghost var r := Rest();
      text := [];
      for i := 0 to len
        invariant Valid() && i <= |r| && (text, Rest()) == (r[..i], r[i..])
      {
        if pos < |data| {
          assert data[pos] == r[i] && r[..i] + [r[i]] == r[..i + 1];
          text := text + [data[pos]];
          pos := pos + 1;
          assert Rest() == r[i + 1..];
        } else {
          assert text == r;
          break;
        }
      }
    }

    method SkipBytes(byteCount: nat)
      requires Valid()
      modifies this
      ensures Valid() && Rest() == TakeSkip(old(Rest()), byteCount)
    {
      if |data| - pos >= byteCount {
        pos := pos + byteCount;
        assert Rest() == old(Rest())[byteCount..];
      }
    }
  }

  // ---- What was written comes back ---------------------------------------------------------------

  lemma U8Back(v: byte, tail: seq<byte>)
    ensures TakeU8([v] + tail) == (v, tail)
  {
    assert ([v] + tail)[1..] == tail;
  }

  lemma U32Back(v: nat, tail: seq<byte>)
    requires v < 0x1_0000_0000
    ensures TakeU32(ToLe32(v) + tail) == (v, tail)
  {
    assert (ToLe32(v) + tail)[4..] == tail;
  }

  function EncodeText(text: seq<byte>): seq<byte>
    requires |text| < 0x1_0000_0000
  {
    ToLe32(|text|) + text
  }

  lemma TextBack(text: seq<byte>, tail: seq<byte>)
    requires |text| < 0x1_0000_0000
    ensures TakeText(EncodeText(text) + tail) == (text, tail)
  {
    assert EncodeText(text) + tail == ToLe32(|text|) + (text + tail);
    U32Back(|text|, text + tail);
    assert (text + tail)[..|text|] == text && (text + tail)[|text|..] == tail;
  }

  lemma SkipBack(pad: seq<byte>, tail: seq<byte>)
    ensures TakeSkip(pad + tail, |pad|) == tail
  {
  }
}
