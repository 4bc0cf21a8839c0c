/** Base 128 varints and the scalar values they carry. */
module Varints {
  import opened Bytes
  import opened Options

  /** A number together with the position behind it. */
  datatype Read = Read(value: nat, next: nat)

  /** The varint at `pos`; nothing when the data ends inside it. */
  function ReadVarint(data: seq<byte>, pos: nat): (r: Option<Read>)
    ensures r.Some? ==> pos < r.value.next <= |data|
    decreases if pos < |data| then |data| - pos else 0
  {
    if pos >= |data| then None
    else if data[pos] < 128 then Some(Read(data[pos], pos + 1))
    else Behind(data[pos] % 128, 128, ReadVarint(data, pos + 1))
  }

  /** `low` below what was read next, which counts `scale` times. */
  function Behind(low: nat, scale: nat, r: Option<Read>): Option<Read> {
    if r.None? then None else Some(Read(low + scale * r.value.value, r.value.next))
  }

  /** One byte further, with `low` and `scale` standing for the bytes before. */
  lemma ReadOn(data: seq<byte>, pos: nat, low: nat, scale: nat)
    ensures pos >= |data| ==> Behind(low, scale, ReadVarint(data, pos)) == None
    ensures pos < |data| && data[pos] < 128 ==>
      Behind(low, scale, ReadVarint(data, pos)) == Some(Read(low + data[pos] % 128 * scale, pos + 1))
    ensures pos < |data| && data[pos] >= 128 ==>
      Behind(low, scale, ReadVarint(data, pos)) ==
      Behind(low + data[pos] % 128 * scale, scale * 128, ReadVarint(data, pos + 1))
  {
    if pos < |data| && data[pos] >= 128 {
      var r := ReadVarint(data, pos + 1);
      if r.Some? {
        Distribute(scale, data[pos] % 128, r.value.value);
      }
    }
  }

  lemma Distribute(scale: nat, b: nat, v: nat)
    ensures scale * (b + 128 * v) == b * scale + scale * 128 * v
  {
  }

  method ReadVarintAt(data: seq<byte>, start: nat) returns (r: Option<Read>)
    ensures r == ReadVarint(data, start)
  {
    var pos: nat, result: nat, scale: nat := start, 0, 1;
    assert ReadVarint(data, start) == Behind(0, 1, ReadVarint(data, start));
    hide ReadVarint, Behind;
    while pos < |data|
      invariant start <= pos
      invariant ReadVarint(data, start) == Behind(result, scale, ReadVarint(data, pos))
    {
      ReadOn(data, pos, result, scale);
      var b: nat := data[pos];
      pos := pos + 1;
      result := result + b % 128 * scale;
      if b < 128 {
        return Some(Read(result, pos));
      }
      scale := scale * 128;
    }
    ReadOn(data, pos, result, scale);
    return None;
  }

  function EncodeVarint(n: nat): (r: seq<byte>)
    ensures |r| > 0
  {
    if n < 128 then [n] else [128 + n % 128] + EncodeVarint(n / 128)
  }

  /** A varint written anywhere in the data reads back, and the reading stops right behind it. */
  lemma {:induction false} VarintRoundTrip(data: seq<byte>, pos: nat, n: nat)
    requires pos <= |data| && EncodeVarint(n) <= data[pos..]
    ensures ReadVarint(data, pos) == Some(Read(n, pos + |EncodeVarint(n)|))
    decreases n
  {
    var e := EncodeVarint(n);
    assert data[pos] == e[0];
    if n >= 128 {
      assert e[1..] == EncodeVarint(n / 128);
      assert data[pos + 1..] == data[pos..][1..];
      VarintRoundTrip(data, pos + 1, n / 128);
    }
  }

  // ---- Scalars -----------------------------------------------------------------------------------

  const TWO31 := 0x8000_0000
  const TWO32 := 0x1_0000_0000
  const TWO63 := 0x8000_0000_0000_0000
  const TWO64 := 0x1_0000_0000_0000_0000

  function Zigzag(n: nat): int {
    if n % 2 == 0 then n / 2 else -(n / 2) - 1
  }

  /** The number a varint stands for in a field of scalar type `ptype`. */
  function VarintNumber(ptype: string, val: nat): int {
    if ptype == "sint32" || ptype == "sint64" then Zigzag(val)
    else if ptype == "int32" then
      var v := val % TWO32;
      if v >= TWO31 then v - TWO32 else v
    else if ptype == "int64" then
      if val >= TWO63 then val - TWO64 else val
    else val
  }

  predicate InRange(ptype: string, v: int) {
    match ptype
    case "int32" => -TWO31 <= v < TWO31
    case "sint32" => -TWO31 <= v < TWO31
    case "int64" => -TWO63 <= v < TWO63
    case "sint64" => -TWO63 <= v < TWO63
    case "uint32" => 0 <= v < TWO32
    case "uint64" => 0 <= v < TWO64
    case _ => false
  }

  /** The varint a protobuf writer puts for `v`: signed types other than sint are widened to 64 bits first. */
  function NumberVarint(ptype: string, v: int): nat
    requires InRange(ptype, v)
  {
    if ptype == "sint32" || ptype == "sint64" then if v >= 0 then 2 * v else -2 * v - 1
    else if v < 0 then v + TWO64
    else v
  }

  /** Every integer of every varint type comes back with its sign. */
  lemma NumberRoundTrip(ptype: string, v: int)
    requires InRange(ptype, v)
    ensures NumberVarint(ptype, v) < TWO64
    ensures VarintNumber(ptype, NumberVarint(ptype, v)) == v
  {
    if ptype == "int32" && v < 0 {
      assert (v + TWO64) % TWO32 == v + TWO32 by {
        assert v + TWO64 == (TWO32 - 1) * TWO32 + (v + TWO32);
      }
    }
  }
}
