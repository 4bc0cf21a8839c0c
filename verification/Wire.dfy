/** One protocol packet: finding the opcode, flags, sequence number and payload in the wire bytes,
    and undoing the compression. */
module Wire {
  import opened Options
  import opened Bytes

  // Net opcodes as a little-endian host reads them: the first wire byte is 0, the second the op.
  const OP_COMBINED := 0x0300
  const OP_SESSION_STAT_REQUEST := 0x0700
  const OP_SESSION_STAT_RESPONSE := 0x0800
  const OP_PACKET := 0x0900
  const OP_OVERSIZED := 0x0d00
  const OP_APP_COMBINED := 0x1900

  const PROTOCOL_FLAG_COMPRESSED: byte := 0x5a

  predicate IsAppOpcode(op: nat) {
    op % 256 != 0
  }

  predicate HasFlags(op: nat, subpacket: bool) {
    !subpacket &&
    (op in {OP_SESSION_STAT_REQUEST, OP_SESSION_STAT_RESPONSE, OP_COMBINED, OP_PACKET, OP_OVERSIZED, OP_APP_COMBINED}
     || IsAppOpcode(op))
  }

  predicate HasArqSeq(op: nat) {
    op == OP_PACKET || op == OP_OVERSIZED
  }

  /** The opcodes by their bytes on the wire: which packets carry flags and a checksum, and which a number. */
  lemma OpcodeTable(first: byte, second: byte, subpacket: bool)
    ensures var op := 256 * second + first;
      && Host16([first, second]) == op
      && (HasFlags(op, subpacket) <==>
            !subpacket && (first != 0 || second in {0x03, 0x07, 0x08, 0x09, 0x0d, 0x19}))
      && (HasArqSeq(op) <==> first == 0 && second in {0x09, 0x0d})
  {
    LowByte(second, first);
  }

  /** What a receiver knows of a packet. */
  datatype Parsed = Parsed(netOp: nat, flags: byte, payload: seq<byte>, arqSeq: nat, decoded: bool)

  /** Enough bytes for the headers and the checksum the opcode calls for. */
  predicate WellSized(p: seq<byte>, subpacket: bool) {
    && |p| >= 2
    && var op := Host16(p);
       if !HasFlags(op, subpacket) then HasArqSeq(op) ==> |p| >= 4
       else if IsAppOpcode(op) then |p| >= 5
       else |p| >= 5 && (p[2] != PROTOCOL_FLAG_COMPRESSED && HasArqSeq(op) ==> |p| >= 7)
  }

  /** Take the sequence number off the front of the payload, if the opcode has one. */
  function TakeSeq(k: Parsed): Parsed
    requires HasArqSeq(k.netOp) ==> |k.payload| >= 2
  {
    if HasArqSeq(k.netOp) then k.(arqSeq := Be16(k.payload), payload := k.payload[2..]) else k
  }

  function Initial(p: seq<byte>, subpacket: bool): Parsed
    requires WellSized(p, subpacket)
  {
    var op := Host16(p);
    if !HasFlags(op, subpacket) then TakeSeq(Parsed(op, 0, p[2..], 0, true))
    else
      var flags := if IsAppOpcode(op) then p[1] else p[2];
      var k := Parsed(if IsAppOpcode(op) then U16(p[2], p[0]) else op, flags, p[3..|p| - 2], 0,
                      flags != PROTOCOL_FLAG_COMPRESSED);
      if k.decoded then TakeSeq(k) else k
  }

  /** The compressed bytes: those of an app packet start with the second half of the opcode. */
  function Squeezed(p: seq<byte>, k: Parsed): seq<byte>
    requires |p| >= 5
  {
    if IsAppOpcode(k.netOp) then p[2..|p| - 2] else p[3..|p| - 2]
  }

  /** `inflate` is the decompressor, given the space for its result. */
  type Inflate = (seq<byte>, nat) -> Option<seq<byte>>

  /** What is inflated holds at least what is then taken off its front. */
  predicate LongEnough(p: seq<byte>, k: Parsed, inflate: Inflate, max: nat) {
    k.decoded || (|p| >= 5 &&
      var raw := inflate(Squeezed(p, k), max);
      raw.Some? ==> |raw.value| >= if IsAppOpcode(k.netOp) then 1 else if HasArqSeq(k.netOp) then 2 else 0)
  }

  function Decoded(p: seq<byte>, k: Parsed, inflate: Inflate, max: nat): Option<Parsed>
    requires LongEnough(p, k, inflate, max)
  {
    if k.decoded then Some(k)
    else
      var raw := inflate(Squeezed(p, k), max);
      if raw.None? then None
      else if IsAppOpcode(k.netOp) then
        Some(k.(netOp := U16(raw.value[0], p[0]), payload := raw.value[1..], decoded := true))
      else Some(TakeSeq(k.(payload := raw.value)).(decoded := true))
  }

  /** A packet is taken for compressed exactly if it carries flags and they are 0x5a. */
  lemma CompressedIff(p: seq<byte>, subpacket: bool)
    requires WellSized(p, subpacket)
    ensures var app := p[0] != 0;
      !Initial(p, subpacket).decoded <==>
        HasFlags(Host16(p), subpacket) && p[if app then 1 else 2] == 0x5a
  {
    LowByte(p[1], p[0]);
  }

  // ---- Lengths that wrap -----------------------------------------------------------------------

  const UINT32_MODULUS := 0x1_0000_0000

  /** Subtraction of unsigned 32-bit numbers. */
  function Less(a: int, b: int): nat {
    (a - b) % UINT32_MODULUS
  }

  /** The payload's length as it is computed, one unsigned subtraction after another. */
  function ComputedLength(p: seq<byte>, subpacket: bool): nat
    requires |p| >= 2 && (HasFlags(Host16(p), subpacket) ==> |p| >= 3)
  {
    var op := Host16(p);
    if !HasFlags(op, subpacket) then
      if HasArqSeq(op) then Less(Less(|p|, 2), 2) else Less(|p|, 2)
    else
      var netOp := if IsAppOpcode(op) then U16(p[2], p[0]) else op;
      var flags := if IsAppOpcode(op) then p[1] else p[2];
      var n := Less(Less(|p|, 3), 2);
      if flags != PROTOCOL_FLAG_COMPRESSED && HasArqSeq(netOp) then Less(n, 2) else n
  }

  /** Exactly for the packets that are too short for their headers does the length wrap round, to more than the
      packet; for all others it is that of the payload. */
  lemma LengthWrapsIff(p: seq<byte>, subpacket: bool)
    requires 2 <= |p| < 0x8000_0000 && (HasFlags(Host16(p), subpacket) ==> |p| >= 3)
    ensures ComputedLength(p, subpacket) > |p| <==> !WellSized(p, subpacket)
    ensures WellSized(p, subpacket) ==> ComputedLength(p, subpacket) == |Initial(p, subpacket).payload|
  {
    hide U16, Be16;
    var op := Host16(p);
    LowByte(p[1], p[0]);
    if HasFlags(op, subpacket) && IsAppOpcode(op) {
      LowByte(p[2], p[0]);
      AppIsNoNetOp(U16(p[2], p[0]));
    }
  }

  /** What decoding takes off the front of the inflated bytes. */
  function TakenOff(op: nat): nat {
    if IsAppOpcode(op) then 1 else if HasArqSeq(op) then 2 else 0
  }

  /** After inflating, the length wraps round exactly when there is less than is taken off. */
  lemma InflatedLengthWrapsIff(p: seq<byte>, k: Parsed, inflate: Inflate, max: nat)
    requires !k.decoded && |p| >= 5
    requires var raw := inflate(Squeezed(p, k), max); raw.Some? && |raw.value| < 0x8000_0000
    ensures var n := |inflate(Squeezed(p, k), max).value|;
      Less(n, TakenOff(k.netOp)) > n <==> !LongEnough(p, k, inflate, max)
  {
  }

  lemma AppIsNoNetOp(op: nat)
    requires IsAppOpcode(op)
    ensures !HasArqSeq(op) && HasFlags(op, false)
  {
  }

  // ---- The sender's side ---------------------------------------------------------------------

  datatype Framing = Plain(flag: byte) | Squeeze

  predicate ValidFraming(f: Framing) {
    f.Plain? ==> f.flag != PROTOCOL_FLAG_COMPRESSED
  }

  type Deflate = seq<byte> -> seq<byte>

  function FrameNet(deflate: Deflate, op: byte, body: seq<byte>, f: Framing, crc: seq<byte>): seq<byte> {
    [0, op] + (if f.Plain? then [f.flag] + body else [PROTOCOL_FLAG_COMPRESSED] + deflate(body)) + crc
  }

  /** The flags split an app opcode in two, and compression takes in its second half. */
  function FrameApp(deflate: Deflate, lo: byte, hi: byte, body: seq<byte>, f: Framing, crc: seq<byte>): seq<byte> {
    [lo] + (if f.Plain? then [f.flag, hi] + body else [PROTOCOL_FLAG_COMPRESSED] + deflate([hi] + body)) + crc
  }

  ghost predicate Inverse(inflate: Inflate, deflate: Deflate, max: nat) {
    forall x :: |x| <= max ==> inflate(deflate(x), max) == Some(x)
  }

  /** What comes of a wire packet. */
  function Open(p: seq<byte>, inflate: Inflate, max: nat): Option<Parsed>
    requires WellSized(p, false) && LongEnough(p, Initial(p, false), inflate, max)
  {
    Decoded(p, Initial(p, false), inflate, max)
  }

  /** The receiver can read `p`, and reads `k`. */
  ghost predicate Reads(p: seq<byte>, inflate: Inflate, max: nat, k: Parsed) {
    && WellSized(p, false) && LongEnough(p, Initial(p, false), inflate, max)
    && Open(p, inflate, max) == Some(k)
  }

  function FlagOf(f: Framing): byte {
    if f.Plain? then f.flag else PROTOCOL_FLAG_COMPRESSED
  }

  lemma FrameNetShape(deflate: Deflate, op: byte, body: seq<byte>, f: Framing, crc: seq<byte>)
    requires |crc| == 2
    ensures var p, content := FrameNet(deflate, op, body, f, crc), if f.Plain? then body else deflate(body);
      && |p| == 5 + |content| && Host16(p) == U16(op, 0) && p[2] == FlagOf(f) && p[3..|p| - 2] == content
  {
    hide U16;
  }

  lemma SeqFront(s: nat, body: seq<byte>)
    requires s < 0x1_0000
    ensures var whole := ToBe16(s) + body;
      |whole| >= 2 && Be16(whole) == s && whole[2..] == body
  {
    assert Be16(ToBe16(s) + body) == Be16(ToBe16(s));
  }

  /** A sequenced packet, plain or compressed, is read back: opcode, sequence number and payload. */
  lemma SequencedRoundTrip(inflate: Inflate, deflate: Deflate, max: nat,
                           op: byte, s: nat, body: seq<byte>, f: Framing, crc: seq<byte>)
    requires HasArqSeq(U16(op, 0)) && s < 0x1_0000 && |crc| == 2 && ValidFraming(f)
    requires Inverse(inflate, deflate, max) && |body| + 2 <= max
    ensures Reads(FrameNet(deflate, op, ToBe16(s) + body, f, crc), inflate, max,
                  Parsed(U16(op, 0), FlagOf(f), body, s, true))
  {
    hide FrameNet, U16, Host16, Be16, ToBe16;
    FrameNetShape(deflate, op, ToBe16(s) + body, f, crc);
    SeqFront(s, body);
  }

  /** The other net packets that carry flags: the payload alone. */
  lemma UnsequencedRoundTrip(inflate: Inflate, deflate: Deflate, max: nat,
                             op: byte, body: seq<byte>, f: Framing, crc: seq<byte>)
    requires HasFlags(U16(op, 0), false) && !HasArqSeq(U16(op, 0)) && |crc| == 2 && ValidFraming(f)
    requires Inverse(inflate, deflate, max) && |body| <= max
    ensures Reads(FrameNet(deflate, op, body, f, crc), inflate, max, Parsed(U16(op, 0), FlagOf(f), body, 0, true))
  {
    hide FrameNet, U16, Host16, Be16;
    FrameNetShape(deflate, op, body, f, crc);
    LowByte(op, 0);
  }

  /** An app packet: the two halves of its opcode are put together again, and the body read back. */
  lemma AppRoundTrip(inflate: Inflate, deflate: Deflate, max: nat,
                     lo: byte, hi: byte, body: seq<byte>, f: Framing, crc: seq<byte>)
    requires lo != 0 && |crc| == 2 && ValidFraming(f)
    requires Inverse(inflate, deflate, max) && |body| + 1 <= max
    requires f.Squeeze? ==> |deflate([hi] + body)| >= 1
    ensures Reads(FrameApp(deflate, lo, hi, body, f, crc), inflate, max,
                  Parsed(U16(hi, lo), FlagOf(f), body, 0, true))
  {
    hide U16;
    var p := FrameApp(deflate, lo, hi, body, f, crc);
    LowByte(FlagOf(f), lo);
    LowByte(hi, lo);
    LowByte(p[2], lo);
    AppIsNoNetOp(U16(FlagOf(f), lo));
    AppIsNoNetOp(U16(hi, lo));
    AppIsNoNetOp(U16(p[2], lo));
    if f.Plain? {
      assert p[3..|p| - 2] == body;
    } else {
      assert Squeezed(p, Initial(p, false)) == deflate([hi] + body);
      assert ([hi] + body)[1..] == body;
    }
  }

  /** A packet inside another has neither flags nor checksum. */
  lemma SubpacketRoundTrip(op: byte, s: nat, body: seq<byte>)
    requires HasArqSeq(U16(op, 0)) && s < 0x1_0000
    ensures var p := [0, op] + ToBe16(s) + body;
            WellSized(p, true) && Initial(p, true) == Parsed(U16(op, 0), 0, body, s, true)
  {
    var p := [0, op] + ToBe16(s) + body;
    assert p[2..] == ToBe16(s) + body;
    assert p[2..][2..] == body;
  }

  // ---- The packet object -----------------------------------------------------------------------

  class ProtocolPacket {
    const packet: seq<byte>
    const subpacket: bool
    var netOp: nat
    var flags: byte
    var payload: seq<byte>
    var arqSeq: nat
    var decoded: bool

    function View(): Parsed
      reads this
    {
      Parsed(netOp, flags, payload, arqSeq, decoded)
    }

    constructor Init(packet: seq<byte>, subpacket: bool)
      requires WellSized(packet, subpacket)
      ensures this.packet == packet && this.subpacket == subpacket
      ensures View() == Initial(packet, subpacket)
    {
      this.packet, this.subpacket := packet, subpacket;
      netOp := Host16(packet);
      arqSeq := 0;
      if !HasFlags(Host16(packet), subpacket) {
        flags := 0;
        payload := packet[2..];
        decoded := true;
      } else {
        var app := IsAppOpcode(Host16(packet));
        if app {
          netOp := U16(packet[2], packet[0]);
        }
        var f := if app then packet[1] else packet[2];
        flags := f;
        payload := packet[3..|packet| - 2];
        decoded := f != PROTOCOL_FLAG_COMPRESSED;
      }
      new;
      if HasArqSeq(netOp) && decoded {
        arqSeq := Be16(payload);
        payload := payload[2..];
      }
    }

    method Decode(inflate: Inflate, max: nat) returns (ok: bool)
      requires WellSized(packet, subpacket) && (decoded || View() == Initial(packet, subpacket))
      requires LongEnough(packet, View(), inflate, max)
      modifies this
      ensures var r := Decoded(packet, old(View()), inflate, max);
              ok == r.Some? && (ok ==> View() == r.value)
    {
      if decoded {
        return true;
      }
      var app := IsAppOpcode(netOp);
      payload := if app then packet[2..|packet| - 2] else packet[3..|packet| - 2];
      var raw := inflate(payload, max);
      if raw.None? {
        return false;
      }
      if app {
        LowByte(packet[2], packet[0]);
        LowByte(raw.value[0], packet[0]);
        AppIsNoNetOp(U16(raw.value[0], packet[0]));
        netOp := U16(raw.value[0], packet[0]);
        payload := raw.value[1..];
      } else {
        payload := raw.value;
      }
      if HasArqSeq(netOp) {
        arqSeq := Be16(payload);
        payload := payload[2..];
      }
      decoded := true;
      return true;
    }
  }
}
