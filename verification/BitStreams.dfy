/** Reading integers of any width up to 32 bits at any bit position. */
module BitStreams {
  import opened Arithmetic
  import opened Bytes

  const UINT32_MODULUS := 0x1_0000_0000

  function Pow2(n: nat): (r: nat)
    ensures r > 0
  {
    if n == 0 then 1 else 2 * Pow2(n - 1)
  }

  /** Bit `i` of the data, the most significant bit of a byte first. */
  function Bit(data: seq<byte>, i: nat): nat
    requires i < 8 * |data|
  {
    data[i / 8] / Pow2(7 - i % 8) % 2
  }

  /** The `n` bits from `pos` on as a big-endian number, one bit at a time. */
  function Bits(data: seq<byte>, pos: nat, n: nat): (r: nat)
    requires pos + n <= 8 * |data|
  {
    if n == 0 then 0 else 2 * Bits(data, pos, n - 1) + Bit(data, pos + n - 1)
  }

  // ---- Arithmetic of powers of two ----------------------------------------------------------

  lemma {:induction false} Pow2Sum(a: nat, b: nat)
    ensures Pow2(a + b) == Pow2(a) * Pow2(b)
  {
    if b > 0 {
      Pow2Sum(a, b - 1);
    }
  }

  lemma {:induction false} Pow2Grows(a: nat, b: nat)
    requires a <= b
    ensures Pow2(a) <= Pow2(b)
  {
    if a < b {
      Pow2Grows(a, b - 1);
    }
  }

  lemma Pow2Values()
    ensures Pow2(8) == 256 && Pow2(32) == UINT32_MODULUS
  {
    assert Pow2(8) == 16 * Pow2(4);
    Pow2Sum(8, 8);
    Pow2Sum(16, 16);
  }

  /** Taking one more low bit. */
  lemma OneMoreBit(n: nat, p: nat)
    requires p > 0
    ensures n % (2 * p) == 2 * (n / 2 % p) + n % 2
  {
    var h := n / 2;
    assert n == 2 * h + n % 2 && h == p * (h / p) + h % p;
    assert n == (2 * p) * (h / p) + (2 * (h % p) + n % 2);
    DivModUnique(n, 2 * p, h / p, 2 * (h % p) + n % 2);
  }

  lemma HalveAgain(n: nat, p: nat)
    requires p > 0
    ensures n / p / 2 == n / (2 * p)
  {
    var q := n / p;
    assert n == p * q + n % p && q == 2 * (q / 2) + q % 2;
    assert n == (2 * p) * (q / 2) + (p * (q % 2) + n % p);
    DivModUnique(n, 2 * p, q / 2, p * (q % 2) + n % p);
  }

  /** Masking first and shifting then is shifting first and masking then. */
  lemma MaskThenShift(n: nat, x: nat, y: nat)
    requires x > 0 && y > 0 && x * y > 0
    ensures n % (x * y) / x == n / x % y
  {
    var q, u := n / x, n % x;
    var k, t := q / y, q % y;
    DivDefinition(n, x);
    DivDefinition(q, y);
    MulDistributes(x, y * k, t);
    MulAssociative(x, y, k);
    MulMonotone(x, t + 1, y);
    MulDistributes(x, t, 1);
    DivModUnique(n, x * y, k, x * t + u);
    DivModUnique(x * t + u, x, t, u);
  }

  // ---- Bits within a byte and across bytes -----------------------------------------------------

  lemma Pow2Step(n: nat)
    ensures Pow2(n + 1) == 2 * Pow2(n)
  {
  }

  lemma BitOfByte(data: seq<byte>, k: nat, j: nat)
    requires k < |data| && j < 8
    ensures Bit(data, 8 * k + j) == data[k] / Pow2(7 - j) % 2
  {
    assert (8 * k + j) / 8 == k && (8 * k + j) % 8 == j;
  }

  lemma ShiftStep(b: nat, p: nat, h: nat)
    requires p > 0 && h > 0
    ensures 2 * (b / (2 * p) % h) + b / p % 2 == b / p % (2 * h)
  {
    HalveAgain(b, p);
    OneMoreBit(b / p, h);
  }

  /** `m` bits inside one byte, `a` bits in. */
  lemma {:induction false} BitsInByte(data: seq<byte>, k: nat, a: nat, m: nat)
    requires k < |data| && a + m <= 8
    ensures Bits(data, 8 * k + a, m) == data[k] / Pow2(8 - a - m) % Pow2(m)
  {
    if m == 0 {
      assert Pow2(0) == 1;
    } else {
      BitsInByte(data, k, a, m - 1);
      Pow2Step(8 - a - m);
      Pow2Step(m - 1);
      BitOfByte(data, k, a + m - 1);
      assert 8 * k + a + m - 1 == 8 * k + (a + m - 1);
      assert Bits(data, 8 * k + a, m) == 2 * Bits(data, 8 * k + a, m - 1) + Bit(data, 8 * k + a + m - 1);
      hide Pow2, Bit, Bits;
      ShiftStep(data[k], Pow2(8 - a - m), Pow2(m - 1));
    }
  }

  /** Reading `a` bits and then `b` is reading `a + b` at once. */
  lemma {:induction false} BitsSplit(data: seq<byte>, pos: nat, a: nat, b: nat)
    requires pos + a + b <= 8 * |data|
    ensures Bits(data, pos, a + b) == Bits(data, pos, a) * Pow2(b) + Bits(data, pos + a, b)
  {
    if b == 0 {
      assert Bits(data, pos, a) * Pow2(0) == Bits(data, pos, a);
    } else {
      BitsSplit(data, pos, a, b - 1);
      var x, p, y := Bits(data, pos, a), Pow2(b - 1), Bits(data, pos + a, b - 1);
      DoubleUp(x, p, y);
      assert pos + (a + b) - 1 == pos + a + b - 1;
    }
  }

  lemma DoubleUp(x: nat, p: nat, y: nat)
    ensures 2 * (x * p + y) == x * (2 * p) + 2 * y
  {
  }

  lemma {:induction false} BitsBound(data: seq<byte>, pos: nat, n: nat)
    requires pos + n <= 8 * |data|
    ensures Bits(data, pos, n) < Pow2(n)
  {
    if n > 0 {
      BitsBound(data, pos, n - 1);
    }
  }

  lemma BitsFit(data: seq<byte>, pos: nat, n: nat)
    requires pos + n <= 8 * |data| && n <= 32
    ensures Bits(data, pos, n) < UINT32_MODULUS
  {
    BitsBound(data, pos, n);
    Pow2Grows(n, 32);
    Pow2Values();
  }

  /** One step of accumulation: the bits so far shifted up by `m` with `m` more of byte `k` put in. */
  lemma Accumulate(data: seq<byte>, pos: nat, so: nat, k: nat, m: nat)
    requires pos + so == 8 * k && k < |data| && m <= 8 && so + m <= 32
    ensures Bits(data, pos, so + m) ==
            (Bits(data, pos, so) * Pow2(m) + data[k] / Pow2(8 - m)) % UINT32_MODULUS
  {
    BitsSplit(data, pos, so, m);
    BitsInByte(data, k, 0, m);
    BitsFit(data, pos, so + m);
    TopBits(data[k], m);
    hide Bits, Pow2;
    SmallMod(Bits(data, pos, so) * Pow2(m) + data[k] / Pow2(8 - m));
  }

  lemma SmallMod(x: nat)
    ensures x < UINT32_MODULUS ==> x % UINT32_MODULUS == x
  {
  }

  lemma TopBits(b: byte, m: nat)
    requires m <= 8
    ensures b / Pow2(8 - m) % Pow2(m) == b / Pow2(8 - m)
  {
    Pow2Sum(8 - m, m);
    Pow2Values();
    hide Pow2;
    QuotientSmall(b, Pow2(8 - m), Pow2(m));
  }

  lemma QuotientSmall(n: nat, p: nat, q: nat)
    requires p > 0 && q > 0 && n < p * q
    ensures n / p % q == n / p
  {
    QuotientLess(n, p, q);
    SmallRemainder(n / p, q);
  }

  lemma QuotientLess(n: nat, p: nat, q: nat)
    requires p > 0 && q > 0 && n < p * q
    ensures n / p < q
  {
    DivDefinition(n, p);
    if n / p >= q {
      MulMonotone(p, q, n / p);
    }
  }

  lemma SmallRemainder(a: nat, b: nat)
    requires a < b
    ensures a % b == a
  {
  }

  /** What a read of `n` bits gives at a position, and where it leaves off. */
  function Read(data: seq<byte>, pos: nat, n: nat): (nat, nat) {
    if pos + n <= 8 * |data| then (Bits(data, pos, n), pos + n) else (0, pos)
  }

  /** Two reads, of `a` bits and then of `b`, against one of both: the same bits and the same position if all are
      there. If only the first `a` are, the two stop behind those, and the one does not move. If not even those
      are, the second read may still find its own. */
  lemma TwoReads(data: seq<byte>, pos: nat, a: nat, b: nat)
    requires pos <= 8 * |data|
    ensures var (x, mid) := Read(data, pos, a);
      var (y, end) := Read(data, mid, b);
      && (pos + a + b <= 8 * |data| ==> Read(data, pos, a + b) == (x * Pow2(b) + y, end))
      && (pos + a <= 8 * |data| < pos + a + b ==>
            x == Bits(data, pos, a) && (y, end) == (0, pos + a) && Read(data, pos, a + b) == (0, pos))
      && (8 * |data| < pos + a ==>
            x == 0 && (y, end) == Read(data, pos, b) && Read(data, pos, a + b) == (0, pos))
  {
    if pos + a + b <= 8 * |data| {
      BitsSplit(data, pos, a, b);
    }
  }

  // ---- The stream ----------------------------------------------------------------------------------

  class BitStream {
    const data: seq<byte>
    const totalBits: nat
    var currentBit: nat

    ghost predicate Valid()
      reads this
    {
      totalBits == 8 * |data| && currentBit <= totalBits
    }

    constructor (data: seq<byte>)
      ensures Valid() && this.data == data && currentBit == 0
    {
      this.data := data;
      totalBits := 8 * |data|;
      currentBit := 0;
    }

    /** Shift `count` whole bytes in behind the `so` bits there are. */
    method PullBytes(ghost pos: nat, ghost so: nat, first: nat, count: nat, sofar: nat) returns (out: nat)
      requires pos + so == 8 * first && first + count <= |data| && so + 8 * count <= 32
      requires sofar == Bits(data, pos, so)
      ensures out == Bits(data, pos, so + 8 * count)
    {
      hide Bits;
      out := sofar;
      for i := 0 to count
        invariant out == Bits(data, pos, so + 8 * i)
      {
        AccumulateByte(data, pos, so + 8 * i, first + i);
        out := (out * 256 + data[first + i]) % UINT32_MODULUS;
      }
    }

    /** The top `tail` bits of a byte, behind the `so` bits there are. */
    method PullTail(ghost pos: nat, ghost so: nat, at: nat, tail: nat, sofar: nat) returns (out: nat)
      requires pos + so == 8 * at && tail <= 8 && so + tail <= 32 && pos + so + tail <= 8 * |data|
      requires sofar == Bits(data, pos, so)
      ensures out == Bits(data, pos, so + tail)
    {
      hide Bits, Pow2;
      out := sofar;
      if tail > 0 {
        Accumulate(data, pos, so, at, tail);
        out := (out * Pow2(tail) + data[at] / Pow2(8 - tail)) % UINT32_MODULUS;
      }
    }

    /** The bits left in the byte under the cursor, none if it is at the start of one. */
    method PullLead(pos: nat, lead: nat) returns (out: nat)
      requires pos + lead <= 8 * |data| && lead == (8 - pos % 8) % 8
      ensures out == Bits(data, pos, lead)
    {
      hide Bits, Pow2;
      NoBits(data, pos);
      out := 0;
      if lead > 0 {
        LeadAll(data, pos);
        out := data[pos / 8] % Pow2(lead);
      }
    }

    /** Part of what is left in the byte under the cursor. */
    method PullPart(pos: nat, lead: nat, bitCount: nat) returns (out: nat)
      requires pos + bitCount <= 8 * |data| && pos % 8 != 0 && lead == 8 - pos % 8 && bitCount < lead
      ensures out == Bits(data, pos, bitCount)
    {
      hide Bits, Pow2;
      LeadOnly(data, pos, bitCount);
      out := data[pos / 8] % Pow2(lead);
      out := out / Pow2(lead - bitCount);
    }

    /** The next `bitCount` bits, or 0 with the position unchanged when there are not that many. */
    method ReadUInt(bitCount: nat) returns (out: nat)
      requires Valid() && bitCount <= 32
      modifies this
      ensures Valid()
      ensures (out, currentBit) == Read(data, old(currentBit), bitCount)
    {
      hide Bits;
      if currentBit + bitCount > totalBits {
        return 0;
      }
      var leadPartialBitCount := 8 - currentBit % 8;
      if leadPartialBitCount == 8 {
        leadPartialBitCount := 0;
      }
      if leadPartialBitCount > bitCount {
        out := PullPart(currentBit, leadPartialBitCount, bitCount);
      } else {
        var middleByteCount := (bitCount - leadPartialBitCount) / 8;
        var tailPartialBitCount := bitCount - (leadPartialBitCount + middleByteCount * 8);
        var first := (currentBit + leadPartialBitCount) / 8;
        out := PullLead(currentBit, leadPartialBitCount);
        out := PullBytes(currentBit, leadPartialBitCount, first, middleByteCount, out);
        out := PullTail(currentBit, leadPartialBitCount + 8 * middleByteCount, first + middleByteCount,
                        tailPartialBitCount, out);
      }
      currentBit := currentBit + bitCount;
    }

    /** Sign bit, then magnitude. When the bits run out after the sign, the sign has still been taken. */
    method ReadInt(bitCount: nat) returns (r: int)
      requires Valid() && 1 <= bitCount <= 32
      modifies this
      ensures Valid()
      ensures old(currentBit) + bitCount <= totalBits ==>
        && currentBit == old(currentBit) + bitCount
        && r == Bits(data, old(currentBit) + 1, bitCount - 1) * (if Bit(data, old(currentBit)) == 1 then -1 else 1)
      ensures old(currentBit) + bitCount > totalBits ==>
        r == 0 && currentBit == if old(currentBit) < totalBits then old(currentBit) + 1 else old(currentBit)
    {
      hide Bits, Pow2, Bit;
      ghost var pos := currentBit;
      var sign := ReadUInt(1);
      var magnitude := ReadUInt(bitCount - 1);
      if pos + bitCount <= totalBits {
        SignAndMagnitude(data, pos, bitCount);
      } else {
        NoBits(data, pos);
      }
      r := ToInt32((if sign != 0 then -magnitude else magnitude) % UINT32_MODULUS);
    }
  }

  lemma NoBits(data: seq<byte>, pos: nat)
    requires pos <= 8 * |data|
    ensures Bits(data, pos, 0) == 0
  {
  }

  lemma AccumulateByte(data: seq<byte>, pos: nat, so: nat, k: nat)
    requires pos + so == 8 * k && k < |data| && so + 8 <= 32
    ensures Bits(data, pos, so + 8) == (Bits(data, pos, so) * 256 + data[k]) % UINT32_MODULUS
  {
    Accumulate(data, pos, so, k, 8);
    Pow2Values();
    assert Pow2(0) == 1;
  }

  lemma SignAndMagnitude(data: seq<byte>, pos: nat, n: nat)
    requires 1 <= n <= 32 && pos + n <= 8 * |data|
    ensures Bits(data, pos, 1) == Bit(data, pos) && Bit(data, pos) < 2
    ensures Bits(data, pos + 1, n - 1) < 0x8000_0000
  {
    BitsBound(data, pos + 1, n - 1);
    Pow2Grows(n - 1, 31);
    Pow2Values();
    Pow2Step(31);
    assert Bits(data, pos, 1) == 2 * Bits(data, pos, 0) + Bit(data, pos);
  }

  /** A 32-bit pattern read as a signed number. */
  function ToInt32(n: nat): int
    requires n < UINT32_MODULUS
  {
    if n >= 0x8000_0000 then n - UINT32_MODULUS else n
  }

  lemma LeadOnly(data: seq<byte>, pos: nat, n: nat)
    requires pos + n <= 8 * |data| && pos % 8 != 0 && n < 8 - pos % 8
    ensures pos / 8 < |data|
    ensures Bits(data, pos, n) == data[pos / 8] % Pow2(8 - pos % 8) / Pow2(8 - pos % 8 - n)
  {
    var k, a := pos / 8, pos % 8;
    BitsInByte(data, k, a, n);
    Pow2Sum(8 - a - n, n);
    MaskThenShift(data[k], Pow2(8 - a - n), Pow2(n));
  }

  lemma LeadAll(data: seq<byte>, pos: nat)
    requires pos % 8 != 0 && pos / 8 < |data|
    ensures Bits(data, pos, 8 - pos % 8) == data[pos / 8] % Pow2(8 - pos % 8)
  {
    BitsInByte(data, pos / 8, pos % 8, 8 - pos % 8);
    assert Pow2(0) == 1;
  }
}
