/** The text that map files are made of: comma-separated fields and decimal numbers. */
module MapText {
  import opened Options

  const INT16_MODULUS := 0x1_0000

  predicate IsInt16(n: int) {
    -0x8000 <= n < 0x8000
  }

  /** An integer as it is held in 16 signed bits. */
  function ToInt16(n: int): (r: int)
    ensures IsInt16(r)
    ensures IsInt16(n) ==> r == n
  {
    var m := n % INT16_MODULUS;
    if m >= 0x8000 then m - INT16_MODULUS else m
  }

  // ---- Fields --------------------------------------------------------------------------------------

  predicate IsBreak(c: char) {
    c == '\r' || c == '\n'
  }

  predicate IsLine(s: string) {
    forall i | 0 <= i < |s| :: !IsBreak(s[i])
  }

  predicate IsField(s: string) {
    forall i | 0 <= i < |s| :: s[i] != ',' && !IsBreak(s[i])
  }

  function Split(s: string): (r: seq<string>)
    ensures r != [] && (IsLine(s) ==> forall i | 0 <= i < |r| :: IsField(r[i]))
  {
    if s == [] then [""]
    else
      var rest := Split(s[1..]);
      if s[0] == ',' then [""] + rest
      else [[s[0]] + rest[0]] + rest[1..]
  }

  function Join(fs: seq<string>): string
    requires fs != []
  {
    if |fs| == 1 then fs[0] else fs[0] + "," + Join(fs[1..])
  }

  lemma {:induction false} SplitField(f: string)
    requires IsField(f)
    ensures Split(f) == [f]
  {
    if f != [] {
      SplitField(f[1..]);
      assert f == [f[0]] + f[1..];
    }
  }

  lemma {:induction false} SplitFirst(f: string, rest: string)
    requires IsField(f)
    ensures Split(f + "," + rest) == [f] + Split(rest)
  {
    var s := f + "," + rest;
    if f == [] {
      assert s[1..] == rest;
    } else {
      SplitFirst(f[1..], rest);
      assert s[1..] == f[1..] + "," + rest;
      assert f == [f[0]] + f[1..];
      assert ([f[1..]] + Split(rest))[1..] == Split(rest);
    }
  }

  lemma {:induction false} SplitJoin(fs: seq<string>)
    requires fs != [] && forall i | 0 <= i < |fs| :: IsField(fs[i])
    ensures Split(Join(fs)) == fs
  {
    if |fs| == 1 {
      SplitField(fs[0]);
    } else {
      SplitFirst(fs[0], Join(fs[1..]));
      SplitJoin(fs[1..]);
    }
  }

  // ---- Numbers -------------------------------------------------------------------------------------

  function Digit(d: nat): char
    requires d < 10
  {
    '0' + d as char
  }

  function Digits(n: nat): (r: string)
    ensures r != []
  {
    if n < 10 then [Digit(n)] else Digits(n / 10) + [Digit(n % 10)]
  }

  /** The number that a run of digits stands for. */
  function Number(s: string): Option<nat> {
    if s == [] then None
    else
      var n := |s| - 1;
      if !('0' <= s[n] <= '9') then None
      else
        var d := (s[n] - '0') as nat;
        if n == 0 then Some(d)
        else
          match Number(s[..n])
          case None => None
          case Some(m) => Some(10 * m + d)
  }

  function Show(n: int): string {
    if n < 0 then "-" + Digits(-n) else Digits(n)
  }

  function Signed(s: string): Option<int> {
    if s != [] && s[0] == '-' then
      match Number(s[1..])
      case None => None
      case Some(n) => Some(0 - (n as int))
    else
      match Number(s)
      case None => None
      case Some(n) => Some(n)
  }

  /** A number out of range does not read as one. */
  function ToShort(s: string): (r: Option<int>)
    ensures r.Some? ==> IsInt16(r.value)
  {
    var v := Signed(s);
    if v.Some? && IsInt16(v.value) then v else None
  }

  function ToUInt(s: string): Option<nat> {
    var v := Number(s);
    if v.Some? && v.value < 0x1_0000_0000 then v else None
  }

  /** What is read where nobody asks whether it was a number. */
  function ShortOr0(s: string): (r: int)
    ensures IsInt16(r)
  {
    var v := ToShort(s);
    if v.Some? then v.value else 0
  }

  lemma {:induction false} NumberOfDigits(n: nat)
    ensures Number(Digits(n)) == Some(n)
    ensures Digits(n)[0] != '-' && IsField(Digits(n))
  {
    if n >= 10 {
      NumberOfDigits(n / 10);
      assert Digits(n)[..|Digits(n)| - 1] == Digits(n / 10);
    }
  }

  lemma ShortBack(n: int)
    requires IsInt16(n)
    ensures ToShort(Show(n)) == Some(n) && IsField(Show(n))
  {
    NumberOfDigits(if n < 0 then -n else n);
    if n < 0 {
      assert Show(n)[1..] == Digits(-n);
    }
  }
}
