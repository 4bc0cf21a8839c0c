/** The encodings of map files: text is written as Latin-1 and read as UTF-8. */
module MapEncoding {
  import opened Bytes

  const REPLACEMENT := '\U{FFFD}'

  // ---- Writing -----------------------------------------------------------------------------------

  /** The Latin-1 bytes of a character. One that has none becomes a question mark, and one outside the basic
      plane, which QString holds in two halves, becomes two. */
  function Latin1Of(c: char): (r: seq<byte>)
    ensures 1 <= |r| <= 2
  {
    var n := c as int;
    if n < 0x100 then [n] else if n < 0x1_0000 then [63] else [63, 63]
  }

  function Latin1(s: string): (r: seq<byte>)
    ensures |r| >= |s|
  {
    if s == [] then [] else Latin1Of(s[0]) + Latin1(s[1..])
  }

  /** Text handed on as a C string ends at its first NUL. */
  function CutAtNul(s: string): string {
    if s == [] || s[0] == '\0' then [] else [s[0]] + CutAtNul(s[1..])
  }

  // ---- Reading -----------------------------------------------------------------------------------

  /** A byte that goes on with a sequence. */
  predicate Goes(b: byte) {
    0x80 <= b < 0xC0
  }

  function Six(n: nat, b: byte): int {
    64 * n + (b - 0x80)
  }

  predicate IsScalar(n: int) {
    0 <= n < 0xD800 || 0xE000 <= n < 0x11_0000
  }

  function Two(b: seq<byte>): int
    requires |b| >= 2 && b[0] >= 0xC0
  {
    Six(b[0] - 0xC0, b[1])
  }

  function Three(b: seq<byte>): int
    requires |b| >= 3 && b[0] >= 0xE0 && Goes(b[1])
  {
    Six(Six(b[0] - 0xE0, b[1]), b[2])
  }

  function Four(b: seq<byte>): int
    requires |b| >= 4 && b[0] >= 0xF0 && Goes(b[1]) && Goes(b[2])
  {
    Six(Six(Six(b[0] - 0xF0, b[1]), b[2]), b[3])
  }

  /** The first character of the bytes and how many it takes. A byte that starts no well-formed sequence is
      replaced by itself. */
  function Next(b: seq<byte>): (r: (char, nat))
    requires b != []
    ensures 1 <= r.1 <= 4 && r.1 <= |b|
    ensures r.1 == 4 <==> r.0 as int >= 0x1_0000
    ensures r.1 == 1 ==> r.0 == if b[0] < 0x80 then b[0] as char else REPLACEMENT
    ensures r.1 > 1 ==> b[0] >= 0xC0
    ensures r.1 > 1 || b[0] >= 0x80 ==> r.0 as int >= 0x80
  {
    if b[0] < 0x80 then (b[0] as char, 1)
    else if 0xC2 <= b[0] < 0xE0 && |b| >= 2 && Goes(b[1]) then (Two(b) as char, 2)
    else if 0xE0 <= b[0] < 0xF0 && |b| >= 3 && Goes(b[1]) && Goes(b[2]) && Three(b) >= 0x800 && IsScalar(Three(b)) then
      (Three(b) as char, 3)
    else if 0xF0 <= b[0] < 0xF5 && |b| >= 4 && Goes(b[1]) && Goes(b[2]) && Goes(b[3])
         && 0x1_0000 <= Four(b) < 0x11_0000 then
      (Four(b) as char, 4)
    else (REPLACEMENT, 1)
  }

  function Utf8(b: seq<byte>): string {
    if b == [] then [] else [Next(b).0] + Utf8(b[Next(b).1..])
  }

  /** Text as it is after it was written and read again. */
  function Recode(s: string): string {
    Utf8(Latin1(s))
  }

  function Reread(s: string): string {
    Recode(CutAtNul(s))
  }

  // ---- ASCII characters stand for themselves, and nothing reads across them ------------------------

  lemma {:induction false} Latin1Concat(a: string, b: string)
    ensures Latin1(a + b) == Latin1(a) + Latin1(b)
  {
    hide Latin1Of;
    if a == [] {
      assert a + b == b;
    } else {
      Latin1Concat(a[1..], b);
      assert (a + b)[1..] == a[1..] + b;
      RegroupBytes(Latin1Of(a[0]), Latin1(a[1..]), Latin1(b));
    }
  }

  lemma RegroupBytes(a: seq<byte>, b: seq<byte>, c: seq<byte>)
    ensures a + (b + c) == a + b + c
  {
  }

  lemma NextIgnoresBehind(a: seq<byte>, c: byte, r: seq<byte>)
    requires a != [] && c < 0x80
    ensures Next(a + ([c] + r)) == Next(a)
  {
    var b := a + ([c] + r);
    assert b[0] == a[0] && (|a| < 4 ==> b[|a|] == c);
  }

  lemma {:induction false} Utf8Splits(a: seq<byte>, c: byte, r: seq<byte>)
    requires c < 0x80
    ensures Utf8(a + ([c] + r)) == Utf8(a) + ([c as char] + Utf8(r))
    decreases |a|
  {
    hide Next;
    var b := a + ([c] + r);
    if a == [] {
      assert b == [c] + r && b[1..] == r;
      AsciiNext(b);
    } else {
      NextIgnoresBehind(a, c, r);
      var k := Next(a).1;
      assert b[k..] == a[k..] + ([c] + r);
      Utf8Splits(a[k..], c, r);
      assert [Next(a).0] + (Utf8(a[k..]) + ([c as char] + Utf8(r))) == Utf8(a) + ([c as char] + Utf8(r));
    }
  }

  lemma AsciiNext(b: seq<byte>)
    requires b != [] && b[0] < 0x80
    ensures Next(b) == (b[0] as char, 1)
  {
  }

  predicate IsAscii(c: char) {
    c as int < 0x80
  }

  lemma RecodeSplits(a: string, c: char, r: string)
    requires IsAscii(c)
    ensures Recode(a + ([c] + r)) == Recode(a) + ([c] + Recode(r))
  {
    Latin1Concat(a, [c] + r);
    assert ([c] + r)[1..] == r;
    Utf8Splits(Latin1(a), c as int, Latin1(r));
  }

  predicate AllAscii(s: string) {
    forall i | 0 <= i < |s| :: IsAscii(s[i])
  }

  lemma {:induction false} AsciiIsKept(s: string)
    requires AllAscii(s)
    ensures Recode(s) == s
  {
    if s != [] {
      AsciiIsKept(s[1..]);
      RecodeSplits([], s[0], s[1..]);
      assert s == [s[0]] + s[1..] == [] + ([s[0]] + s[1..]);
      assert Recode([]) + ([s[0]] + Recode(s[1..])) == [s[0]] + Recode(s[1..]);
    }
  }

  /** No ASCII character comes up that was not there. */
  lemma {:induction false} NothingAsciiNew(b: seq<byte>, c: char)
    requires IsAscii(c) && c in Utf8(b)
    ensures c as int in b
    decreases |b|
  {
    hide Goes, Two, Three, Four;
    var (first, k) := Next(b);
    if c != first {
      NothingAsciiNew(b[k..], c);
      assert c as int in b[k..];
    }
  }

  lemma {:induction false} Latin1Has(s: string, c: char)
    requires IsAscii(c) && c != '?' && c as int in Latin1(s)
    ensures c in s
  {
    if s[0] != c {
      assert c as int !in Latin1Of(s[0]);
      Latin1Has(s[1..], c);
    }
  }

  /** A comma, a line end or a NUL is in the text after only if it was before. */
  lemma RecodeBringsNone(s: string, c: char)
    requires IsAscii(c) && c != '?' && c !in s
    ensures c !in Recode(s)
  {
    if c in Recode(s) {
      NothingAsciiNew(Latin1(s), c);
      Latin1Has(s, c);
    }
  }

  // ---- What is kept is ASCII -------------------------------------------------------------------------

  /** Characters outside the basic plane. */
  function Wide(s: string): nat {
    if s == [] then 0 else (if s[0] as int >= 0x1_0000 then 1 else 0) + Wide(s[1..])
  }

  lemma {:induction false} Latin1Length(s: string)
    ensures |Latin1(s)| == |s| + Wide(s)
  {
    if s != [] {
      Latin1Length(s[1..]);
    }
  }

  /** Every sequence of several bytes makes the text shorter than its bytes, a wide character by three. */
  lemma {:induction false} Utf8Length(b: seq<byte>)
    ensures |Utf8(b)| + 3 * Wide(Utf8(b)) <= |b|
    decreases |b|
  {
    hide Next;
    if b != [] {
      var (c, k) := Next(b);
      NextFacts(b);
      Utf8Length(b[k..]);
      assert Utf8(b)[1..] == Utf8(b[k..]);
    }
  }

  lemma NextFacts(b: seq<byte>)
    requires b != []
    ensures var r := Next(b);
      && 1 <= r.1 <= |b| && (r.1 == 4 <==> r.0 as int >= 0x1_0000)
      && (r.1 == 1 ==> r.0 == if b[0] < 0x80 then b[0] as char else REPLACEMENT)
  {
  }

  /** Where the text is as long as its bytes, each byte was read alone. */
  lemma {:induction false} EachAlone(b: seq<byte>, i: nat)
    requires |Utf8(b)| == |b| && i < |b|
    ensures Utf8(b)[i] == if b[i] < 0x80 then b[i] as char else REPLACEMENT
    decreases |b|
  {
    hide Next;
    var (c, k) := Next(b);
    NextFacts(b);
    Utf8Length(b[k..]);
    if i > 0 {
      EachAlone(b[1..], i - 1);
    }
  }

  lemma {:induction false} Latin1At(s: string, i: nat)
    requires Wide(s) == 0 && i < |s|
    ensures |Latin1(s)| == |s|
    ensures Latin1(s)[i] == if s[i] as int < 0x100 then s[i] as int else 63
  {
    Latin1Length(s);
    if i > 0 {
      Latin1At(s[1..], i - 1);
      assert Latin1(s)[i] == Latin1(s[1..])[i - 1];
    } else if |s| > 1 {
      assert Wide(s[1..]) == 0;
    }
    NotWide(s, 0);
  }

  lemma {:induction false} NotWide(s: string, i: nat)
    requires Wide(s) == 0 && i < |s|
    ensures s[i] as int < 0x1_0000
  {
    if i > 0 {
      NotWide(s[1..], i - 1);
    }
  }

  /** Text is the same after it was written and read again exactly when it is ASCII. */
  lemma RecodeIff(s: string)
    ensures Recode(s) == s <==> AllAscii(s)
  {
    if AllAscii(s) {
      AsciiIsKept(s);
    }
    if Recode(s) == s {
      Latin1Length(s);
      Utf8Length(Latin1(s));
      forall i | 0 <= i < |s| ensures IsAscii(s[i]) {
        Latin1At(s, i);
        EachAlone(Latin1(s), i);
      }
    }
  }

  predicate Plain(s: string) {
    forall i | 0 <= i < |s| :: 0 < s[i] as int < 0x80
  }

  lemma {:induction false} CutIff(s: string)
    ensures '\0' !in CutAtNul(s)
    ensures CutAtNul(s) == s <==> '\0' !in s
    ensures forall c | c in CutAtNul(s) :: c in s
  {
    if s != [] {
      CutIff(s[1..]);
    }
  }

  /** A name survives being saved and loaded exactly when it is plain ASCII, without NUL. */
  lemma RereadIff(s: string)
    ensures Reread(s) == s <==> Plain(s)
  {
    CutIff(s);
    RecodeIff(CutAtNul(s));
    RecodeBringsNone(CutAtNul(s), '\0');
    if Plain(s) {
      assert CutAtNul(s) == s;
    }
  }

  /** The letter U+00E9: written as one byte, which is no UTF-8. */
  lemma AccentIsLost()
    ensures Latin1("\U{E9}") == [0xE9] && Reread("\U{E9}") == [REPLACEMENT]
  {
    var s := "\U{E9}";
    assert s[1..] == [] && CutAtNul(s) == s;
    var b: seq<byte> := [0xE9];
    assert b[1..] == [];
    assert Next(b) == (REPLACEMENT, 1);
  }

  lemma {:induction false} RecodeEmptyIff(s: string)
    ensures Recode(s) == [] <==> s == []
  {
  }

  // ---- The decoder is the inverse of UTF-8 ------------------------------------------------------------

  /** A character in UTF-8, as section 3 of RFC 3629 has it. */
  function EncodeChar(c: char): (r: seq<byte>)
    ensures 1 <= |r| <= 4
  {
    var n := c as int;
    if n < 0x80 then [n]
    else if n < 0x800 then [0xC0 + n / 0x40, 0x80 + n % 0x40]
    else if n < 0x1_0000 then [0xE0 + n / 0x40 / 0x40, 0x80 + n / 0x40 % 0x40, 0x80 + n % 0x40]
    else [0xF0 + n / 0x40 / 0x40 / 0x40, 0x80 + n / 0x40 / 0x40 % 0x40, 0x80 + n / 0x40 % 0x40, 0x80 + n % 0x40]
  }

  function EncodeText(s: string): seq<byte> {
    if s == [] then [] else EncodeChar(s[0]) + EncodeText(s[1..])
  }

  lemma SixOf(n: nat)
    ensures 0x80 <= 0x80 + n % 0x40 < 0xC0 && Six(n / 0x40, 0x80 + n % 0x40) == n
  {
  }

  lemma SixBack(a: nat, b: byte)
    requires Goes(b)
    ensures Six(a, b) / 0x40 == a && 0x80 + Six(a, b) % 0x40 == b
  {
  }

  lemma CharBack(c: char, tail: seq<byte>)
    ensures Next(EncodeChar(c) + tail) == (c, |EncodeChar(c)|)
  {
    var b := EncodeChar(c) + tail;
    var n := c as int;
    SixOf(n);
    SixOf(n / 0x40);
    SixOf(n / 0x40 / 0x40);
    hide Six;
  }

  /** Well-formed text is read as it is. */
  lemma {:induction false} TextBack(s: string)
    ensures Utf8(EncodeText(s)) == s
  {
    hide Next, EncodeChar;
    if s != [] {
      CharBack(s[0], EncodeText(s[1..]));
      assert EncodeText(s)[|EncodeChar(s[0])|..] == EncodeText(s[1..]);
      TextBack(s[1..]);
    }
  }

  /** Whatever is taken for a character of several bytes is its encoding, so nothing but well-formed text is. */
  lemma OnlyEncodings(b: seq<byte>)
    requires b != []
    ensures Next(b).1 > 1 || b[0] < 0x80 ==> b[..Next(b).1] == EncodeChar(Next(b).0)
    ensures Next(b).1 == 1 && b[0] >= 0x80 ==> Next(b).0 as int == 0xFFFD
  {
    if Next(b).1 == 2 {
      SixBack(b[0] - 0xC0, b[1]);
    } else if Next(b).1 == 3 {
      SixBack(b[0] - 0xE0, b[1]);
      SixBack(Six(b[0] - 0xE0, b[1]), b[2]);
    } else if Next(b).1 == 4 {
      SixBack(b[0] - 0xF0, b[1]);
      SixBack(Six(b[0] - 0xF0, b[1]), b[2]);
      SixBack(Six(Six(b[0] - 0xF0, b[1]), b[2]), b[3]);
    }
    hide Six;
  }
}
