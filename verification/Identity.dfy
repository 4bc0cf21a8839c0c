/** Identifiers a session is known by: a placeholder spelt from its world tuple
    until a character name is learnt, then a digest of that name. */
module Identity {
  type Ip = x: int | 0 <= x < 0x1_0000_0000
  type Port = x: int | 0 <= x < 0x1_0000

  const WORLD_SERVER_GENERAL_MIN_PORT: Port := 9000
  const WORLD_SERVER_GENERAL_MAX_PORT: Port := 9020
  const WORLD_SERVER_CHAT_PORT: Port := 9876
  const WORLD_SERVER_CHAT2_PORT: Port := 9875
  const WORLD_SERVER_UCS_PORT: Port := 9877
  const LOGIN_SERVER_MIN_PORT: Port := 15900
  const LOGIN_SERVER_MAX_PORT: Port := 15910
  const CHAT_SERVER_PORT: Port := 5998

  predicate IsWorldPort(p: Port) {
    WORLD_SERVER_GENERAL_MIN_PORT <= p <= WORLD_SERVER_GENERAL_MAX_PORT
  }

  predicate IsLoginPort(p: Port) {
    LOGIN_SERVER_MIN_PORT <= p <= LOGIN_SERVER_MAX_PORT
  }

  /** Dropped outright, whatever the other end is. */
  predicate IsChatPort(p: Port) {
    p == CHAT_SERVER_PORT || p == WORLD_SERVER_CHAT_PORT || p == WORLD_SERVER_CHAT2_PORT
  }

  /** Anything that is not chat, login or world is taken for a zone server or its client. */
  predicate IsZonePort(p: Port) {
    !IsChatPort(p) && p != WORLD_SERVER_UCS_PORT && !IsLoginPort(p) && !IsWorldPort(p)
  }

  function Pow16(w: nat): (r: nat)
    ensures r > 0
  {
    if w == 0 then 1 else 16 * Pow16(w - 1)
  }

  function HexDigit(d: int): char
    requires 0 <= d < 16
  {
    if d < 10 then ('0' as int + d) as char else ('a' as int + d - 10) as char
  }

  /** `n` in lower-case hexadecimal, zero-filled to `w` digits. */
  function Hex(n: nat, w: nat): (s: string)
    ensures |s| == w
  {
    if w == 0 then "" else Hex(n / 16, w - 1) + [HexDigit(n % 16)]
  }

  function DigitOf(c: char): nat {
    if '0' <= c <= '9' then c as nat - '0' as nat
    else if 'a' <= c <= 'f' then 10 + (c as nat - 'a' as nat)
    else 16
  }

  /** The number that hexadecimal digits stand for. */
  function FromHex(s: string): nat {
    if s == "" then 0 else 16 * FromHex(s[..|s| - 1]) + DigitOf(s[|s| - 1])
  }

  lemma {:induction false} HexReads(n: nat, w: nat)
    requires n < Pow16(w)
    ensures FromHex(Hex(n, w)) == n
  {
    if w > 0 {
      HexReads(n / 16, w - 1);
      assert Hex(n, w)[..w - 1] == Hex(n / 16, w - 1);
    }
  }

  function PlaceholderId(ip: Ip, clientPort: Port, serverPort: Port): string {
    "p-" + Hex(ip, 8) + "-" + Hex(clientPort, 4) + "-" + Hex(serverPort, 4)
  }

  /** The name digest is not modelled: any function from names to strings will do. */
  function PromotedId(digest: string -> string, name: string): string {
    "b-" + digest(name)
  }

  /** How a placeholder is spelt. */
  lemma PlaceholderSpells(ip: Ip, cp: Port, sp: Port)
    ensures var s := PlaceholderId(ip, cp, sp);
      && |s| == 20 && s[..2] == "p-" && s[10] == '-' && s[15] == '-'
      && FromHex(s[2..10]) == ip && FromHex(s[11..15]) == cp && FromHex(s[16..]) == sp
  {
    hide FromHex;
    var s := PlaceholderId(ip, cp, sp);
    assert s[2..10] == Hex(ip, 8) && s[11..15] == Hex(cp, 4) && s[16..] == Hex(sp, 4);
    assert Pow16(4) == 0x1_0000;
    Pow16Eight();
    HexReads(ip, 8);
    HexReads(cp, 4);
    HexReads(sp, 4);
  }

  /** Two sessions that are still anonymous have the same id only if they have the same tuple. */
  lemma PlaceholderInjective(ip: Ip, cp: Port, sp: Port, ip': Ip, cp': Port, sp': Port)
    requires PlaceholderId(ip, cp, sp) == PlaceholderId(ip', cp', sp')
    ensures ip == ip' && cp == cp' && sp == sp'
  {
    hide PlaceholderId;
    PlaceholderSpells(ip, cp, sp);
    PlaceholderSpells(ip', cp', sp');
  }

  lemma Pow16Eight()
    ensures Pow16(8) == 0x1_0000_0000
  {
    assert Pow16(5) == 16 * Pow16(4);
    assert Pow16(8) == 16 * Pow16(7) == 256 * Pow16(6) == 4096 * Pow16(5);
  }

  lemma PlaceholderIsNotPromoted(ip: Ip, cp: Port, sp: Port, digest: string -> string, name: string)
    ensures PlaceholderId(ip, cp, sp) != PromotedId(digest, name)
  {
    assert PlaceholderId(ip, cp, sp)[0] == 'p';
    assert PromotedId(digest, name)[0] == 'b';
  }
}
