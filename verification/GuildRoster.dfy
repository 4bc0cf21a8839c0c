/** The guild roster: members read off a byte stream until it ends. */
module GuildRoster {
  import opened Bytes
  import opened NetStreams

  /** What the stream holds of one member. */
  datatype Sent = Sent(
    name: seq<byte>, level: nat, flags: nat, class_: nat, rank: nat, lastOn: nat, tributeOn: nat, trophyOn: nat,
    donated: nat, lastDonation: nat, full: nat, note: seq<byte>)

  /** What is kept of it: several of the 32-bit fields are narrowed to their low byte. */
  datatype Member = Member(
    name: seq<byte>, level: nat, banker: nat, alt: nat, class_: nat, rank: nat, lastOn: nat, tributeOn: nat,
    trophyOn: nat, donated: nat, lastDonation: nat, full: nat, note: seq<byte>, zoneId: nat, zoneInstance: nat)

  /** The flag 0 is neither, 1 banker, 2 alt and 3 both. */
  function Kept(s: Sent): (m: Member)
    ensures m.banker < 2 && m.alt < 2
    ensures s.flags % 256 == m.banker + 2 * m.alt <==> s.flags % 256 <= 3
  {
    var flags := s.flags % 256;
    Member(s.name, s.level % 256, flags % 2, if flags > 1 then 1 else 0, s.class_ % 256, s.rank, s.lastOn, s.tributeOn,
           s.trophyOn, s.donated % 256, s.lastDonation, s.full, s.note, 0, 0)
  }

  /** What is kept and what becomes of it, field by field: the level, the class and the donated amount lose all but
      their lowest eight bits, and a flag beyond 3 counts as alt. */
  lemma KeptFields(s: Sent)
    ensures var m := Kept(s);
      && m.name == s.name && m.note == s.note
      && m.rank == s.rank && m.lastOn == s.lastOn && m.tributeOn == s.tributeOn && m.trophyOn == s.trophyOn
      && m.lastDonation == s.lastDonation && m.full == s.full && m.zoneId == 0 && m.zoneInstance == 0
      && m.level < 256 && (s.level - m.level) % 256 == 0
      && m.class_ < 256 && (s.class_ - m.class_) % 256 == 0
      && m.donated < 256 && (s.donated - m.donated) % 256 == 0
      && (m.alt == 1 <==> s.flags % 256 >= 2) && (m.banker == 1 <==> s.flags % 2 == 1)
  {
    LowEight(s.level);
    LowEight(s.class_);
    LowEight(s.donated);
    LowEight(s.flags);
  }

  lemma LowEight(n: nat)
    ensures n % 256 < 256 && (n - n % 256) % 256 == 0 && n % 256 % 2 == n % 2
  {
    assert n == 256 * (n / 256) + n % 256;
  }

  /** The next member in the stream, from whatever bytes there are, and the bytes behind it. */
  function TakeMember(r: seq<byte>): (Sent, seq<byte>) {
    var (name, r1) := TakeText(r);
    var (level, r2) := TakeU32(r1);
    var (flags, r3) := TakeU32(r2);
    var (class_, r4) := TakeU32(r3);
    var (rank, r5) := TakeU32(r4);
    var (lastOn, r6) := TakeU32(r5);
    var (tributeOn, r7) := TakeU8(r6);
    var (trophyOn, r8) := TakeU8(r7);
    var (donated, r9) := TakeU32(r8);
    var (lastDonation, r10) := TakeU32(r9);
    var (full, r11) := TakeU8(r10);
    var (note, r12) := TakeText(r11);
    (Sent(name, level, flags, class_, rank, lastOn, tributeOn, trophyOn, donated, lastDonation, full, note),
     TakeSkip(r12, 6))
  }

  lemma TakesNoMore(r: seq<byte>, n: nat)
    ensures |TakeU8(r).1| <= |r| && |TakeU32(r).1| <= |r| && |TakeText(r).1| <= |r| && |TakeSkip(r, n)| <= |r|
    ensures r != [] ==> |TakeU8(r).1| < |r|
  {
  }

  /** Why the roster loop ends: the text, the 32-bit reads and the skip may all take nothing, but the
      one-byte reads take something from any stream that has not ended. */
  lemma MemberTakesSomething(r: seq<byte>)
    requires r != []
    ensures |TakeMember(r).1| < |r|
  {
    hide TakeText, TakeU32, TakeU8, TakeSkip;
    var r1 := TakeText(r).1;
    var r2 := TakeU32(r1).1;
    var r3 := TakeU32(r2).1;
    var r4 := TakeU32(r3).1;
    var r5 := TakeU32(r4).1;
    var r6 := TakeU32(r5).1;
    var r7 := TakeU8(r6).1;
    var r8 := TakeU8(r7).1;
    var r9 := TakeU32(r8).1;
    var r10 := TakeU32(r9).1;
    var r11 := TakeU8(r10).1;
    var r12 := TakeText(r11).1;
    TakesNoMore(r, 6);
    TakesNoMore(r1, 6);
    TakesNoMore(r2, 6);
    TakesNoMore(r3, 6);
    TakesNoMore(r4, 6);
    TakesNoMore(r5, 6);
    TakesNoMore(r6, 6);
    TakesNoMore(r7, 6);
    TakesNoMore(r8, 6);
    TakesNoMore(r9, 6);
    TakesNoMore(r10, 6);
    TakesNoMore(r11, 6);
    TakesNoMore(r12, 6);
  }

  /** All members in the stream, in order. */
  function RosterOf(r: seq<byte>): seq<Sent>
    decreases |r|
  {
    if r == [] then []
    else
      MemberTakesSomething(r);
      [TakeMember(r).0] + RosterOf(TakeMember(r).1)
  }

  /** The bytes behind the player name and the other fields in front of the members. */
  function AfterHeader(data: seq<byte>): seq<byte> {
    TakeU32(TakeSkip(TakeSkip(TakeSkip(TakeText(data).1, 4), 4), 1)).1
  }

  // ---- The shell -----------------------------------------------------------------------------------

  /** Members by name: of several with the same name, the last. */
  function Directory(ss: seq<Sent>): map<seq<byte>, Member> {
    if ss == [] then map[]
    else Directory(ss[..|ss| - 1])[ss[|ss| - 1].name := Kept(ss[|ss| - 1])]
  }

  function LongestName(ss: seq<Sent>): nat {
    if ss == [] then 0
    else
      var n := LongestName(ss[..|ss| - 1]);
      if |ss[|ss| - 1].name| > n then |ss[|ss| - 1].name| else n
  }

  method ReadMember(s: NetStream) returns (sent: Sent)
    requires s.Valid()
    modifies s
    ensures s.Valid() && (sent, s.Rest()) == TakeMember(old(s.Rest()))
  {
    hide TakeText, TakeU32, TakeU8, TakeSkip, NetStream.Rest, NetStream.Valid;
    var name := s.ReadLPText();
    var level := s.ReadUInt32NC();
    var flags := s.ReadUInt32NC();
    var class_ := s.ReadUInt32NC();
    var rank := s.ReadUInt32NC();
    var lastOn := s.ReadUInt32NC();
    var tributeOn := s.ReadUInt8();
    var trophyOn := s.ReadUInt8();
    var donated := s.ReadUInt32NC();
    var lastDonation := s.ReadUInt32NC();
    var full := s.ReadUInt8();
    var note := s.ReadLPText();
    s.SkipBytes(6);
    sent := Sent(name, level, flags, class_, rank, lastOn, tributeOn, trophyOn, donated, lastDonation, full, note);
  }

  class GuildShell {
    var members: map<seq<byte>, Member>
    var maxNameLength: nat

    constructor ()
      ensures members == map[] && maxNameLength == 0
    {
      members := map[];
      maxNameLength := 0;
    }

    method GuildMemberList(data: seq<byte>)
      modifies this
      ensures members == Directory(RosterOf(AfterHeader(data)))
      ensures maxNameLength == LongestName(RosterOf(AfterHeader(data)))
    {
      hide TakeText, TakeU32, TakeSkip, NetStream.Rest, NetStream.Valid, TakeMember;
      members := map[];
      maxNameLength := 0;
      var gml := new NetStream(data);
      var player := gml.ReadLPText();
      gml.SkipBytes(4);
      gml.SkipBytes(4);
      gml.SkipBytes(1);
      var count := gml.ReadUInt32NC();
      ghost var done: seq<Sent> := [];
      var atEnd := gml.End();
      while !atEnd
        invariant gml.Valid() && fresh(gml) && atEnd == gml.End()
        invariant RosterOf(AfterHeader(data)) == done + RosterOf(gml.Rest())
        invariant members == Directory(done) && maxNameLength == LongestName(done)
        decreases |gml.Rest()|
      {
        ghost var r := gml.Rest();
        MemberTakesSomething(r);
        var sent := ReadMember(gml);
        var member := Kept(sent);
        members := members[member.name := member];
        if |member.name| > maxNameLength {
          maxNameLength := |member.name|;
        }
        OneMore(done, sent, RosterOf(gml.Rest()));
        done := done + [sent];
        atEnd := gml.End();
      }
      assert done + [] == done;
    }
  }

  lemma OneMore(done: seq<Sent>, s: Sent, rest: seq<Sent>)
    ensures done + ([s] + rest) == done + [s] + rest
    ensures Directory(done + [s]) == Directory(done)[s.name := Kept(s)]
    ensures LongestName(done + [s]) == if |s.name| > LongestName(done) then |s.name| else LongestName(done)
  {
    assert (done + [s])[..|done|] == done;
  }

  /** The name width is that of the longest name. */
  lemma {:induction false} LongestNameIs(ss: seq<Sent>)
    ensures forall s | s in ss :: |s.name| <= LongestName(ss)
    ensures ss != [] ==> exists s :: s in ss && |s.name| == LongestName(ss)
  {
    if ss != [] {
      var n := |ss| - 1;
      LongestNameIs(ss[..n]);
      assert ss == ss[..n] + [ss[n]];
      if |ss[n].name| >= LongestName(ss[..n]) {
        assert ss[n] in ss;
      } else {
        var s :| s in ss[..n] && |s.name| == LongestName(ss[..n]);
        assert s in ss;
      }
    }
  }

  /** The directory has exactly the names sent. */
  lemma {:induction false} DirectoryNames(ss: seq<Sent>, name: seq<byte>)
    ensures name in Directory(ss) <==> exists i :: 0 <= i < |ss| && ss[i].name == name
  {
    if ss != [] {
      var n := |ss| - 1;
      DirectoryNames(ss[..n], name);
      if i :| 0 <= i < n && ss[..n][i].name == name {
        assert ss[i].name == name;
      }
      if i :| 0 <= i < |ss| && ss[i].name == name {
        assert i < n ==> ss[..n][i].name == name;
      }
    }
  }

  /** Under each name is the last member sent under it. */
  lemma {:induction false} DirectoryHoldsLast(ss: seq<Sent>, i: nat)
    requires i < |ss| && forall j | i < j < |ss| :: ss[j].name != ss[i].name
    ensures ss[i].name in Directory(ss) && Directory(ss)[ss[i].name] == Kept(ss[i])
  {
    var n := |ss| - 1;
    if i < n {
      DirectoryHoldsLast(ss[..n], i);
    }
  }

  // ---- What was sent is what is read -------------------------------------------------------------

  predicate Sendable(s: Sent) {
    && |s.name| < 0x1_0000_0000 && |s.note| < 0x1_0000_0000
    && s.level < 0x1_0000_0000 && s.flags < 0x1_0000_0000 && s.class_ < 0x1_0000_0000 && s.rank < 0x1_0000_0000
    && s.lastOn < 0x1_0000_0000 && s.donated < 0x1_0000_0000 && s.lastDonation < 0x1_0000_0000
    && s.tributeOn < 256 && s.trophyOn < 256 && s.full < 256
  }

  function U8(v: nat): seq<byte>
    requires v < 256
  {
    [v]
  }

  /** A member as it is sent, in front of `tail`; six bytes that nobody reads close it. */
  function Send(s: Sent, pad: seq<byte>, tail: seq<byte>): seq<byte>
    requires Sendable(s)
  {
    EncodeText(s.name) + (ToLe32(s.level) + (ToLe32(s.flags) + (ToLe32(s.class_) + (ToLe32(s.rank) + (ToLe32(s.lastOn)
    + (U8(s.tributeOn) + (U8(s.trophyOn) + (ToLe32(s.donated) + (ToLe32(s.lastDonation) + (U8(s.full)
    + (EncodeText(s.note) + (pad + tail))))))))))))
  }

  lemma MemberBack(s: Sent, pad: seq<byte>, tail: seq<byte>)
    requires Sendable(s) && |pad| == 6
    ensures TakeMember(Send(s, pad, tail)) == (s, tail)
  {
    hide EncodeText, ToLe32, TakeText, TakeU32, TakeU8, TakeSkip;
    var r12 := pad + tail;
    var r11 := EncodeText(s.note) + r12;
    var r10 := U8(s.full) + r11;
    var r9 := ToLe32(s.lastDonation) + r10;
    var r8 := ToLe32(s.donated) + r9;
    var r7 := U8(s.trophyOn) + r8;
    var r6 := U8(s.tributeOn) + r7;
    var r5 := ToLe32(s.lastOn) + r6;
    var r4 := ToLe32(s.rank) + r5;
    var r3 := ToLe32(s.class_) + r4;
    var r2 := ToLe32(s.flags) + r3;
    var r1 := ToLe32(s.level) + r2;
    TextBack(s.name, r1);
    U32Back(s.level, r2);
    U32Back(s.flags, r3);
    U32Back(s.class_, r4);
    U32Back(s.rank, r5);
    U32Back(s.lastOn, r6);
    U8Back(s.tributeOn, r7);
    U8Back(s.trophyOn, r8);
    U32Back(s.donated, r9);
    U32Back(s.lastDonation, r10);
    U8Back(s.full, r11);
    TextBack(s.note, r12);
    SkipBack(pad, tail);
  }

  function SendAll(ss: seq<Sent>, pad: seq<byte>, tail: seq<byte>): seq<byte>
    requires forall s | s in ss :: Sendable(s)
  {
    if ss == [] then tail else Send(ss[0], pad, SendAll(ss[1..], pad, tail))
  }

  /** A roster is read back whole, whatever follows it; what follows is read as more members and does not
      change these. */
  lemma {:induction false} RosterBack(ss: seq<Sent>, pad: seq<byte>, tail: seq<byte>)
    requires |pad| == 6 && forall s | s in ss :: Sendable(s)
    ensures RosterOf(SendAll(ss, pad, tail)) == ss + RosterOf(tail)
  {
    hide TakeMember, Send, RosterOf, Sendable;
    if ss == [] {
      assert ss + RosterOf(tail) == RosterOf(tail);
    } else {
      var rest := SendAll(ss[1..], pad, tail);
      MemberBack(ss[0], pad, rest);
      RosterBack(ss[1..], pad, tail);
      SentIsSomething(ss[0], pad, rest);
      RosterStep(Send(ss[0], pad, rest));
      assert ss + RosterOf(tail) == [ss[0]] + (ss[1..] + RosterOf(tail));
    }
  }

  lemma RosterStep(r: seq<byte>)
    requires r != []
    ensures RosterOf(r) == [TakeMember(r).0] + RosterOf(TakeMember(r).1)
  {
  }

  lemma SentIsSomething(s: Sent, pad: seq<byte>, tail: seq<byte>)
    requires Sendable(s)
    ensures Send(s, pad, tail) != []
  {
    hide ToLe32;
    assert |EncodeText(s.name)| >= 4;
  }

  /** From the message as sent to the directory of members: what the packet lists is what the shell holds. */
  lemma ListBack(player: seq<byte>, front: seq<byte>, count: nat, ss: seq<Sent>, pad: seq<byte>)
    requires |player| < 0x1_0000_0000 && |front| == 9 && count < 0x1_0000_0000 && |pad| == 6
    requires forall s | s in ss :: Sendable(s)
    ensures RosterOf(AfterHeader(EncodeText(player) + (front + (ToLe32(count) + SendAll(ss, pad, []))))) == ss
  {
    hide TakeText, TakeU32, ToLe32, EncodeText, SendAll, RosterOf, Sendable;
    var body := SendAll(ss, pad, []);
    var r1 := ToLe32(count) + body;
    TextBack(player, front + r1);
    assert front + r1 == front[..4] + (front[4..8] + (front[8..] + r1));
    SkipBack(front[..4], front[4..8] + (front[8..] + r1));
    SkipBack(front[4..8], front[8..] + r1);
    SkipBack(front[8..], r1);
    U32Back(count, body);
    RosterBack(ss, pad, []);
    NoMembers();
    assert ss + [] == ss;
  }

  lemma NoMembers()
    ensures RosterOf([]) == []
  {
  }
}
