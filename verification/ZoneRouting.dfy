/** Where zone traffic goes, over whole runs. */
module ZoneRouting {
  import opened Options
  import opened Identity
  import opened RegistryModel
  import opened RegistryInvariant
  import opened IdleSweep
  import opened Demux
  import opened DemuxInvariant

  // ---- A binding lasts until it is re-announced or its box is evicted --------------------------

  predicate SameBinding(a: BoxV, b: BoxV) {
    a.clientIp == b.clientIp && a.zoneClientPort == b.zoneClientPort && a.zoneServerPort == b.zoneServerPort
  }

  lemma StepKeepsBinding(digest: string -> string, d: DemuxState, e: Event, u: nat)
    requires Inv(digest, d.reg) && Has(d.reg.boxes, ByUid(u)) && BoxOf(d.reg.boxes, u).Bound()
    requires !(e.ZoneAnnounced? && e.u == u)
    requires Has(Step(digest, d, e).reg.boxes, ByUid(u))
    ensures SameBinding(BoxOf(d.reg.boxes, u), BoxOf(Step(digest, d, e).reg.boxes, u))
  {
    if e.Sweep? {
      SweepLeavesAlone(d.reg, e.now, e.ttl, u);
    } else {
      StepEvolves(digest, d, e);
      EvolvesByUid(d.reg.boxes, Step(digest, d, e).reg.boxes, e, u);
    }
  }

  /** Box `u` is registered all along the run. */
  ghost predicate StaysRegistered(digest: string -> string, d: DemuxState, es: seq<Event>, u: nat) {
    forall k | 0 <= k <= |es| :: Has(Run(digest, d, es[..k]).reg.boxes, ByUid(u))
  }

  lemma {:induction false} RunKeepsBinding(digest: string -> string, d: DemuxState, es: seq<Event>, u: nat)
    requires Inv(digest, d.reg) && StaysRegistered(digest, d, es, u)
    requires Has(d.reg.boxes, ByUid(u)) && BoxOf(d.reg.boxes, u).Bound()
    requires forall e | e in es :: !(e.ZoneAnnounced? && e.u == u)
    ensures Has(Run(digest, d, es).reg.boxes, ByUid(u))
    ensures SameBinding(BoxOf(d.reg.boxes, u), BoxOf(Run(digest, d, es).reg.boxes, u))
  {
    hide Inv, Step, BoxOf, Has;
    assert es[..|es|] == es;
    if es != [] {
      var n := |es| - 1;
      forall k | 0 <= k <= n
        ensures Has(Run(digest, d, es[..n][..k]).reg.boxes, ByUid(u))
      {
        assert es[..n][..k] == es[..k];
      }
      RunKeepsBinding(digest, d, es[..n], u);
      RunKeepsInv(digest, d, es[..n]);
      StepKeepsBinding(digest, Run(digest, d, es[..n]), es[n], u);
    }
  }

  // ---- A bound tuple's packets reach the bound box ---------------------------------------------

  lemma BoundIsFirst(bs: seq<BoxV>, b: BoxV, k: Key)
    requires NoClash(bs) && b in bs && b.Bound()
    requires k == ByZone(b.clientIp, b.zoneClientPort, b.zoneServerPort)
    ensures Has(bs, k) && bs[First(bs, k)] == b
  {
    HasIff(bs, k);
    var c := bs[First(bs, k)];
    assert Clash(b, c) && Clash(c, b);
  }

  /** Client to server: always. */
  lemma ClientPacketReachesBox(digest: string -> string, d: DemuxState, b: BoxV, p: Packet, now: int)
    requires Inv(digest, d.reg) && b in d.reg.boxes && b.Bound()
    requires p.srcIp == b.clientIp && p.srcPort == b.zoneClientPort && p.dstPort == b.zoneServerPort
    ensures Dispatch(d, p, now).1 == Zone(b.uid, FromClient)
  {
    assert BoxOk(digest, b);
    BoundIsFirst(d.reg.boxes, b, Forward(p));
  }

  /** Server to client: exactly when no other box holds the same two endpoints the other way round. */
  lemma ServerPacketReachesBox(digest: string -> string, d: DemuxState, b: BoxV, p: Packet, now: int)
    requires Inv(digest, d.reg) && b in d.reg.boxes && b.Bound()
    requires p.dstIp == b.clientIp && p.dstPort == b.zoneClientPort && p.srcPort == b.zoneServerPort
    ensures Dispatch(d, p, now).1 == Zone(b.uid, FromServer) <==> !Has(d.reg.boxes, Forward(p))
  {
    assert BoxOk(digest, b);
    BoundIsFirst(d.reg.boxes, b, Backward(p));
  }

  /** In particular when the server's address is no tracked client's. */
  lemma ServerPacketFromForeignAddress(digest: string -> string, d: DemuxState, b: BoxV, p: Packet, now: int)
    requires Inv(digest, d.reg) && b in d.reg.boxes && b.Bound()
    requires p.dstIp == b.clientIp && p.dstPort == b.zoneClientPort && p.srcPort == b.zoneServerPort
    requires !Has(d.reg.boxes, ByClient(p.srcIp))
    ensures Dispatch(d, p, now).1 == Zone(b.uid, FromServer)
  {
    hide Inv, Dispatch;
    ServerPacketReachesBox(digest, d, b, p, now);
  }

  /** Once bound, every packet of the tuple reaches that box, after any run in which it is neither
      announced a new zone nor evicted. */
  lemma BoundForGood(digest: string -> string, d: DemuxState, es: seq<Event>, u: nat, p: Packet, now: int)
    requires Inv(digest, d.reg) && StaysRegistered(digest, d, es, u)
    requires Has(d.reg.boxes, ByUid(u)) && BoxOf(d.reg.boxes, u).Bound()
    requires forall e | e in es :: !(e.ZoneAnnounced? && e.u == u)
    ensures var b, t := BoxOf(d.reg.boxes, u), Run(digest, d, es);
      && (p.srcIp == b.clientIp && p.srcPort == b.zoneClientPort && p.dstPort == b.zoneServerPort ==>
            Dispatch(t, p, now).1 == Zone(u, FromClient))
      && (p.dstIp == b.clientIp && p.dstPort == b.zoneClientPort && p.srcPort == b.zoneServerPort
            && !Has(t.reg.boxes, ByClient(p.srcIp)) ==>
            Dispatch(t, p, now).1 == Zone(u, FromServer))
  {
    var b, t := BoxOf(d.reg.boxes, u), Run(digest, d, es);
    RunKeepsInv(digest, d, es);
    RunKeepsBinding(digest, d, es, u);
    var c := BoxOf(t.reg.boxes, u);
    if p.srcIp == b.clientIp && p.srcPort == b.zoneClientPort && p.dstPort == b.zoneServerPort {
      ClientPacketReachesBox(digest, t, c, p, now);
    }
    if p.dstIp == b.clientIp && p.dstPort == b.zoneClientPort && p.srcPort == b.zoneServerPort
       && !Has(t.reg.boxes, ByClient(p.srcIp)) {
      ServerPacketFromForeignAddress(digest, t, c, p, now);
    }
  }

  // ---- The streams hold exactly the bound traffic -----------------------------------------------

  /** In `bs`, zone packet `p` is box `u`'s, on the side given. A tuple held in both directions
      counts as the sender's. */
  ghost predicate Owns(bs: seq<BoxV>, u: nat, p: Packet, side: Side) {
    if side == FromClient then
      exists b | b in bs :: b.uid == u && Forward(p).Holds(b)
    else
      !Has(bs, Forward(p)) && exists b | b in bs :: b.uid == u && Backward(p).Holds(b)
  }

  /** With several boxes about, a zone packet goes to the box that owns it once it has been looked
      at, and nowhere else; a packet nobody owns is dropped. */
  lemma ZonePacketGoesToOwner(digest: string -> string, d: DemuxState, p: Packet, now: int)
    requires Inv(digest, d.reg) && IsZonePacket(p) && (p.srcPort != 0 || p.dstPort != 0)
    requires |d.reg.boxes| >= 2
    ensures var (t, o) := Dispatch(d, p, now);
      && (forall u, side :: o == Zone(u, side) <==> Owns(t.reg.boxes, u, p, side))
      && (o.Zone? || o == Dropped)
  {
    var bs := d.reg.boxes;
    var (t, o) := Dispatch(d, p, now);
    var cs := t.reg.boxes;
    NotedKeepsInv(digest, d, p, now);
    ZoneDispatchKeepsInv(digest, d, p, now);
    PickIsOldOrNew(bs, p, now);
    var r := PickBox(bs, p, now);
    if r.Some? {
      PickedBoxHolds(bs, p, now);
      var c := cs[r.value.index];
      assert c in cs && o == Zone(c.uid, r.value.side);
      forall u, side
        ensures o == Zone(u, side) <==> Owns(cs, u, p, side)
      {
        OnlyOwner(cs, p, c, r.value.side, u, side);
      }
    } else {
      assert o == Dropped && cs == bs;
      HasIff(cs, Forward(p));
      HasIff(cs, Backward(p));
    }
  }

  /** After the pick, the picked box holds the tuple on the side reported, and nobody the other way. */
  lemma PickedBoxHolds(bs: seq<BoxV>, p: Packet, now: int)
    requires PickBox(bs, p, now).Some?
    ensures var Pick(cs, i, side) := PickBox(bs, p, now).value;
            var ds := Touch(cs, i, now);
            if side == FromClient then Forward(p).Holds(ds[i])
            else Backward(p).Holds(ds[i]) && !Has(ds, Forward(p))
  {
    PickIsOldOrNew(bs, p, now);
    var Pick(cs, i, side) := PickBox(bs, p, now).value;
    var ds := Touch(cs, i, now);
    if side == FromServer {
      forall j | 0 <= j < |ds|
        ensures !Forward(p).Holds(ds[j])
      {
        assert !Forward(p).Holds(bs[j]);
      }
    }
  }

  lemma OnlyOwner(cs: seq<BoxV>, p: Packet, c: BoxV, at: Side, u: nat, side: Side)
    requires NoClash(cs) && c in cs && (p.srcPort != 0 || p.dstPort != 0)
    requires if at == FromClient then Forward(p).Holds(c) else Backward(p).Holds(c) && !Has(cs, Forward(p))
    ensures Owns(cs, u, p, side) <==> u == c.uid && side == at
  {
    HasIff(cs, Forward(p));
    HasIff(cs, Backward(p));
    if Owns(cs, u, p, side) && side == at {
      var k := if side == FromClient then Forward(p) else Backward(p);
      var b :| b in cs && b.uid == u && k.Holds(b);
      assert Clash(b, c) && Clash(c, b);
    }
  }

  /** The zone packets that reached `u`'s stream on `side` during the run. */
  function Delivered(digest: string -> string, d: DemuxState, es: seq<Event>, u: nat, side: Side): seq<Packet> {
    if es == [] then []
    else
      var n := |es| - 1;
      var before := Run(digest, d, es[..n]);
      Delivered(digest, d, es[..n], u, side) +
      if es[n].Arrival? && Reaches(before, Dispatch(before, es[n].p, es[n].now).1, u, side) then [es[n].p] else []
  }

  /** The primary's streams are also the global ones. */
  predicate Reaches(before: DemuxState, o: Outcome, u: nat, side: Side) {
    || o == Zone(u, side)
    || (o == Legacy(side) && before.reg.boxes != [] && before.reg.boxes[0].uid == u)
  }

  /** The zone packets of the run whose tuple was `u`'s at that moment. */
  ghost function BoundTraffic(digest: string -> string, d: DemuxState, es: seq<Event>, u: nat, side: Side): seq<Packet> {
    if es == [] then []
    else
      var n := |es| - 1;
      BoundTraffic(digest, d, es[..n], u, side) +
      if es[n].Arrival? && IsZonePacket(es[n].p) && Owns(Run(digest, d, es).reg.boxes, u, es[n].p, side)
      then [es[n].p] else []
  }

  /** Every zone packet of the run finds at least two boxes registered, and its ports are not both 0. */
  ghost predicate Crowded(digest: string -> string, d: DemuxState, es: seq<Event>) {
    forall k | 0 <= k < |es| && es[k].Arrival? && IsZonePacket(es[k].p) ::
      && |Run(digest, d, es[..k]).reg.boxes| >= 2
      && (es[k].p.srcPort != 0 || es[k].p.dstPort != 0)
  }

  lemma OnlyZonePacketsReach(d: DemuxState, p: Packet, now: int, u: nat, side: Side)
    requires !IsZonePacket(p)
    ensures !Reaches(d, Dispatch(d, p, now).1, u, side)
  {
  }

  /** No session's packet is ever interleaved on another session's stream. */
  lemma {:induction false} StreamsHoldExactlyBoundTraffic(
    digest: string -> string, d: DemuxState, es: seq<Event>, u: nat, side: Side)
    requires Inv(digest, d.reg) && Crowded(digest, d, es)
    ensures Delivered(digest, d, es, u, side) == BoundTraffic(digest, d, es, u, side)
  {
    hide Inv, Owns, Dispatch, IsZonePacket;
    if es != [] {
      var n := |es| - 1;
      forall k | 0 <= k < n && es[..n][k].Arrival? && IsZonePacket(es[..n][k].p)
        ensures |Run(digest, d, es[..n][..k]).reg.boxes| >= 2
        ensures es[..n][k].p.srcPort != 0 || es[..n][k].p.dstPort != 0
      {
        assert es[..n][..k] == es[..k];
      }
      StreamsHoldExactlyBoundTraffic(digest, d, es[..n], u, side);
      if es[n].Arrival? {
        var before := Run(digest, d, es[..n]);
        RunKeepsInv(digest, d, es[..n]);
        if IsZonePacket(es[n].p) {
          ZonePacketGoesToOwner(digest, before, es[n].p, es[n].now);
        } else {
          OnlyZonePacketsReach(before, es[n].p, es[n].now, u, side);
        }
      }
    }
  }

  /** The boxes of a client that were never given a tuple. */
  function Spare(bs: seq<BoxV>, ip: Ip): set<nat> {
    set b | b in bs && b.clientIp == ip && !b.HasTuple() :: b.uid
  }

  /** Those that a packet with both ports 0 matches: the sender's if it has any, else the receiver's. */
  function Matched(bs: seq<BoxV>, p: Packet): set<nat> {
    if Spare(bs, p.srcIp) != {} then Spare(bs, p.srcIp) else Spare(bs, p.dstIp)
  }

  predicate AtMostOne(s: set<nat>) {
    forall a, b | a in s && b in s :: a == b
  }

  lemma ZeroHolders(bs: seq<BoxV>, p: Packet)
    requires p.srcPort == 0 && p.dstPort == 0
    ensures Has(bs, Forward(p)) <==> Spare(bs, p.srcIp) != {}
    ensures Has(bs, Backward(p)) <==> Spare(bs, p.dstIp) != {}
    ensures forall u :: u in Spare(bs, p.srcIp) <==> exists b | b in bs :: b.uid == u && Forward(p).Holds(b)
    ensures forall u :: u in Spare(bs, p.dstIp) <==> exists b | b in bs :: b.uid == u && Backward(p).Holds(b)
  {
    HasIff(bs, Forward(p));
    HasIff(bs, Backward(p));
    forall b | b in bs && Forward(p).Holds(b) ensures b.uid in Spare(bs, p.srcIp) {
    }
    forall b | b in bs && Backward(p).Holds(b) ensures b.uid in Spare(bs, p.dstIp) {
    }
  }

  lemma TouchKeepsSpare(bs: seq<BoxV>, i: nat, now: int, ip: Ip)
    requires i < |bs|
    ensures Spare(Touch(bs, i, now), ip) == Spare(bs, ip)
  {
    var cs := Touch(bs, i, now);
    forall u
      ensures u in Spare(cs, ip) <==> u in Spare(bs, ip)
    {
      if b :| b in bs && b.clientIp == ip && !b.HasTuple() && b.uid == u {
        var j :| 0 <= j < |bs| && bs[j] == b;
        assert cs[j] in cs && cs[j].uid == u && cs[j].clientIp == ip && !cs[j].HasTuple();
      }
      if c :| c in cs && c.clientIp == ip && !c.HasTuple() && c.uid == u {
        var j :| 0 <= j < |cs| && cs[j] == c;
        assert bs[j] in bs && bs[j].uid == u && bs[j].clientIp == ip && !bs[j].HasTuple();
      }
    }
  }

  /** With several boxes about, a packet with both ports 0 goes to the one box that owns it exactly when it
      matches no more than one of the boxes that were never bound. */
  lemma ZeroTupleOwnerIff(digest: string -> string, d: DemuxState, p: Packet, now: int)
    requires Inv(digest, d.reg) && |d.reg.boxes| >= 2 && p.srcPort == 0 && p.dstPort == 0
    ensures var (t, o) := Dispatch(d, p, now);
      (forall u, side :: o == Zone(u, side) <==> Owns(t.reg.boxes, u, p, side)) <==>
      AtMostOne(Matched(d.reg.boxes, p))
  {
    hide Inv, Spare, Owns, AtMostOne, Touch;
    var bs := d.reg.boxes;
    var (t, o) := Dispatch(d, p, now);
    var cs := t.reg.boxes;
    ZeroHolders(bs, p);
    ZeroHolders(cs, p);
    PickIsOldOrNew(bs, p, now);
    var r := PickBox(bs, p, now);
    if Matched(bs, p) != {} {
      TouchKeepsSpare(bs, r.value.index, now, p.srcIp);
      TouchKeepsSpare(bs, r.value.index, now, p.dstIp);
      var side := r.value.side;
      assert o == Zone(bs[r.value.index].uid, side) && cs == Touch(bs, r.value.index, now);
      MatchedOwn(bs, cs, p, side, r.value.index);
    } else {
      assert AtMostOne(Matched(bs, p)) by {
        NoneIsAtMostOne();
      }
      if r.Some? {
        NewOwner(bs, cs, p, now);
      } else {
        assert o == Dropped && cs == bs;
        NoOwner(bs, p);
      }
    }
  }

  lemma NoneIsAtMostOne()
    ensures AtMostOne({})
  {
  }

  lemma NoOwner(bs: seq<BoxV>, p: Packet)
    requires !Has(bs, Forward(p)) && !Has(bs, Backward(p))
    ensures forall u, side :: !Owns(bs, u, p, side)
  {
    HasIff(bs, Forward(p));
    HasIff(bs, Backward(p));
  }

  /** The boxes matched are the owners, all of them on one side. */
  lemma MatchedOwn(bs: seq<BoxV>, cs: seq<BoxV>, p: Packet, side: Side, i: nat)
    requires p.srcPort == 0 && p.dstPort == 0 && Matched(bs, p) != {} && i < |bs|
    requires Spare(cs, p.srcIp) == Spare(bs, p.srcIp) && Spare(cs, p.dstIp) == Spare(bs, p.dstIp)
    requires side == (if Spare(bs, p.srcIp) != {} then FromClient else FromServer)
    requires bs[i].uid in Matched(bs, p)
    ensures (forall u, s :: s == side && u == bs[i].uid <==> Owns(cs, u, p, s)) <==> AtMostOne(Matched(bs, p))
  {
    ZeroHolders(cs, p);
    forall u, s
      ensures Owns(cs, u, p, s) <==> s == side && u in Matched(bs, p)
    {
    }
    var m, v := Matched(bs, p), bs[i].uid;
    if AtMostOne(m) {
      assert forall u :: u in m <==> u == v;
    } else {
      var a, b :| a in m && b in m && a != b;
      assert Owns(cs, a, p, side) && Owns(cs, b, p, side);
    }
  }

  /** A tuple that nobody held is the picked box's alone. */
  lemma NewOwner(bs: seq<BoxV>, cs: seq<BoxV>, p: Packet, now: int)
    requires PickBox(bs, p, now).Some? && !Has(bs, Forward(p)) && !Has(bs, Backward(p))
    requires cs == Touch(PickBox(bs, p, now).value.boxes, PickBox(bs, p, now).value.index, now)
    ensures var r := PickBox(bs, p, now).value;
      forall u, s :: s == r.side && u == r.boxes[r.index].uid <==> Owns(cs, u, p, s)
  {
    PickIsOldOrNew(bs, p, now);
    PickedBoxHolds(bs, p, now);
    var r := PickBox(bs, p, now).value;
    var c := cs[r.index];
    HasIff(bs, Forward(p));
    HasIff(bs, Backward(p));
    HasIff(cs, Forward(p));
    HasIff(cs, Backward(p));
    forall b | b in cs && (Forward(p).Holds(b) || Backward(p).Holds(b))
      ensures b == c
    {
      var j :| 0 <= j < |cs| && cs[j] == b;
      assert bs[j] in bs;
    }
  }

  /** The one tuple that may have no single owner: with both ports 0 a packet of a client counts as held
      by every one of its boxes that was never bound, and the first of them gets it. */
  lemma ZeroTupleIsEverybodys(d: DemuxState, b: BoxV, c: BoxV, p: Packet, now: int)
    requires b in d.reg.boxes && c in d.reg.boxes && b.uid != c.uid
    requires b.clientIp == c.clientIp == p.srcIp && !b.HasTuple() && !c.HasTuple()
    requires p.srcPort == 0 && p.dstPort == 0
    ensures Dispatch(d, p, now).1.Zone?
    ensures Owns(Dispatch(d, p, now).0.reg.boxes, b.uid, p, FromClient)
    ensures Owns(Dispatch(d, p, now).0.reg.boxes, c.uid, p, FromClient)
  {
    var bs := d.reg.boxes;
    HasIff(bs, Forward(p));
    var f := First(bs, Forward(p));
    var cs := Touch(bs, f, now);
    assert Dispatch(d, p, now).0.reg.boxes == cs;
    forall x | x in bs && Forward(p).Holds(x)
      ensures Owns(cs, x.uid, p, FromClient)
    {
      var i :| 0 <= i < |bs| && bs[i] == x;
      assert cs[i] in cs && cs[i].uid == x.uid && Forward(p).Holds(cs[i]);
    }
  }
}
