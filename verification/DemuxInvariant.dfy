/** The invariant over runs, and the life of a zone binding. */
module DemuxInvariant {
  import opened Options
  import opened Identity
  import opened RegistryModel
  import opened RegistryInvariant
  import opened IdleSweep
  import opened Demux

  lemma TouchKeepsInv(digest: string -> string, s: Registry, i: nat, now: int)
    requires Inv(digest, s) && i < |s.boxes|
    ensures Inv(digest, s.(boxes := Touch(s.boxes, i, now)))
  {
    assert s.boxes[i] in s.boxes;
    ReplaceKeepsInv(digest, s, i, Touch(s.boxes, i, now)[i]);
  }

  lemma BindKeepsInv(digest: string -> string, s: Registry, i: nat, cp: Port, sp: Port)
    requires Inv(digest, s) && i < |s.boxes| && IsZonePort(cp) && IsZonePort(sp)
    requires !Has(s.boxes, ByZone(s.boxes[i].clientIp, cp, sp))
    ensures Inv(digest, s.(boxes := Bind(s.boxes, i, cp, sp)))
  {
    ReplaceKeepsInv(digest, s, i, Bind(s.boxes, i, cp, sp)[i]);
  }

  /** The pick is the box already holding the tuple, and nothing changed. */
  predicate OldBinding(bs: seq<BoxV>, p: Packet, k: Pick)
    requires k.index < |bs|
  {
    && k.boxes == bs
    && (if k.side == FromClient then Has(bs, Forward(p)) && k.index == First(bs, Forward(p))
        else !Has(bs, Forward(p)) && Has(bs, Backward(p)) && k.index == First(bs, Backward(p)))
  }

  /** The pick is an unbound box of the packet's client, which is now bound to a tuple nobody held. */
  predicate NewBinding(bs: seq<BoxV>, p: Packet, k: Pick)
    requires k.index < |bs|
  {
    && !Has(bs, Forward(p)) && !Has(bs, Backward(p)) && !bs[k.index].Bound()
    && (if k.side == FromClient then
          bs[k.index].clientIp == p.srcIp && k.boxes == Bind(bs, k.index, p.srcPort, p.dstPort)
        else
          && bs[k.index].clientIp == p.dstIp && k.boxes == Bind(bs, k.index, p.dstPort, p.srcPort)
          && !(p.srcIp == p.dstIp && p.srcPort == p.dstPort))
  }

  /** No packet rebinds a bound box: a pick keeps every binding, or makes one where there was none. */
  lemma PickIsOldOrNew(bs: seq<BoxV>, p: Packet, now: int)
    ensures var r := PickBox(bs, p, now);
            if r.Some? then OldBinding(bs, p, r.value) || NewBinding(bs, p, r.value)
            else !Has(bs, Forward(p)) && !Has(bs, Backward(p))
  {
  }

  lemma PickKeepsInv(digest: string -> string, s: Registry, p: Packet, now: int)
    requires Inv(digest, s) && IsZonePacket(p)
    ensures var r := PickBox(s.boxes, p, now); r.Some? ==> Inv(digest, s.(boxes := r.value.boxes))
  {
    PickIsOldOrNew(s.boxes, p, now);
    var r := PickBox(s.boxes, p, now);
    if r.Some? {
      var k := r.value;
      if OldBinding(s.boxes, p, k) {
        assert s.(boxes := k.boxes) == s;
      } else if k.side == FromClient {
        BindKeepsInv(digest, s, k.index, p.srcPort, p.dstPort);
      } else {
        BindKeepsInv(digest, s, k.index, p.dstPort, p.srcPort);
      }
    }
  }

  lemma ZoneDispatchKeepsInv(digest: string -> string, d: DemuxState, p: Packet, now: int)
    requires Inv(digest, d.reg) && IsZonePacket(p)
    ensures Inv(digest, ZoneDispatch(d, p, now).0.reg)
  {
    var pick := PickBox(d.reg.boxes, p, now);
    if pick.Some? {
      PickKeepsInv(digest, d.reg, p, now);
      TouchKeepsInv(digest, d.reg.(boxes := pick.value.boxes), pick.value.index, now);
    }
  }

  lemma NotedKeepsInv(digest: string -> string, d: DemuxState, p: Packet, now: int)
    requires Inv(digest, d.reg)
    ensures Inv(digest, Noted(d, p, now).reg)
    ensures IsWorldPacket(p) ==> Has(Noted(d, p, now).reg.boxes, WorldKey(p))
    ensures !IsWorldPacket(p) ==> Noted(d, p, now) == d
  {
    if IsWorldPacket(p) {
      ObserveKeepsInv(digest, d.reg, ClientIp(p), ServerIp(p), ClientPort(p), ServerPort(p), now);
    }
  }

  /** Every event keeps the invariant. */
  lemma StepKeepsInv(digest: string -> string, d: DemuxState, e: Event)
    requires Inv(digest, d.reg)
    ensures Inv(digest, Step(digest, d, e).reg)
  {
    match e
    case Arrival(p, now) =>
      NotedKeepsInv(digest, d, p, now);
      if IsZonePacket(p) {
        ZoneDispatchKeepsInv(digest, Noted(d, p, now), p, now);
      }
    case EnterWorld(u, name) => NameDecodedKeepsInv(digest, d.reg, u, name);
    case Profile(u, name) => PromoteByNameKeepsInv(digest, d.reg, u, name);
    case ZoneAnnounced(u, port, now) => AnnounceKeepsInv(digest, d.reg, u, port, now);
    case Select(id) => SetActiveKeepsInv(digest, d.reg, id);
    case Sweep(now, ttl) => EvictKeepsInv(digest, d.reg, now, ttl);
  }

  /** In every reachable state the boxes, the character store and the active id agree. */
  lemma {:induction false} RunKeepsInv(digest: string -> string, d: DemuxState, es: seq<Event>)
    requires Inv(digest, d.reg)
    ensures Inv(digest, Run(digest, d, es).reg)
  {
    if es != [] {
      RunKeepsInv(digest, d, es[..|es| - 1]);
      StepKeepsInv(digest, Run(digest, d, es[..|es| - 1]), es[|es| - 1]);
    }
  }

  /** What the invariant says, from power-on, in the terms of the lookups. */
  lemma Reachable(digest: string -> string, clientAddr: Ip, detecting: bool, es: seq<Event>)
    ensures var s := Run(digest, DemuxState(Empty, detecting, clientAddr), es).reg;
      && (forall r | r in s.rows :: Has(s.boxes, ByUid(r.session)))
      && (forall i, j | 0 <= i < j < |s.rows| :: s.rows[i].id != s.rows[j].id)
      && (forall b | b in s.boxes ::
            s.boxes[First(s.boxes, ByWorld(b.clientIp, b.clientWorldPort, b.serverWorldPort))] == b)
      && (s.boxes != [] ==>
            var u := CurrentBoxFor(s, s.active); u.Some? && Has(s.boxes, ByUid(u.value)))
      && (forall b, c | b in s.boxes && c in s.boxes && b.state == Attached && c.state == Attached
                        && b.boxId == c.boxId :: b == c)
      && (forall b, c | b in s.boxes && c in s.boxes && b.Bound()
                        && c.HoldsZone(b.clientIp, b.zoneClientPort, b.zoneServerPort) :: b == c)
  {
    var d := DemuxState(Empty, detecting, clientAddr);
    EmptyOk(digest);
    RunKeepsInv(digest, d, es);
    var s := Run(digest, d, es).reg;
    forall r | r in s.rows
      ensures Has(s.boxes, ByUid(r.session))
    {
      assert RowOk(digest, s.boxes, r);
      HasIff(s.boxes, ByUid(r.session));
    }
    forall b | b in s.boxes
      ensures s.boxes[First(s.boxes, ByWorld(b.clientIp, b.clientWorldPort, b.serverWorldPort))] == b
    {
      var k := ByWorld(b.clientIp, b.clientWorldPort, b.serverWorldPort);
      var i :| 0 <= i < |s.boxes| && s.boxes[i] == b;
      FirstIs(s.boxes, k, i);
    }
    if s.boxes != [] {
      ActiveIsLive(digest, s);
    }
    forall b, c | b in s.boxes && c in s.boxes && b.state == Attached && c.state == Attached && b.boxId == c.boxId
      ensures b == c
    {
      assert Clash(b, c) && Clash(c, b);
    }
    forall b, c | b in s.boxes && c in s.boxes && b.Bound()
                  && c.HoldsZone(b.clientIp, b.zoneClientPort, b.zoneServerPort)
      ensures b == c
    {
      assert Clash(b, c) && Clash(c, b);
    }
  }

  // ---- Following one box through a step --------------------------------------------------------

  /** What any event but a sweep may do to the box at one position: the announcement to it clears its
      binding and says what it awaits, nothing else does either, and only a packet moves its clock. */
  predicate Evolves(a: BoxV, b: BoxV, e: Event) {
    && SameBox(a, b)
    && (a.Bound() ==>
          (e.ZoneAnnounced? && e.u == a.uid) ||
          (b.zoneClientPort == a.zoneClientPort && b.zoneServerPort == a.zoneServerPort))
    && (b.lastSeen == a.lastSeen || (e.Arrival? && b.lastSeen == e.now))
    && b.expectedZoneIp == a.expectedZoneIp
    && ((e.ZoneAnnounced? && e.u == a.uid) ||
        (b.expectedZonePort == a.expectedZonePort && b.zoneAwait == a.zoneAwait))
  }

  ghost predicate AllEvolve(bs: seq<BoxV>, cs: seq<BoxV>, e: Event) {
    && |bs| <= |cs|
    && forall i | 0 <= i < |bs| :: Evolves(bs[i], cs[i], e)
  }

  lemma WorldPacketEvolves(d: DemuxState, p: Packet, now: int)
    requires IsWorldPacket(p)
    ensures AllEvolve(d.reg.boxes, Dispatch(d, p, now).0.reg.boxes, Arrival(p, now))
  {
    assert Dispatch(d, p, now).0 == Noted(d, p, now);
  }

  lemma ZonePacketEvolves(d: DemuxState, p: Packet, now: int)
    requires !IsWorldPacket(p)
    ensures AllEvolve(d.reg.boxes, Dispatch(d, p, now).0.reg.boxes, Arrival(p, now))
  {
    assert Noted(d, p, now) == d;
    PickIsOldOrNew(d.reg.boxes, p, now);
    hide PickBox;
    var r := PickBox(d.reg.boxes, p, now);
    if r.Some? && IsZonePacket(p) {
      assert AllEvolve(d.reg.boxes, r.value.boxes, Arrival(p, now));
    } else {
      assert Dispatch(d, p, now).0 == d;
    }
  }

  lemma PromotionEvolves(digest: string -> string, s: Registry, u: nat, name: string, e: Event)
    ensures AllEvolve(s.boxes, NameDecoded(digest, s, u, name).boxes, e)
    ensures AllEvolve(s.boxes, PromoteByName(digest, s, u, name).boxes, e)
  {
    var i := First(s.boxes, ByUid(u));
    if i < |s.boxes| {
      var bs := Named(digest, s.boxes, i, name);
      assert AllEvolve(s.boxes, bs, e);
      hide OnPromoted, CurrentBoxFor;
      forall id, live
        ensures AllEvolve(s.boxes, Reclassify(bs, id, live), e)
      {
      }
    }
  }

  lemma StepEvolves(digest: string -> string, d: DemuxState, e: Event)
    requires !e.Sweep?
    ensures AllEvolve(d.reg.boxes, Step(digest, d, e).reg.boxes, e)
  {
    match e
    case Arrival(p, now) =>
      if IsWorldPacket(p) {
        WorldPacketEvolves(d, p, now);
      } else {
        ZonePacketEvolves(d, p, now);
      }
    case EnterWorld(u, name) => PromotionEvolves(digest, d.reg, u, name, e);
    case Profile(u, name) => PromotionEvolves(digest, d.reg, u, name, e);
    case ZoneAnnounced(_, _, _) =>
    case Select(_) =>
  }

  /** The box a uid names. */
  function BoxOf(bs: seq<BoxV>, u: nat): BoxV
    requires Has(bs, ByUid(u))
  {
    bs[First(bs, ByUid(u))]
  }

  lemma EvolvesByUid(bs: seq<BoxV>, cs: seq<BoxV>, e: Event, u: nat)
    requires AllEvolve(bs, cs, e) && Has(bs, ByUid(u))
    ensures Has(cs, ByUid(u)) && Evolves(BoxOf(bs, u), BoxOf(cs, u), e)
  {
    FirstIs(cs, ByUid(u), First(bs, ByUid(u)));
  }

  /** A sweep changes no box it leaves. */
  lemma SweepLeavesAlone(s: Registry, now: int, ttl: int, u: nat)
    requires NoClash(s.boxes) && Has(Evict(s, now, ttl).boxes, ByUid(u))
    ensures Has(s.boxes, ByUid(u)) && BoxOf(Evict(s, now, ttl).boxes, u) == BoxOf(s.boxes, u)
  {
    if ttl > 0 {
      var live, cutoff := CurrentBoxFor(s, s.active), now - ttl;
      var b := BoxOf(Evict(s, now, ttl).boxes, u);
      SurvivorIff(s.boxes, live, cutoff, b);
      HasIff(s.boxes, ByUid(u));
      SameUidSameBox(s.boxes, b, BoxOf(s.boxes, u));
    }
  }
}
