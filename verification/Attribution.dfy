/** Who gets the traffic, said on the fields of the registered boxes: zone packets whose tuple nobody holds yet,
    those that somebody holds, world packets and the rest. */
module ZoneAttribution {
  import opened Options
  import opened Identity
  import opened RegistryModel
  import opened RegistryInvariant
  import opened Demux
  import opened DemuxInvariant

  // ---- What the boxes say --------------------------------------------------------------------

  predicate HasTupleOf(b: BoxV, clientIp: Ip, clientPort: Port, serverPort: Port) {
    b.clientIp == clientIp && b.zoneClientPort == clientPort && b.zoneServerPort == serverPort
  }

  predicate Awaits(b: BoxV, clientIp: Ip, serverIp: Ip, port: Port) {
    && b.clientIp == clientIp && b.zoneClientPort == 0
    && b.expectedZonePort == port
    && (b.expectedZoneIp == 0 || b.expectedZoneIp == serverIp)
  }

  /** Was at the world server of that /24 network within the last 15 seconds, and is not in a zone. */
  predicate HeardLately(b: BoxV, clientIp: Ip, serverIp: Ip, now: int) {
    && b.clientIp == clientIp && b.zoneClientPort == 0
    && b.clientWorldPort != 0
    && b.serverWorldIp != 0 && b.serverWorldIp / 256 == serverIp / 256
    && now - b.lastSeen <= 15000
  }

  ghost predicate FirstHolder(bs: seq<BoxV>, i: nat, clientIp: Ip, clientPort: Port, serverPort: Port) {
    && i < |bs| && HasTupleOf(bs[i], clientIp, clientPort, serverPort)
    && forall j | 0 <= j < i :: !HasTupleOf(bs[j], clientIp, clientPort, serverPort)
  }

  predicate Held(bs: seq<BoxV>, clientIp: Ip, clientPort: Port, serverPort: Port) {
    exists b | b in bs :: HasTupleOf(b, clientIp, clientPort, serverPort)
  }

  predicate Awaited(bs: seq<BoxV>, clientIp: Ip, serverIp: Ip, port: Port) {
    exists b | b in bs :: Awaits(b, clientIp, serverIp, port)
  }

  /** Of the boxes that await it the one told last, and of several told at once the first in the list. */
  ghost predicate LatestAwaiting(bs: seq<BoxV>, i: nat, clientIp: Ip, serverIp: Ip, port: Port) {
    && i < |bs| && Awaits(bs[i], clientIp, serverIp, port)
    && forall j | 0 <= j < |bs| && Awaits(bs[j], clientIp, serverIp, port) ::
         bs[j].zoneAwait < bs[i].zoneAwait || (bs[j].zoneAwait == bs[i].zoneAwait && i <= j)
  }

  ghost predicate MostRecentlyHeard(bs: seq<BoxV>, i: nat, clientIp: Ip, serverIp: Ip, now: int) {
    && i < |bs| && HeardLately(bs[i], clientIp, serverIp, now)
    && forall j | 0 <= j < |bs| && HeardLately(bs[j], clientIp, serverIp, now) ::
         bs[j].lastSeen < bs[i].lastSeen || (bs[j].lastSeen == bs[i].lastSeen && i <= j)
  }

  /** Box `i` is given the packet: it holds the tuple from now on and was heard now, and nothing else changes. */
  ghost predicate Given(d: DemuxState, r: (DemuxState, Outcome), i: nat, clientPort: Port, serverPort: Port, now: int,
                        side: Side) {
    var (bs, cs) := (d.reg.boxes, r.0.reg.boxes);
    && i < |bs| && r.1 == Zone(bs[i].uid, side)
    && r.0.detecting == d.detecting && r.0.clientAddr == d.clientAddr
    && r.0.reg.rows == d.reg.rows && r.0.reg.active == d.reg.active && r.0.reg.nextUid == d.reg.nextUid
    && |cs| == |bs| && (forall j | 0 <= j < |bs| && j != i :: cs[j] == bs[j])
    && cs[i] == bs[i].(zoneClientPort := clientPort, zoneServerPort := serverPort,
                       lastSeen := now, packetCount := bs[i].packetCount + 1)
  }

  // ---- Zone packets --------------------------------------------------------------------------

  lemma HeldIff(bs: seq<BoxV>, ip: Ip, cp: Port, sp: Port)
    ensures Has(bs, ByZone(ip, cp, sp)) <==> Held(bs, ip, cp, sp)
    ensures Has(bs, ByZone(ip, cp, sp)) ==> FirstHolder(bs, First(bs, ByZone(ip, cp, sp)), ip, cp, sp)
  {
    HasIff(bs, ByZone(ip, cp, sp));
  }

  lemma BestExpected(bs: seq<BoxV>, ip: Ip, serverIp: Ip, port: Port)
    ensures var r := Best(bs, Expected(ip, serverIp, port));
            if r.Some? then LatestAwaiting(bs, r.value, ip, serverIp, port) else !Awaited(bs, ip, serverIp, port)
  {
    var w := Expected(ip, serverIp, port);
    assert forall j | 0 <= j < |bs| :: w.Fits(bs[j]) <==> Awaits(bs[j], ip, serverIp, port);
    assert forall j | 0 <= j < |bs| :: w.Score(bs[j]) == bs[j].zoneAwait;
  }

  lemma BestRecent(bs: seq<BoxV>, ip: Ip, serverIp: Ip, now: int)
    ensures var r := Best(bs, Recent(ip, serverIp, now, ZONE_BIND_WINDOW_MS));
            if r.Some? then MostRecentlyHeard(bs, r.value, ip, serverIp, now)
            else forall b | b in bs :: !HeardLately(b, ip, serverIp, now)
  {
    var w := Recent(ip, serverIp, now, ZONE_BIND_WINDOW_MS);
    assert forall j | 0 <= j < |bs| :: w.Fits(bs[j]) <==> HeardLately(bs[j], ip, serverIp, now);
    assert forall j | 0 <= j < |bs| :: w.Score(bs[j]) == bs[j].lastSeen;
  }

  lemma ZonePacketIs(d: DemuxState, p: Packet, now: int)
    requires IsZonePacket(p)
    ensures Dispatch(d, p, now) == ZoneDispatch(d, p, now)
  {
  }

  lemma PickGives(d: DemuxState, p: Packet, now: int, i: nat, side: Side, cp: Port, sp: Port)
    requires i < |d.reg.boxes|
    requires PickBox(d.reg.boxes, p, now) == Some(Pick(Bind(d.reg.boxes, i, cp, sp), i, side))
    ensures Given(d, ZoneDispatch(d, p, now), i, cp, sp, now, side)
  {
    hide PickBox;
  }

  /** Whoever holds the tuple gets the packet: as its sender, or else as its receiver, and of several
      the first in the list. */
  lemma HeldGoes(d: DemuxState, p: Packet, now: int)
    requires IsZonePacket(p)
    ensures var (bs, r) := (d.reg.boxes, Dispatch(d, p, now));
      if Held(bs, p.srcIp, p.srcPort, p.dstPort) then
        exists i: nat :: FirstHolder(bs, i, p.srcIp, p.srcPort, p.dstPort)
          && Given(d, r, i, p.srcPort, p.dstPort, now, FromClient)
      else if Held(bs, p.dstIp, p.dstPort, p.srcPort) then
        exists i: nat :: FirstHolder(bs, i, p.dstIp, p.dstPort, p.srcPort)
          && Given(d, r, i, p.dstPort, p.srcPort, now, FromServer)
      else true
  {
    hide IsZonePacket, Dispatch, ZoneDispatch, Held, HasTupleOf, Given, Best;
    var bs := d.reg.boxes;
    ZonePacketIs(d, p, now);
    HeldIff(bs, p.srcIp, p.srcPort, p.dstPort);
    HeldIff(bs, p.dstIp, p.dstPort, p.srcPort);
    if Held(bs, p.srcIp, p.srcPort, p.dstPort) {
      var i := First(bs, Forward(p));
      assert Bind(bs, i, p.srcPort, p.dstPort) == bs;
      PickGives(d, p, now, i, FromClient, p.srcPort, p.dstPort);
    } else if Held(bs, p.dstIp, p.dstPort, p.srcPort) {
      var i := First(bs, Backward(p));
      assert Bind(bs, i, p.dstPort, p.srcPort) == bs;
      PickGives(d, p, now, i, FromServer, p.dstPort, p.srcPort);
    }
  }

  predicate Unheld(bs: seq<BoxV>, p: Packet) {
    !Held(bs, p.srcIp, p.srcPort, p.dstPort) && !Held(bs, p.dstIp, p.dstPort, p.srcPort)
  }

  /** Who gets a tuple nobody holds. An unbound box of the sender that awaits this server, the one told last;
      failing that one of the receiver; failing that, and only for the packet that opens a session, the box of
      the sender that was last heard at this server's network; failing that nobody, and the state stays as it
      is. */
  lemma UnheldGoes(d: DemuxState, p: Packet, now: int)
    requires IsZonePacket(p) && Unheld(d.reg.boxes, p)
    ensures var (bs, r) := (d.reg.boxes, Dispatch(d, p, now));
      if Awaited(bs, p.srcIp, p.dstIp, p.dstPort) then
        exists i: nat :: LatestAwaiting(bs, i, p.srcIp, p.dstIp, p.dstPort)
          && Given(d, r, i, p.srcPort, p.dstPort, now, FromClient)
      else if Awaited(bs, p.dstIp, p.srcIp, p.srcPort) then
        exists i: nat :: LatestAwaiting(bs, i, p.dstIp, p.srcIp, p.srcPort)
          && Given(d, r, i, p.dstPort, p.srcPort, now, FromServer)
      else if p.sessionRequest && (exists b | b in bs :: HeardLately(b, p.srcIp, p.dstIp, now)) then
        exists i: nat :: MostRecentlyHeard(bs, i, p.srcIp, p.dstIp, now)
          && Given(d, r, i, p.srcPort, p.dstPort, now, FromClient)
      else
        r == (d, if |bs| >= 2 then Dropped else if p.srcIp == d.clientAddr then Legacy(FromClient)
                 else Legacy(FromServer))
  {
    hide IsZonePacket, Dispatch, Held, Awaited, Given, Best, Bind;
    hide Awaits, LatestAwaiting, MostRecentlyHeard;
    var bs := d.reg.boxes;
    ZonePacketIs(d, p, now);
    HeldIff(bs, p.srcIp, p.srcPort, p.dstPort);
    HeldIff(bs, p.dstIp, p.dstPort, p.srcPort);
    BestExpected(bs, p.srcIp, p.dstIp, p.dstPort);
    BestExpected(bs, p.dstIp, p.srcIp, p.srcPort);
    BestRecent(bs, p.srcIp, p.dstIp, now);
    LatestIsAwaited(bs, p.srcIp, p.dstIp, p.dstPort);
    LatestIsAwaited(bs, p.dstIp, p.srcIp, p.srcPort);
    var out, back := Best(bs, Expected(p.srcIp, p.dstIp, p.dstPort)), Best(bs, Expected(p.dstIp, p.srcIp, p.srcPort));
    if out.Some? {
      PickGives(d, p, now, out.value, FromClient, p.srcPort, p.dstPort);
    } else if back.Some? {
      PickGives(d, p, now, back.value, FromServer, p.dstPort, p.srcPort);
    } else if p.sessionRequest {
      var recent := Best(bs, Recent(p.srcIp, p.dstIp, now, ZONE_BIND_WINDOW_MS));
      HeardIsKnown(bs, p.srcIp, p.dstIp, now);
      if recent.Some? {
        PickGives(d, p, now, recent.value, FromClient, p.srcPort, p.dstPort);
      }
    }
  }

  lemma LatestIsAwaited(bs: seq<BoxV>, ip: Ip, serverIp: Ip, port: Port)
    ensures (exists i: nat :: LatestAwaiting(bs, i, ip, serverIp, port)) ==> Awaited(bs, ip, serverIp, port)
    ensures forall i: nat | LatestAwaiting(bs, i, ip, serverIp, port) :: i < |bs|
  {
  }

  lemma HeardIsKnown(bs: seq<BoxV>, ip: Ip, serverIp: Ip, now: int)
    ensures (exists b | b in bs :: HeardLately(b, ip, serverIp, now)) ==> Has(bs, ByClient(ip))
    ensures forall i: nat | MostRecentlyHeard(bs, i, ip, serverIp, now) ::
      i < |bs| && HeardLately(bs[i], ip, serverIp, now)
  {
    HasIff(bs, ByClient(ip));
  }

  // ---- What a box awaits, over whole runs ----------------------------------------------------------

  /** What an announcement leaves of the box it is for; the others stay as they are. */
  lemma AnnounceSets(s: Registry, u: nat, port: Port, now: int)
    requires Has(s.boxes, ByUid(u))
    ensures var t := Announce(s, u, port, now);
      && Has(t.boxes, ByUid(u))
      && BoxOf(t.boxes, u) == BoxOf(s.boxes, u).(expectedZonePort := port, zoneAwait := now,
                                                 zoneClientPort := 0, zoneServerPort := 0)
      && (forall v | v != u && Has(s.boxes, ByUid(v)) ::
            Has(t.boxes, ByUid(v)) && BoxOf(t.boxes, v) == BoxOf(s.boxes, v))
  {
    var i := First(s.boxes, ByUid(u));
    var t := Announce(s, u, port, now);
    FirstIs(t.boxes, ByUid(u), i);
    forall v | v != u && Has(s.boxes, ByUid(v))
      ensures First(t.boxes, ByUid(v)) == First(s.boxes, ByUid(v))
    {
      FirstIs(t.boxes, ByUid(v), First(s.boxes, ByUid(v)));
    }
  }

  datatype Told = Told(port: Port, at: int)

  /** What box `u` was last told to await since it was registered, as far as the events of `es` go. */
  function LastTold(digest: string -> string, d: DemuxState, es: seq<Event>, u: nat): Told {
    if es == [] then Told(0, 0)
    else
      var n := |es| - 1;
      if !Has(Run(digest, d, es[..n]).reg.boxes, ByUid(u)) then Told(0, 0)
      else if es[n].ZoneAnnounced? && es[n].u == u then Told(es[n].port, es[n].now)
      else LastTold(digest, d, es[..n], u)
  }

  predicate AwaitsWhat(b: BoxV, t: Told) {
    b.expectedZoneIp == 0 && b.expectedZonePort == t.port && b.zoneAwait == t.at
  }

  /** A box that an event registers awaits nothing yet. */
  lemma NewBoxAwaitsNothing(digest: string -> string, d: DemuxState, e: Event, u: nat)
    requires !Has(d.reg.boxes, ByUid(u)) && Has(Step(digest, d, e).reg.boxes, ByUid(u))
    ensures AwaitsWhat(BoxOf(Step(digest, d, e).reg.boxes, u), Told(0, 0))
  {
    var bs, cs := d.reg.boxes, Step(digest, d, e).reg.boxes;
    if e.Sweep? {
      SweptWasThere(d.reg, e.now, e.ttl, u);
    } else {
      StepEvolves(digest, d, e);
      forall i | 0 <= i < |bs|
        ensures !ByUid(u).Holds(cs[i])
      {
        assert Evolves(bs[i], cs[i], e);
      }
      StepAppends(digest, d, e, First(cs, ByUid(u)));
    }
  }

  lemma SweptWasThere(s: Registry, now: int, ttl: int, u: nat)
    requires Has(Evict(s, now, ttl).boxes, ByUid(u))
    ensures Has(s.boxes, ByUid(u))
  {
    if ttl > 0 {
      var b := BoxOf(Evict(s, now, ttl).boxes, u);
      SurvivorIff(s.boxes, CurrentBoxFor(s, s.active), now - ttl, b);
      HasIff(s.boxes, ByUid(u));
    }
  }

  lemma StepAppends(digest: string -> string, d: DemuxState, e: Event, i: nat)
    requires !e.Sweep? && |d.reg.boxes| <= i < |Step(digest, d, e).reg.boxes|
    ensures AwaitsWhat(Step(digest, d, e).reg.boxes[i], Told(0, 0))
  {
    hide PickBox, CurrentBoxFor, OnPromoted, PlaceholderId;
    match e
    case Arrival(p, now) =>
    case EnterWorld(u, name) => PromotionAppendsNothing(digest, d.reg, u, name);
    case Profile(u, name) => PromotionAppendsNothing(digest, d.reg, u, name);
    case _ =>
  }

  lemma PromotionAppendsNothing(digest: string -> string, s: Registry, u: nat, name: string)
    ensures |NameDecoded(digest, s, u, name).boxes| == |s.boxes|
    ensures |PromoteByName(digest, s, u, name).boxes| == |s.boxes|
  {
    hide CurrentBoxFor, Upsert;
  }

  /** In every reachable state each box awaits exactly what it was last told. */
  lemma {:induction false} AwaitsWhatItWasTold(
    digest: string -> string, clientAddr: Ip, detecting: bool, es: seq<Event>, u: nat)
    requires Has(Run(digest, DemuxState(Empty, detecting, clientAddr), es).reg.boxes, ByUid(u))
    ensures var d := DemuxState(Empty, detecting, clientAddr);
            AwaitsWhat(BoxOf(Run(digest, d, es).reg.boxes, u), LastTold(digest, d, es, u))
    decreases |es|
  {
    hide Step, Inv, AwaitsWhat, Has, BoxOf;
    var d := DemuxState(Empty, detecting, clientAddr);
    if es == [] {
      NothingRegistered(u);
    } else {
      var n := |es| - 1;
      var s := Run(digest, d, es[..n]);
      EmptyOk(digest);
      RunKeepsInv(digest, d, es[..n]);
      if Has(s.reg.boxes, ByUid(u)) {
        AwaitsWhatItWasTold(digest, clientAddr, detecting, es[..n], u);
        StepTells(digest, s, es[n], u, LastTold(digest, d, es[..n], u));
      } else {
        NewBoxAwaitsNothing(digest, s, es[n], u);
      }
    }
  }

  lemma NothingRegistered(u: nat)
    ensures !Has(Empty.boxes, ByUid(u))
  {
  }

  lemma StepTells(digest: string -> string, d: DemuxState, e: Event, u: nat, t: Told)
    requires Inv(digest, d.reg) && Has(d.reg.boxes, ByUid(u)) && AwaitsWhat(BoxOf(d.reg.boxes, u), t)
    requires Has(Step(digest, d, e).reg.boxes, ByUid(u))
    ensures AwaitsWhat(BoxOf(Step(digest, d, e).reg.boxes, u),
                       if e.ZoneAnnounced? && e.u == u then Told(e.port, e.now) else t)
  {
    if e.Sweep? {
      SweepLeavesAlone(d.reg, e.now, e.ttl, u);
    } else if e.ZoneAnnounced? && e.u == u {
      AnnounceSets(d.reg, u, e.port, e.now);
    } else {
      StepEvolves(digest, d, e);
      EvolvesByUid(d.reg.boxes, Step(digest, d, e).reg.boxes, e, u);
    }
  }

  // ---- Who was told last gets the session ----------------------------------------------------------

  /** After the run, box `u` is an unbound one of the client that was last told to go to `port`. */
  ghost predicate InLine(digest: string -> string, d: DemuxState, es: seq<Event>, u: nat, clientIp: Ip, port: Port) {
    var bs := Run(digest, d, es).reg.boxes;
    && Has(bs, ByUid(u)) && BoxOf(bs, u).clientIp == clientIp && BoxOf(bs, u).zoneClientPort == 0
    && LastTold(digest, d, es, u).port == port
  }

  /** ... and none was told later, or at the same time and stands before it in the list. */
  ghost predicate NextInLine(
    digest: string -> string, d: DemuxState, es: seq<Event>, u: nat, clientIp: Ip, port: Port)
  {
    && InLine(digest, d, es, u, clientIp, port)
    && forall v | InLine(digest, d, es, v, clientIp, port) ::
         var bs := Run(digest, d, es).reg.boxes;
         var (a, b) := (LastTold(digest, d, es, u).at, LastTold(digest, d, es, v).at);
         b < a || (b == a && First(bs, ByUid(u)) <= First(bs, ByUid(v)))
  }

  lemma InLineAwaits(digest: string -> string, clientAddr: Ip, detecting: bool, es: seq<Event>, i: nat,
                     clientIp: Ip, serverIp: Ip, port: Port)
    requires i < |Run(digest, DemuxState(Empty, detecting, clientAddr), es).reg.boxes|
    ensures var d := DemuxState(Empty, detecting, clientAddr);
      var b := Run(digest, d, es).reg.boxes[i];
      && Has(Run(digest, d, es).reg.boxes, ByUid(b.uid))
      && First(Run(digest, d, es).reg.boxes, ByUid(b.uid)) == i
      && (Awaits(b, clientIp, serverIp, port) <==> InLine(digest, d, es, b.uid, clientIp, port))
      && b.zoneAwait == LastTold(digest, d, es, b.uid).at
  {
    hide Run, Inv, LastTold, NoClash;
    var d := DemuxState(Empty, detecting, clientAddr);
    EmptyOk(digest);
    RunKeepsInv(digest, d, es);
    var s := Run(digest, d, es).reg;
    InvParts(digest, s);
    UidIsKey(s.boxes, i);
    AwaitsWhatItWasTold(digest, clientAddr, detecting, es, s.boxes[i].uid);
  }

  /** From power-on, a tuple nobody holds that a client opens to a port one of its unbound boxes was last told to
      go to is that of the box told last. */
  lemma ToldLastGetsIt(digest: string -> string, clientAddr: Ip, detecting: bool, es: seq<Event>, p: Packet, now: int)
    requires var t := Run(digest, DemuxState(Empty, detecting, clientAddr), es);
             IsZonePacket(p) && Unheld(t.reg.boxes, p)
    ensures var d := DemuxState(Empty, detecting, clientAddr);
      (exists v :: InLine(digest, d, es, v, p.srcIp, p.dstPort)) ==>
      forall u :: Dispatch(Run(digest, d, es), p, now).1 == Zone(u, FromClient)
                  <==> NextInLine(digest, d, es, u, p.srcIp, p.dstPort)
  {
    hide Run, Inv, LastTold, Dispatch, IsZonePacket, Unheld, Given, InLine, Awaits;
    var d := DemuxState(Empty, detecting, clientAddr);
    var t := Run(digest, d, es);
    var bs := t.reg.boxes;
    if v :| InLine(digest, d, es, v, p.srcIp, p.dstPort) {
      forall j | 0 <= j < |bs|
        ensures First(bs, ByUid(bs[j].uid)) == j
        ensures Awaits(bs[j], p.srcIp, p.dstIp, p.dstPort) <==> InLine(digest, d, es, bs[j].uid, p.srcIp, p.dstPort)
        ensures bs[j].zoneAwait == LastTold(digest, d, es, bs[j].uid).at
      {
        InLineAwaits(digest, clientAddr, detecting, es, j, p.srcIp, p.dstIp, p.dstPort);
      }
      InLineIsRegistered(digest, d, es, p.srcIp, p.dstPort);
      assert Awaited(bs, p.srcIp, p.dstIp, p.dstPort);
      UnheldGoes(t, p, now);
      var i: nat :| LatestAwaiting(bs, i, p.srcIp, p.dstIp, p.dstPort)
        && Given(t, Dispatch(t, p, now), i, p.srcPort, p.dstPort, now, FromClient);
      GivenIs(t, Dispatch(t, p, now), i, p.srcPort, p.dstPort, now, FromClient);
      var w := bs[i].uid;
      assert NextInLine(digest, d, es, w, p.srcIp, p.dstPort);
      OneIsNext(digest, d, es, w, p.srcIp, p.dstPort);
    }
  }

  lemma OneIsNext(digest: string -> string, d: DemuxState, es: seq<Event>, w: nat, clientIp: Ip, port: Port)
    requires NextInLine(digest, d, es, w, clientIp, port)
    ensures forall u | NextInLine(digest, d, es, u, clientIp, port) :: u == w
  {
    hide Run, LastTold, Awaits, InLine;
    InLineIsRegistered(digest, d, es, clientIp, port);
    forall u | NextInLine(digest, d, es, u, clientIp, port)
      ensures u == w
    {
      assert InLine(digest, d, es, u, clientIp, port) && InLine(digest, d, es, w, clientIp, port);
    }
  }

  lemma InLineIsRegistered(digest: string -> string, d: DemuxState, es: seq<Event>, clientIp: Ip, port: Port)
    ensures var bs := Run(digest, d, es).reg.boxes;
      forall u | InLine(digest, d, es, u, clientIp, port) ::
        First(bs, ByUid(u)) < |bs| && bs[First(bs, ByUid(u))].uid == u
  {
  }

  lemma GivenIs(d: DemuxState, r: (DemuxState, Outcome), i: nat, cp: Port, sp: Port, now: int, side: Side)
    requires Given(d, r, i, cp, sp, now, side)
    ensures i < |d.reg.boxes| && r.1 == Zone(d.reg.boxes[i].uid, side)
  {
  }

  /** Event `k` tells box `u`, and nothing later does while it stays registered. */
  ghost predicate ToldAt(digest: string -> string, d: DemuxState, es: seq<Event>, k: nat, u: nat, t: Told) {
    && k < |es| && es[k] == ZoneAnnounced(u, t.port, t.at)
    && (forall j | k < j < |es| :: !(es[j].ZoneAnnounced? && es[j].u == u))
    && (forall j | k <= j <= |es| :: Has(Run(digest, d, es[..j]).reg.boxes, ByUid(u)))
  }

  lemma {:induction false} ToldLast(digest: string -> string, d: DemuxState, es: seq<Event>, k: nat, u: nat, t: Told)
    requires ToldAt(digest, d, es, k, u, t)
    ensures LastTold(digest, d, es, u) == t
    decreases |es|
  {
    hide Run, Has;
    var n := |es| - 1;
    if k < n {
      assert forall j | k <= j <= n :: es[..n][..j] == es[..j];
      ToldLast(digest, d, es[..n], k, u, t);
    }
  }

  /** In particular the next such packet goes to a box just told, unless another was told the same port later. */
  lemma AnnouncedGetsIt(digest: string -> string, clientAddr: Ip, detecting: bool, es: seq<Event>, k: nat, u: nat,
                        at: int, p: Packet, now: int)
    requires var d := DemuxState(Empty, detecting, clientAddr);
      var bs := Run(digest, d, es).reg.boxes;
      && IsZonePacket(p) && Unheld(bs, p)
      && ToldAt(digest, d, es, k, u, Told(p.dstPort, at))
      && Has(bs, ByUid(u)) && BoxOf(bs, u).clientIp == p.srcIp && !BoxOf(bs, u).Bound()
      && (forall v | v != u && InLine(digest, d, es, v, p.srcIp, p.dstPort) :: LastTold(digest, d, es, v).at < at)
    ensures Dispatch(Run(digest, DemuxState(Empty, detecting, clientAddr), es), p, now).1 == Zone(u, FromClient)
  {
    hide Run, LastTold, Dispatch, IsZonePacket, Unheld, ToldAt;
    var d := DemuxState(Empty, detecting, clientAddr);
    ToldLast(digest, d, es, k, u, Told(p.dstPort, at));
    assert InLine(digest, d, es, u, p.srcIp, p.dstPort);
    assert NextInLine(digest, d, es, u, p.srcIp, p.dstPort);
    ToldLastGetsIt(digest, clientAddr, detecting, es, p, now);
  }

  // ---- The other packets ---------------------------------------------------------------------------

  predicate Either(p: Packet, low: int, high: int) {
    low <= p.srcPort <= high || low <= p.dstPort <= high
  }

  /** Which ports are for what, in the order in which they are asked about. */
  lemma PortClasses(d: DemuxState, p: Packet, now: int)
    ensures var (t, o) := Dispatch(d, p, now);
      var chat := Either(p, 5998, 5998) || Either(p, 9875, 9876);
      && (chat ==> o == Dropped)
      && (!chat && Either(p, 9877, 9877) ==> o == Chat)
      && (!chat && !Either(p, 9877, 9877) && Either(p, 15900, 15910) ==> o == Dropped)
      && (IsZonePacket(p) <==>
            !chat && !Either(p, 9877, 9877) && !Either(p, 15900, 15910) && !Either(p, 9000, 9020))
      && (!IsZonePacket(p) && !Either(p, 9000, 9020) ==> t == d)
  {
    hide ZoneDispatch;
  }

  predicate HasWorldTuple(b: BoxV, ip: Ip, clientPort: Port, serverPort: Port) {
    b.clientIp == ip && b.clientWorldPort == clientPort && b.serverWorldPort == serverPort
  }

  /** The registry once a world packet of this tuple has been seen, as box `i`: the first box with the tuple, or
      else a new one behind the others, which is the primary if it is the first and then active. */
  ghost predicate Seen(s: Registry, t: Registry, i: nat, ip: Ip, serverIp: Ip, cp: Port, sp: Port, now: int) {
    && i < |t.boxes| && t.rows == s.rows
    && (forall j | 0 <= j < |s.boxes| && j < i :: !HasWorldTuple(s.boxes[j], ip, cp, sp))
    && (if i < |s.boxes| then
          var b := s.boxes[i];
          && HasWorldTuple(b, ip, cp, sp) && t.nextUid == s.nextUid && t.active == s.active
          && t.boxes == s.boxes[i := b.(lastSeen := now, serverWorldIp := serverIp, packetCount := b.packetCount + 1)]
        else
          var b := t.boxes[i];
          && i == |s.boxes| && t.boxes == s.boxes + [b] && HasWorldTuple(b, ip, cp, sp)
          && b.uid == s.nextUid && t.nextUid == s.nextUid + 1
          && t.active == (if s.active == "" then b.boxId else s.active)
          && b.serverWorldIp == serverIp && b.firstSeen == now && b.lastSeen == now && b.packetCount == 1
          && (b.isPrimary <==> i == 0) && b.displayName == "" && b.state == Pending
          && b.expectedZoneIp == 0 && b.expectedZonePort == 0 && b.zoneAwait == 0
          && b.zoneClientPort == 0 && b.zoneServerPort == 0
          && |b.boxId| == 20 && b.boxId[..2] == "p-" && b.boxId[10] == '-' && b.boxId[15] == '-'
          && FromHex(b.boxId[2..10]) == ip && FromHex(b.boxId[11..15]) == cp && FromHex(b.boxId[16..]) == sp)
  }

  /** A world packet goes to the box of its client's port and the server's, on the side it comes from, and is
      what registers that box if it is new. */
  lemma WorldPacketGoes(d: DemuxState, p: Packet, now: int)
    requires Either(p, 9000, 9020)
    ensures var (t, o) := Dispatch(d, p, now);
      var fromServer := 9000 <= p.srcPort <= 9020;
      var ip := if fromServer then p.dstIp else p.srcIp;
      && !t.detecting && t.clientAddr == (if d.detecting then ip else d.clientAddr)
      && exists i: nat ::
           && (if fromServer then Seen(d.reg, t.reg, i, ip, p.srcIp, p.dstPort, p.srcPort, now)
               else Seen(d.reg, t.reg, i, ip, p.dstIp, p.srcPort, p.dstPort, now))
           && (o == World(t.reg.boxes[i].uid, if fromServer then FromServer else FromClient) ||
               Either(p, 5998, 5998) || Either(p, 9875, 9877) || Either(p, 15900, 15910))
  {
    hide Seen, Observe, First;
    var (ip, serverIp, cp, sp) := (ClientIp(p), ServerIp(p), ClientPort(p), ServerPort(p));
    var t := Dispatch(d, p, now).0.reg;
    ObserveSees(d.reg, ip, serverIp, cp, sp, now);
    assert Seen(d.reg, t, First(t.boxes, ByWorld(ip, cp, sp)), ip, serverIp, cp, sp, now);
  }

  lemma ObserveSees(s: Registry, ip: Ip, serverIp: Ip, cp: Port, sp: Port, now: int)
    ensures var t := Observe(s, ip, serverIp, cp, sp, now);
      var i := First(t.boxes, ByWorld(ip, cp, sp));
      i < |t.boxes| && Seen(s, t, i, ip, serverIp, cp, sp, now)
  {
    hide PlaceholderId, FromHex, Seen;
    var k := ByWorld(ip, cp, sp);
    var t, i := Observe(s, ip, serverIp, cp, sp, now), First(s.boxes, k);
    FirstIs(t.boxes, k, i);
    if i < |s.boxes| {
      SeenAgain(s, i, ip, serverIp, cp, sp, now);
    } else {
      SeenFirst(s, ip, serverIp, cp, sp, now);
    }
  }

  lemma SeenAgain(s: Registry, i: nat, ip: Ip, serverIp: Ip, cp: Port, sp: Port, now: int)
    requires i == First(s.boxes, ByWorld(ip, cp, sp)) < |s.boxes|
    ensures Seen(s, SeeAgain(s, i, serverIp, now), i, ip, serverIp, cp, sp, now)
  {
    assert forall j | 0 <= j < i :: !ByWorld(ip, cp, sp).Holds(s.boxes[j]);
    hide First;
  }

  lemma SeenFirst(s: Registry, ip: Ip, serverIp: Ip, cp: Port, sp: Port, now: int)
    requires First(s.boxes, ByWorld(ip, cp, sp)) == |s.boxes|
    ensures Seen(s, Admit(s, NewBox(s, ip, serverIp, cp, sp, now)), |s.boxes|, ip, serverIp, cp, sp, now)
  {
    assert forall j | 0 <= j < |s.boxes| :: !ByWorld(ip, cp, sp).Holds(s.boxes[j]);
    PlaceholderSpells(ip, cp, sp);
    hide PlaceholderId, FromHex, First;
  }
}
