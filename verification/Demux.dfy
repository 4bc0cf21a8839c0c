/** Attribution of every captured packet to a session, and the events that change how it is done. */
module Demux {
  import opened Options
  import opened Identity
  import opened RegistryModel

  datatype Packet = Packet(srcIp: Ip, srcPort: Port, dstIp: Ip, dstPort: Port, sessionRequest: bool)

  datatype Side = FromClient | FromServer

  /** Where a packet ends up. `Legacy` is the pair of global zone streams, which are also the
      primary box's own. */
  datatype Outcome =
    | World(box: nat, side: Side)
    | Zone(box: nat, side: Side)
    | Legacy(side: Side)
    | Chat
    | Dropped

  datatype DemuxState = DemuxState(reg: Registry, detecting: bool, clientAddr: Ip)

  const ZONE_BIND_WINDOW_MS := 15000

  predicate IsWorldPacket(p: Packet) {
    IsWorldPort(p.srcPort) || IsWorldPort(p.dstPort)
  }

  predicate IsZonePacket(p: Packet) {
    IsZonePort(p.srcPort) && IsZonePort(p.dstPort)
  }

  // ---- World traffic ------------------------------------------------------------------------

  function ClientIp(p: Packet): Ip {
    if IsWorldPort(p.srcPort) then p.dstIp else p.srcIp
  }

  function ServerIp(p: Packet): Ip {
    if IsWorldPort(p.srcPort) then p.srcIp else p.dstIp
  }

  function ClientPort(p: Packet): Port {
    if IsWorldPort(p.srcPort) then p.dstPort else p.srcPort
  }

  function ServerPort(p: Packet): Port {
    if IsWorldPort(p.srcPort) then p.srcPort else p.dstPort
  }

  function WorldKey(p: Packet): Key {
    ByWorld(ClientIp(p), ClientPort(p), ServerPort(p))
  }

  /** Every world packet is observed, and the first one settles which client is being watched. */
  function Noted(d: DemuxState, p: Packet, now: int): DemuxState {
    if !IsWorldPacket(p) then d
    else DemuxState(Observe(d.reg, ClientIp(p), ServerIp(p), ClientPort(p), ServerPort(p), now),
               false, if d.detecting then ClientIp(p) else d.clientAddr)
  }

  // ---- Zone traffic -------------------------------------------------------------------------

  datatype Pick = Pick(boxes: seq<BoxV>, index: nat, side: Side)

  function Forward(p: Packet): Key {
    ByZone(p.srcIp, p.srcPort, p.dstPort)
  }

  function Backward(p: Packet): Key {
    ByZone(p.dstIp, p.dstPort, p.srcPort)
  }

  function Bind(bs: seq<BoxV>, i: nat, clientPort: Port, serverPort: Port): seq<BoxV>
    requires i < |bs|
  {
    bs[i := bs[i].(zoneClientPort := clientPort, zoneServerPort := serverPort)]
  }

  /** Whose a zone packet is. A box that holds its tuple, as sender or as receiver, comes first, then one that
      awaits it on either side; the opener of a session may also go to a box of its client that was heard
      lately. What is found in the last two ways is given the tuple. */
  function PickBox(bs: seq<BoxV>, p: Packet, now: int): (r: Option<Pick>)
    ensures r.Some? ==> |r.value.boxes| == |bs| && r.value.index < |bs|
  {
    if Has(bs, Forward(p)) then Some(Pick(bs, First(bs, Forward(p)), FromClient))
    else if Has(bs, Backward(p)) then Some(Pick(bs, First(bs, Backward(p)), FromServer))
    else
      var out := Best(bs, Expected(p.srcIp, p.dstIp, p.dstPort));
      if out.Some? then Some(Pick(Bind(bs, out.value, p.srcPort, p.dstPort), out.value, FromClient))
      else
        var back := Best(bs, Expected(p.dstIp, p.srcIp, p.srcPort));
        if back.Some? then Some(Pick(Bind(bs, back.value, p.dstPort, p.srcPort), back.value, FromServer))
        else if !p.sessionRequest || !Has(bs, ByClient(p.srcIp)) then None
        else
          var recent := Best(bs, Recent(p.srcIp, p.dstIp, now, ZONE_BIND_WINDOW_MS));
          if recent.Some? then Some(Pick(Bind(bs, recent.value, p.srcPort, p.dstPort), recent.value, FromClient))
          else None
  }

  function Touch(bs: seq<BoxV>, i: nat, now: int): seq<BoxV>
    requires i < |bs|
  {
    bs[i := bs[i].(lastSeen := now, packetCount := bs[i].packetCount + 1)]
  }

  function ZoneDispatch(d: DemuxState, p: Packet, now: int): (DemuxState, Outcome) {
    var pick := PickBox(d.reg.boxes, p, now);
    if pick.Some? then
      var Pick(bs, i, side) := pick.value;
      (d.(reg := d.reg.(boxes := Touch(bs, i, now))), Zone(bs[i].uid, side))
    else if |d.reg.boxes| <= 1 then (d, Legacy(if p.srcIp == d.clientAddr then FromClient else FromServer))
    else (d, Dropped)
  }

  function Dispatch(d: DemuxState, p: Packet, now: int): (DemuxState, Outcome) {
    var t := Noted(d, p, now);
    if IsChatPort(p.srcPort) || IsChatPort(p.dstPort) then (t, Dropped)
    else if p.srcPort == WORLD_SERVER_UCS_PORT || p.dstPort == WORLD_SERVER_UCS_PORT then (t, Chat)
    else if IsLoginPort(p.srcPort) || IsLoginPort(p.dstPort) then (t, Dropped)
    else if IsWorldPacket(p) then
      var u := FirstUid(t.reg.boxes, WorldKey(p));
      (t, if u.Some? then World(u.value, if IsWorldPort(p.srcPort) then FromServer else FromClient) else Dropped)
    else ZoneDispatch(t, p, now)
  }

  // ---- Runs -----------------------------------------------------------------------------------

  datatype Event =
    | Arrival(p: Packet, now: int)
    | EnterWorld(u: nat, name: string)
    | Profile(u: nat, name: string)
    | ZoneAnnounced(u: nat, port: Port, now: int)
    | Select(id: string)
    | Sweep(now: int, ttl: int)

  function Step(digest: string -> string, d: DemuxState, e: Event): DemuxState {
    match e
    case Arrival(p, now) => Dispatch(d, p, now).0
    case EnterWorld(u, name) => d.(reg := NameDecoded(digest, d.reg, u, name))
    case Profile(u, name) => d.(reg := PromoteByName(digest, d.reg, u, name))
    case ZoneAnnounced(u, port, now) => d.(reg := Announce(d.reg, u, port, now))
    case Select(id) => d.(reg := SetActive(d.reg, id))
    case Sweep(now, ttl) => d.(reg := Evict(d.reg, now, ttl))
  }

  /** The state after the events of `es`, oldest first. */
  function Run(digest: string -> string, d: DemuxState, es: seq<Event>): DemuxState {
    if es == [] then d
    else Step(digest, Run(digest, d, es[..|es| - 1]), es[|es| - 1])
  }
}
