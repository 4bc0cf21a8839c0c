/** The dispatcher as the program keeps it, over the registry's Box objects. */
module PacketDispatcher {
  import opened Options
  import opened Identity
  import opened RegistryModel
  import opened BoxRegistries
  import opened Demux

  /** Which stream a packet is handed to. */
  datatype Route =
    | ToWorld(box: Box, side: Side)
    | ToZone(box: Box, side: Side)
    | ToLegacy(side: Side)
    | ToChat
    | Drop
  {
    ghost function View(): Outcome {
      match this
      case ToWorld(b, side) => World(b.uid, side)
      case ToZone(b, side) => Zone(b.uid, side)
      case ToLegacy(side) => Legacy(side)
      case ToChat => Chat
      case Drop => Dropped
    }
  }

  class EQPacket {
    const registry: BoxRegistry
    var detectingClient: bool
    var clientAddr: Ip

    constructor (registry: BoxRegistry, detecting: bool, clientAddr: Ip)
      ensures this.registry == registry && detectingClient == detecting && this.clientAddr == clientAddr
    {
      this.registry := registry;
      detectingClient, this.clientAddr := detecting, clientAddr;
    }

    ghost function Abs(): DemuxState
      reads this, registry, registry.boxes
    {
      DemuxState(registry.Abs(), detectingClient, clientAddr)
    }

    method Bind(box: Box, ghost i: nat, clientPort: Port, serverPort: Port)
      requires registry.Valid() && i < |registry.boxes| && registry.boxes[i] == box
      modifies box
      ensures registry.Valid() && registry.Views() == Demux.Bind(old(registry.Views()), i, clientPort, serverPort)
    {
      hide ViewsOf;
      ghost var was := registry.Views();
      box.zoneClientPort := clientPort;
      box.zoneServerPort := serverPort;
      registry.OneViewChanged(was, i);
    }

    ghost predicate IsPick(was: seq<BoxV>, p: Packet, now: int, box: Box?, side: Side)
      reads registry, registry.boxes
    {
      var pick := Demux.PickBox(was, p, now);
      if pick.None? then box == null && registry.Views() == was
      else
        && pick.value.index < |registry.boxes| && box == registry.boxes[pick.value.index]
        && registry.Views() == pick.value.boxes && side == pick.value.side
    }

    method PickBox(p: Packet, now: int) returns (box: Box?, side: Side)
      requires registry.Valid()
      modifies registry.boxes
      ensures registry.Valid() && IsPick(old(registry.Views()), p, now, box, side)
    {
      hide First, Best, ViewsOf, Demux.Bind, BoxRegistry.Valid;
      ghost var was := registry.Views();
      side := FromClient;
      box := registry.LookupBoundZone(p.srcIp, p.srcPort, p.dstPort);
      if box != null { return; }
      box := registry.LookupBoundZone(p.dstIp, p.dstPort, p.srcPort);
      if box != null { side := FromServer; return; }
      box := registry.LookupByExpectedZone(p.srcIp, p.dstIp, p.dstPort);
      assert registry.Views() == was;
      if box != null {
        Bind(box, Best(was, Expected(p.srcIp, p.dstIp, p.dstPort)).value, p.srcPort, p.dstPort);
        return;
      }
      box := registry.LookupByExpectedZone(p.dstIp, p.srcIp, p.srcPort);
      assert registry.Views() == was;
      if box != null {
        Bind(box, Best(was, Expected(p.dstIp, p.srcIp, p.srcPort)).value, p.dstPort, p.srcPort);
        side := FromServer;
        return;
      }
      if p.sessionRequest {
        var known := registry.HasClient(p.srcIp);
        if known {
          box := registry.LookupByRecentWorld(p.srcIp, p.dstIp, now, ZONE_BIND_WINDOW_MS);
          assert registry.Views() == was;
          if box != null {
            Bind(box, Best(was, Recent(p.srcIp, p.dstIp, now, ZONE_BIND_WINDOW_MS)).value, p.srcPort, p.dstPort);
          }
        }
      }
    }

    method Touch(box: Box, ghost i: nat, now: int)
      requires registry.Valid() && i < |registry.boxes| && registry.boxes[i] == box
      modifies box
      ensures registry.Valid() && registry.Views() == Demux.Touch(old(registry.Views()), i, now)
    {
      hide ViewsOf;
      ghost var was := registry.Views();
      box.lastSeen := now;
      box.packetCount := box.packetCount + 1;
      registry.OneViewChanged(was, i);
    }

    method ZoneDispatch(p: Packet, now: int) returns (r: Route)
      requires registry.Valid()
      modifies registry.boxes
      ensures registry.Valid()
      ensures (Abs(), r.View()) == Demux.ZoneDispatch(old(Abs()), p, now)
    {
      hide Demux.PickBox, Demux.Touch, ViewsOf, RowsOf, BoxRegistry.Valid;
      ghost var was := registry.Views();
      var box, side := PickBox(p, now);
      if box != null {
        Touch(box, Demux.PickBox(was, p, now).value.index, now);
        return ToZone(box, side);
      }
      if |registry.boxes| <= 1 {
        return ToLegacy(if p.srcIp == clientAddr then FromClient else FromServer);
      }
      return Drop;
    }

    /** A world packet is observed before anything else is decided. */
    method Note(p: Packet, now: int)
      requires registry.Valid()
      modifies this, registry`boxes, registry`nextUid, registry`activeCharacterId, registry.boxes
      ensures registry.Valid() && Abs() == Noted(old(Abs()), p, now)
      ensures !IsWorldPacket(p) ==> registry.boxes == old(registry.boxes)
      ensures forall b | b in registry.boxes :: b in old(registry.boxes) || fresh(b)
    {
      hide RegistryModel.Observe, ViewsOf, RowsOf, BoxRegistry.Valid;
      var srcIsWorld, dstIsWorld := IsWorldPort(p.srcPort), IsWorldPort(p.dstPort);
      if srcIsWorld || dstIsWorld {
        var clientIp, clientPort := if srcIsWorld then p.dstIp else p.srcIp, if srcIsWorld then p.dstPort else p.srcPort;
        var serverIp, serverPort := if srcIsWorld then p.srcIp else p.dstIp, if srcIsWorld then p.srcPort else p.dstPort;
        var _ := registry.Observe(clientIp, serverIp, clientPort, serverPort, now);
        if detectingClient {
          clientAddr := clientIp;
          detectingClient := false;
        }
      }
    }

    method DispatchPacket(p: Packet, now: int) returns (r: Route)
      requires registry.Valid()
      modifies this, registry`boxes, registry`nextUid, registry`activeCharacterId, registry.boxes
      ensures registry.Valid()
      ensures (Abs(), r.View()) == Dispatch(old(Abs()), p, now)
    {
      hide First, Noted, Demux.ZoneDispatch, ViewsOf, RowsOf, BoxRegistry.Valid;
      Note(p, now);
      if IsChatPort(p.dstPort) || IsChatPort(p.srcPort) {
        return Drop;
      }
      if p.dstPort == WORLD_SERVER_UCS_PORT || p.srcPort == WORLD_SERVER_UCS_PORT {
        return ToChat;
      }
      if IsLoginPort(p.dstPort) || IsLoginPort(p.srcPort) {
        return Drop;
      }
      if IsWorldPort(p.dstPort) || IsWorldPort(p.srcPort) {
        var fromServer := IsWorldPort(p.srcPort);
        ghost var t := Abs();
        var box := registry.LookupByWorld(
          if fromServer then p.dstIp else p.srcIp,
          if fromServer then p.dstPort else p.srcPort,
          if fromServer then p.srcPort else p.dstPort);
        assert Abs() == t;
        if box == null {
          return Drop;
        }
        return ToWorld(box, if fromServer then FromServer else FromClient);
      }
      r := ZoneDispatch(p, now);
    }
  }
}
