/** What the registry's operations do, on values. A session is named by `uid`, which stands for
    the address of its Box object: it never changes and is never used twice. */
module RegistryModel {
  import opened Options
  import opened Identity

  datatype SessionState = Pending | Attached | Superseded | Reaped

  datatype BoxV = BoxV(
    uid: nat,
    clientIp: Ip, clientWorldPort: Port, serverWorldPort: Port, serverWorldIp: Ip,
    firstSeen: int, lastSeen: int, packetCount: nat, isPrimary: bool,
    expectedZoneIp: Ip, expectedZonePort: Port,
    zoneClientPort: Port, zoneServerPort: Port, zoneAwait: int,
    boxId: string, displayName: string, state: SessionState)
  {
    /** Bound to a live zone session. */
    predicate Bound() {
      zoneClientPort != 0
    }

    /** Given a zone tuple at all; one with client port 0 does not count as bound. */
    predicate HasTuple() {
      zoneClientPort != 0 || zoneServerPort != 0
    }

    predicate HoldsZone(ip: Ip, clientPort: Port, serverPort: Port) {
      clientIp == ip && zoneClientPort == clientPort && zoneServerPort == serverPort
    }
  }

  datatype Row = Row(name: string, id: string, session: nat)

  datatype Registry = Registry(boxes: seq<BoxV>, rows: seq<Row>, active: string, nextUid: nat)

  // ---- Lookups that take the first match -------------------------------------------------

  datatype Key =
    | ByUid(u: nat)
    | ByBoxId(id: string)
    | ByWorld(ip: Ip, clientPort: Port, serverPort: Port)
    | ByZone(zoneIp: Ip, zoneClient: Port, zoneServer: Port)
    | ByNameExcept(name: string, exclude: nat)
    | ByClient(client: Ip)
  {
    predicate Holds(b: BoxV) {
      match this
      case ByUid(u) => b.uid == u
      case ByBoxId(id) => b.boxId == id
      case ByWorld(ip, cp, sp) => b.clientIp == ip && b.clientWorldPort == cp && b.serverWorldPort == sp
      case ByZone(ip, cp, sp) => b.HoldsZone(ip, cp, sp)
      case ByNameExcept(name, u) => b.uid != u && b.displayName == name
      case ByClient(ip) => b.clientIp == ip
    }
  }

  /** The index of the first box matching `k`, or `|bs|`. */
  function First(bs: seq<BoxV>, k: Key): (i: nat)
    ensures i <= |bs|
    ensures i < |bs| ==> k.Holds(bs[i])
    ensures forall j | 0 <= j < i :: !k.Holds(bs[j])
  {
    if bs == [] then 0
    else if k.Holds(bs[0]) then 0
    else
      var i := First(bs[1..], k);
      assert forall j | 1 <= j < i + 1 :: bs[j] == bs[1..][j - 1];
      i + 1
  }

  predicate Has(bs: seq<BoxV>, k: Key) {
    First(bs, k) < |bs|
  }

  function FirstUid(bs: seq<BoxV>, k: Key): Option<nat> {
    if Has(bs, k) then Some(bs[First(bs, k)].uid) else None
  }

  // ---- Lookups that take the best match --------------------------------------------------

  datatype Want =
    | Expected(ip: Ip, serverIp: Ip, serverPort: Port)
    | Recent(ip: Ip, serverIp: Ip, now: int, window: int)
  {
    predicate Fits(b: BoxV) {
      match this
      case Expected(ip, serverIp, port) =>
        && b.clientIp == ip && !b.Bound()
        && (b.expectedZoneIp == 0 || b.expectedZoneIp == serverIp)
        && b.expectedZonePort == port
      case Recent(ip, serverIp, now, window) =>
        && b.clientIp == ip && !b.Bound()
        && b.clientWorldPort != 0
        && b.serverWorldIp != 0 && b.serverWorldIp / 256 == serverIp / 256
        && now - b.lastSeen <= window
    }

    function Score(b: BoxV): int {
      if Expected? then b.zoneAwait else b.lastSeen
    }
  }

  /** `i` is the earliest of the boxes that fit with the highest score. */
  ghost predicate IsBest(bs: seq<BoxV>, w: Want, i: nat) {
    && i < |bs| && w.Fits(bs[i])
    && (forall j | 0 <= j < |bs| && w.Fits(bs[j]) :: w.Score(bs[j]) <= w.Score(bs[i]))
    && (forall j | 0 <= j < i && w.Fits(bs[j]) :: w.Score(bs[j]) < w.Score(bs[i]))
  }

  function Best(bs: seq<BoxV>, w: Want): (r: Option<nat>)
    ensures r.None? ==> forall j | 0 <= j < |bs| :: !w.Fits(bs[j])
    ensures r.Some? ==> IsBest(bs, w, r.value)
  {
    if bs == [] then None
    else
      var n := |bs| - 1;
      var r := Best(bs[..n], w);
      assert forall j | 0 <= j < n :: bs[j] == bs[..n][j];
      if w.Fits(bs[n]) && (r.None? || w.Score(bs[n]) > w.Score(bs[r.value])) then Some(n) else r
  }

  // ---- Observation ------------------------------------------------------------------------

  function NewBox(s: Registry, ip: Ip, serverIp: Ip, cp: Port, sp: Port, now: int): BoxV {
    BoxV(s.nextUid, ip, cp, sp, serverIp, now, now, 1, s.boxes == [], 0, 0, 0, 0, 0,
         PlaceholderId(ip, cp, sp), "", Pending)
  }

  function SeeAgain(s: Registry, i: nat, serverIp: Ip, now: int): Registry
    requires i < |s.boxes|
  {
    var b := s.boxes[i];
    s.(boxes := s.boxes[i := b.(lastSeen := now, serverWorldIp := serverIp, packetCount := b.packetCount + 1)])
  }

  function Admit(s: Registry, b: BoxV): Registry {
    s.(boxes := s.boxes + [b], nextUid := s.nextUid + 1, active := if s.active == "" then b.boxId else s.active)
  }

  function Observe(s: Registry, ip: Ip, serverIp: Ip, cp: Port, sp: Port, now: int): Registry {
    var i := First(s.boxes, ByWorld(ip, cp, sp));
    if i < |s.boxes| then SeeAgain(s, i, serverIp, now)
    else Admit(s, NewBox(s, ip, serverIp, cp, sp, now))
  }

  // ---- The character store ----------------------------------------------------------------

  function FirstRow(rows: seq<Row>, id: string): (i: nat)
    ensures i <= |rows|
    ensures i < |rows| ==> rows[i].id == id
    ensures forall j | 0 <= j < i :: rows[j].id != id
  {
    if rows == [] then 0
    else if rows[0].id == id then 0
    else
      var i := FirstRow(rows[1..], id);
      assert forall j | 1 <= j < i + 1 :: rows[j] == rows[1..][j - 1];
      i + 1
  }

  function FirstSeenOf(bs: seq<BoxV>, u: nat): int {
    if Has(bs, ByUid(u)) then bs[First(bs, ByUid(u))].firstSeen else 0
  }

  /** A session displaces the row's own only if it was first seen no earlier. */
  function Upsert(bs: seq<BoxV>, rows: seq<Row>, id: string, name: string, u: nat): seq<Row> {
    var i := FirstRow(rows, id);
    if i < |rows| then
      var held := rows[i].session;
      rows[i := Row(name, id, if FirstSeenOf(bs, u) >= FirstSeenOf(bs, held) then u else held)]
    else
      rows + [Row(name, id, u)]
  }

  function CurrentBoxFor(s: Registry, id: string): Option<nat> {
    var i := FirstRow(s.rows, id);
    if i < |s.rows| then Some(s.rows[i].session) else FirstUid(s.boxes, ByBoxId(id))
  }

  // ---- Promotion --------------------------------------------------------------------------

  /** Give box `i` its name and the id that goes with it. */
  function Named(digest: string -> string, bs: seq<BoxV>, i: nat, name: string): seq<BoxV>
    requires i < |bs|
  {
    bs[i := bs[i].(displayName := name, boxId := PromotedId(digest, name))]
  }

  /** The hook both promotion paths go through, for the box at index `i`. */
  function OnPromoted(s: Registry, i: nat, oldId: string): Registry
    requires i < |s.boxes|
  {
    var b := s.boxes[i];
    s.(active := if s.active == oldId then b.boxId else s.active,
       rows := Upsert(s.boxes, s.rows, b.boxId, b.displayName, b.uid))
  }

  /** The OP_EnterWorld path. It leaves `state` alone. */
  function NameDecoded(digest: string -> string, s: Registry, u: nat, name: string): Registry {
    var i := First(s.boxes, ByUid(u));
    if i == |s.boxes| || s.boxes[i].displayName != "" || name == "" then s
    else OnPromoted(s.(boxes := Named(digest, s.boxes, i, name)), i, s.boxes[i].boxId)
  }

  /** Of the sessions under `id` the live one is Attached, every other Superseded. */
  function Restated(b: BoxV, id: string, live: Option<nat>): BoxV {
    if b.boxId != id then b
    else b.(state := if Some(b.uid) == live then Attached else Superseded)
  }

  function Reclassify(bs: seq<BoxV>, id: string, live: Option<nat>): (r: seq<BoxV>)
    ensures |r| == |bs|
    ensures forall i | 0 <= i < |bs| :: r[i] == Restated(bs[i], id, live)
  {
    seq(|bs|, i requires 0 <= i < |bs| => Restated(bs[i], id, live))
  }

  /** A character first seen now takes over as the active one from a box that never got a name. */
  function AdoptActive(s: Registry, id: string, isNew: bool): Registry {
    var a := First(s.boxes, ByBoxId(s.active));
    if isNew && (a == |s.boxes| || s.boxes[a].displayName == "") then s.(active := id) else s
  }

  /** What a promotion does once box `i` has its new name. */
  function Settle(s: Registry, i: nat, oldId: string, isNew: bool): Registry
    requires i < |s.boxes|
  {
    var id := s.boxes[i].boxId;
    var t := AdoptActive(OnPromoted(s, i, oldId), id, isNew);
    t.(boxes := Reclassify(t.boxes, id, CurrentBoxFor(t, id)))
  }

  /** The OP_PlayerProfile path, which may also rename. */
  function PromoteByName(digest: string -> string, s: Registry, u: nat, name: string): Registry {
    var i := First(s.boxes, ByUid(u));
    if i == |s.boxes| || name == "" || s.boxes[i].displayName == name then s
    else
      var named := Named(digest, s.boxes, i, name);
      Settle(s.(boxes := named), i, s.boxes[i].boxId, !Has(named, ByNameExcept(name, u)))
  }

  function SetActive(s: Registry, id: string): Registry {
    if Has(s.boxes, ByBoxId(id)) then s.(active := id) else s
  }

  // ---- The zone announcement ----------------------------------------------------------------

  function Announce(s: Registry, u: nat, port: Port, now: int): Registry {
    var i := First(s.boxes, ByUid(u));
    if i == |s.boxes| then s
    else s.(boxes := s.boxes[i := s.boxes[i].(
        expectedZonePort := port, zoneClientPort := 0, zoneServerPort := 0, zoneAwait := now)])
  }

  // ---- The idle sweep -------------------------------------------------------------------------

  predicate Stale(b: BoxV, live: Option<nat>, cutoff: int) {
    !b.isPrimary && Some(b.uid) != live && b.lastSeen < cutoff
  }

  function Survivors(bs: seq<BoxV>, live: Option<nat>, cutoff: int): seq<BoxV> {
    if bs == [] then []
    else
      var n := |bs| - 1;
      Survivors(bs[..n], live, cutoff) + if Stale(bs[n], live, cutoff) then [] else [bs[n]]
  }

  predicate IsVictim(bs: seq<BoxV>, live: Option<nat>, cutoff: int, u: nat) {
    exists b | b in bs :: b.uid == u && Stale(b, live, cutoff)
  }

  /** The rows whose session is not one of the victims. */
  function KeptRows(rows: seq<Row>, bs: seq<BoxV>, live: Option<nat>, cutoff: int): seq<Row> {
    if rows == [] then []
    else
      var n := |rows| - 1;
      KeptRows(rows[..n], bs, live, cutoff) + if IsVictim(bs, live, cutoff, rows[n].session) then [] else [rows[n]]
  }

  function Evict(s: Registry, now: int, ttl: int): Registry {
    if ttl <= 0 then s
    else
      var live, cutoff := CurrentBoxFor(s, s.active), now - ttl;
      s.(boxes := Survivors(s.boxes, live, cutoff),
         rows := KeptRows(s.rows, s.boxes, live, cutoff))
  }

  // ---- Facts about the lookups -----------------------------------------------------------------

  lemma FirstIs(bs: seq<BoxV>, k: Key, i: nat)
    requires i <= |bs| && forall j | 0 <= j < i :: !k.Holds(bs[j])
    requires i < |bs| ==> k.Holds(bs[i])
    ensures First(bs, k) == i
  {
  }

  lemma FirstRowIs(rows: seq<Row>, id: string, i: nat)
    requires i < |rows| && rows[i].id == id && forall j | 0 <= j < i :: rows[j].id != id
    ensures FirstRow(rows, id) == i
  {
  }

  lemma HasIff(bs: seq<BoxV>, k: Key)
    ensures Has(bs, k) <==> exists b :: b in bs && k.Holds(b)
  {
  }

  lemma BestUnique(bs: seq<BoxV>, w: Want, i: nat)
    requires IsBest(bs, w, i)
    ensures Best(bs, w) == Some(i)
  {
  }

  lemma {:induction false} SurvivorIff(bs: seq<BoxV>, live: Option<nat>, cutoff: int, b: BoxV)
    ensures b in Survivors(bs, live, cutoff) <==> b in bs && !Stale(b, live, cutoff)
  {
    if bs != [] {
      var n := |bs| - 1;
      SurvivorIff(bs[..n], live, cutoff, b);
      assert bs == bs[..n] + [bs[n]];
    }
  }

  lemma {:induction false} KeptRowIff(rows: seq<Row>, bs: seq<BoxV>, live: Option<nat>, cutoff: int, r: Row)
    ensures r in KeptRows(rows, bs, live, cutoff) <==> r in rows && !IsVictim(bs, live, cutoff, r.session)
  {
    if rows != [] {
      var n := |rows| - 1;
      KeptRowIff(rows[..n], bs, live, cutoff, r);
      assert rows == rows[..n] + [rows[n]];
    }
  }
}
