/** What every registry operation keeps. */
module RegistryInvariant {
  import opened Options
  import opened Identity
  import opened RegistryModel

  /** Two boxes that must not be registered side by side. */
  predicate Clash(a: BoxV, b: BoxV) {
    || a.uid == b.uid
    || (a.clientIp == b.clientIp && a.clientWorldPort == b.clientWorldPort && a.serverWorldPort == b.serverWorldPort)
    || (a.isPrimary && b.isPrimary)
    || (a.state == Attached && b.state == Attached && a.boxId == b.boxId)
    || (a.HasTuple() && b.HoldsZone(a.clientIp, a.zoneClientPort, a.zoneServerPort))
  }

  ghost predicate NoClash(bs: seq<BoxV>) {
    forall i, j | 0 <= i < j < |bs| :: !Clash(bs[i], bs[j])
  }

  /** The id says what the box is known by, and only a promoted box leaves Pending. */
  predicate BoxOk(digest: string -> string, b: BoxV) {
    && b.boxId == (if b.displayName == "" then PlaceholderId(b.clientIp, b.clientWorldPort, b.serverWorldPort)
                   else PromotedId(digest, b.displayName))
    && (b.displayName == "" ==> b.state == Pending)
    && b.state != Reaped
    && ZonePortsOk(b)
  }

  /** A zone tuple is only ever made of zone ports. */
  predicate ZonePortsOk(b: BoxV) {
    IsZonePort(b.zoneClientPort) && IsZonePort(b.zoneServerPort)
  }

  ghost predicate BoxesOk(digest: string -> string, s: Registry) {
    && NoClash(s.boxes)
    && (forall b | b in s.boxes :: BoxOk(digest, b) && b.uid < s.nextUid)
    && (s.boxes != [] ==> s.boxes[0].isPrimary)
  }

  /** A row's session is a registered, promoted box; the row is keyed by the digest of its name. */
  predicate RowOk(digest: string -> string, bs: seq<BoxV>, r: Row) {
    && r.name != "" && r.id == PromotedId(digest, r.name)
    && exists b | b in bs :: b.uid == r.session && b.displayName != ""
  }

  ghost predicate IdsDistinct(rows: seq<Row>) {
    forall i, j | 0 <= i < j < |rows| :: rows[i].id != rows[j].id
  }

  ghost predicate RowsOk(digest: string -> string, bs: seq<BoxV>, rows: seq<Row>) {
    && IdsDistinct(rows)
    && (forall r | r in rows :: RowOk(digest, bs, r))
  }

  /** Once there is a box, the active id resolves to one. */
  predicate ActiveOk(s: Registry) {
    && (s.boxes == [] ==> s.active == "" && s.rows == [])
    && (s.boxes != [] ==> s.active != "" && CurrentBoxFor(s, s.active).Some?)
  }

  ghost predicate Inv(digest: string -> string, s: Registry) {
    BoxesOk(digest, s) && RowsOk(digest, s.boxes, s.rows) && ActiveOk(s)
  }

  /** The parts of the invariant, for proofs that hide the whole. */
  lemma InvParts(digest: string -> string, s: Registry)
    requires Inv(digest, s)
    ensures NoClash(s.boxes) && BoxesOk(digest, s) && RowsOk(digest, s.boxes, s.rows) && ActiveOk(s)
  {
  }

  const Empty := Registry([], [], "", 0)

  lemma EmptyOk(digest: string -> string)
    ensures Inv(digest, Empty)
  {
  }

  // ---- Consequences -----------------------------------------------------------------------------

  /** The active session is a registered box. */
  lemma ActiveIsLive(digest: string -> string, s: Registry)
    requires Inv(digest, s) && s.boxes != []
    ensures var u := CurrentBoxFor(s, s.active); u.Some? && Has(s.boxes, ByUid(u.value))
  {
    var u := CurrentBoxFor(s, s.active).value;
    var i := FirstRow(s.rows, s.active);
    if i < |s.rows| {
      assert RowOk(digest, s.boxes, s.rows[i]);
    }
    HasIff(s.boxes, ByUid(u));
  }

  /** Boxes share an id only as sessions of characters whose names have the same digest. */
  lemma SharedIdIsSharedDigest(digest: string -> string, s: Registry, a: BoxV, b: BoxV)
    requires Inv(digest, s) && a in s.boxes && b in s.boxes && a.boxId == b.boxId
    ensures a == b || (a.displayName != "" && b.displayName != "" && digest(a.displayName) == digest(b.displayName))
  {
    if a.displayName == "" && b.displayName == "" {
      PlaceholderInjective(a.clientIp, a.clientWorldPort, a.serverWorldPort,
                           b.clientIp, b.clientWorldPort, b.serverWorldPort);
    } else if a.displayName == "" {
      PlaceholderIsNotPromoted(a.clientIp, a.clientWorldPort, a.serverWorldPort, digest, b.displayName);
    } else if b.displayName == "" {
      PlaceholderIsNotPromoted(b.clientIp, b.clientWorldPort, b.serverWorldPort, digest, a.displayName);
    } else {
      var x, y := PromotedId(digest, a.displayName), PromotedId(digest, b.displayName);
      assert x[2..] == digest(a.displayName) && y[2..] == digest(b.displayName);
    }
  }

  lemma UidIsKey(bs: seq<BoxV>, i: nat)
    requires NoClash(bs) && i < |bs|
    ensures First(bs, ByUid(bs[i].uid)) == i
  {
    FirstIs(bs, ByUid(bs[i].uid), i);
  }

  // ---- Replacing one box ------------------------------------------------------------------------

  /** One box is replaced by another that keeps its identity and its creation-time fields. */
  predicate SameBox(a: BoxV, b: BoxV) {
    && a.uid == b.uid && a.firstSeen == b.firstSeen && a.isPrimary == b.isPrimary
    && a.clientIp == b.clientIp && a.clientWorldPort == b.clientWorldPort && a.serverWorldPort == b.serverWorldPort
  }

  /** ... and its zone session, or gives the session up. */
  predicate BindingKept(a: BoxV, b: BoxV) {
    !b.HasTuple() || (b.zoneClientPort == a.zoneClientPort && b.zoneServerPort == a.zoneServerPort)
  }

  predicate KnownAs(a: BoxV, b: BoxV) {
    a.boxId == b.boxId && a.displayName == b.displayName
  }

  lemma ReplaceKeepsNoClash(bs: seq<BoxV>, i: nat, b: BoxV)
    requires NoClash(bs) && i < |bs| && SameBox(bs[i], b)
    requires BindingKept(bs[i], b) ||
             forall j | 0 <= j < |bs| :: !bs[j].HoldsZone(b.clientIp, b.zoneClientPort, b.zoneServerPort)
    requires b.state == Attached ==> b.state == bs[i].state && b.boxId == bs[i].boxId
    ensures NoClash(bs[i := b])
  {
    var r := bs[i := b];
    forall x, y | 0 <= x < y < |r|
      ensures !Clash(r[x], r[y])
    {
      assert !Clash(bs[x], bs[y]);
    }
  }

  /** Same length, same identities and names: the lookups by uid and by id give the same answers. */
  ghost predicate Alike(bs: seq<BoxV>, cs: seq<BoxV>) {
    && |bs| == |cs|
    && forall i | 0 <= i < |bs| :: SameBox(bs[i], cs[i]) && KnownAs(bs[i], cs[i])
  }

  lemma AlikeKeepsLookups(bs: seq<BoxV>, cs: seq<BoxV>, id: string, u: nat)
    requires Alike(bs, cs)
    ensures First(bs, ByBoxId(id)) == First(cs, ByBoxId(id))
    ensures First(bs, ByUid(u)) == First(cs, ByUid(u))
    ensures FirstUid(bs, ByBoxId(id)) == FirstUid(cs, ByBoxId(id))
  {
    FirstIs(cs, ByBoxId(id), First(bs, ByBoxId(id)));
    FirstIs(cs, ByUid(u), First(bs, ByUid(u)));
  }

  lemma AlikeKeepsRows(digest: string -> string, bs: seq<BoxV>, cs: seq<BoxV>, rows: seq<Row>)
    requires Alike(bs, cs) && RowsOk(digest, bs, rows)
    ensures RowsOk(digest, cs, rows)
  {
    forall r | r in rows
      ensures RowOk(digest, cs, r)
    {
      var b :| b in bs && b.uid == r.session && b.displayName != "";
      var i :| 0 <= i < |bs| && bs[i] == b;
      assert cs[i].uid == r.session && cs[i].displayName != "";
    }
  }

  /** Replacing a box by one that differs in neither identity nor name keeps the invariant. */
  lemma ReplaceKeepsInv(digest: string -> string, s: Registry, i: nat, b: BoxV)
    requires Inv(digest, s) && i < |s.boxes| && SameBox(s.boxes[i], b) && KnownAs(s.boxes[i], b)
    requires b.state == s.boxes[i].state && ZonePortsOk(b)
    requires BindingKept(s.boxes[i], b) ||
             forall j | 0 <= j < |s.boxes| :: !s.boxes[j].HoldsZone(b.clientIp, b.zoneClientPort, b.zoneServerPort)
    ensures Inv(digest, s.(boxes := s.boxes[i := b]))
  {
    var t := s.(boxes := s.boxes[i := b]);
    ReplaceKeepsNoClash(s.boxes, i, b);
    AlikeKeepsRows(digest, s.boxes, t.boxes, s.rows);
    AlikeKeepsLookups(s.boxes, t.boxes, s.active, 0);
    forall c | c in t.boxes
      ensures BoxOk(digest, c) && c.uid < t.nextUid
    {
      assert s.boxes[i] in s.boxes;
    }
  }

  // ---- Observation --------------------------------------------------------------------------------

  lemma ObserveKeepsInv(digest: string -> string, s: Registry, ip: Ip, serverIp: Ip, cp: Port, sp: Port, now: int)
    requires Inv(digest, s)
    ensures Inv(digest, Observe(s, ip, serverIp, cp, sp, now))
    ensures Has(Observe(s, ip, serverIp, cp, sp, now).boxes, ByWorld(ip, cp, sp))
  {
    var t := Observe(s, ip, serverIp, cp, sp, now);
    var i := First(s.boxes, ByWorld(ip, cp, sp));
    if i < |s.boxes| {
      var b := s.boxes[i];
      var c := b.(lastSeen := now, serverWorldIp := serverIp, packetCount := b.packetCount + 1);
      ReplaceKeepsInv(digest, s, i, c);
      assert ByWorld(ip, cp, sp).Holds(t.boxes[i]);
    } else {
      var b := NewBox(s, ip, serverIp, cp, sp, now);
      AppendKeepsInv(digest, s, b);
      assert t.boxes[|s.boxes|] == b;
    }
    HasIff(t.boxes, ByWorld(ip, cp, sp));
  }

  lemma AppendKeepsInv(digest: string -> string, s: Registry, b: BoxV)
    requires Inv(digest, s)
    requires b == NewBox(s, b.clientIp, b.serverWorldIp, b.clientWorldPort, b.serverWorldPort, b.firstSeen)
    requires !Has(s.boxes, ByWorld(b.clientIp, b.clientWorldPort, b.serverWorldPort))
    ensures Inv(digest, s.(boxes := s.boxes + [b], nextUid := s.nextUid + 1,
                           active := if s.active == "" then b.boxId else s.active))
  {
    hide ActiveOk, PlaceholderId;
    var t := s.(boxes := s.boxes + [b], nextUid := s.nextUid + 1,
                active := if s.active == "" then b.boxId else s.active);
    AppendKeepsNoClash(digest, s, b);
    forall r | r in t.rows
      ensures RowOk(digest, t.boxes, r)
    {
      assert RowOk(digest, s.boxes, r);
      var c :| c in s.boxes && c.uid == r.session && c.displayName != "";
      assert c in t.boxes;
    }
    PlaceholderNotEmpty(b.clientIp, b.clientWorldPort, b.serverWorldPort);
    AppendKeepsActive(s, b, t);
  }

  lemma PlaceholderNotEmpty(ip: Ip, cp: Port, sp: Port)
    ensures PlaceholderId(ip, cp, sp) != ""
  {
  }

  lemma AppendKeepsNoClash(digest: string -> string, s: Registry, b: BoxV)
    requires BoxesOk(digest, s)
    requires b == NewBox(s, b.clientIp, b.serverWorldIp, b.clientWorldPort, b.serverWorldPort, b.firstSeen)
    requires !Has(s.boxes, ByWorld(b.clientIp, b.clientWorldPort, b.serverWorldPort))
    ensures NoClash(s.boxes + [b])
  {
    hide PlaceholderId;
    var bs := s.boxes + [b];
    forall x, y | 0 <= x < y < |bs|
      ensures !Clash(bs[x], bs[y])
    {
      if y == |s.boxes| {
        assert s.boxes[x] in s.boxes && s.boxes[0].isPrimary;
        assert !ByWorld(b.clientIp, b.clientWorldPort, b.serverWorldPort).Holds(s.boxes[x]);
      } else {
        assert bs[x] == s.boxes[x] && bs[y] == s.boxes[y];
      }
    }
  }

  lemma AppendKeepsActive(s: Registry, b: BoxV, t: Registry)
    requires ActiveOk(s) && b.boxId != ""
    requires t.boxes == s.boxes + [b] && t.rows == s.rows
    requires t.active == if s.active == "" then b.boxId else s.active
    ensures ActiveOk(t)
  {
    if s.boxes == [] {
      assert ByBoxId(t.active).Holds(t.boxes[0]);
    } else if FirstRow(s.rows, s.active) == |s.rows| {
      var i := First(s.boxes, ByBoxId(s.active));
      assert t.boxes[i] == s.boxes[i];
    }
  }

  // ---- The store ------------------------------------------------------------------------------------

  lemma UpsertKeepsRows(digest: string -> string, bs: seq<BoxV>, rows: seq<Row>, i: nat)
    requires RowsOk(digest, bs, rows)
    requires i < |bs| && bs[i].displayName != "" && bs[i].boxId == PromotedId(digest, bs[i].displayName)
    ensures RowsOk(digest, bs, Upsert(bs, rows, bs[i].boxId, bs[i].displayName, bs[i].uid))
    ensures FirstRow(Upsert(bs, rows, bs[i].boxId, bs[i].displayName, bs[i].uid), bs[i].boxId)
         == FirstRow(rows, bs[i].boxId) < |Upsert(bs, rows, bs[i].boxId, bs[i].displayName, bs[i].uid)|
  {
    var b := bs[i];
    var k := FirstRow(rows, b.boxId);
    var r := Upsert(bs, rows, b.boxId, b.displayName, b.uid);
    assert b in bs;
    if k < |rows| {
      assert RowOk(digest, bs, rows[k]);
    }
    assert RowOk(digest, bs, r[k]);
    assert forall x | 0 <= x < k :: r[x] == rows[x];
    FirstRowIs(r, b.boxId, k);
  }

  lemma UpsertKeepsOtherRows(bs: seq<BoxV>, rows: seq<Row>, id: string, name: string, u: nat, other: string)
    requires other != id
    ensures var r := Upsert(bs, rows, id, name, u);
            var i := FirstRow(rows, other);
            i < |rows| ==> FirstRow(r, other) == i && r[i] == rows[i]
    ensures FirstRow(rows, other) == |rows| ==>
              var r := Upsert(bs, rows, id, name, u); FirstRow(r, other) == |r|
  {
    var r := Upsert(bs, rows, id, name, u);
    var i := FirstRow(rows, other);
    if i < |rows| {
      assert forall x | 0 <= x < i :: r[x].id == rows[x].id;
      FirstRowIs(r, other, i);
    } else {
      assert forall x | 0 <= x < |r| :: r[x].id != other;
    }
  }

  // ---- Promotion -----------------------------------------------------------------------------------------

  lemma NamedKeepsBoxes(digest: string -> string, s: Registry, i: nat, name: string)
    requires BoxesOk(digest, s) && i < |s.boxes| && name != ""
    requires s.boxes[i].state != Attached
    ensures BoxesOk(digest, s.(boxes := Named(digest, s.boxes, i, name)))
  {
    var bs := Named(digest, s.boxes, i, name);
    ReplaceKeepsNoClash(s.boxes, i, bs[i]);
    forall c | c in bs
      ensures BoxOk(digest, c) && c.uid < s.nextUid
    {
      assert s.boxes[i] in s.boxes;
    }
  }

  lemma NamedKeepsRows(digest: string -> string, bs: seq<BoxV>, rows: seq<Row>, i: nat, name: string)
    requires RowsOk(digest, bs, rows) && i < |bs| && name != ""
    ensures RowsOk(digest, Named(digest, bs, i, name), rows)
  {
    var cs := Named(digest, bs, i, name);
    forall r | r in rows
      ensures RowOk(digest, cs, r)
    {
      assert RowOk(digest, bs, r);
      var b :| b in bs && b.uid == r.session && b.displayName != "";
      var k :| 0 <= k < |bs| && bs[k] == b;
      assert cs[k] in cs && cs[k].uid == r.session && cs[k].displayName != "";
    }
  }

  /** After naming box `i` the hook leaves the active id resolvable. */
  lemma OnPromotedKeepsActive(digest: string -> string, s: Registry, i: nat, name: string)
    requires Inv(digest, s) && i < |s.boxes| && name != ""
    ensures ActiveOk(OnPromoted(s.(boxes := Named(digest, s.boxes, i, name)), i, s.boxes[i].boxId))
  {
    var bs := Named(digest, s.boxes, i, name);
    var t := OnPromoted(s.(boxes := bs), i, s.boxes[i].boxId);
    NamedKeepsRows(digest, s.boxes, s.rows, i, name);
    UpsertKeepsRows(digest, bs, s.rows, i);
    if t.active != bs[i].boxId {
      UpsertKeepsOtherRows(bs, s.rows, bs[i].boxId, name, bs[i].uid, s.active);
      if FirstRow(s.rows, s.active) == |s.rows| {
        var k := First(s.boxes, ByBoxId(s.active));
        assert k != i && bs[k] == s.boxes[k];
      }
    }
  }

  lemma NameDecodedKeepsInv(digest: string -> string, s: Registry, u: nat, name: string)
    requires Inv(digest, s)
    ensures Inv(digest, NameDecoded(digest, s, u, name))
  {
    var i := First(s.boxes, ByUid(u));
    if i < |s.boxes| && s.boxes[i].displayName == "" && name != "" {
      assert BoxOk(digest, s.boxes[i]);
      var bs := Named(digest, s.boxes, i, name);
      NamedKeepsBoxes(digest, s, i, name);
      NamedKeepsRows(digest, s.boxes, s.rows, i, name);
      UpsertKeepsRows(digest, bs, s.rows, i);
      OnPromotedKeepsActive(digest, s, i, name);
    }
  }

  /** Reclassification leaves at most one Attached session under `id`, whatever was there before. */
  lemma ReclassifyOk(digest: string -> string, bs: seq<BoxV>, id: string, live: Option<nat>)
    requires forall i, j | 0 <= i < j < |bs| :: ClashOnlyIn(bs[i], bs[j], id)
    requires forall b | b in bs :: BoxOk(digest, b)
    requires forall b | b in bs && b.boxId == id :: b.displayName != ""
    ensures NoClash(Reclassify(bs, id, live))
    ensures Alike(bs, Reclassify(bs, id, live))
    ensures forall b | b in Reclassify(bs, id, live) :: BoxOk(digest, b)
  {
    var r := Reclassify(bs, id, live);
    forall x, y | 0 <= x < y < |r|
      ensures !Clash(r[x], r[y])
    {
      assert ClashOnlyIn(bs[x], bs[y], id);
    }
    forall b | b in r
      ensures BoxOk(digest, b)
    {
      var k :| 0 <= k < |r| && r[k] == b;
      assert bs[k] in bs;
    }
  }

  /** Any clash between the two is over which of them is Attached under `id`. */
  predicate ClashOnlyIn(a: BoxV, b: BoxV, id: string) {
    !Clash(a.(state := if a.boxId == id then Superseded else a.state),
           b.(state := if b.boxId == id then Superseded else b.state))
  }

  lemma PromoteByNameKeepsInv(digest: string -> string, s: Registry, u: nat, name: string)
    requires Inv(digest, s)
    ensures Inv(digest, PromoteByName(digest, s, u, name))
  {
    hide BoxesOk, RowOk, NoClash, Upsert, Reclassify;
    var i := First(s.boxes, ByUid(u));
    if i < |s.boxes| && name != "" && s.boxes[i].displayName != name {
      var bs := Named(digest, s.boxes, i, name);
      var id := bs[i].boxId;
      var p := OnPromoted(s.(boxes := bs), i, s.boxes[i].boxId);
      var t := AdoptActive(p, id, !Has(bs, ByNameExcept(name, u)));
      NamedKeepsRows(digest, s.boxes, s.rows, i, name);
      UpsertKeepsRows(digest, bs, s.rows, i);
      OnPromotedKeepsActive(digest, s, i, name);
      var cs := Reclassify(bs, id, CurrentBoxFor(t, id));
      PromotedBoxesOk(digest, s, i, name, CurrentBoxFor(t, id));
      AlikeKeepsRows(digest, bs, cs, t.rows);
      AlikeKeepsLookups(bs, cs, t.active, 0);
      assert id[0] == 'b';
      BoxesOkIgnoresRest(digest, s, t.(boxes := cs));
    }
  }

  lemma BoxesOkIgnoresRest(digest: string -> string, s: Registry, t: Registry)
    requires BoxesOk(digest, s.(boxes := t.boxes)) && t.nextUid == s.nextUid
    ensures BoxesOk(digest, t)
  {
  }

  lemma PromotedBoxesOk(digest: string -> string, s: Registry, i: nat, name: string, live: Option<nat>)
    requires BoxesOk(digest, s) && i < |s.boxes| && name != ""
    ensures var bs := Named(digest, s.boxes, i, name);
            var cs := Reclassify(bs, bs[i].boxId, live);
            Alike(bs, cs) && BoxesOk(digest, s.(boxes := cs))
  {
    var bs := Named(digest, s.boxes, i, name);
    var id := bs[i].boxId;
    forall x, y | 0 <= x < y < |bs|
      ensures ClashOnlyIn(bs[x], bs[y], id)
    {
      assert !Clash(s.boxes[x], s.boxes[y]);
    }
    forall b | b in bs
      ensures BoxOk(digest, b) && (b.boxId == id ==> b.displayName != "") && b.uid < s.nextUid
    {
      assert s.boxes[i] in s.boxes;
      if b.displayName == "" {
        PlaceholderIsNotPromoted(b.clientIp, b.clientWorldPort, b.serverWorldPort, digest, name);
      }
    }
    ReclassifyOk(digest, bs, id, live);
    var cs := Reclassify(bs, id, live);
    forall c | c in cs
      ensures c.uid < s.nextUid
    {
      var k :| 0 <= k < |cs| && cs[k] == c;
      assert bs[k] in bs;
    }
  }

  lemma SetActiveKeepsInv(digest: string -> string, s: Registry, id: string)
    requires Inv(digest, s)
    ensures Inv(digest, SetActive(s, id))
  {
    if Has(s.boxes, ByBoxId(id)) {
      var b := s.boxes[First(s.boxes, ByBoxId(id))];
      assert BoxOk(digest, b);
      assert b.boxId[0] in {'p', 'b'};
    }
  }

  lemma AnnounceKeepsInv(digest: string -> string, s: Registry, u: nat, port: Port, now: int)
    requires Inv(digest, s)
    ensures Inv(digest, Announce(s, u, port, now))
  {
    var i := First(s.boxes, ByUid(u));
    if i < |s.boxes| {
      ReplaceKeepsInv(digest, s, i, s.boxes[i].(
        expectedZonePort := port, zoneClientPort := 0, zoneServerPort := 0, zoneAwait := now));
    }
  }
}
