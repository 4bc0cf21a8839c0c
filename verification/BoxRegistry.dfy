/** The registry as the program keeps it: Box objects updated in place, looked up by loops over the
    box list. Every method is proved to do to the objects what `RegistryModel` does to values. */
module BoxRegistries {
  import opened Options
  import opened Identity
  import opened RegistryModel

  class Box {
    ghost const uid: nat
    const clientIp: Ip
    const clientWorldPort: Port
    const serverWorldPort: Port
    const firstSeen: int
    const isPrimary: bool
    var serverWorldIp: Ip
    var lastSeen: int
    var packetCount: nat
    var expectedZoneIp: Ip
    var expectedZonePort: Port
    var zoneClientPort: Port
    var zoneServerPort: Port
    var zoneAwait: int
    var boxId: string
    var displayName: string
    var state: SessionState

    ghost function View(): BoxV
      reads this
    {
      BoxV(uid, clientIp, clientWorldPort, serverWorldPort, serverWorldIp, firstSeen, lastSeen, packetCount,
           isPrimary, expectedZoneIp, expectedZonePort, zoneClientPort, zoneServerPort, zoneAwait,
           boxId, displayName, state)
    }

    constructor (ghost uid: nat, ip: Ip, serverIp: Ip, cp: Port, sp: Port, now: int, primary: bool)
      ensures View() == BoxV(uid, ip, cp, sp, serverIp, now, now, 1, primary, 0, 0, 0, 0, 0,
                             PlaceholderId(ip, cp, sp), "", Pending)
    {
      this.uid := uid;
      clientIp, clientWorldPort, serverWorldPort, serverWorldIp := ip, cp, sp, serverIp;
      firstSeen, lastSeen, packetCount, isPrimary := now, now, 1, primary;
      expectedZoneIp, expectedZonePort, zoneClientPort, zoneServerPort, zoneAwait := 0, 0, 0, 0, 0;
      boxId, displayName, state := PlaceholderId(ip, cp, sp), "", Pending;
    }
  }

  datatype Character = Character(name: string, id: string, session: Box)

  ghost function ViewsOf(bs: seq<Box>): (r: seq<BoxV>)
    reads bs
    ensures |r| == |bs| && forall i | 0 <= i < |bs| :: r[i] == bs[i].View()
  {
    seq(|bs|, i requires 0 <= i < |bs| reads bs => bs[i].View())
  }

  ghost function RowsOf(cs: seq<Character>): (r: seq<Row>)
    ensures |r| == |cs|
    ensures forall i | 0 <= i < |cs| :: r[i] == Row(cs[i].name, cs[i].id, cs[i].session.uid)
  {
    seq(|cs|, i requires 0 <= i < |cs| => Row(cs[i].name, cs[i].id, cs[i].session.uid))
  }

  class BoxRegistry {
    const digest: string -> string
    var boxes: seq<Box>
    var characters: seq<Character>
    var activeCharacterId: string
    ghost var nextUid: nat

    ghost predicate Valid()
      reads this
    {
      && (forall i, j | 0 <= i < j < |boxes| :: boxes[i] != boxes[j] && boxes[i].uid != boxes[j].uid)
      && (forall b | b in boxes :: b.uid < nextUid)
      && (forall c | c in characters :: c.session in boxes)
    }

    ghost function Views(): seq<BoxV>
      reads this, boxes
    {
      ViewsOf(boxes)
    }

    ghost function Abs(): Registry
      reads this, boxes
    {
      Registry(Views(), RowsOf(characters), activeCharacterId, nextUid)
    }

    constructor (digest: string -> string)
      ensures Valid() && Abs() == Registry([], [], "", 0) && this.digest == digest
    {
      this.digest := digest;
      boxes, characters, activeCharacterId, nextUid := [], [], "", 0;
    }

    /** The pointer a lookup hands out for index `i`. */
    ghost function At(i: nat): Box?
      reads this
    {
      if i < |boxes| then boxes[i] else null
    }

    // ---- Lookups ----------------------------------------------------------------------------

    method FindById(id: string) returns (r: Box?)
      ensures r == At(First(Views(), ByBoxId(id)))
    {
      for i := 0 to |boxes|
        invariant forall j | 0 <= j < i :: boxes[j].boxId != id
      {
        if boxes[i].boxId == id {
          FirstIs(Views(), ByBoxId(id), i);
          return boxes[i];
        }
      }
      FirstIs(Views(), ByBoxId(id), |boxes|);
      return null;
    }

    method LookupByWorld(ip: Ip, cp: Port, sp: Port) returns (r: Box?)
      ensures r == At(First(Views(), ByWorld(ip, cp, sp)))
    {
      for i := 0 to |boxes|
        invariant forall j | 0 <= j < i :: !ByWorld(ip, cp, sp).Holds(boxes[j].View())
      {
        var b := boxes[i];
        if b.clientIp == ip && b.clientWorldPort == cp && b.serverWorldPort == sp {
          FirstIs(Views(), ByWorld(ip, cp, sp), i);
          return b;
        }
      }
      FirstIs(Views(), ByWorld(ip, cp, sp), |boxes|);
      return null;
    }

    method LookupByName(name: string, exclude: Box) returns (r: Box?)
      requires Valid() && exclude in boxes
      ensures r == if name == "" then null else At(First(Views(), ByNameExcept(name, exclude.uid)))
    {
      if name == "" {
        return null;
      }
      ghost var k := ByNameExcept(name, exclude.uid);
      for i := 0 to |boxes|
        invariant forall j | 0 <= j < i :: !k.Holds(boxes[j].View())
      {
        if boxes[i] != exclude && boxes[i].displayName == name {
          FirstIs(Views(), k, i);
          return boxes[i];
        }
      }
      FirstIs(Views(), k, |boxes|);
      return null;
    }

    method LookupBoundZone(ip: Ip, cp: Port, sp: Port) returns (r: Box?)
      ensures r == At(First(Views(), ByZone(ip, cp, sp)))
    {
      for i := 0 to |boxes|
        invariant forall j | 0 <= j < i :: !ByZone(ip, cp, sp).Holds(boxes[j].View())
      {
        var b := boxes[i];
        if b.clientIp == ip && b.zoneClientPort == cp && b.zoneServerPort == sp {
          FirstIs(Views(), ByZone(ip, cp, sp), i);
          return b;
        }
      }
      FirstIs(Views(), ByZone(ip, cp, sp), |boxes|);
      return null;
    }

    method HasClient(ip: Ip) returns (found: bool)
      ensures found <==> Has(Views(), ByClient(ip))
    {
      for i := 0 to |boxes|
        invariant forall j | 0 <= j < i :: boxes[j].clientIp != ip
      {
        if boxes[i].clientIp == ip {
          FirstIs(Views(), ByClient(ip), i);
          return true;
        }
      }
      FirstIs(Views(), ByClient(ip), |boxes|);
      return false;
    }

    ghost function Chosen(i: Option<nat>): Box?
      reads this
    {
      if i.Some? then At(i.value) else null
    }

    /** The running best pointer agrees with the best of the prefix looked at. */
    lemma BestStep(i: nat, w: Want)
      requires i < |boxes|
      ensures var r := Best(Views()[..i], w);
              Best(Views()[..i + 1], w) ==
                if w.Fits(boxes[i].View()) && (r.None? || w.Score(boxes[i].View()) > w.Score(Views()[r.value]))
                then Some(i) else r
    {
      assert Views()[..i + 1][..i] == Views()[..i];
    }

    method LookupByExpectedZone(ip: Ip, serverIp: Ip, port: Port) returns (best: Box?)
      ensures best == Chosen(Best(Views(), Expected(ip, serverIp, port)))
    {
      ghost var w := Expected(ip, serverIp, port);
      best := null;
      for i := 0 to |boxes|
        invariant best == Chosen(Best(Views()[..i], w))
      {
        BestStep(i, w);
        var b := boxes[i];
        if b.clientIp != ip || b.zoneClientPort != 0 { continue; }
        if b.expectedZoneIp != 0 && b.expectedZoneIp != serverIp { continue; }
        if b.expectedZonePort != port { continue; }
        if best == null || b.zoneAwait > best.zoneAwait {
          best := b;
        }
      }
      assert Views()[..|boxes|] == Views();
    }

    method LookupByRecentWorld(ip: Ip, serverIp: Ip, now: int, window: int) returns (best: Box?)
      ensures best == Chosen(Best(Views(), Recent(ip, serverIp, now, window)))
    {
      ghost var w := Recent(ip, serverIp, now, window);
      best := null;
      for i := 0 to |boxes|
        invariant best == Chosen(Best(Views()[..i], w))
      {
        BestStep(i, w);
        var b := boxes[i];
        if b.clientIp != ip || b.zoneClientPort != 0 || b.clientWorldPort == 0 { continue; }
        if b.serverWorldIp == 0 || b.serverWorldIp / 256 != serverIp / 256 { continue; }
        if now - b.lastSeen > window { continue; }
        if best == null || b.lastSeen > best.lastSeen {
          best := b;
        }
      }
      assert Views()[..|boxes|] == Views();
    }

    ghost function UidOf(b: Box?): Option<nat> {
      if b == null then None else Some(b.uid)
    }

    method CurrentBoxFor(id: string) returns (r: Box?)
      requires Valid()
      ensures UidOf(r) == RegistryModel.CurrentBoxFor(Abs(), id)
      ensures r != null ==> r in boxes
    {
      for i := 0 to |characters|
        invariant forall j | 0 <= j < i :: characters[j].id != id
      {
        if characters[i].id == id {
          return characters[i].session;
        }
      }
      r := FindById(id);
    }

    // ---- Observation --------------------------------------------------------------------------

    /** Replacing the contents of one registered object replaces one view. */
    lemma OneViewChanged(was: seq<BoxV>, i: nat)
      requires |was| == |boxes| && i < |boxes|
      requires forall j | 0 <= j < |boxes| && j != i :: boxes[j].View() == was[j]
      ensures Views() == was[i := boxes[i].View()]
    {
    }

    method Admit(ip: Ip, serverIp: Ip, cp: Port, sp: Port, now: int) returns (r: Box)
      requires Valid()
      modifies this`boxes, this`nextUid, this`activeCharacterId
      ensures Valid() && fresh(r) && boxes == old(boxes) + [r]
      ensures Abs() == RegistryModel.Admit(old(Abs()), NewBox(old(Abs()), ip, serverIp, cp, sp, now))
    {
      hide PlaceholderId, ViewsOf, RowsOf;
      r := new Box(nextUid, ip, serverIp, cp, sp, now, boxes == []);
      assert r.uid == r.View().uid == nextUid;
      boxes := boxes + [r];
      nextUid := nextUid + 1;
      if activeCharacterId == "" {
        activeCharacterId := r.boxId;
      }
      assert Views() == old(Views()) + [r.View()];
    }

    method SeeAgain(box: Box, ghost i: nat, serverIp: Ip, now: int)
      requires Valid() && i < |boxes| && boxes[i] == box
      modifies box
      ensures Valid() && Abs() == RegistryModel.SeeAgain(old(Abs()), i, serverIp, now)
    {
      hide ViewsOf, RowsOf;
      ghost var was := Views();
      box.lastSeen := now;
      box.serverWorldIp := serverIp;
      box.packetCount := box.packetCount + 1;
      OneViewChanged(was, i);
    }

    method Observe(ip: Ip, serverIp: Ip, cp: Port, sp: Port, now: int) returns (r: Box)
      requires Valid()
      modifies this`boxes, this`nextUid, this`activeCharacterId, boxes
      ensures Valid() && r in boxes && forall b | b in boxes :: b in old(boxes) || fresh(b)
      ensures Abs() == RegistryModel.Observe(old(Abs()), ip, serverIp, cp, sp, now)
    {
      hide First, RowsOf, ViewsOf, NewBox, BoxRegistry.Valid, RegistryModel.SeeAgain, RegistryModel.Admit;
      ghost var s, i := Abs(), First(Views(), ByWorld(ip, cp, sp));
      var hit := LookupByWorld(ip, cp, sp);
      assert Abs() == s;
      if hit != null {
        SeeAgain(hit, i, serverIp, now);
        r := hit;
      } else {
        r := Admit(ip, serverIp, cp, sp, now);
      }
    }

    // ---- Promotion ----------------------------------------------------------------------------

    lemma FirstOfUid(b: Box)
      requires Valid() && b in boxes
      ensures var i := First(Views(), ByUid(b.uid)); i < |boxes| && boxes[i] == b
    {
      var i :| 0 <= i < |boxes| && boxes[i] == b;
      FirstIs(Views(), ByUid(b.uid), i);
    }

    /** The row an upsert writes over `c`. */
    lemma NewerSession(c: Character, session: Box)
      requires Valid() && c.session in boxes && session in boxes
      ensures FirstSeenOf(Views(), c.session.uid) == c.session.firstSeen
      ensures FirstSeenOf(Views(), session.uid) == session.firstSeen
    {
      FirstOfUid(session);
      FirstOfUid(c.session);
    }

    method UpsertCharacter(id: string, name: string, session: Box)
      requires Valid() && session in boxes
      modifies this`characters
      ensures Valid() && Views() == old(Views())
      ensures RowsOf(characters) == Upsert(Views(), old(RowsOf(characters)), id, name, session.uid)
    {
      hide FirstRow, ViewsOf, RowsOf, FirstSeenOf;
      for i := 0 to |characters|
        invariant characters == old(characters)
        invariant forall j | 0 <= j < i :: characters[j].id != id
      {
        var c := characters[i];
        if c.id == id {
          NewerSession(c, session);
          FirstRowIs(RowsOf(characters), id, i);
          characters := characters[i := Character(name, id,
            if session.firstSeen >= c.session.firstSeen then session else c.session)];
          assert RowsOf(characters) == Upsert(Views(), old(RowsOf(characters)), id, name, session.uid);
          return;
        }
      }
      characters := characters + [Character(name, id, session)];
      assert RowsOf(characters) == Upsert(Views(), old(RowsOf(characters)), id, name, session.uid);
    }

    method OnPromoted(box: Box, oldId: string)
      requires Valid() && box in boxes
      modifies this`characters, this`activeCharacterId
      ensures Valid() && Views() == old(Views())
      ensures Abs() == RegistryModel.OnPromoted(old(Abs()), First(Views(), ByUid(box.uid)), oldId)
    {
      hide First, Upsert, ViewsOf, RowsOf;
      FirstOfUid(box);
      if activeCharacterId == oldId {
        activeCharacterId := box.boxId;
      }
      UpsertCharacter(box.boxId, box.displayName, box);
    }

    method Rename(box: Box, name: string)
      requires Valid() && box in boxes
      modifies box
      ensures Valid() && box.boxId == PromotedId(digest, name) && box.displayName == name
      ensures First(Views(), ByUid(box.uid)) == First(old(Views()), ByUid(box.uid)) < |boxes|
      ensures boxes[First(Views(), ByUid(box.uid))] == box
      ensures Views() == Named(digest, old(Views()), First(old(Views()), ByUid(box.uid)), name)
    {
      hide First, ViewsOf, PromotedId;
      FirstOfUid(box);
      ghost var was, i := Views(), First(Views(), ByUid(box.uid));
      box.displayName := name;
      box.boxId := PromotedId(digest, name);
      OneViewChanged(was, i);
      FirstOfUid(box);
    }

    /** NamePromoter's handler for OP_EnterWorld, for the name it read. */
    method NameDecoded(box: Box, name: string)
      requires Valid() && box in boxes
      modifies this`characters, this`activeCharacterId, box
      ensures Valid()
      ensures Abs() == RegistryModel.NameDecoded(digest, old(Abs()), box.uid, name)
    {
      hide First, Upsert, PromotedId;
      FirstOfUid(box);
      if box.displayName != "" || name == "" {
        return;
      }
      var oldId := box.boxId;
      Rename(box, name);
      OnPromoted(box, oldId);
    }

    method SetState(b: Box, id: string, live: Box?)
      requires Valid() && b in boxes && (live != null ==> live in boxes)
      modifies b
      ensures Valid() && b.View() == Restated(old(b.View()), id, UidOf(live))
    {
      if b.boxId == id {
        b.state := if b == live then Attached else Superseded;
      }
    }

    method SetStates(id: string, live: Box?)
      requires Valid() && (live != null ==> live in boxes)
      modifies boxes
      ensures Valid() && Views() == Reclassify(old(Views()), id, UidOf(live))
    {
      hide Reclassify, ViewsOf, Restated, Box.View;
      ghost var was := Views();
      for i := 0 to |boxes|
        invariant Valid()
        invariant forall j | i <= j < |boxes| :: boxes[j].View() == was[j]
        invariant forall j | 0 <= j < i :: boxes[j].View() == Restated(was[j], id, UidOf(live))
      {
        SetState(boxes[i], id, live);
      }
    }

    /** If the active id resolves to a box that never got a name, or to none, a new character takes over. */
    method AdoptActive(box: Box, isNew: bool)
      requires Valid() && box in boxes
      modifies this`activeCharacterId
      ensures Valid() && Views() == old(Views())
      ensures Abs() == RegistryModel.AdoptActive(old(Abs()), box.boxId, isNew)
    {
      hide First, ViewsOf, RowsOf;
      if isNew {
        var active := FindById(activeCharacterId);
        if active == null || active.displayName == "" {
          activeCharacterId := box.boxId;
        }
      }
    }

    method Settle(box: Box, oldId: string, isNew: bool)
      requires Valid() && box in boxes
      modifies this`characters, this`activeCharacterId, boxes
      ensures Valid()
      ensures Abs() == RegistryModel.Settle(old(Abs()), First(old(Views()), ByUid(box.uid)), oldId, isNew)
    {
      hide First, ViewsOf, RowsOf, Reclassify, BoxRegistry.Valid;
      hide RegistryModel.OnPromoted, RegistryModel.CurrentBoxFor;
      FirstOfUid(box);
      OnPromoted(box, oldId);
      AdoptActive(box, isNew);
      ghost var t := Abs();
      var live := CurrentBoxFor(box.boxId);
      assert Abs() == t;
      ghost var id := box.boxId;
      SetStates(box.boxId, live);
      assert Abs() == t.(boxes := Reclassify(t.boxes, id, RegistryModel.CurrentBoxFor(t, id)));
    }

    method PromoteByName(box: Box?, name: string) returns (prior: Box?)
      requires Valid() && (box != null ==> box in boxes)
      modifies this`characters, this`activeCharacterId, boxes
      ensures Valid()
      ensures Abs() == if box == null then old(Abs())
                       else RegistryModel.PromoteByName(digest, old(Abs()), box.uid, name)
      ensures UidOf(prior) == if box == null || name == "" || old(box.displayName) == name then None
                              else FirstUid(old(Views()), ByNameExcept(name, box.uid))
    {
      hide First, ViewsOf, RowsOf, PromotedId, BoxRegistry.Valid, RegistryModel.Settle;
      if box == null {
        return null;
      }
      FirstOfUid(box);
      if name == "" || box.displayName == name {
        return null;
      }
      var oldId := box.boxId;
      ghost var s, i := Abs(), First(Views(), ByUid(box.uid));
      Rename(box, name);
      prior := LookupByName(name, box);
      assert Abs() == s.(boxes := Named(digest, s.boxes, i, name));
      SamePrior(s.boxes, Views(), name, box.uid);
      Settle(box, oldId, prior == null);
    }

    /** Naming box `u` does not change who else has the name. */
    lemma SamePrior(was: seq<BoxV>, now: seq<BoxV>, name: string, u: nat)
      requires var i := First(was, ByUid(u)); i < |was| && now == Named(digest, was, i, name)
      ensures First(now, ByNameExcept(name, u)) == First(was, ByNameExcept(name, u))
      ensures FirstUid(now, ByNameExcept(name, u)) == FirstUid(was, ByNameExcept(name, u))
    {
      FirstIs(now, ByNameExcept(name, u), First(was, ByNameExcept(name, u)));
    }

    method SetActiveCharacterId(id: string) returns (ok: bool)
      requires Valid()
      modifies this`activeCharacterId
      ensures Valid()
      ensures ok <==> Has(old(Views()), ByBoxId(id))
      ensures Abs() == SetActive(old(Abs()), id)
    {
      var target := FindById(id);
      if target == null {
        return false;
      }
      activeCharacterId := id;
      return true;
    }

    /** ZoneServerObserver's handler for OP_ZoneServerInfo. */
    method Announce(box: Box, port: Port, now: int)
      requires Valid() && box in boxes
      modifies box
      ensures Valid() && Abs() == RegistryModel.Announce(old(Abs()), box.uid, port, now)
    {
      hide First, ViewsOf, RowsOf;
      FirstOfUid(box);
      ghost var was, i := Views(), First(Views(), ByUid(box.uid));
      box.expectedZonePort := port;
      box.zoneClientPort := 0;
      box.zoneServerPort := 0;
      box.zoneAwait := now;
      OneViewChanged(was, i);
    }

    // ---- The idle sweep -----------------------------------------------------------------------

    /** Whether box `b` is to go, and what that does to the count. */
    method Judge(i: nat, live: Box?, cutoff: int, victims: seq<Box>) returns (r: seq<Box>)
      requires Valid() && i < |boxes| && (live != null ==> live in boxes)
      requires forall v | v in victims :: v in boxes[..i]
      requires |victims| + |Keep(boxes[..i], victims)| == i
      ensures r == victims || r == victims + [boxes[i]]
      ensures boxes[i] in r <==> Stale(boxes[i].View(), UidOf(live), cutoff)
      ensures |r| + |Keep(boxes[..i + 1], r)| == i + 1
    {
      var b := boxes[i];
      assert b !in boxes[..i];
      assert boxes[..i + 1][..i] == boxes[..i];
      if b.isPrimary || b == live || b.lastSeen >= cutoff {
        return victims;
      }
      KeepIgnores(boxes[..i], victims, b);
      return victims + [b];
    }

    method FindVictims(live: Box?, cutoff: int) returns (victims: seq<Box>)
      requires Valid() && (live != null ==> live in boxes)
      ensures AreVictims(victims, UidOf(live), cutoff)
      ensures |victims| + |Keep(boxes, victims)| == |boxes|
    {
      hide Keep, Stale;
      KeepAll(boxes[..0]);
      victims := [];
      for i := 0 to |boxes|
        invariant forall j | 0 <= j < i :: boxes[j] in victims <==> Stale(boxes[j].View(), UidOf(live), cutoff)
        invariant forall v | v in victims :: v in boxes[..i]
        invariant |victims| + |Keep(boxes[..i], victims)| == i
      {
        victims := Judge(i, live, cutoff, victims);
      }
      assert boxes[..|boxes|] == boxes;
    }

    method MarkReaped(victims: seq<Box>)
      requires forall v | v in victims :: v in boxes
      modifies boxes
      ensures forall v | v in victims :: v.state == Reaped
      ensures forall b | b in boxes && b !in victims :: b.View() == old(b.View())
    {
      for i := 0 to |victims|
        invariant forall j | 0 <= j < i :: victims[j].state == Reaped
        invariant forall b | b in boxes && b !in victims :: b.View() == old(b.View())
      {
        assert victims[i] in victims;
        victims[i].state := Reaped;
      }
    }

    /** Free the victims, one erase each. */
    method Erase(victims: seq<Box>)
      modifies this`boxes
      ensures boxes == Keep(old(boxes), victims)
    {
      KeepAll(boxes);
      for i := 0 to |victims|
        invariant boxes == Keep(old(boxes), victims[..i])
      {
        KeepOneMore(old(boxes), victims[..i], victims[i]);
        assert victims[..i + 1] == victims[..i] + [victims[i]];
        boxes := Keep(boxes, [victims[i]]);
      }
      assert victims[..|victims|] == victims;
    }

    /** A character's session is among the victims exactly when its box is stale. */
    lemma SessionsGone(victims: seq<Box>, live: Option<nat>, cutoff: int)
      requires Valid() && AreVictims(victims, live, cutoff)
      ensures forall c | c in characters ::
        c.session in victims <==> IsVictim(Views(), live, cutoff, c.session.uid)
    {
      forall c | c in characters
        ensures c.session in victims <==> IsVictim(Views(), live, cutoff, c.session.uid)
      {
        var i :| 0 <= i < |boxes| && boxes[i] == c.session;
        assert Views()[i] in Views();
      }
    }

    lemma KeepValid(was: seq<Box>, held: seq<Character>, victims: seq<Box>)
      requires forall i, j | 0 <= i < j < |was| :: was[i] != was[j] && was[i].uid != was[j].uid
      requires forall b | b in was :: b.uid < nextUid
      requires forall c | c in held :: c.session in was
      requires boxes == Keep(was, victims) && characters == KeepCharacters(held, victims)
      ensures Valid()
    {
      KeepDistinct(was, victims);
      forall b
        ensures b in boxes <==> b in was && b !in victims
      {
        KeepIff(was, victims, b);
      }
      forall c | c in characters
        ensures c.session in boxes
      {
        KeepCharacterIff(held, victims, c);
      }
    }

    ghost predicate AreVictims(victims: seq<Box>, live: Option<nat>, cutoff: int)
      reads this, boxes
    {
      && (forall i | 0 <= i < |boxes| :: boxes[i] in victims <==> Stale(Views()[i], live, cutoff))
      && (forall v | v in victims :: v in boxes)
    }

    method Reap(victims: seq<Box>, ghost live: Option<nat>, ghost cutoff: int)
      requires Valid() && AreVictims(victims, live, cutoff)
      modifies this`boxes, this`characters, boxes
      ensures Valid() && boxes == Keep(old(boxes), victims)
      ensures Views() == Survivors(old(Views()), live, cutoff)
      ensures RowsOf(characters) == KeptRows(old(RowsOf(characters)), old(Views()), live, cutoff)
      ensures forall b | b in old(boxes) && b !in boxes :: b.state == Reaped
    {
      hide ViewsOf, RowsOf, Keep, KeepCharacters, Survivors, KeptRows, IsVictim;
      SessionsGone(victims, live, cutoff);
      ghost var was, views, held := boxes, Views(), characters;
      MarkReaped(victims);
      Erase(victims);
      characters := KeepCharacters(characters, victims);
      KeepValid(was, held, victims);
      KeepViews(was, views, victims, live, cutoff);
      KeepRows(held, views, victims, live, cutoff);
      forall b | b in was && b !in boxes
        ensures b.state == Reaped
      {
        KeepIff(was, victims, b);
      }
    }

    lemma NoVictims(live: Option<nat>, cutoff: int)
      requires Valid() && AreVictims([], live, cutoff)
      ensures Views() == Survivors(Views(), live, cutoff)
      ensures RowsOf(characters) == KeptRows(RowsOf(characters), Views(), live, cutoff)
    {
      hide IsVictim, Survivors, KeptRows;
      SessionsGone([], live, cutoff);
      KeepAll(boxes);
      KeepViews(boxes, Views(), [], live, cutoff);
      KeepRows(characters, Views(), [], live, cutoff);
      KeepAllCharacters(characters);
    }

    method EvictStale(now: int, ttl: int) returns (removed: int)
      requires Valid()
      modifies this`boxes, this`characters, boxes
      ensures Valid()
      ensures Abs() == Evict(old(Abs()), now, ttl)
      ensures removed == |old(boxes)| - |boxes|
      ensures forall b | b in old(boxes) && b !in boxes :: b.state == Reaped
    {
      hide ViewsOf, RowsOf, Keep, Survivors, KeptRows, BoxRegistry.Valid, RegistryModel.CurrentBoxFor;
      if ttl <= 0 {
        return 0;
      }
      var live := CurrentBoxFor(activeCharacterId);
      var victims := FindVictims(live, now - ttl);
      assert Abs() == old(Abs());
      if victims == [] {
        NoVictims(UidOf(live), now - ttl);
        return 0;
      }
      Reap(victims, UidOf(live), now - ttl);
      return |victims|;
    }
  }

  /** What erasing everything in `victims` leaves. */
  function Keep(bs: seq<Box>, victims: seq<Box>): seq<Box> {
    if bs == [] then []
    else
      var n := |bs| - 1;
      Keep(bs[..n], victims) + if bs[n] in victims then [] else [bs[n]]
  }

  function KeepCharacters(cs: seq<Character>, victims: seq<Box>): seq<Character> {
    if cs == [] then []
    else
      var n := |cs| - 1;
      KeepCharacters(cs[..n], victims) + if cs[n].session in victims then [] else [cs[n]]
  }

  lemma {:induction false} KeepAll(bs: seq<Box>)
    ensures Keep(bs, []) == bs
  {
    if bs != [] {
      KeepAll(bs[..|bs| - 1]);
    }
  }

  lemma {:induction false} KeepIgnores(bs: seq<Box>, victims: seq<Box>, v: Box)
    requires v !in bs
    ensures Keep(bs, victims + [v]) == Keep(bs, victims)
  {
    if bs != [] {
      KeepIgnores(bs[..|bs| - 1], victims, v);
    }
  }

  lemma {:induction false} KeepIff(bs: seq<Box>, victims: seq<Box>, b: Box)
    ensures b in Keep(bs, victims) <==> b in bs && b !in victims
  {
    if bs != [] {
      var n := |bs| - 1;
      KeepIff(bs[..n], victims, b);
      assert bs == bs[..n] + [bs[n]];
    }
  }

  lemma {:induction false} KeepCharacterIff(cs: seq<Character>, victims: seq<Box>, c: Character)
    ensures c in KeepCharacters(cs, victims) <==> c in cs && c.session !in victims
  {
    if cs != [] {
      var n := |cs| - 1;
      KeepCharacterIff(cs[..n], victims, c);
      assert cs == cs[..n] + [cs[n]];
    }
  }

  lemma {:induction false} KeepDistinct(bs: seq<Box>, victims: seq<Box>)
    requires forall i, j | 0 <= i < j < |bs| :: bs[i] != bs[j] && bs[i].uid != bs[j].uid
    ensures var k := Keep(bs, victims); forall i, j | 0 <= i < j < |k| :: k[i] != k[j] && k[i].uid != k[j].uid
  {
    if bs != [] {
      var n := |bs| - 1;
      KeepDistinct(bs[..n], victims);
      var k := Keep(bs[..n], victims);
      forall i | 0 <= i < |k|
        ensures k[i] in bs[..n]
      {
        KeepIff(bs[..n], victims, k[i]);
      }
    }
  }

  lemma {:induction false} KeepOneMore(bs: seq<Box>, victims: seq<Box>, v: Box)
    ensures Keep(Keep(bs, victims), [v]) == Keep(bs, victims + [v])
  {
    if bs != [] {
      var n := |bs| - 1;
      KeepOneMore(bs[..n], victims, v);
      var k := Keep(bs[..n], victims);
      if bs[n] !in victims {
        assert (k + [bs[n]])[..|k|] == k;
        assert Keep(k + [bs[n]], [v]) == Keep(k, [v]) + if bs[n] in [v] then [] else [bs[n]];
      } else {
        assert Keep(bs, victims) == k;
      }
    }
  }

  /** On the views, erasing the victims is the model's sweep. */
  lemma {:induction false} KeepViews(
    bs: seq<Box>, views: seq<BoxV>, victims: seq<Box>, live: Option<nat>, cutoff: int)
    requires |bs| == |views|
    requires forall i | 0 <= i < |bs| :: bs[i] in victims <==> Stale(views[i], live, cutoff)
    requires forall i | 0 <= i < |bs| && bs[i] !in victims :: bs[i].View() == views[i]
    ensures ViewsOf(Keep(bs, victims)) == Survivors(views, live, cutoff)
  {
    if bs != [] {
      var n := |bs| - 1;
      KeepViews(bs[..n], views[..n], victims, live, cutoff);
    }
  }

  lemma {:induction false} KeepRows(
    cs: seq<Character>, views: seq<BoxV>, victims: seq<Box>, live: Option<nat>, cutoff: int)
    requires forall i | 0 <= i < |cs| :: cs[i].session in victims <==> IsVictim(views, live, cutoff, cs[i].session.uid)
    ensures RowsOf(KeepCharacters(cs, victims)) == KeptRows(RowsOf(cs), views, live, cutoff)
  {
    hide IsVictim, RowsOf;
    if cs != [] {
      var n := |cs| - 1;
      KeepRows(cs[..n], views, victims, live, cutoff);
      var k := KeepCharacters(cs[..n], victims);
      assert RowsOf(cs)[..n] == RowsOf(cs[..n]);
      assert RowsOf(k + [cs[n]]) == RowsOf(k) + [RowsOf(cs)[n]];
    }
  }

  lemma {:induction false} KeepAllCharacters(cs: seq<Character>)
    ensures KeepCharacters(cs, []) == cs
  {
    if cs != [] {
      KeepAllCharacters(cs[..|cs| - 1]);
    }
  }
}
