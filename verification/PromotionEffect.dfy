/** What a promotion and a switch of the active character do, said on the fields of the boxes and rows. */
module PromotionEffect {
  import opened Options
  import opened Identity
  import opened RegistryModel
  import opened RegistryInvariant

  // ---- What a promotion leaves -----------------------------------------------------------------

  /** Box `i` has the new name and id; nothing but names, ids and states differs, and the last under that id only. */
  ghost predicate Renamed(bs: seq<BoxV>, i: nat, name: string, id: string, cs: seq<BoxV>) {
    && i < |bs| == |cs|
    && cs[i].displayName == name && cs[i].boxId == id
    && (forall j | 0 <= j < |bs| && j != i :: cs[j].displayName == bs[j].displayName && cs[j].boxId == bs[j].boxId)
    && (forall j | 0 <= j < |bs| && cs[j].boxId != id :: cs[j].state == bs[j].state)
    && (forall j | 0 <= j < |bs| ::
          cs[j] == bs[j].(displayName := cs[j].displayName, boxId := cs[j].boxId, state := cs[j].state))
  }

  predicate RowFor(rows: seq<Row>, id: string) {
    exists r | r in rows :: r.id == id
  }

  /** The character's row points to box `i`, unless it pointed to one that was first seen later; the other rows
      stay as they are, and a new one goes behind them. */
  ghost predicate RowsFollow(bs: seq<BoxV>, rows: seq<Row>, i: nat, name: string, id: string, after: seq<Row>)
    requires i < |bs|
  {
    if !RowFor(rows, id) then after == rows + [Row(name, id, bs[i].uid)]
    else
      && |after| == |rows|
      && (forall k | 0 <= k < |rows| && rows[k].id != id :: after[k] == rows[k])
      && forall k, j | 0 <= k < |rows| && rows[k].id == id && 0 <= j < |bs| && bs[j].uid == rows[k].session ::
           after[k] == Row(name, id, if bs[i].firstSeen >= bs[j].firstSeen then bs[i].uid else rows[k].session)
  }

  /** Of the boxes with this id the one that the row points to is Attached, every other Superseded. */
  ghost predicate OneLive(bs: seq<BoxV>, rows: seq<Row>, id: string) {
    exists r | r in rows :: r.id == id && forall b | b in bs && b.boxId == id ::
      b.state == if b.uid == r.session then Attached else Superseded
  }

  /** The active id when box `i` goes from one id to another. */
  function Followed(active: string, from: string, to: string): string {
    if active == from then to else active
  }

  lemma FirstRowOf(rows: seq<Row>, id: string)
    requires IdsDistinct(rows)
    ensures FirstRow(rows, id) < |rows| <==> RowFor(rows, id)
    ensures forall k | 0 <= k < |rows| && rows[k].id == id :: FirstRow(rows, id) == k
  {
    forall k | 0 <= k < |rows| && rows[k].id == id
      ensures FirstRow(rows, id) == k
    {
      FirstRowIs(rows, id, k);
      assert rows[k] in rows;
    }
  }

  lemma UpsertFollows(
    digest: string -> string, bs: seq<BoxV>, cs: seq<BoxV>, rows: seq<Row>, i: nat, name: string, id: string)
    requires NoClash(bs) && RowsOk(digest, bs, rows)
    requires i < |bs| == |cs| && forall j | 0 <= j < |bs| :: SameBox(bs[j], cs[j])
    ensures RowsFollow(bs, rows, i, name, id, Upsert(cs, rows, id, name, bs[i].uid))
  {
    FirstRowOf(rows, id);
    forall j | 0 <= j < |bs|
      ensures FirstSeenOf(cs, bs[j].uid) == bs[j].firstSeen
    {
      UidIsKey(bs, j);
      FirstIs(cs, ByUid(bs[j].uid), j);
    }
  }

  /** Nothing happens without a box, without a name or if the box has the name already. */
  lemma PromotionIgnored(digest: string -> string, s: Registry, u: nat, name: string)
    requires name == "" || forall b | b in s.boxes && b.uid == u :: b.displayName == name
    ensures PromoteByName(digest, s, u, name) == s
  {
    var i := First(s.boxes, ByUid(u));
    if i < |s.boxes| {
      assert s.boxes[i] in s.boxes;
    }
  }

  /** A character nobody else is known by takes over as the active one unless a box with a name is active. */
  ghost predicate ActiveAfter(bs: seq<BoxV>, i: nat, name: string, id: string, followed: string, active: string) {
    active == if (forall j | 0 <= j < |bs| && j != i :: bs[j].displayName != name)
                 && (forall b | b in bs && b.boxId == followed :: b.displayName == "")
              then id else followed
  }

  lemma AdoptSets(digest: string -> string, s: Registry, i: nat, id: string)
    requires i < |s.boxes| && forall b | b in s.boxes :: BoxOk(digest, b)
    requires forall j | 0 <= j < |s.boxes| && s.boxes[j].uid == s.boxes[i].uid :: j == i
    ensures var name := s.boxes[i].displayName;
      var t := AdoptActive(s, id, !Has(s.boxes, ByNameExcept(name, s.boxes[i].uid)));
      ActiveAfter(s.boxes, i, name, id, s.active, t.active) && t == s.(active := t.active)
  {
    hide PlaceholderId;
    var k := ByNameExcept(s.boxes[i].displayName, s.boxes[i].uid);
    HasIff(s.boxes, k);
    var a := First(s.boxes, ByBoxId(s.active));
    forall b | b in s.boxes && b.boxId == s.active
      ensures a < |s.boxes| && (b.displayName == "" <==> s.boxes[a].displayName == "")
    {
      HasIff(s.boxes, ByBoxId(s.active));
      SameIdBothNamed(digest, b, s.boxes[a]);
    }
  }

  lemma SameIdBothNamed(digest: string -> string, a: BoxV, b: BoxV)
    requires BoxOk(digest, a) && BoxOk(digest, b) && a.boxId == b.boxId
    ensures a.displayName == "" <==> b.displayName == ""
  {
    if a.displayName == "" && b.displayName != "" {
      PlaceholderIsNotPromoted(a.clientIp, a.clientWorldPort, a.serverWorldPort, digest, b.displayName);
    } else if a.displayName != "" && b.displayName == "" {
      PlaceholderIsNotPromoted(b.clientIp, b.clientWorldPort, b.serverWorldPort, digest, a.displayName);
    }
  }

  /** The parts of a promotion, one after the other. */
  lemma PromotionUnfolds(digest: string -> string, s: Registry, i: nat, name: string)
    requires NoClash(s.boxes) && i < |s.boxes| && name != "" && s.boxes[i].displayName != name
    ensures var bs := Named(digest, s.boxes, i, name);
      var id, u := bs[i].boxId, s.boxes[i].uid;
      var p := s.(boxes := bs, active := Followed(s.active, s.boxes[i].boxId, id),
                  rows := Upsert(bs, s.rows, id, name, u));
      var q := AdoptActive(p, id, !Has(bs, ByNameExcept(name, u)));
      PromoteByName(digest, s, u, name) == q.(boxes := Reclassify(bs, id, CurrentBoxFor(q, id)))
  {
    hide NoClash, Upsert, Reclassify, CurrentBoxFor;
    UidIsKey(s.boxes, i);
  }

  lemma NamedBoxes(digest: string -> string, s: Registry, i: nat, name: string)
    requires BoxesOk(digest, s) && i < |s.boxes| && name != ""
    ensures var bs := Named(digest, s.boxes, i, name);
      && (forall b | b in bs :: BoxOk(digest, b))
      && (forall j | 0 <= j < |bs| && bs[j].uid == bs[i].uid :: j == i)
  {
    var bs := Named(digest, s.boxes, i, name);
    forall b | b in bs
      ensures BoxOk(digest, b)
    {
      assert s.boxes[i] in s.boxes;
    }
    forall j | 0 <= j < |bs| && bs[j].uid == bs[i].uid
      ensures j == i
    {
      UidIsKey(s.boxes, i);
      UidIsKey(s.boxes, j);
    }
  }

  /** The active id depends on the names and ids of the boxes alone. */
  lemma ActiveSeesNames(
    bs: seq<BoxV>, cs: seq<BoxV>, i: nat, name: string, id: string, followed: string, active: string)
    requires ActiveAfter(bs, i, name, id, followed, active)
    requires |bs| == |cs| && forall j | 0 <= j < |bs| :: KnownAs(bs[j], cs[j])
    ensures ActiveAfter(cs, i, name, id, followed, active)
  {
    forall b | b in bs ensures exists c | c in cs :: KnownAs(b, c) {
      var j :| 0 <= j < |bs| && bs[j] == b;
      assert cs[j] in cs;
    }
    forall c | c in cs ensures exists b | b in bs :: KnownAs(b, c) {
      var j :| 0 <= j < |cs| && cs[j] == c;
      assert bs[j] in bs;
    }
  }

  lemma UpsertHasRow(bs: seq<BoxV>, rows: seq<Row>, id: string, name: string, u: nat)
    ensures FirstRow(Upsert(bs, rows, id, name, u), id) < |Upsert(bs, rows, id, name, u)|
  {
    FirstRowIs(Upsert(bs, rows, id, name, u), id, FirstRow(rows, id));
  }

  lemma RowIsCurrent(s: Registry, id: string)
    requires FirstRow(s.rows, id) < |s.rows|
    ensures CurrentBoxFor(s, id) == Some(s.rows[FirstRow(s.rows, id)].session)
  {
  }

  /** Whatever session is the live one, naming and reclassifying leave the boxes so. */
  lemma NamedThenReclassified(digest: string -> string, bs: seq<BoxV>, i: nat, name: string)
    requires i < |bs|
    ensures var cs := Named(digest, bs, i, name);
      && |cs| == |bs|
      && cs[i].boxId == "b-" + digest(name) && cs[i].displayName == name && cs[i].uid == bs[i].uid
      && (forall j | 0 <= j < |bs| :: SameBox(bs[j], cs[j]))
      && (forall live :: Renamed(bs, i, name, cs[i].boxId, Reclassify(cs, cs[i].boxId, live)))
      && (forall id, live, j | 0 <= j < |bs| :: KnownAs(cs[j], Reclassify(cs, id, live)[j]))
  {
  }

  lemma ReclassifiedLive(bs: seq<BoxV>, id: string, rows: seq<Row>, k: nat)
    requires k < |rows| && rows[k].id == id
    ensures OneLive(Reclassify(bs, id, Some(rows[k].session)), rows, id)
  {
    assert rows[k] in rows;
  }

  /** What a promotion that takes effect leaves. */
  lemma PromotionDoes(digest: string -> string, s: Registry, i: nat, name: string)
    requires Inv(digest, s) && i < |s.boxes| && name != "" && s.boxes[i].displayName != name
    ensures var t, id := PromoteByName(digest, s, s.boxes[i].uid, name), "b-" + digest(name);
      && Renamed(s.boxes, i, name, id, t.boxes)
      && RowsFollow(s.boxes, s.rows, i, name, id, t.rows)
      && OneLive(t.boxes, t.rows, id)
      && ActiveAfter(t.boxes, i, name, id, Followed(s.active, s.boxes[i].boxId, id), t.active)
      && t.nextUid == s.nextUid
  {
    hide Inv, NoClash, BoxesOk, RowsOk, ActiveOk, BoxOk, Upsert, AdoptActive, CurrentBoxFor, FirstRow, PromoteByName;
    hide Has, RowsFollow, ActiveAfter, Named, Reclassify, Renamed, OneLive, SameBox, KnownAs;
    InvParts(digest, s);
    NamedThenReclassified(digest, s.boxes, i, name);
    var bs := Named(digest, s.boxes, i, name);
    var id, u := bs[i].boxId, s.boxes[i].uid;
    var p := s.(boxes := bs, active := Followed(s.active, s.boxes[i].boxId, id),
                rows := Upsert(bs, s.rows, id, name, u));
    var q := AdoptActive(p, id, !Has(bs, ByNameExcept(name, u)));
    PromotionUnfolds(digest, s, i, name);
    UpsertHasRow(bs, s.rows, id, name, u);
    var k := FirstRow(p.rows, id);
    NamedBoxes(digest, s, i, name);
    AdoptSets(digest, p, i, id);
    RowIsCurrent(q, id);
    var t := PromoteByName(digest, s, u, name);
    ReclassifiedLive(bs, id, p.rows, k);
    ActiveSeesNames(bs, t.boxes, i, name, id, p.active, t.active);
    UpsertFollows(digest, s.boxes, bs, s.rows, i, name, id);
  }

  // ---- Who is live afterwards --------------------------------------------------------------------

  predicate Live(b: BoxV, id: string) {
    b.boxId == id && b.state == Attached
  }

  /** The character's row points to a box first seen later than box `i` that has since been given another name. */
  ghost predicate HeldByRenamed(s: Registry, i: nat, id: string)
    requires i < |s.boxes|
  {
    exists r, b | r in s.rows && b in s.boxes ::
      r.id == id && b.uid == r.session && b.boxId != id && b.firstSeen > s.boxes[i].firstSeen
  }

  /** Exactly one session of the character is Attached afterwards, unless its row points to a newer box that has
      been renamed: then none is. */
  lemma OneAttachedIff(digest: string -> string, s: Registry, i: nat, name: string)
    requires Inv(digest, s) && i < |s.boxes| && name != "" && s.boxes[i].displayName != name
    ensures var t, id := PromoteByName(digest, s, s.boxes[i].uid, name), "b-" + digest(name);
      && (forall a, b | a in t.boxes && b in t.boxes && Live(a, id) && Live(b, id) :: a == b)
      && ((exists b | b in t.boxes :: Live(b, id)) <==> !HeldByRenamed(s, i, id))
  {
    hide PromoteByName, Inv, BoxesOk, RowsOk, ActiveOk, ActiveAfter, NoClash, RowFor;
    hide Renamed, RowsFollow, HeldByRenamed;
    var t, id := PromoteByName(digest, s, s.boxes[i].uid, name), "b-" + digest(name);
    PromotionDoes(digest, s, i, name);
    PromoteByNameKeepsInv(digest, s, s.boxes[i].uid, name);
    InvParts(digest, s);
    InvParts(digest, t);
    OneOfId(t.boxes, id);
    RowSession(digest, s, i, name, t);
    var r :| r in t.rows && r.id == id && forall b | b in t.boxes && b.boxId == id ::
      b.state == if b.uid == r.session then Attached else Superseded;
    assert (exists b | b in t.boxes :: Live(b, id)) <==>
           (exists b | b in t.boxes :: b.boxId == id && b.uid == r.session);
  }

  lemma OneOfId(bs: seq<BoxV>, id: string)
    requires NoClash(bs)
    ensures forall a, b | a in bs && b in bs && Live(a, id) && Live(b, id) :: a == b
  {
    forall a, b | a in bs && b in bs && Live(a, id) && Live(b, id)
      ensures a == b
    {
      assert Clash(a, b) && Clash(b, a);
    }
  }

  /** The row afterwards points to a box with the id, unless it is held by a renamed one. */
  lemma RowSession(digest: string -> string, s: Registry, i: nat, name: string, t: Registry)
    requires NoClash(s.boxes) && RowsOk(digest, s.boxes, s.rows) && RowsOk(digest, t.boxes, t.rows) && i < |s.boxes|
    requires var id := "b-" + digest(name);
      Renamed(s.boxes, i, name, id, t.boxes) && RowsFollow(s.boxes, s.rows, i, name, id, t.rows)
    ensures var id := "b-" + digest(name);
      forall r | r in t.rows && r.id == id ::
        (exists b | b in t.boxes :: b.boxId == id && b.uid == r.session) <==> !HeldByRenamed(s, i, id)
  {
  }

  /** Two sessions, the second seen later, under these names. */
  predicate Two(s: Registry, first: string, second: string) {
    && |s.boxes| == 2 && s.boxes[0].firstSeen < s.boxes[1].firstSeen
    && s.boxes[0].uid == 0 && s.boxes[0].displayName == first
    && s.boxes[1].uid == 1 && s.boxes[1].displayName == second
  }

  lemma SecondNamed(digest: string -> string, s: Registry, was: string, name: string)
    requires Inv(digest, s) && Two(s, "", was) && name != "" && was != name
    requires !RowFor(s.rows, "b-" + digest(name))
    ensures var t := PromoteByName(digest, s, 1, name);
      Inv(digest, t) && Two(t, "", name) && t.rows == s.rows + [Row(name, "b-" + digest(name), 1)]
  {
    hide Inv, PromoteByName, OneLive, ActiveAfter, RowFor;
    PromotionDoes(digest, s, 1, name);
    PromoteByNameKeepsInv(digest, s, 1, name);
  }

  lemma FirstNamed(digest: string -> string, s: Registry, other: string, name: string)
    requires Inv(digest, s) && Two(s, "", other) && name != "" && other != name
    requires Row(name, "b-" + digest(name), 1) in s.rows
    ensures var t := PromoteByName(digest, s, 0, name);
      Inv(digest, t) && Two(t, name, other) && t.boxes[0].state == Superseded
  {
    hide Inv, PromoteByName, ActiveAfter;
    var id := "b-" + digest(name);
    var k :| 0 <= k < |s.rows| && s.rows[k] == Row(name, id, 1);
    PromotionDoes(digest, s, 0, name);
    PromoteByNameKeepsInv(digest, s, 0, name);
    var t := PromoteByName(digest, s, 0, name);
    assert t.rows[k] == Row(name, id, 1) && t.rows[k] in t.rows && t.boxes[0] in t.boxes;
    OneRow(digest, t, id);
  }

  lemma OneRow(digest: string -> string, s: Registry, id: string)
    requires Inv(digest, s)
    ensures forall q, r | q in s.rows && r in s.rows && q.id == r.id == id :: q == r
  {
    FirstRowOf(s.rows, id);
  }

  /** How it comes about: the newer of two sessions takes a name and then another, and the older takes the first. */
  lemma NobodyIsAttached(digest: string -> string)
    requires digest("Bob") != digest("Eve")
    ensures var a := Observe(Empty, 1, 2, 50001, 9000, 10);
      var b := Observe(a, 1, 2, 50002, 9000, 20);
      var t := PromoteByName(digest, PromoteByName(digest, PromoteByName(digest, b, 1, "Bob"), 1, "Eve"), 0, "Bob");
      Inv(digest, t) && Two(t, "Bob", "Eve") && t.boxes[0].state == Superseded
  {
    hide Inv, PromoteByName, PlaceholderId, Two, Observe;
    var b := Observe(Observe(Empty, 1, 2, 50001, 9000, 10), 1, 2, 50002, 9000, 20);
    TwoSeen(digest);
    var bob, eve := "b-" + digest("Bob"), "b-" + digest("Eve");
    assert bob[2..] == digest("Bob") && eve[2..] == digest("Eve");
    SecondNamed(digest, b, "", "Bob");
    var s := PromoteByName(digest, b, 1, "Bob");
    SecondNamed(digest, s, "Bob", "Eve");
    FirstNamed(digest, PromoteByName(digest, s, 1, "Eve"), "Eve", "Bob");
  }

  lemma TwoSeen(digest: string -> string)
    ensures var b := Observe(Observe(Empty, 1, 2, 50001, 9000, 10), 1, 2, 50002, 9000, 20);
      Inv(digest, b) && b.rows == [] && Two(b, "", "")
  {
    hide Inv, PlaceholderId;
    EmptyOk(digest);
    ObserveKeepsInv(digest, Empty, 1, 2, 50001, 9000, 10);
    ObserveKeepsInv(digest, Observe(Empty, 1, 2, 50001, 9000, 10), 1, 2, 50002, 9000, 20);
  }

  // ---- The other ways the active character changes -------------------------------------------------

  /** The first name of an anonymous box: its id, its row and, if it was the active one, the active id follow;
      states stay as they are. */
  lemma NameDecodedDoes(digest: string -> string, s: Registry, i: nat, name: string)
    requires Inv(digest, s) && i < |s.boxes| && name != "" && s.boxes[i].displayName == ""
    ensures var t, id := NameDecoded(digest, s, s.boxes[i].uid, name), "b-" + digest(name);
      && Renamed(s.boxes, i, name, id, t.boxes)
      && (forall j | 0 <= j < |s.boxes| :: t.boxes[j].state == s.boxes[j].state)
      && RowsFollow(s.boxes, s.rows, i, name, id, t.rows)
      && t.active == Followed(s.active, s.boxes[i].boxId, id)
      && t.nextUid == s.nextUid
  {
    hide Inv, NoClash, BoxesOk, RowsOk, ActiveOk, BoxOk, Upsert, RowsFollow, SameBox;
    InvParts(digest, s);
    UidIsKey(s.boxes, i);
    NamedThenReclassified(digest, s.boxes, i, name);
    UpsertFollows(digest, s.boxes, Named(digest, s.boxes, i, name), s.rows, i, name, "b-" + digest(name));
  }

  /** It happens once: a box with a name keeps it. */
  lemma NameDecodedIgnored(digest: string -> string, s: Registry, u: nat, name: string)
    requires name == "" || forall b | b in s.boxes && b.uid == u :: b.displayName != ""
    ensures NameDecoded(digest, s, u, name) == s
  {
    var i := First(s.boxes, ByUid(u));
    if i < |s.boxes| {
      assert s.boxes[i] in s.boxes;
    }
  }

  /** Switching takes effect exactly for the id of a box, and changes nothing else. */
  lemma SwitchDoes(s: Registry, id: string)
    ensures var t := SetActive(s, id);
      && t.boxes == s.boxes && t.rows == s.rows && t.nextUid == s.nextUid
      && t.active == if exists b | b in s.boxes :: b.boxId == id then id else s.active
  {
    HasIff(s.boxes, ByBoxId(id));
  }
}
