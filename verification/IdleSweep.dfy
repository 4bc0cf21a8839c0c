/** The idle sweep: who goes, who stays, and what stays the same. */
module IdleSweep {
  import opened Options
  import opened Identity
  import opened RegistryModel
  import opened RegistryInvariant

  /** `ix` embeds `cs` in `bs` in order: `cs` is what is left of `bs` when some boxes are taken out. */
  ghost predicate Embeds(ix: seq<nat>, cs: seq<BoxV>, bs: seq<BoxV>) {
    && |ix| == |cs|
    && (forall j | 0 <= j < |ix| :: ix[j] < |bs| && cs[j] == bs[ix[j]])
    && (forall j, k | 0 <= j < k < |ix| :: ix[j] < ix[k])
  }

  lemma {:induction false} SurvivorsEmbed(bs: seq<BoxV>, live: Option<nat>, cutoff: int) returns (ix: seq<nat>)
    ensures Embeds(ix, Survivors(bs, live, cutoff), bs)
    ensures forall k | 0 <= k < |bs| :: !Stale(bs[k], live, cutoff) <==> k in ix
  {
    if bs == [] {
      ix := [];
    } else {
      var n := |bs| - 1;
      var rest := SurvivorsEmbed(bs[..n], live, cutoff);
      ix := rest + if Stale(bs[n], live, cutoff) then [] else [n];
      assert forall k | 0 <= k < n :: bs[k] == bs[..n][k];
    }
  }

  lemma SurvivorsKeepNoClash(bs: seq<BoxV>, live: Option<nat>, cutoff: int)
    requires NoClash(bs)
    ensures NoClash(Survivors(bs, live, cutoff))
  {
    var ix := SurvivorsEmbed(bs, live, cutoff);
  }

  /** A box found first before the sweep is found first after it, if it survives. */
  lemma FirstSurvives(bs: seq<BoxV>, live: Option<nat>, cutoff: int, k: Key)
    requires Has(bs, k) && !Stale(bs[First(bs, k)], live, cutoff)
    ensures var cs := Survivors(bs, live, cutoff);
            Has(cs, k) && cs[First(cs, k)] == bs[First(bs, k)]
  {
    var cs := Survivors(bs, live, cutoff);
    var ix := SurvivorsEmbed(bs, live, cutoff);
    var j :| 0 <= j < |ix| && ix[j] == First(bs, k);
    FirstIs(cs, k, j);
  }

  lemma {:induction false} KeptRowsDistinct(rows: seq<Row>, bs: seq<BoxV>, live: Option<nat>, cutoff: int)
    requires IdsDistinct(rows)
    ensures IdsDistinct(KeptRows(rows, bs, live, cutoff))
  {
    if rows != [] {
      var n := |rows| - 1;
      KeptRowsDistinct(rows[..n], bs, live, cutoff);
      var k := KeptRows(rows[..n], bs, live, cutoff);
      forall i | 0 <= i < |k|
        ensures k[i].id != rows[n].id
      {
        KeptRowIff(rows[..n], bs, live, cutoff, k[i]);
      }
    }
  }

  /** A row whose session survives is still there, unchanged, and is still found by its id. */
  lemma {:induction false} RowSurvives(rows: seq<Row>, bs: seq<BoxV>, live: Option<nat>, cutoff: int, id: string)
    requires FirstRow(rows, id) < |rows| ==> !IsVictim(bs, live, cutoff, rows[FirstRow(rows, id)].session)
    ensures var k := KeptRows(rows, bs, live, cutoff);
            if FirstRow(rows, id) < |rows| then
              FirstRow(k, id) < |k| && k[FirstRow(k, id)] == rows[FirstRow(rows, id)]
            else FirstRow(k, id) == |k|
  {
    if rows != [] {
      var n := |rows| - 1;
      var i := FirstRow(rows, id);
      var head := KeptRows(rows[..n], bs, live, cutoff);
      var k := KeptRows(rows, bs, live, cutoff);
      if i < n {
        FirstRowIs(rows[..n], id, i);
        RowSurvives(rows[..n], bs, live, cutoff, id);
        FirstRowIs(k, id, FirstRow(head, id));
      } else {
        assert forall j | 0 <= j < n :: rows[..n][j].id != id;
        RowSurvives(rows[..n], bs, live, cutoff, id);
        if i == n {
          FirstRowIs(k, id, |head|);
        }
      }
    }
  }

  lemma SameUidSameBox(bs: seq<BoxV>, b: BoxV, c: BoxV)
    requires NoClash(bs) && b in bs && c in bs && b.uid == c.uid
    ensures b == c
  {
    assert Clash(b, c) && Clash(c, b) by {
      assert b.uid == c.uid;
    }
  }

  /** A registered box goes exactly when it is stale. */
  lemma GoneIffStale(bs: seq<BoxV>, live: Option<nat>, cutoff: int, b: BoxV)
    requires NoClash(bs) && b in bs
    ensures IsVictim(bs, live, cutoff, b.uid) <==> Stale(b, live, cutoff)
    ensures Has(Survivors(bs, live, cutoff), ByUid(b.uid)) <==> !Stale(b, live, cutoff)
  {
    var cs := Survivors(bs, live, cutoff);
    if IsVictim(bs, live, cutoff, b.uid) {
      var c :| c in bs && c.uid == b.uid && Stale(c, live, cutoff);
      SameUidSameBox(bs, b, c);
    }
    SurvivorIff(bs, live, cutoff, b);
    HasIff(cs, ByUid(b.uid));
    if Has(cs, ByUid(b.uid)) {
      var c := cs[First(cs, ByUid(b.uid))];
      SurvivorIff(bs, live, cutoff, c);
      SameUidSameBox(bs, b, c);
    } else if b in cs {
      assert ByUid(b.uid).Holds(b);
    }
  }

  lemma LiveIsNoVictim(bs: seq<BoxV>, live: nat, cutoff: int)
    ensures !IsVictim(bs, Some(live), cutoff, live)
  {
  }

  /** The active character keeps its live box. */
  lemma EvictKeepsCurrent(s: Registry, now: int, ttl: int)
    requires ActiveOk(s)
    ensures var t := Evict(s, now, ttl);
            t.active == s.active && CurrentBoxFor(t, s.active) == CurrentBoxFor(s, s.active)
  {
    if ttl > 0 && s.boxes != [] {
      var live, cutoff := CurrentBoxFor(s, s.active), now - ttl;
      LiveIsNoVictim(s.boxes, live.value, cutoff);
      RowSurvives(s.rows, s.boxes, live, cutoff, s.active);
      if FirstRow(s.rows, s.active) == |s.rows| {
        FirstSurvives(s.boxes, live, cutoff, ByBoxId(s.active));
      }
    }
  }

  lemma EvictKeepsInv(digest: string -> string, s: Registry, now: int, ttl: int)
    requires Inv(digest, s)
    ensures Inv(digest, Evict(s, now, ttl))
  {
    if ttl > 0 && s.boxes != [] {
      var t := Evict(s, now, ttl);
      var live, cutoff := CurrentBoxFor(s, s.active), now - ttl;
      SurvivorsKeepNoClash(s.boxes, live, cutoff);
      KeptRowsDistinct(s.rows, s.boxes, live, cutoff);
      EvictKeepsCurrent(s, now, ttl);
      PrimaryStaysInFront(s.boxes, live, cutoff);
      forall b | b in t.boxes
        ensures b in s.boxes
      {
        SurvivorIff(s.boxes, live, cutoff, b);
      }
      forall r | r in t.rows
        ensures RowOk(digest, t.boxes, r)
      {
        KeptRowIff(s.rows, s.boxes, live, cutoff, r);
        var b :| b in s.boxes && b.uid == r.session && b.displayName != "";
        GoneIffStale(s.boxes, live, cutoff, b);
        SurvivorIff(s.boxes, live, cutoff, b);
      }
    }
  }

  lemma {:induction false} PrimaryStaysInFront(bs: seq<BoxV>, live: Option<nat>, cutoff: int)
    requires bs != [] && bs[0].isPrimary
    ensures var cs := Survivors(bs, live, cutoff); cs != [] && cs[0] == bs[0]
  {
    if |bs| > 1 {
      PrimaryStaysInFront(bs[..|bs| - 1], live, cutoff);
    } else {
      assert bs[..0] == [];
    }
  }

  /** The rows left are exactly those whose session is still registered. */
  lemma RowsFollowSessions(digest: string -> string, s: Registry, now: int, ttl: int, r: Row)
    requires Inv(digest, s)
    ensures var t := Evict(s, now, ttl);
            r in t.rows <==> r in s.rows && Has(t.boxes, ByUid(r.session))
  {
    hide Inv, ActiveOk, NoClash, CurrentBoxFor, Survivors, KeptRows, IsVictim;
    InvParts(digest, s);
    var live, cutoff := CurrentBoxFor(s, s.active), now - ttl;
    KeptRowIff(s.rows, s.boxes, live, cutoff, r);
    if r in s.rows {
      assert RowOk(digest, s.boxes, r);
      var b :| b in s.boxes && b.uid == r.session && b.displayName != "";
      GoneIffStale(s.boxes, live, cutoff, b);
      HasIff(s.boxes, ByUid(r.session));
    }
  }

  /** Which boxes a sweep takes, said of the state before it. */
  predicate Reaped(s: Registry, b: BoxV, now: int, ttl: int) {
    ttl > 0 && !b.isPrimary && CurrentBoxFor(s, s.active) != Some(b.uid) && b.lastSeen < now - ttl
  }

  /** Exactly the idle boxes go, other than the primary and the session being watched; the rest keep
      their order and their contents. */
  lemma SweepTakesExactlyTheIdle(s: Registry, now: int, ttl: int) returns (ix: seq<nat>)
    ensures Embeds(ix, Evict(s, now, ttl).boxes, s.boxes)
    ensures forall b | b in s.boxes :: b !in Evict(s, now, ttl).boxes <==> Reaped(s, b, now, ttl)
  {
    if ttl <= 0 {
      return seq(|s.boxes|, i requires 0 <= i < |s.boxes| => i);
    }
    var live, cutoff := CurrentBoxFor(s, s.active), now - ttl;
    ix := SurvivorsEmbed(s.boxes, live, cutoff);
    forall b | b in s.boxes
      ensures b !in Evict(s, now, ttl).boxes <==> Reaped(s, b, now, ttl)
    {
      SurvivorIff(s.boxes, live, cutoff, b);
    }
  }

  /** The primary stays in front and alone, and the active character resolves to the same box. */
  lemma SweepKeepsPrimaryAndActive(digest: string -> string, s: Registry, now: int, ttl: int)
    requires Inv(digest, s) && s.boxes != []
    ensures var t := Evict(s, now, ttl);
      && t.boxes != [] && t.boxes[0] == s.boxes[0] && t.boxes[0].isPrimary
      && (forall i | 0 < i < |t.boxes| :: !t.boxes[i].isPrimary)
      && t.active == s.active && CurrentBoxFor(t, t.active) == CurrentBoxFor(s, s.active)
  {
    hide Inv, RowsOk, ActiveOk, NoClash, CurrentBoxFor, Survivors, KeptRows;
    var t := Evict(s, now, ttl);
    InvParts(digest, s);
    EvictKeepsCurrent(s, now, ttl);
    EvictKeepsInv(digest, s, now, ttl);
    InvParts(digest, t);
    if ttl > 0 {
      PrimaryStaysInFront(s.boxes, CurrentBoxFor(s, s.active), now - ttl);
    }
    OnlyTheFrontIsPrimary(t.boxes);
  }

  lemma OnlyTheFrontIsPrimary(bs: seq<BoxV>)
    requires NoClash(bs) && bs != [] && bs[0].isPrimary
    ensures forall i | 0 < i < |bs| :: !bs[i].isPrimary
  {
    forall i | 0 < i < |bs|
      ensures !bs[i].isPrimary
    {
      assert !Clash(bs[0], bs[i]);
    }
  }
}
