/** Properties that compare two moments of a run. */
module SessionHistory {
  import opened Options
  import opened Identity
  import opened RegistryModel
  import opened RegistryInvariant
  import opened IdleSweep
  import opened Demux
  import opened DemuxInvariant

  // ---- A box that was heard from is not reaped early ---------------------------------------------

  predicate HeardSince(bs: seq<BoxV>, u: nat, t: int) {
    Has(bs, ByUid(u)) && BoxOf(bs, u).lastSeen >= t
  }

  /** The event's clock is no earlier than `t`, and a sweep comes within its own time-to-live of `t`. */
  predicate WithinTtl(e: Event, t: int) {
    && (e.Arrival? ==> e.now >= t)
    && (e.Sweep? ==> e.now <= t + e.ttl)
  }

  lemma StepKeepsHeard(digest: string -> string, d: DemuxState, e: Event, u: nat, t: int)
    requires Inv(digest, d.reg) && HeardSince(d.reg.boxes, u, t) && WithinTtl(e, t)
    ensures HeardSince(Step(digest, d, e).reg.boxes, u, t)
  {
    hide Inv, BoxesOk, RowsOk, ActiveOk, NoClash, AllEvolve, Survivors;
    InvParts(digest, d.reg);
    var cs := Step(digest, d, e).reg.boxes;
    if !e.Sweep? {
      StepEvolves(digest, d, e);
      EvolvesByUid(d.reg.boxes, cs, e, u);
    } else if e.ttl > 0 {
      var b := BoxOf(d.reg.boxes, u);
      FreshIsKept(d.reg, e.now, e.ttl, u);
      SweepLeavesAlone(d.reg, e.now, e.ttl, u);
    }
  }

  lemma FreshIsKept(s: Registry, now: int, ttl: int, u: nat)
    requires NoClash(s.boxes) && ttl > 0 && HeardSince(s.boxes, u, now - ttl)
    ensures Has(Evict(s, now, ttl).boxes, ByUid(u))
  {
    GoneIffStale(s.boxes, CurrentBoxFor(s, s.active), now - ttl, BoxOf(s.boxes, u));
  }

  lemma {:induction false} RunKeepsHeard(digest: string -> string, d: DemuxState, es: seq<Event>, u: nat, t: int)
    requires Inv(digest, d.reg) && HeardSince(d.reg.boxes, u, t)
    requires forall e | e in es :: WithinTtl(e, t)
    ensures HeardSince(Run(digest, d, es).reg.boxes, u, t)
  {
    if es != [] {
      var n := |es| - 1;
      RunKeepsHeard(digest, d, es[..n], u, t);
      RunKeepsInv(digest, d, es[..n]);
      StepKeepsHeard(digest, Run(digest, d, es[..n]), es[n], u, t);
    }
  }

  lemma DeliveryIsHeard(digest: string -> string, d: DemuxState, p: Packet, t: int, u: nat)
    requires Inv(digest, d.reg)
    requires Dispatch(d, p, t).1 in {World(u, FromClient), World(u, FromServer), Zone(u, FromClient), Zone(u, FromServer)}
    ensures HeardSince(Dispatch(d, p, t).0.reg.boxes, u, t)
  {
    var s := Dispatch(d, p, t).0.reg;
    StepKeepsInv(digest, d, Arrival(p, t));
    if IsWorldPacket(p) {
      NotedKeepsInv(digest, d, p, t);
      var i := First(s.boxes, WorldKey(p));
      ObservedNow(d.reg, ClientIp(p), ServerIp(p), ClientPort(p), ServerPort(p), t);
      UidIsKey(s.boxes, i);
    } else {
      UidIsKey(s.boxes, PickBox(d.reg.boxes, p, t).value.index);
    }
  }

  lemma ObservedNow(s: Registry, ip: Ip, serverIp: Ip, cp: Port, sp: Port, now: int)
    ensures var bs := Observe(s, ip, serverIp, cp, sp, now).boxes;
            var i := First(bs, ByWorld(ip, cp, sp));
            i < |bs| && bs[i].lastSeen == now
  {
    var bs := Observe(s, ip, serverIp, cp, sp, now).boxes;
    FirstIs(bs, ByWorld(ip, cp, sp), First(s.boxes, ByWorld(ip, cp, sp)));
  }

  /** A box that received a world or zone packet at `t` is still registered after any run on a clock
      that does not run backwards, as long as every sweep in it comes no later than `t` plus its
      time-to-live. */
  lemma HeardIsNotReaped(digest: string -> string, d: DemuxState, p: Packet, t: int, u: nat, es: seq<Event>)
    requires Inv(digest, d.reg)
    requires Dispatch(d, p, t).1 in {World(u, FromClient), World(u, FromServer), Zone(u, FromClient), Zone(u, FromServer)}
    requires forall e | e in es :: WithinTtl(e, t)
    ensures Has(Run(digest, Dispatch(d, p, t).0, es).reg.boxes, ByUid(u))
  {
    StepKeepsInv(digest, d, Arrival(p, t));
    DeliveryIsHeard(digest, d, p, t, u);
    RunKeepsHeard(digest, Dispatch(d, p, t).0, es, u, t);
  }

  // ---- A row's session is never displaced by an older one ------------------------------------------

  /** When the session that row `id` points to was first seen. */
  function Since(bs: seq<BoxV>, rows: seq<Row>, id: string): Option<int> {
    var i := FirstRow(rows, id);
    if i < |rows| then Some(FirstSeenOf(bs, rows[i].session)) else None
  }

  function RowSince(s: Registry, id: string): Option<int> {
    Since(s.boxes, s.rows, id)
  }

  lemma EvolveKeepsFirstSeen(bs: seq<BoxV>, cs: seq<BoxV>, e: Event, u: nat)
    requires AllEvolve(bs, cs, e) && Has(bs, ByUid(u))
    ensures Has(cs, ByUid(u)) && FirstSeenOf(bs, u) == FirstSeenOf(cs, u)
  {
    EvolvesByUid(bs, cs, e, u);
  }

  lemma RowHasSession(digest: string -> string, s: Registry, i: nat)
    requires Inv(digest, s) && i < |s.rows|
    ensures Has(s.boxes, ByUid(s.rows[i].session))
  {
    assert RowOk(digest, s.boxes, s.rows[i]);
    HasIff(s.boxes, ByUid(s.rows[i].session));
  }

  lemma UpsertOnlyGoesForward(bs: seq<BoxV>, rows: seq<Row>, id: string, name: string, u: nat, other: string)
    ensures var r := Upsert(bs, rows, id, name, u);
      && (Since(bs, rows, other).Some? ==>
            Since(bs, r, other).Some? && Since(bs, r, other).value >= Since(bs, rows, other).value)
      && Since(bs, r, id).Some? && Since(bs, r, id).value >= FirstSeenOf(bs, u)
  {
    FirstRowIs(Upsert(bs, rows, id, name, u), id, FirstRow(rows, id));
    if other != id {
      UpsertKeepsOtherRows(bs, rows, id, name, u, other);
    }
  }

  /** The event promotes box `u` to `id`. */
  predicate Promotes(digest: string -> string, s: Registry, e: Event, u: nat, id: string) {
    var i := First(s.boxes, ByUid(u));
    && i < |s.boxes|
    && ((e.EnterWorld? && s.boxes[i].displayName == "") || (e.Profile? && s.boxes[i].displayName != e.name))
    && e.u == u && e.name != "" && id == PromotedId(digest, e.name)
  }

  /** The rows after a promotion of box `u` are the upsert's, computed on boxes `bs` that differ from
      those before and after in neither identity nor age. */
  lemma PromotionIsUpsert(digest: string -> string, d: DemuxState, e: Event, u: nat, id: string) returns (bs: seq<BoxV>)
    requires Promotes(digest, d.reg, e, u, id)
    ensures AllEvolve(d.reg.boxes, bs, e) && AllEvolve(bs, Step(digest, d, e).reg.boxes, e)
    ensures Step(digest, d, e).reg.rows == Upsert(bs, d.reg.rows, id, e.name, u)
  {
    bs := Named(digest, d.reg.boxes, First(d.reg.boxes, ByUid(u)), e.name);
  }

  /** A promotion leaves no row pointing to an older session than before, and the row it is about
      pointing to one no older than the box promoted. */
  lemma PromotionGoesForward(digest: string -> string, d: DemuxState, e: Event, u: nat, id: string, other: string)
    requires Inv(digest, d.reg) && Promotes(digest, d.reg, e, u, id)
    ensures var t := Step(digest, d, e).reg;
      && (RowSince(d.reg, other).Some? ==>
            RowSince(t, other).Some? && RowSince(t, other).value >= RowSince(d.reg, other).value)
      && RowSince(t, id).Some? && RowSince(t, id).value >= FirstSeenOf(d.reg.boxes, u)
  {
    hide Inv, Step, Upsert, Since, FirstSeenOf, AllEvolve;
    var bs := PromotionIsUpsert(digest, d, e, u, id);
    var t := Step(digest, d, e).reg;
    UpsertOnlyGoesForward(bs, d.reg.rows, id, e.name, u, other);
    SameAge(digest, d.reg, bs, e, other);
    EvolveKeepsFirstSeen(d.reg.boxes, bs, e, u);
    PromotedRowsKeepAge(digest, d, e, bs, u, id, other);
    PromotedRowsKeepAge(digest, d, e, bs, u, id, id);
  }

  lemma SameAge(digest: string -> string, s: Registry, bs: seq<BoxV>, e: Event, id: string)
    requires Inv(digest, s) && AllEvolve(s.boxes, bs, e)
    ensures Since(s.boxes, s.rows, id) == Since(bs, s.rows, id)
  {
    hide Inv, AllEvolve, FirstSeenOf;
    var i := FirstRow(s.rows, id);
    if i < |s.rows| {
      RowHasSession(digest, s, i);
      EvolveKeepsFirstSeen(s.boxes, bs, e, s.rows[i].session);
    }
  }

  /** The rows after the promotion read the same on the boxes after it as on `bs`. */
  lemma PromotedRowsKeepAge(digest: string -> string, d: DemuxState, e: Event, bs: seq<BoxV>, u: nat, id: string, at: string)
    requires Inv(digest, d.reg) && Has(d.reg.boxes, ByUid(u)) && (e.EnterWorld? || e.Profile?)
    requires AllEvolve(d.reg.boxes, bs, e) && AllEvolve(bs, Step(digest, d, e).reg.boxes, e)
    requires Step(digest, d, e).reg.rows == Upsert(bs, d.reg.rows, id, e.name, u)
    ensures RowSince(Step(digest, d, e).reg, at) == Since(bs, Step(digest, d, e).reg.rows, at)
  {
    hide Inv, Step, AllEvolve, FirstSeenOf;
    var rows := Step(digest, d, e).reg.rows;
    var i := FirstRow(rows, at);
    if i < |rows| {
      var v := rows[i].session;
      if v != u {
        UpsertSessions(bs, d.reg.rows, id, e.name, u, i);
        RowHasSession(digest, d.reg, i);
      }
      EvolveKeepsFirstSeen(d.reg.boxes, bs, e, v);
      EvolveKeepsFirstSeen(bs, Step(digest, d, e).reg.boxes, e, v);
    }
  }

  /** An upsert brings in no session but the one it is about. */
  lemma UpsertSessions(bs: seq<BoxV>, rows: seq<Row>, id: string, name: string, u: nat, i: nat)
    requires var r := Upsert(bs, rows, id, name, u); i < |r| && r[i].session != u
    ensures i < |rows| && Upsert(bs, rows, id, name, u)[i].session == rows[i].session
  {
  }

  /** No event leaves a row pointing to an older session than before. */
  lemma StepGoesForward(digest: string -> string, d: DemuxState, e: Event, id: string)
    requires Inv(digest, d.reg)
    requires RowSince(d.reg, id).Some? && RowSince(Step(digest, d, e).reg, id).Some?
    ensures RowSince(Step(digest, d, e).reg, id).value >= RowSince(d.reg, id).value
  {
    hide Inv;
    var t := Step(digest, d, e).reg;
    var i := FirstRow(d.reg.rows, id);
    RowHasSession(digest, d.reg, i);
    if e.Sweep? {
      SweepGoesForward(digest, d.reg, e.now, e.ttl, id);
    } else if (e.EnterWorld? || e.Profile?) && Promotes(digest, d.reg, e, e.u, PromotedId(digest, e.name)) {
      PromotionGoesForward(digest, d, e, e.u, PromotedId(digest, e.name), id);
    } else {
      StepEvolves(digest, d, e);
      EvolveKeepsFirstSeen(d.reg.boxes, t.boxes, e, d.reg.rows[i].session);
      RowsUntouched(digest, d, e);
    }
  }

  lemma RowsUntouched(digest: string -> string, d: DemuxState, e: Event)
    requires !e.Sweep?
    requires (e.EnterWorld? || e.Profile?) ==> !Promotes(digest, d.reg, e, e.u, PromotedId(digest, e.name))
    ensures Step(digest, d, e).reg.rows == d.reg.rows
  {
  }

  lemma SweepGoesForward(digest: string -> string, s: Registry, now: int, ttl: int, id: string)
    requires Inv(digest, s)
    requires RowSince(s, id).Some? && RowSince(Evict(s, now, ttl), id).Some?
    ensures RowSince(Evict(s, now, ttl), id) == RowSince(s, id)
  {
    hide Inv, RowOk, ActiveOk, Survivors, IsVictim, NoClash;
    if ttl > 0 {
      InvParts(digest, s);
      var t := Evict(s, now, ttl);
      var i, k := FirstRow(s.rows, id), FirstRow(t.rows, id);
      KeptRowIff(s.rows, s.boxes, CurrentBoxFor(s, s.active), now - ttl, t.rows[k]);
      assert s.rows[i] == t.rows[k];
      RowsFollowSessions(digest, s, now, ttl, t.rows[k]);
      SweepLeavesAlone(s, now, ttl, t.rows[k].session);
    }
  }

  /** The row for `id` is there all along the run. */
  ghost predicate RowStays(digest: string -> string, d: DemuxState, es: seq<Event>, id: string) {
    forall k | 0 <= k <= |es| :: RowSince(Run(digest, d, es[..k]).reg, id).Some?
  }

  lemma {:induction false} RunGoesForward(digest: string -> string, d: DemuxState, es: seq<Event>, id: string)
    requires Inv(digest, d.reg) && RowStays(digest, d, es, id)
    ensures RowSince(d.reg, id).Some? && RowSince(Run(digest, d, es).reg, id).Some?
    ensures RowSince(Run(digest, d, es).reg, id).value >= RowSince(d.reg, id).value
  {
    hide Inv, Step, RowSince;
    assert es[..|es|] == es;
    assert RowSince(Run(digest, d, es[..0]).reg, id).Some?;
    assert RowSince(Run(digest, d, es[..|es|]).reg, id).Some?;
    if es != [] {
      var n := |es| - 1;
      forall k | 0 <= k <= n
        ensures RowSince(Run(digest, d, es[..n][..k]).reg, id).Some?
      {
        assert es[..n][..k] == es[..k];
      }
      RunGoesForward(digest, d, es[..n], id);
      RunKeepsInv(digest, d, es[..n]);
      StepGoesForward(digest, Run(digest, d, es[..n]), es[n], id);
    }
  }

  /** As long as a row lives, its session is no older than any box promoted to its id since. */
  lemma RowIsNoOlderThanPromoted(
    digest: string -> string, d: DemuxState, e: Event, u: nat, id: string, es: seq<Event>)
    requires Inv(digest, d.reg) && Promotes(digest, d.reg, e, u, id)
    requires RowStays(digest, Step(digest, d, e), es, id)
    ensures var since := RowSince(Run(digest, Step(digest, d, e), es).reg, id);
            since.Some? && since.value >= FirstSeenOf(d.reg.boxes, u)
  {
    hide Inv, Step, RowSince, Run;
    PromotionGoesForward(digest, d, e, u, id, id);
    StepKeepsInv(digest, d, e);
    RunGoesForward(digest, Step(digest, d, e), es, id);
  }
}
