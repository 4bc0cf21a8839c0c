/** How far the comparison is blind to the asynchronous spawn fields. */
module GoldenAsync {
  import opened Options
  import opened GoldenCompare

  lemma StripPut<V>(d: Dict<V>, s: Spawn<V>)
    ensures StripDict(d.Put(s)) == StripDict(d).Put(Strip(s))
  {
  }

  lemma StripIdempotent<V>(s: Spawn<V>)
    ensures Strip(Strip(s)) == Strip(s)
  {
  }

  lemma StripUpdate<V>(s: Spawn<V>, fields: map<string, V>)
    ensures Strip(s.(fields := s.fields + fields)) ==
            Strip(s).(fields := Strip(s).fields + (fields - ASYNC_SPAWN_FIELDS))
  {
  }

  /** Stripping leaves alone exactly the records with no asynchronous field. */
  lemma StripFixes<V>(s: Spawn<V>)
    ensures Strip(s) == s <==> !HasAsync(s.fields)
  {
    if Strip(s) == s {
      assert forall f | f in s.fields :: f in Strip(s).fields;
    } else {
      assert s.fields - ASYNC_SPAWN_FIELDS != s.fields;
    }
  }

  lemma {:induction false} StripSpawns<V>(spawns: seq<Spawn<V>>)
    ensures StripDict(FromSpawns(spawns)) == FromSpawns(StripAll(spawns)) == FromSpawns(spawns)
  {
    hide Strip;
    if spawns != [] {
      var n := |spawns| - 1;
      StripSpawns(spawns[..n]);
      assert StripAll(spawns)[..n] == StripAll(spawns[..n]);
      StripPut(FromSpawns(spawns[..n]), Strip(spawns[n]));
      StripIdempotent(spawns[n]);
    }
  }

  lemma {:induction false} SnapshotIsClean<V>(spawns: seq<Spawn<V>>)
    ensures Filled(FromSpawns(spawns)) == {} && FromSpawns(spawns).at.Keys == IdsOf(spawns)
  {
    if spawns != [] {
      var n := |spawns| - 1;
      SnapshotIsClean(spawns[..n]);
      var d, s := FromSpawns(spawns[..n]), Strip(spawns[n]);
      StripIdempotent(spawns[n]);
      StripFixes(s);
      assert forall k | k in d.at :: k !in Filled(d);
      assert IdsOf(spawns) == IdsOf(spawns[..n]) + {spawns[n].id};
    }
  }

  lemma StripApply<V, E>(d: Dict<V>, e: Envelope<V, E>)
    ensures StripDict(Apply(d, e)) == Apply(StripDict(d), Unfilled(e))
  {
    match e
    case Added(s) =>
      StripPut(d, Strip(s));
      StripIdempotent(s);
    case Updated(k, fields) =>
      if k in d.at {
        StripPut(d, d.at[k].(fields := d.at[k].fields + fields));
        StripUpdate(d.at[k], fields);
      }
    case Removed(k) =>
    case _ =>
  }

  /** The scan follows the dictionary. */
  ghost predicate Follows<V>(c: Scan, d: Dict<V>) {
    c.known == d.at.Keys && c.filled == Filled(d)
  }

  lemma ScanApply<V, E>(c: Scan, d: Dict<V>, e: Envelope<V, E>)
    requires Follows(c, d) && d.Valid() && !e.Snapshot?
    ensures Follows(ScanOne(c, e), Apply(d, e)) && ScanOne(c, e).clean == c.clean
  {
  }

  lemma CheckpointOfStripped<V>(d: Dict<V>)
    requires d.Valid()
    ensures StripDict(d).Valid() && Checkpoint(StripDict(d)) == StripAll(Checkpoint(d))
    ensures Checkpoint(StripDict(d)) == Checkpoint(d) <==> Filled(d) == {}
  {
    SortedIff(d.order);
    var ks := Sorted(d.order);
    var r := Checkpoint(d);
    forall i | 0 <= i < |ks|
      ensures Checkpoint(StripDict(d))[i] == Strip(r[i])
      ensures Strip(r[i]) == r[i] <==> ks[i] !in Filled(d)
    {
      assert ks[i] in ks;
      StripFixes(r[i]);
    }
    if Checkpoint(StripDict(d)) == r {
      forall k | k in ks
        ensures k !in Filled(d)
      {
        var i :| 0 <= i < |ks| && ks[i] == k;
        assert Strip(r[i]) == r[i];
      }
    }
  }

  lemma {:induction false} ReplayOfUnfilled<V, E>(es: seq<Envelope<V, E>>)
    ensures var st, tt := Replay(es), Replay(UnfilledAll(es));
      && tt.running == StripDict(st.running) && tt.events == st.events
      && |tt.checkpoints| == |st.checkpoints|
      && (tt.checkpoints == st.checkpoints <==> ScanAll(es).clean)
      && Follows(ScanAll(es), st.running)
  {
    hide Apply, FromSpawns, Checkpoint, Strip, StripDict, Dict.Valid, Replay, Filled, IdsOf, Unfilled;
    if es == [] {
      ReplayEmpty<V, E>();
      EmptyIsStripped<V>();
    } else {
      var n := |es| - 1;
      ReplayOfUnfilled(es[..n]);
      assert UnfilledAll(es)[..n] == UnfilledAll(es[..n]);
      assert es[..n + 1] == es && UnfilledAll(es)[..n + 1] == UnfilledAll(es);
      ReplaySnoc(es, n);
      ReplaySnoc(UnfilledAll(es), n);
      ConsumeUnfilled(Replay(es[..n]), Replay(UnfilledAll(es[..n])), ScanAll(es[..n]), es[n]);
    }
  }

  lemma EmptyIsStripped<V>()
    ensures var d := Dict<V>.Dict([], map[]); StripDict(d) == d && Filled(d) == {} && d.at.Keys == {}
  {
  }

  lemma ConsumeUnfilled<V, E>(st: State<V, E>, tt: State<V, E>, c: Scan, e: Envelope<V, E>)
    requires st.running.Valid() && tt.running.Valid()
    requires tt.running == StripDict(st.running) && tt.events == st.events
    requires |tt.checkpoints| == |st.checkpoints|
    requires tt.checkpoints == st.checkpoints <==> c.clean
    requires Follows(c, st.running)
    ensures var st', tt', c' := Consume(st, e), Consume(tt, Unfilled(e)), ScanOne(c, e);
      && tt'.running == StripDict(st'.running) && tt'.events == st'.events
      && |tt'.checkpoints| == |st'.checkpoints|
      && (tt'.checkpoints == st'.checkpoints <==> c'.clean)
      && Follows(c', st'.running)
  {
    hide Checkpoint, Strip, StripDict, FromSpawns, Apply, Dict.Valid, Filled, IdsOf;
    if e.Snapshot? {
      StripSpawns(e.spawns);
      SnapshotIsClean(e.spawns);
      CheckpointOfStripped(st.running);
      SnocEqual(tt.checkpoints, st.checkpoints, Checkpoint(tt.running), Checkpoint(st.running));
    } else {
      StripApply(st.running, e);
      ScanApply(c, st.running, e);
      OtherAppliesNothing(st.running, e);
    }
  }

  lemma OtherAppliesNothing<V, E>(d: Dict<V>, e: Envelope<V, E>)
    ensures e.Other? ==> Apply(d, e) == d
  {
  }

  lemma SnocEqual<T>(a: seq<T>, b: seq<T>, x: T, y: T)
    requires |a| == |b|
    ensures a + [x] == b + [y] <==> a == b && x == y
  {
    if a + [x] == b + [y] {
      assert (a + [x])[..|a|] == a && (b + [y])[..|b|] == b;
      assert (a + [x])[|a|] == x && (b + [y])[|b|] == y;
    }
  }

  /** The result is what it would be without the asynchronous fields exactly when the scan finds the
      stream clean: fields on added spawns and in snapshots never show, those in updates do. */
  lemma AsyncHiddenIff<V, E>(es: seq<Envelope<V, E>>)
    ensures Normalized(UnfilledAll(es)) == Normalized(es) <==> Clean(es)
  {
    ReplayOfUnfilled(es);
    var st, tt := Replay(es), Replay(UnfilledAll(es));
    CheckpointOfStripped(st.running);
    hide Replay, Checkpoint, StripDict, ScanAll, UnfilledAll, Filled;
    SnocEqual(tt.checkpoints, st.checkpoints, Checkpoint(tt.running), Checkpoint(st.running));
  }

  /** The emission flap the comparison is meant to forgive, in the one form it does not: a guild tag
      that comes in an update shows in the checkpoint. */
  lemma UpdateShowsGuildTag<V>(tag: V)
    ensures var es: seq<Envelope<V, ()>> := [Added(Spawn(Some(1), map[])), Updated(Some(1), map["guild_tag" := tag])];
            Normalized(UnfilledAll(es)) != Normalized(es)
  {
    var a: Envelope<V, ()> := Added(Spawn(Some(1), map[]));
    var u: Envelope<V, ()> := Updated(Some(1), map["guild_tag" := tag]);
    var es := [a, u];
    AsyncHiddenIff(es);
    assert es[..1] == [a] && [a][..0] == [];
    assert ScanAll(es[..0]) == Scan({}, {}, true, true);
    assert ScanAll(es[..1]) == ScanOne(ScanAll(es[..0]), a);
    assert HasAsync(u.fields) by { assert "guild_tag" in ASYNC_SPAWN_FIELDS; }
    assert Some(1) in ScanAll(es).filled;
  }

  // ---- What the comparison is blind to -------------------------------------------------------------

  lemma TieIff<V>(d: Dict<V>, known: set<Key>)
    requires known == d.at.Keys
    ensures BothRankZero(known) <==> Tie(d.at)
  {
  }

  lemma {:induction false} UntiedSoFar<V, E>(es: seq<Envelope<V, E>>)
    ensures var gs := Segments(es);
      ScanAll(es).untied <==> forall i | 0 <= i < |gs| - 1 :: !Tie(Final(gs[i]).at)
  {
    hide Final, Segments, Replay, StripDict, UnfilledAll, CheckpointsOf, Tie, BothRankZero, Filled;
    if es == [] {
      EmptySegment<V, E>();
    } else {
      var n := |es| - 1;
      UntiedSoFar(es[..n]);
      SegmentsSnoc(es);
      ReplayOfUnfilled(es[..n]);
      ReplayBySegments(es[..n]);
      var r := Segments(es[..n]);
      TieIff(Final(r[|r| - 1]), ScanAll(es[..n]).known);
      var gs := Segments(es);
      if es[n].Snapshot? {
        assert forall i | 0 <= i < |r| :: gs[i] == r[i];
      } else if !es[n].Other? {
        assert forall i | 0 <= i < |r| - 1 :: gs[i] == gs[..|r| - 1][i] == r[i];
      }
    }
  }

  /** The scan finds a stream free of ties exactly when no checkpoint has one. */
  lemma UntiedIff<V, E>(es: seq<Envelope<V, E>>)
    ensures Untied(es) <==> forall i | 0 <= i < |Segments(es)| :: !Tie(Final(Segments(es)[i]).at)
  {
    hide Final, Segments, Replay, StripDict, UnfilledAll, CheckpointsOf, Tie, BothRankZero, Filled, ScanAll;
    UntiedSoFar(es);
    ReplayOfUnfilled(es);
    ReplayBySegments(es);
    var gs := Segments(es);
    TieIff(Final(gs[|gs| - 1]), ScanAll(es).known);
  }

  ghost predicate SameSegments<V, E>(es: seq<Envelope<V, E>>, fs: seq<Envelope<V, E>>) {
    && |Segments(es)| == |Segments(fs)| && Events(es) == Events(fs)
    && forall i | 0 <= i < |Segments(es)| :: SameSegment(Segments(es)[i], Segments(fs)[i])
  }

  /** Comparing replays does not see emission order: two streams with the same snapshots, the same
      changes per id within each segment and the same other envelopes give the same result. */
  lemma EmissionOrderDoesNotShow<V, E>(es: seq<Envelope<V, E>>, fs: seq<Envelope<V, E>>)
    requires SameSegments(es, fs) && Untied(es)
    ensures Normalized(es) == Normalized(fs)
  {
    hide SameSegment, Untied, Normalized, Tie, Final, Segments;
    UntiedIff(es);
    SameSegmentsSameResult(es, fs);
  }

  /** Nor does it see the two at once: streams that differ in emission order and in when asynchronous fields
      were emitted give the same result, if no update leaves one of those fields at a checkpoint. */
  lemma OrderAndAsyncDoNotShow<V, E>(es: seq<Envelope<V, E>>, fs: seq<Envelope<V, E>>)
    requires Clean(es) && Clean(fs)
    requires SameSegments(UnfilledAll(es), UnfilledAll(fs)) && Untied(UnfilledAll(es))
    ensures Normalized(es) == Normalized(fs)
  {
    hide Clean, SameSegments, Untied, Normalized, UnfilledAll;
    AsyncHiddenIff(es);
    AsyncHiddenIff(fs);
    EmissionOrderDoesNotShow(UnfilledAll(es), UnfilledAll(fs));
  }

  /** The one thing that the order shows in, as two streams: a spawn without an id and one with id 0. */
  lemma TieShowsInStreams<V, E>()
    ensures var a: Envelope<V, E> := Added(Spawn(None, map[]));
            var b: Envelope<V, E> := Added(Spawn(Some(0), map[]));
            SameSegments([a, b], [b, a]) && Normalized([a, b]) != Normalized([b, a])
  {
    var x, y := Spawn<V>.Spawn(None, map[]), Spawn<V>.Spawn(Some(0), map[]);
    TwoAdded<V, E>(x, y);
    TwoAdded<V, E>(y, x);
    hide Normalized, Segments, Events, SameSegment;
    EitherOrder<V, E>(x, y);
    assert [x, y][0] != [y, x][0];
  }

  lemma TwoAdded<V, E>(x: Spawn<V>, y: Spawn<V>)
    requires x.fields == map[] && y.fields == map[] && {x.id, y.id} == {None, Some(0)} && x.id != y.id
    ensures Normalized<V, E>([Added(x), Added(y)]) == ([[x, y]], [])
    ensures Segments<V, E>([Added(x), Added(y)]) == [Segment([], [Added(x), Added(y)])]
    ensures Events<V, E>([Added(x), Added(y)]) == []
  {
    var es: seq<Envelope<V, E>> := [Added(x), Added(y)];
    SegmentsOfTwo<V, E>(x, y);
    ReplayOfTwo<V, E>(x, y);
    CheckpointOfTwo(x, y);
    EventsOfTwo<V, E>(x, y);
    hide Replay, Checkpoint, Segments, Events;
    assert [] + [[x, y]] == [[x, y]];
  }

  lemma EventsOfTwo<V, E>(x: Spawn<V>, y: Spawn<V>)
    ensures Events<V, E>([Added(x), Added(y)]) == []
  {
    var es: seq<Envelope<V, E>> := [Added(x), Added(y)];
    assert es[..1] == [es[0]] && es[..1][..0] == [];
    assert Events(es[..1]) == Events(es[..1][..0]) + [] == [];
  }

  lemma SegmentsOfTwo<V, E>(x: Spawn<V>, y: Spawn<V>)
    ensures Segments<V, E>([Added(x), Added(y)]) == [Segment([], [Added(x), Added(y)])]
  {
    hide Segments;
    var es: seq<Envelope<V, E>> := [Added(x), Added(y)];
    assert es[..1] == [es[0]] && es[..1][..0] == [];
    EmptySegment<V, E>();
    SegmentsSnoc(es[..1]);
    var r := Segments(es[..1]);
    assert [] + [es[0]] == [es[0]];
    assert r == [r[0]] == [Segment([], [es[0]])];
    SegmentsSnoc(es);
    var gs := Segments(es);
    assert [es[0]] + [es[1]] == es;
    assert gs == [gs[0]];
  }

  /** The dictionary that two spawns without fields make, added in this order. */
  function Pair<V>(x: Spawn<V>, y: Spawn<V>): Dict<V> {
    Dict([x.id, y.id], map[x.id := x, y.id := y])
  }

  lemma ReplayOfTwo<V, E>(x: Spawn<V>, y: Spawn<V>)
    requires x.fields == map[] && y.fields == map[] && x.id != y.id
    ensures Replay<V, E>([Added(x), Added(y)]) == State(Pair(x, y), [], [])
  {
    var es: seq<Envelope<V, E>> := [Added(x), Added(y)];
    assert es[..0] == [] && es[..1] == [es[0]] && es[..2] == es;
    assert Strip(x) == x && Strip(y) == y;
    hide Replay, Strip;
    ReplayEmpty<V, E>();
    ReplaySnoc(es, 0);
    ReplaySnoc(es, 1);
    assert [] + [x.id] == [x.id] && [x.id] + [y.id] == [x.id, y.id];
  }

  lemma CheckpointOfTwo<V>(x: Spawn<V>, y: Spawn<V>)
    requires {x.id, y.id} == {None, Some(0)} && x.id != y.id
    ensures Pair(x, y).Valid() && Checkpoint(Pair(x, y)) == [x, y]
  {
    var order: seq<Key> := [x.id, y.id];
    assert order[..1] == [x.id] && order[..1][..0] == [];
    assert Rank(x.id) == Rank(y.id);
    assert Sorted([x.id]) == Insert([], x.id) == [x.id];
    assert Sorted(order) == Insert([x.id], y.id) == [x.id] + [y.id];
  }

  lemma EitherOrder<V, E>(x: Spawn<V>, y: Spawn<V>)
    requires x.fields == map[] && y.fields == map[] && x.id == None && y.id == Some(0)
    ensures SameSegment<V, E>(Segment([], [Added(x), Added(y)]), Segment([], [Added(y), Added(x)]))
  {
    forall k
      ensures Essential<V, E>(k, [Added(x), Added(y)], None) == Essential<V, E>(k, [Added(y), Added(x)], None)
    {
      EssentialOfTwo<V, E>(k, x, y);
      EssentialOfTwo<V, E>(k, y, x);
    }
  }

  /** Of two spawns added under different ids, each is the only change under its own. */
  lemma EssentialOfTwo<V, E>(k: Key, x: Spawn<V>, y: Spawn<V>)
    requires x.id != y.id
    ensures Essential<V, E>(k, [Added(x), Added(y)], None) ==
            if k == x.id then [Added(Strip(x))] else if k == y.id then [Added(Strip(y))] else []
  {
    hide Strip;
    var es: seq<Envelope<V, E>> := [Added(x), Added(y)];
    assert es[..1] == [es[0]] && es[..1][..0] == [];
    assert Track<V, E>(k, [], None) == None;
    var one := Track(k, es[..1], None);
    assert one == TrackOne(k, es[0], None);
    assert Essential(k, es[..1], None) == [] + if one == None then [] else [Canonical(es[0])];
    assert Essential(k, es, None) ==
           Essential(k, es[..1], None) + if TrackOne(k, es[1], one) == one then [] else [Canonical(es[1])];
  }

  // ---- Comparing the two results ------------------------------------------------------------------

  datatype Diff = Same | DifferAt(index: nat) | CountsDiffer(fewer: nat)

  /** None exactly when the lists are equal; else the first place they differ, or where one ends. */
  method FirstDiff<T(==)>(a: seq<T>, b: seq<T>) returns (r: Diff)
    ensures r == Same <==> a == b
    ensures r.DifferAt? ==>
      r.index < |a| && r.index < |b| && a[..r.index] == b[..r.index] && a[r.index] != b[r.index]
    ensures r.CountsDiffer? ==>
      && |a| != |b| && r.fewer == (if |a| < |b| then |a| else |b|) && a[..r.fewer] == b[..r.fewer]
  {
    var n := if |a| < |b| then |a| else |b|;
    for i := 0 to n
      invariant a[..i] == b[..i]
    {
      if a[i] != b[i] {
        return DifferAt(i);
      }
      assert a[..i + 1] == a[..i] + [a[i]] && b[..i + 1] == b[..i] + [b[i]];
    }
    if |a| != |b| {
      return CountsDiffer(n);
    }
    assert a[..n] == a && b[..n] == b;
    return Same;
  }
}
