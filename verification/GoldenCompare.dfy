/** Golden comparison: two envelope streams are replayed into spawn maps and the maps compared. */
module GoldenCompare {
  import opened Options

  /** A spawn's id, which a record may lack. */
  type Key = Option<nat>

  datatype Spawn<V> = Spawn(id: Key, fields: map<string, V>)

  /** An envelope without `seq` and `server_ts_ms`. A `spawn_added` with no spawn carries an empty one. */
  datatype Envelope<V, E> =
    | Snapshot(spawns: seq<Spawn<V>>)
    | Added(spawn: Spawn<V>)
    | Updated(id: Key, fields: map<string, V>)
    | Removed(id: Key)
    | Other(event: E)

  const ASYNC_SPAWN_FIELDS: set<string> := {"guild_tag"}

  function Strip<V>(s: Spawn<V>): Spawn<V> {
    s.(fields := s.fields - ASYNC_SPAWN_FIELDS)
  }

  // ---- The running dictionary, which remembers the order its keys were put in -----------------

  predicate Distinct(s: seq<Key>) {
    forall i, j | 0 <= i < j < |s| :: s[i] != s[j]
  }

  datatype Dict<V> = Dict(order: seq<Key>, at: map<Key, Spawn<V>>) {
    predicate Valid() {
      && Distinct(order)
      && (forall k | k in order :: k in at) && (forall k | k in at :: k in order)
      && (forall k | k in at :: at[k].id == k)
    }

    function Get(k: Key): Option<Spawn<V>> {
      if k in at then Some(at[k]) else None
    }

    function Put(s: Spawn<V>): Dict<V> {
      Dict(if s.id in at then order else order + [s.id], at[s.id := s])
    }

    function Drop(k: Key): Dict<V> {
      Dict(Without(order, k), at - {k})
    }
  }

  function Without(s: seq<Key>, k: Key): seq<Key> {
    if s == [] then []
    else Without(s[..|s| - 1], k) + if s[|s| - 1] == k then [] else [s[|s| - 1]]
  }

  lemma {:induction false} WithoutIff(s: seq<Key>, k: Key)
    ensures forall x :: x in Without(s, k) <==> x in s && x != k
  {
    if s != [] {
      var n := |s| - 1;
      WithoutIff(s[..n], k);
      assert s == s[..n] + [s[n]];
    }
  }

  lemma {:induction false} WithoutDistinct(s: seq<Key>, k: Key)
    requires Distinct(s)
    ensures Distinct(Without(s, k))
  {
    if s != [] {
      var n := |s| - 1;
      WithoutDistinct(s[..n], k);
      WithoutIff(s[..n], k);
      var r := Without(s[..n], k);
      assert forall i | 0 <= i < |r| :: r[i] in r;
    }
  }

  // ---- Checkpoints: the records, sorted by id -----------------------------------------------------

  /** A record without an id sorts as if it had id 0. */
  function Rank(k: Key): nat {
    if k.Some? then k.value else 0
  }

  /** Behind everything that does not rank higher: sorting is stable. */
  function Insert(s: seq<Key>, k: Key): seq<Key> {
    if s == [] || Rank(s[|s| - 1]) <= Rank(k) then s + [k]
    else Insert(s[..|s| - 1], k) + [s[|s| - 1]]
  }

  function Sorted(s: seq<Key>): seq<Key> {
    if s == [] then [] else Insert(Sorted(s[..|s| - 1]), s[|s| - 1])
  }

  function Records<V>(ks: seq<Key>, at: map<Key, Spawn<V>>): (r: seq<Spawn<V>>)
    requires forall k | k in ks :: k in at
    ensures |r| == |ks| && forall i | 0 <= i < |ks| :: r[i] == at[ks[i]]
  {
    seq(|ks|, i requires 0 <= i < |ks| => at[ks[i]])
  }

  function Checkpoint<V>(d: Dict<V>): seq<Spawn<V>>
    requires d.Valid()
  {
    SortedIff(d.order);
    Records(Sorted(d.order), d.at)
  }

  lemma {:induction false} InsertIff(s: seq<Key>, k: Key)
    ensures forall x :: x in Insert(s, k) <==> x in s || x == k
    ensures |Insert(s, k)| == |s| + 1
  {
    if s != [] && Rank(s[|s| - 1]) > Rank(k) {
      InsertIff(s[..|s| - 1], k);
      assert s == s[..|s| - 1] + [s[|s| - 1]];
    }
  }

  lemma {:induction false} SortedIff(s: seq<Key>)
    ensures forall x :: x in Sorted(s) <==> x in s
    ensures |Sorted(s)| == |s|
  {
    if s != [] {
      var n := |s| - 1;
      SortedIff(s[..n]);
      InsertIff(Sorted(s[..n]), s[n]);
      assert s == s[..n] + [s[n]];
    }
  }

  ghost predicate Increasing(s: seq<Key>) {
    forall i, j | 0 <= i < j < |s| :: Rank(s[i]) < Rank(s[j])
  }

  ghost predicate RanksDiffer(s: seq<Key>) {
    forall i, j | 0 <= i < j < |s| :: Rank(s[i]) != Rank(s[j])
  }

  lemma {:induction false} InsertKeepsIncreasing(s: seq<Key>, k: Key)
    requires Increasing(s) && forall x | x in s :: Rank(x) != Rank(k)
    ensures Increasing(Insert(s, k))
  {
    if s != [] && Rank(s[|s| - 1]) > Rank(k) {
      var n := |s| - 1;
      InsertKeepsIncreasing(s[..n], k);
      InsertIff(s[..n], k);
      var r := Insert(s[..n], k);
      forall i | 0 <= i < |r|
        ensures Rank(r[i]) < Rank(s[n])
      {
        assert r[i] in r;
      }
    }
  }

  lemma {:induction false} SortedIncreases(s: seq<Key>)
    requires RanksDiffer(s)
    ensures Increasing(Sorted(s))
  {
    if s != [] {
      var n := |s| - 1;
      SortedIncreases(s[..n]);
      SortedIff(s[..n]);
      InsertKeepsIncreasing(Sorted(s[..n]), s[n]);
    }
  }

  /** In an increasing list, dropping the last key takes out just that key. */
  lemma LastIsGreatest(a: seq<Key>)
    requires Increasing(a) && a != []
    ensures forall k | k in a :: Rank(k) <= Rank(a[|a| - 1])
    ensures forall k :: k in a[..|a| - 1] <==> k in a && k != a[|a| - 1]
  {
    assert a == a[..|a| - 1] + [a[|a| - 1]];
  }

  /** There is one way to put a set of keys in increasing order. */
  lemma {:induction false} IncreasingUnique(a: seq<Key>, b: seq<Key>)
    requires Increasing(a) && Increasing(b) && forall k :: k in a <==> k in b
    ensures a == b
  {
    if a == [] {
      if b != [] {
        Inhabited(b);
      }
    } else {
      var n, m := |a| - 1, |b| - 1;
      assert a[n] in b;
      assert b[m] in a;
      LastIsGreatest(a);
      LastIsGreatest(b);
      SameRankSameKey(a, a[n], b[m]);
      forall k
        ensures k in a[..n] <==> k in b[..m]
      {
        assert k in a <==> k in b;
      }
      IncreasingUnique(a[..n], b[..m]);
      assert a == a[..n] + [a[n]] && b == b[..m] + [b[m]];
    }
  }

  lemma Inhabited(s: seq<Key>)
    requires s != []
    ensures exists k :: k in s
  {
    assert s[0] in s;
  }

  lemma SameRankSameKey(a: seq<Key>, x: Key, y: Key)
    requires Increasing(a) && x in a && y in a && Rank(x) == Rank(y)
    ensures x == y
  {
  }

  /** A record without an id and one with id 0 side by side: the only keys that rank the same. */
  predicate Tie<V>(at: map<Key, Spawn<V>>) {
    None in at && Some(0) in at
  }

  /** Without such a pair, the order things were put in the dictionary does not show. */
  lemma CheckpointIgnoresOrder<V>(d: Dict<V>, e: Dict<V>)
    requires d.Valid() && e.Valid() && d.at == e.at && !Tie(d.at)
    ensures Checkpoint(d) == Checkpoint(e)
  {
    OrdersAgree(d.order, e.order);
    SortedIff(d.order);
  }

  lemma OrdersAgree(a: seq<Key>, b: seq<Key>)
    requires Distinct(a) && Distinct(b)
    requires forall k :: k in a <==> k in b
    requires !(None in a && Some(0) in a)
    ensures Sorted(a) == Sorted(b)
  {
    assert RanksDiffer(a) by {
      forall i, j | 0 <= i < j < |a|
        ensures Rank(a[i]) != Rank(a[j])
      {
        assert a[i] in a && a[j] in a;
      }
    }
    assert RanksDiffer(b) by {
      forall i, j | 0 <= i < j < |b|
        ensures Rank(b[i]) != Rank(b[j])
      {
        assert b[i] in b && b[j] in b;
      }
    }
    SortedIncreases(a);
    SortedIncreases(b);
    SortedIff(a);
    SortedIff(b);
    IncreasingUnique(Sorted(a), Sorted(b));
  }

  /** With such a pair the order does show: two dictionaries with the same contents, one filled in
      either order, give different checkpoints. */
  lemma TieShowsOrder<V>(at: map<Key, Spawn<V>>)
    requires (forall k | k in at :: at[k].id == k) && Tie(at)
    ensures exists d: Dict<V>, e: Dict<V> ::
      d.Valid() && e.Valid() && d.at == at && e.at == at && Checkpoint(d) != Checkpoint(e)
  {
    var d := TiedDict(at, None, Some(0));
    var e := TiedDict(at, Some(0), None);
    assert Checkpoint(d)[0] != Checkpoint(e)[0];
  }

  /** A dictionary with these contents whose checkpoint starts with `x`. */
  lemma TiedDict<V>(at: map<Key, Spawn<V>>, x: Key, y: Key) returns (d: Dict<V>)
    requires (forall k | k in at :: at[k].id == k) && x in at && y in at && {x, y} == {None, Some(0)}
    ensures d.Valid() && d.at == at && |Checkpoint(d)| > 0 && Checkpoint(d)[0] == at[x]
  {
    hide Sorted;
    var rest := ListOf(at.Keys - {x, y});
    d := Dict([x, y] + rest, at);
    assert forall k | k in rest :: k in at.Keys - {x, y};
    TiedFirst([x, y], rest);
    TiedValid(d, x, y, rest);
    hide Rank, Dict.Valid;
    assert Sorted(d.order)[0] == Sorted(d.order)[..2][0];
  }

  lemma TiedValid<V>(d: Dict<V>, x: Key, y: Key, rest: seq<Key>)
    requires (forall k | k in d.at :: d.at[k].id == k) && x in d.at && y in d.at && x != y
    requires Distinct(rest) && d.order == [x, y] + rest && forall k :: k in rest <==> k in d.at.Keys - {x, y}
    ensures d.Valid()
  {
    assert x !in rest && y !in rest && forall i | 0 <= i < |rest| :: rest[i] in rest;
    assert forall k | k in d.at :: k == x || k == y || k in rest;
    assert Distinct(d.order);
  }

  ghost function ListOf(s: set<Key>): (r: seq<Key>)
    ensures forall k :: k in r <==> k in s
    ensures Distinct(r)
  {
    if s == {} then [] else
      var k :| k in s;
      ListOf(s - {k}) + [k]
  }

  /** The keys of rank 0 stay in front, in the order they came. */
  lemma {:induction false} TiedFirst(two: seq<Key>, rest: seq<Key>)
    requires |two| == 2 && Rank(two[0]) == Rank(two[1]) == 0
    requires forall k | k in rest :: Rank(k) > 0
    ensures var s := Sorted(two + rest); |s| == 2 + |rest| && s[..2] == two
    ensures forall k | k in Sorted(two + rest)[2..] :: Rank(k) > 0
  {
    if rest == [] {
      assert two + rest == two && two[..1] == [two[0]] && two[..1][..0] == [];
      assert Sorted([]) == [];
      assert Sorted(two[..1]) == [two[0]];
    } else {
      var n := |rest| - 1;
      assert (two + rest)[..|two + rest| - 1] == two + rest[..n];
      TiedFirst(two, rest[..n]);
      assert rest[n] in rest;
      InsertBehind(Sorted(two + rest[..n]), rest[n]);
    }
  }

  lemma {:induction false} InsertBehind(s: seq<Key>, k: Key)
    requires |s| >= 2 && Rank(s[0]) == Rank(s[1]) == 0 && Rank(k) > 0
    requires forall x | x in s[2..] :: Rank(x) > 0
    ensures |Insert(s, k)| == |s| + 1 && Insert(s, k)[..2] == s[..2]
    ensures forall x | x in Insert(s, k)[2..] :: Rank(x) > 0
  {
    if Rank(s[|s| - 1]) > Rank(k) {
      var n := |s| - 1;
      assert s[..n][2..] == s[2..n];
      InsertBehind(s[..n], k);
      assert s[n] in s[2..];
      var r := Insert(s[..n], k);
      assert (r + [s[n]])[2..] == r[2..] + [s[n]];
    } else {
      assert (s + [k])[2..] == s[2..] + [k];
    }
  }

  /** The checkpoint is a function of the contents alone exactly when there is no such pair. */
  lemma OrderHiddenIff<V>(at: map<Key, Spawn<V>>)
    requires forall k | k in at :: at[k].id == k
    ensures (forall d: Dict<V>, e: Dict<V> | d.Valid() && e.Valid() && d.at == at && e.at == at ::
               Checkpoint(d) == Checkpoint(e))
            <==> !Tie(at)
  {
    if Tie(at) {
      TieShowsOrder(at);
    } else {
      forall d: Dict<V>, e: Dict<V> | d.Valid() && e.Valid() && d.at == at && e.at == at
        ensures Checkpoint(d) == Checkpoint(e)
      {
        CheckpointIgnoresOrder(d, e);
      }
    }
  }

  // ---- Replaying ---------------------------------------------------------------------------------

  /** A delta's effect on the dictionary. An update to an unknown id is ignored; one to a known id is
      merged in as it stands, with nothing stripped. */
  function Apply<V, E>(d: Dict<V>, e: Envelope<V, E>): Dict<V> {
    match e
    case Added(s) => d.Put(Strip(s))
    case Updated(k, fields) => if k in d.at then d.Put(d.at[k].(fields := d.at[k].fields + fields)) else d
    case Removed(k) => d.Drop(k)
    case _ => d
  }

  function FromSpawns<V>(spawns: seq<Spawn<V>>): Dict<V> {
    if spawns == [] then Dict([], map[])
    else FromSpawns(spawns[..|spawns| - 1]).Put(Strip(spawns[|spawns| - 1]))
  }

  lemma ApplyKeepsValid<V, E>(d: Dict<V>, e: Envelope<V, E>)
    requires d.Valid() && (e.Updated? && e.id in d.at ==> d.at[e.id].id == e.id)
    ensures Apply(d, e).Valid()
  {
    if e.Removed? {
      WithoutIff(d.order, e.id);
      WithoutDistinct(d.order, e.id);
    }
  }

  lemma {:induction false} FromSpawnsValid<V>(spawns: seq<Spawn<V>>)
    ensures FromSpawns(spawns).Valid()
  {
    if spawns != [] {
      FromSpawnsValid(spawns[..|spawns| - 1]);
    }
  }

  datatype State<V, E> = State(running: Dict<V>, checkpoints: seq<seq<Spawn<V>>>, events: seq<E>)

  function Consume<V, E>(st: State<V, E>, e: Envelope<V, E>): State<V, E>
    requires st.running.Valid()
  {
    match e
    case Snapshot(spawns) =>
      State(FromSpawns(spawns), st.checkpoints + [Checkpoint(st.running)], st.events)
    case Other(x) => st.(events := st.events + [x])
    case _ => st.(running := Apply(st.running, e))
  }

  function Replay<V, E>(es: seq<Envelope<V, E>>): (st: State<V, E>)
    ensures st.running.Valid()
  {
    if es == [] then State(Dict([], map[]), [], [])
    else
      var st := Replay(es[..|es| - 1]);
      var e := es[|es| - 1];
      ApplyKeepsValid(st.running, e);
      if e.Snapshot? then FromSpawnsValid(e.spawns); Consume(st, e) else Consume(st, e)
  }

  /** The script's result: a checkpoint at each snapshot and at the end, and the other envelopes. */
  function Normalized<V, E>(es: seq<Envelope<V, E>>): (seq<seq<Spawn<V>>>, seq<E>) {
    var st := Replay(es);
    (st.checkpoints + [Checkpoint(st.running)], st.events)
  }

  method Normalize<V, E>(es: seq<Envelope<V, E>>) returns (checkpoints: seq<seq<Spawn<V>>>, events: seq<E>)
    ensures (checkpoints, events) == Normalized(es)
  {
    hide Replay, Checkpoint, FromSpawns, Strip, Dict.Valid, Dict.Put, Dict.Drop;
    var running := Dict([], map[]);
    checkpoints, events := [], [];
    ReplayEmpty<V, E>();
    for i := 0 to |es|
      invariant running.Valid() && State(running, checkpoints, events) == Replay(es[..i])
    {
      ReplaySnoc(es, i);
      match es[i]
      case Snapshot(spawns) =>
        checkpoints := checkpoints + [Checkpoint(running)];
        running := FromSpawns(spawns);
      case Added(s) =>
        running := running.Put(Strip(s));
      case Updated(k, fields) =>
        if k in running.at {
          running := running.Put(running.at[k].(fields := running.at[k].fields + fields));
        }
      case Removed(k) =>
        running := running.Drop(k);
      case Other(x) =>
        events := events + [x];
    }
    assert es[..|es|] == es;
    checkpoints := checkpoints + [Checkpoint(running)];
  }

  lemma ReplayEmpty<V, E>()
    ensures Replay<V, E>([]) == State(Dict([], map[]), [], [])
  {
  }

  lemma ReplaySnoc<V, E>(es: seq<Envelope<V, E>>, i: nat)
    requires i < |es|
    ensures Replay(es[..i + 1]) == Consume(Replay(es[..i]), es[i])
  {
    assert es[..i + 1][..i] == es[..i];
  }

  // ---- Segments ------------------------------------------------------------------------------------

  /** What lies between two snapshots: the spawns it starts from and the deltas that follow. */
  datatype Segment<V, E> = Segment(spawns: seq<Spawn<V>>, deltas: seq<Envelope<V, E>>)

  function Segments<V, E>(es: seq<Envelope<V, E>>): (r: seq<Segment<V, E>>)
    ensures r != []
  {
    if es == [] then [Segment([], [])]
    else
      var r := Segments(es[..|es| - 1]);
      var e := es[|es| - 1];
      var n := |r| - 1;
      match e
      case Snapshot(spawns) => r + [Segment(spawns, [])]
      case Other(_) => r
      case _ => r[..n] + [r[n].(deltas := r[n].deltas + [e])]
  }

  function Events<V, E>(es: seq<Envelope<V, E>>): seq<E> {
    if es == [] then []
    else
      var e := es[|es| - 1];
      Events(es[..|es| - 1]) + if e.Other? then [e.event] else []
  }

  function ApplyAll<V, E>(d: Dict<V>, ds: seq<Envelope<V, E>>): Dict<V> {
    if ds == [] then d else Apply(ApplyAll(d, ds[..|ds| - 1]), ds[|ds| - 1])
  }

  function Final<V, E>(g: Segment<V, E>): Dict<V> {
    ApplyAll(FromSpawns(g.spawns), g.deltas)
  }

  lemma {:induction false} FinalValid<V, E>(g: Segment<V, E>)
    ensures Final(g).Valid()
    decreases |g.deltas|
  {
    if g.deltas == [] {
      FromSpawnsValid(g.spawns);
    } else {
      FinalValid(g.(deltas := g.deltas[..|g.deltas| - 1]));
      ApplyKeepsValid(Final(g.(deltas := g.deltas[..|g.deltas| - 1])), g.deltas[|g.deltas| - 1]);
    }
  }

  function SegmentCheckpoint<V, E>(g: Segment<V, E>): seq<Spawn<V>> {
    FinalValid(g);
    Checkpoint(Final(g))
  }

  function CheckpointsOf<V, E>(gs: seq<Segment<V, E>>): (r: seq<seq<Spawn<V>>>)
    ensures |r| == |gs| && forall i | 0 <= i < |gs| :: r[i] == SegmentCheckpoint(gs[i])
  {
    seq(|gs|, i requires 0 <= i < |gs| => SegmentCheckpoint(gs[i]))
  }

  lemma SegmentCheckpointIs<V, E>(g: Segment<V, E>)
    ensures Final(g).Valid() && SegmentCheckpoint(g) == Checkpoint(Final(g))
  {
    FinalValid(g);
  }

  lemma CheckpointsSnoc<V, E>(gs: seq<Segment<V, E>>)
    requires gs != []
    ensures CheckpointsOf(gs) == CheckpointsOf(gs[..|gs| - 1]) + [SegmentCheckpoint(gs[|gs| - 1])]
  {
    hide SegmentCheckpoint;
  }

  lemma FinalSnoc<V, E>(g: Segment<V, E>, e: Envelope<V, E>)
    ensures Final(g.(deltas := g.deltas + [e])) == Apply(Final(g), e)
  {
    assert (g.deltas + [e])[..|g.deltas|] == g.deltas;
  }

  /** The loop's result, segment by segment. */
  lemma {:induction false} ReplayBySegments<V, E>(es: seq<Envelope<V, E>>)
    ensures var gs := Segments(es);
            Replay(es).running == Final(gs[|gs| - 1])
            && Replay(es).checkpoints == CheckpointsOf(gs[..|gs| - 1])
            && Replay(es).events == Events(es)
  {
    hide SegmentCheckpoint, Checkpoint, Dict.Valid, Final, CheckpointsOf, Apply, FromSpawns, Replay, Segments;
    if es == [] {
      EmptySegment<V, E>();
      ReplayEmpty<V, E>();
    } else {
      var n := |es| - 1;
      ReplayBySegments(es[..n]);
      ReplaySnoc(es, n);
      SegmentsSnoc(es);
      assert es[..n + 1] == es;
      var gs := Segments(es[..n]);
      if es[n].Snapshot? {
        CheckpointsSnoc(gs);
        SegmentCheckpointIs(gs[|gs| - 1]);
        SegmentStart<V, E>(es[n].spawns);
        assert (gs + [Segment(es[n].spawns, [])])[..|gs|] == gs;
      } else if !es[n].Other? {
        FinalSnoc(gs[|gs| - 1], es[n]);
      }
    }
  }

  lemma SegmentsSnoc<V, E>(es: seq<Envelope<V, E>>)
    requires es != []
    ensures var r, e, gs := Segments(es[..|es| - 1]), es[|es| - 1], Segments(es);
            var n := |r| - 1;
            if e.Snapshot? then gs == r + [Segment(e.spawns, [])]
            else if e.Other? then gs == r
            else |gs| == |r| && gs[..n] == r[..n] && gs[n] == r[n].(deltas := r[n].deltas + [e])
  {
  }

  lemma SegmentStart<V, E>(spawns: seq<Spawn<V>>)
    ensures Final(Segment<V, E>.Segment(spawns, [])) == FromSpawns(spawns)
  {
  }

  lemma EmptySegment<V, E>()
    ensures Final(Segment<V, E>.Segment([], [])) == Dict([], map[]) && CheckpointsOf<V, E>([]) == []
    ensures Segments<V, E>([]) == [Segment([], [])]
  {
  }

  lemma NormalizedBySegments<V, E>(es: seq<Envelope<V, E>>)
    ensures Normalized(es) == (CheckpointsOf(Segments(es)), Events(es))
  {
    ReplayBySegments(es);
    hide Checkpoint, Dict.Valid, Replay, Segments, Events, Final, CheckpointsOf;
    CheckpointsSnoc(Segments(es));
    SegmentCheckpointIs(Segments(es)[|Segments(es)| - 1]);
  }

  // ---- One id at a time -------------------------------------------------------------------------------

  /** The record under `k` after one delta, given the record before. */
  function TrackOne<V, E>(k: Key, e: Envelope<V, E>, cur: Option<Spawn<V>>): Option<Spawn<V>> {
    match e
    case Added(s) => if s.id == k then Some(Strip(s)) else cur
    case Updated(id, fields) =>
      if id == k && cur.Some? then Some(cur.value.(fields := cur.value.fields + fields)) else cur
    case Removed(id) => if id == k then None else cur
    case _ => cur
  }

  function Track<V, E>(k: Key, ds: seq<Envelope<V, E>>, cur: Option<Spawn<V>>): Option<Spawn<V>> {
    if ds == [] then cur else TrackOne(k, ds[|ds| - 1], Track(k, ds[..|ds| - 1], cur))
  }

  /** A record depends on no delta about another id. */
  lemma {:induction false} TracksOneId<V, E>(d: Dict<V>, ds: seq<Envelope<V, E>>, k: Key)
    requires d.Valid()
    ensures ApplyAll(d, ds).Valid() && ApplyAll(d, ds).Get(k) == Track(k, ds, d.Get(k))
  {
    if ds != [] {
      var n := |ds| - 1;
      TracksOneId(d, ds[..n], k);
      ApplyKeepsValid(ApplyAll(d, ds[..n]), ds[n]);
    }
  }

  function Canonical<V, E>(e: Envelope<V, E>): Envelope<V, E> {
    if e.Added? then Added(Strip(e.spawn)) else e
  }

  /** The deltas that change the record under `k`, without the asynchronous fields an added spawn may
      or may not carry: a repeated add of the current record, an update or a removal of an unknown id
      are left out, and so is everything about other ids. */
  ghost function Essential<V, E>(k: Key, ds: seq<Envelope<V, E>>, cur: Option<Spawn<V>>): seq<Envelope<V, E>> {
    if ds == [] then []
    else
      var n := |ds| - 1;
      var now := Track(k, ds[..n], cur);
      Essential(k, ds[..n], cur) + if TrackOne(k, ds[n], now) == now then [] else [Canonical(ds[n])]
  }

  lemma {:induction false} EssentialIsEnough<V, E>(k: Key, ds: seq<Envelope<V, E>>, cur: Option<Spawn<V>>)
    ensures Track(k, Essential(k, ds, cur), cur) == Track(k, ds, cur)
  {
    if ds != [] {
      var n := |ds| - 1;
      EssentialIsEnough(k, ds[..n], cur);
      var pre, now := Essential(k, ds[..n], cur), Track(k, ds[..n], cur);
      if TrackOne(k, ds[n], now) != now {
        assert Essential(k, ds, cur) == pre + [Canonical(ds[n])];
        TrackSnoc(k, pre, Canonical(ds[n]), cur);
        StripTwice(ds[n], k, now);
      } else {
        assert Essential(k, ds, cur) == pre;
      }
    }
  }

  lemma TrackSnoc<V, E>(k: Key, ds: seq<Envelope<V, E>>, e: Envelope<V, E>, cur: Option<Spawn<V>>)
    ensures Track(k, ds + [e], cur) == TrackOne(k, e, Track(k, ds, cur))
  {
    assert (ds + [e])[..|ds|] == ds;
  }

  lemma StripTwice<V, E>(e: Envelope<V, E>, k: Key, cur: Option<Spawn<V>>)
    ensures TrackOne(k, Canonical(e), cur) == TrackOne(k, e, cur)
  {
    if e.Added? {
      assert Strip(Strip(e.spawn)) == Strip(e.spawn);
    }
  }

  // ---- The claim -----------------------------------------------------------------------------------------

  /** The same spawns at the snapshot and, for each id, the same changes in the same order. */
  ghost predicate SameSegment<V, E>(g: Segment<V, E>, h: Segment<V, E>) {
    && FromSpawns(g.spawns).at == FromSpawns(h.spawns).at
    && forall k :: Essential(k, g.deltas, FromSpawns(g.spawns).Get(k))
                == Essential(k, h.deltas, FromSpawns(h.spawns).Get(k))
  }

  lemma SameSegmentSameMap<V, E>(g: Segment<V, E>, h: Segment<V, E>)
    requires SameSegment(g, h)
    ensures Final(g).at == Final(h).at
  {
    var d, e := FromSpawns(g.spawns), FromSpawns(h.spawns);
    FromSpawnsValid(g.spawns);
    FromSpawnsValid(h.spawns);
    forall k
      ensures Final(g).Get(k) == Final(h).Get(k)
    {
      TracksOneId(d, g.deltas, k);
      TracksOneId(e, h.deltas, k);
      EssentialIsEnough(k, g.deltas, d.Get(k));
      EssentialIsEnough(k, h.deltas, e.Get(k));
    }
    assert forall k :: k in Final(g).at <==> Final(g).Get(k).Some?;
    assert forall k :: k in Final(h).at <==> Final(h).Get(k).Some?;
    forall k | k in Final(g).at
      ensures Final(g).at[k] == Final(h).at[k]
    {
      assert Final(g).Get(k) == Final(h).Get(k);
    }
  }

  /** Two streams with the same changes per id within each segment have the same checkpoints, as long as no
      checkpoint shows the order its dictionary was filled in. */
  lemma SameSegmentsSameResult<V, E>(es: seq<Envelope<V, E>>, fs: seq<Envelope<V, E>>)
    requires |Segments(es)| == |Segments(fs)| && Events(es) == Events(fs)
    requires forall i | 0 <= i < |Segments(es)| ::
      SameSegment(Segments(es)[i], Segments(fs)[i]) && !Tie(Final(Segments(es)[i]).at)
    ensures Normalized(es) == Normalized(fs)
  {
    NormalizedBySegments(es);
    NormalizedBySegments(fs);
    var gs, hs := Segments(es), Segments(fs);
    forall i | 0 <= i < |gs|
      ensures SegmentCheckpoint(gs[i]) == SegmentCheckpoint(hs[i])
    {
      SameSegmentSameMap(gs[i], hs[i]);
      FinalValid(gs[i]);
      FinalValid(hs[i]);
      CheckpointIgnoresOrder(Final(gs[i]), Final(hs[i]));
    }
    assert CheckpointsOf(gs) == CheckpointsOf(hs);
  }

  // ---- Asynchronous fields ---------------------------------------------------------------------------------

  /** The stream as it would be had no asynchronous field been emitted yet. */
  function Unfilled<V, E>(e: Envelope<V, E>): Envelope<V, E> {
    match e
    case Snapshot(spawns) => Snapshot(StripAll(spawns))
    case Added(s) => Added(Strip(s))
    case Updated(k, fields) => Updated(k, fields - ASYNC_SPAWN_FIELDS)
    case _ => e
  }

  function UnfilledAll<V, E>(es: seq<Envelope<V, E>>): (r: seq<Envelope<V, E>>)
    ensures |r| == |es| && forall i | 0 <= i < |es| :: r[i] == Unfilled(es[i])
  {
    seq(|es|, i requires 0 <= i < |es| => Unfilled(es[i]))
  }

  function StripAll<V>(ss: seq<Spawn<V>>): (r: seq<Spawn<V>>)
    ensures |r| == |ss| && forall i | 0 <= i < |ss| :: r[i] == Strip(ss[i])
  {
    seq(|ss|, i requires 0 <= i < |ss| => Strip(ss[i]))
  }

  function StripDict<V>(d: Dict<V>): Dict<V> {
    Dict(d.order, map k | k in d.at :: Strip(d.at[k]))
  }

  predicate HasAsync<V>(fields: map<string, V>) {
    exists f | f in ASYNC_SPAWN_FIELDS :: f in fields
  }

  /** The ids whose record carries an asynchronous field. */
  function Filled<V>(d: Dict<V>): set<Key> {
    set k | k in d.at && HasAsync(d.at[k].fields)
  }

  /** A scan of the stream that keeps no records: which ids are tracked, which of them an update has
      given an asynchronous field since they were last added, whether no snapshot ever came while there
      were such ids, and whether none came while both no id and id 0 were tracked. */
  datatype Scan = Scan(known: set<Key>, filled: set<Key>, clean: bool, untied: bool)

  predicate BothRankZero(known: set<Key>) {
    None in known && Some(0) in known
  }

  function IdsOf<V>(spawns: seq<Spawn<V>>): set<Key> {
    set i | 0 <= i < |spawns| :: spawns[i].id
  }

  function ScanOne<V, E>(c: Scan, e: Envelope<V, E>): Scan {
    match e
    case Snapshot(spawns) =>
      Scan(IdsOf(spawns), {}, c.clean && c.filled == {}, c.untied && !BothRankZero(c.known))
    case Added(s) => c.(known := c.known + {s.id}, filled := c.filled - {s.id})
    case Updated(k, fields) =>
      if k in c.known && HasAsync(fields) then c.(filled := c.filled + {k}) else c
    case Removed(k) => c.(known := c.known - {k}, filled := c.filled - {k})
    case Other(_) => c
  }

  function ScanAll<V, E>(es: seq<Envelope<V, E>>): Scan {
    if es == [] then Scan({}, {}, true, true) else ScanOne(ScanAll(es[..|es| - 1]), es[|es| - 1])
  }

  /** Every asynchronous field that reached a tracked spawn by an update is gone by the next checkpoint. */
  predicate Clean<V, E>(es: seq<Envelope<V, E>>) {
    ScanAll(es).clean && ScanAll(es).filled == {}
  }

  /** At no checkpoint are a spawn without an id and one with id 0 tracked together. */
  predicate Untied<V, E>(es: seq<Envelope<V, E>>) {
    ScanAll(es).untied && !BothRankZero(ScanAll(es).known)
  }
}
