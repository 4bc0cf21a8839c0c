/** What the comparison does see, said on the fields that the envelopes carry. */
module GoldenFields {
  import opened Options
  import opened GoldenCompare

  // ---- The fields of a tracked spawn, envelope by envelope ----------------------------------------

  function FieldIn<V>(fields: map<string, V>, f: string): Option<V> {
    if f in fields then Some(fields[f]) else None
  }

  /** A field of the last spawn in the list with id `k`. The guild tag does not count. */
  function FieldOfLast<V>(ss: seq<Spawn<V>>, k: Key, f: string): Option<V> {
    if ss == [] || f == "guild_tag" then None
    else if ss[|ss| - 1].id == k then FieldIn(ss[|ss| - 1].fields, f)
    else FieldOfLast(ss[..|ss| - 1], k, f)
  }

  predicate Lists<V>(ss: seq<Spawn<V>>, k: Key) {
    exists i | 0 <= i < |ss| :: ss[i].id == k
  }

  /** A spawn is tracked from the snapshot or addition that names it to the removal or the snapshot that does not. */
  predicate Tracked<V, E>(es: seq<Envelope<V, E>>, k: Key) {
    if es == [] then false
    else
      var before := Tracked(es[..|es| - 1], k);
      match es[|es| - 1]
      case Snapshot(ss) => Lists(ss, k)
      case Added(s) => s.id == k || before
      case Removed(id) => id != k && before
      case _ => before
  }

  /** A field of the spawn tracked under `k`: what the last envelope that says something about it says. A guild
      tag counts only if it comes in an update. */
  function FieldOf<V, E>(es: seq<Envelope<V, E>>, k: Key, f: string): Option<V> {
    if es == [] then None
    else
      var n := |es| - 1;
      match es[n]
      case Snapshot(ss) => FieldOfLast(ss, k, f)
      case Added(s) =>
        if s.id != k then FieldOf(es[..n], k, f) else if f == "guild_tag" then None else FieldIn(s.fields, f)
      case Updated(id, fields) =>
        if id == k && Tracked(es[..n], k) && f in fields then Some(fields[f]) else FieldOf(es[..n], k, f)
      case Removed(id) => if id == k then None else FieldOf(es[..n], k, f)
      case Other(_) => FieldOf(es[..n], k, f)
  }

  // ---- The running dictionary holds them -----------------------------------------------------------

  /** The dictionary holds a record under `k` or not, and this in its field `f`. */
  ghost predicate Shows<V>(d: Dict<V>, k: Key, f: string, tracked: bool, field: Option<V>) {
    && (k in d.at <==> tracked)
    && (k in d.at ==> FieldIn(d.at[k].fields, f) == field)
    && (k !in d.at ==> field == None)
  }

  lemma StripShows<V>(s: Spawn<V>, f: string)
    ensures Strip(s).id == s.id
    ensures FieldIn(Strip(s).fields, f) == if f == "guild_tag" then None else FieldIn(s.fields, f)
  {
  }

  /** After a snapshot there is a record for each id it lists: the last spawn listed with that id, without its
      guild tag and with all its other fields as they are. */
  lemma {:induction false} SnapshotShows<V>(ss: seq<Spawn<V>>, k: Key, f: string)
    ensures Shows(FromSpawns(ss), k, f, Lists(ss, k), FieldOfLast(ss, k, f))
  {
    hide Strip;
    if ss != [] {
      var n := |ss| - 1;
      SnapshotShows(ss[..n], k, f);
      StripShows(ss[n], f);
      assert ss == ss[..n] + [ss[n]];
    }
  }

  lemma {:induction false} ReplayShows<V, E>(es: seq<Envelope<V, E>>, k: Key, f: string)
    ensures Shows(Replay(es).running, k, f, Tracked(es, k), FieldOf(es, k, f))
  {
    hide Replay, FromSpawns, Strip, Lists, FieldOfLast, Dict.Valid, Dict.Drop;
    if es == [] {
      ReplayEmpty<V, E>();
    } else {
      var n := |es| - 1;
      ReplayShows(es[..n], k, f);
      ReplaySnoc(es, n);
      assert es[..n + 1] == es;
      RecordsHaveIds(Replay(es[..n]).running);
      match es[n]
      case Snapshot(ss) => SnapshotShows(ss, k, f);
      case Added(s) => StripShows(s, f);
      case Removed(id) => DropShows(Replay(es[..n]).running, id, k);
      case _ =>
    }
  }

  lemma RecordsHaveIds<V>(d: Dict<V>)
    requires d.Valid()
    ensures forall k | k in d.at :: d.at[k].id == k
  {
  }

  lemma DropShows<V>(d: Dict<V>, id: Key, k: Key)
    ensures k in d.Drop(id).at <==> k != id && k in d.at
    ensures k in d.Drop(id).at ==> d.Drop(id).at[k] == d.at[k]
  {
  }

  // ---- What is compared ------------------------------------------------------------------------------

  /** How many envelopes come before each snapshot, and how many there are at the end: where the spawns are
      compared. */
  function Cuts<V, E>(es: seq<Envelope<V, E>>): (r: seq<nat>)
    ensures r != [] && forall i | 0 <= i < |r| :: r[i] <= |es|
  {
    Snapshots(es) + [|es|]
  }

  function Snapshots<V, E>(es: seq<Envelope<V, E>>): (r: seq<nat>)
    ensures forall i | 0 <= i < |r| :: r[i] < |es| && es[r[i]].Snapshot?
    ensures forall i, j | 0 <= i < j < |r| :: r[i] < r[j]
  {
    if es == [] then []
    else
      var n := |es| - 1;
      Snapshots(es[..n]) + if es[n].Snapshot? then [n] else []
  }

  lemma {:induction false} SnapshotsAll<V, E>(es: seq<Envelope<V, E>>)
    ensures forall n | 0 <= n < |es| && es[n].Snapshot? :: n in Snapshots(es)
  {
    if es != [] {
      SnapshotsAll(es[..|es| - 1]);
    }
  }

  lemma {:induction false} CheckpointsAtSnapshots<V, E>(es: seq<Envelope<V, E>>)
    ensures var (cs, ns) := (Replay(es).checkpoints, Snapshots(es));
      |cs| == |ns| && forall i | 0 <= i < |ns| :: cs[i] == Checkpoint(Replay(es[..ns[i]]).running)
  {
    hide Replay, Checkpoint, Dict.Valid, FromSpawns, Apply;
    if es == [] {
      ReplayEmpty<V, E>();
    } else {
      var n := |es| - 1;
      CheckpointsAtSnapshots(es[..n]);
      ReplaySnoc(es, n);
      assert es[..n + 1] == es;
      forall i | 0 <= i < |Snapshots(es[..n])|
        ensures es[..n][..Snapshots(es[..n])[i]] == es[..Snapshots(es[..n])[i]]
      {
      }
    }
  }

  lemma CheckpointsAtCuts<V, E>(es: seq<Envelope<V, E>>)
    ensures var (cs, ns) := (Normalized(es).0, Cuts(es));
      |cs| == |ns| && forall i | 0 <= i < |ns| :: cs[i] == Checkpoint(Replay(es[..ns[i]]).running)
  {
    hide Replay, Checkpoint, Dict.Valid, Snapshots;
    CheckpointsAtSnapshots(es);
    assert es[..|es|] == es;
  }

  /** The other envelopes are kept, all of them and in order. */
  lemma {:induction false} EventsKept<V, E>(es: seq<Envelope<V, E>>) returns (ix: seq<nat>)
    ensures var xs := Normalized(es).1;
      && |ix| == |xs|
      && (forall j | 0 <= j < |ix| :: ix[j] < |es| && es[ix[j]] == Other(xs[j]))
      && (forall i, j | 0 <= i < j < |ix| :: ix[i] < ix[j])
      && (forall n | 0 <= n < |es| && es[n].Other? :: n in ix)
  {
    hide Replay, Checkpoint, Dict.Valid, FromSpawns, Apply;
    if es == [] {
      ReplayEmpty<V, E>();
      ix := [];
    } else {
      var n := |es| - 1;
      ix := EventsKept(es[..n]);
      ReplaySnoc(es, n);
      assert es[..n + 1] == es;
      ix := ix + if es[n].Other? then [n] else [];
    }
  }

  /** A checkpoint tells the contents of the dictionary. */
  lemma CheckpointTells<V>(d: Dict<V>, e: Dict<V>)
    requires d.Valid() && e.Valid() && Checkpoint(d) == Checkpoint(e)
    ensures d.at == e.at
  {
    SortedIff(d.order);
    SortedIff(e.order);
    var (xs, ys) := (Sorted(d.order), Sorted(e.order));
    hide Sorted;
    forall i | 0 <= i < |xs|
      ensures i < |ys| && xs[i] == ys[i] && d.at[xs[i]] == e.at[ys[i]]
    {
      assert Checkpoint(d)[i] == Checkpoint(e)[i];
      assert xs[i] in xs && ys[i] in ys;
    }
    assert |xs| == |ys|;
    forall k | k in d.at
      ensures k in e.at && d.at[k] == e.at[k]
    {
      var i :| 0 <= i < |xs| && xs[i] == k;
    }
    forall k | k in e.at
      ensures k in d.at
    {
      var i :| 0 <= i < |ys| && ys[i] == k;
    }
  }

  /** The same spawns are tracked, with the same fields. */
  ghost predicate SameSpawns<V, E>(es: seq<Envelope<V, E>>, fs: seq<Envelope<V, E>>) {
    && (forall k :: Tracked(es, k) <==> Tracked(fs, k))
    && (forall k, f :: FieldOf(es, k, f) == FieldOf(fs, k, f))
  }

  lemma SameSpawnsIff<V, E>(es: seq<Envelope<V, E>>, fs: seq<Envelope<V, E>>)
    ensures SameSpawns(es, fs) <==> Replay(es).running.at == Replay(fs).running.at
  {
    hide Replay, FieldOf;
    var (d, e) := (Replay(es).running, Replay(fs).running);
    forall k, f
      ensures Shows(d, k, f, Tracked(es, k), FieldOf(es, k, f))
      ensures Shows(e, k, f, Tracked(fs, k), FieldOf(fs, k, f))
    {
      ReplayShows(es, k, f);
      ReplayShows(fs, k, f);
    }
    if SameSpawns(es, fs) {
      forall k
        ensures k in d.at <==> k in e.at
        ensures k in d.at ==> d.at[k] == e.at[k]
      {
        assert Shows(d, k, "", Tracked(es, k), FieldOf(es, k, ""));
        assert Shows(e, k, "", Tracked(fs, k), FieldOf(fs, k, ""));
        if k in d.at {
          forall f
            ensures FieldIn(d.at[k].fields, f) == FieldIn(e.at[k].fields, f)
          {
            assert Shows(d, k, f, Tracked(es, k), FieldOf(es, k, f));
            assert Shows(e, k, f, Tracked(fs, k), FieldOf(fs, k, f));
          }
          SameFields(d.at[k].fields, e.at[k].fields);
        }
      }
    } else {
      assert forall k :: Shows(d, k, "", Tracked(es, k), FieldOf(es, k, ""));
    }
  }

  lemma SameFields<V>(a: map<string, V>, b: map<string, V>)
    requires forall f :: FieldIn(a, f) == FieldIn(b, f)
    ensures a == b
  {
    assert forall f :: f in a <==> FieldIn(a, f).Some?;
    assert forall f :: f in b <==> FieldIn(b, f).Some?;
    forall f | f in a
      ensures a[f] == b[f]
    {
      assert FieldIn(a, f) == FieldIn(b, f);
    }
  }

  /** At each cut the same spawns with the same fields are tracked. */
  ghost predicate SameAtCuts<V, E>(es: seq<Envelope<V, E>>, fs: seq<Envelope<V, E>>) {
    && |Cuts(es)| == |Cuts(fs)|
    && forall c | 0 <= c < |Cuts(es)| :: SameSpawns(es[..Cuts(es)[c]], fs[..Cuts(fs)[c]])
  }

  /** Two streams compare equal only if they have as many snapshots, the same other envelopes and at every
      snapshot and at the end the same spawns with the same fields: whatever differs there shows. */
  lemma DifferencesShow<V, E>(es: seq<Envelope<V, E>>, fs: seq<Envelope<V, E>>)
    requires Normalized(es) == Normalized(fs)
    ensures SameAtCuts(es, fs)
  {
    hide Replay, Checkpoint, Normalized, SameSpawns, Dict.Valid;
    CheckpointsAtCuts(es);
    CheckpointsAtCuts(fs);
    forall c | 0 <= c < |Cuts(es)|
      ensures SameSpawns(es[..Cuts(es)[c]], fs[..Cuts(fs)[c]])
    {
      CheckpointTells(Replay(es[..Cuts(es)[c]]).running, Replay(fs[..Cuts(fs)[c]]).running);
      SameSpawnsIff(es[..Cuts(es)[c]], fs[..Cuts(fs)[c]]);
    }
  }

  /** No spawn without an id is tracked at a cut beside one with id 0. */
  predicate UntiedAtCuts<V, E>(es: seq<Envelope<V, E>>) {
    forall c | 0 <= c < |Cuts(es)| :: !(Tracked(es[..Cuts(es)[c]], None) && Tracked(es[..Cuts(es)[c]], Some(0)))
  }

  lemma SameAtCutsSameResult<V, E>(es: seq<Envelope<V, E>>, fs: seq<Envelope<V, E>>)
    requires UntiedAtCuts(es) && SameAtCuts(es, fs) && Normalized(es).1 == Normalized(fs).1
    ensures Normalized(es) == Normalized(fs)
  {
    hide Replay, Checkpoint, Normalized, SameSpawns, Tracked, Dict.Valid;
    CheckpointsAtCuts(es);
    CheckpointsAtCuts(fs);
    forall c | 0 <= c < |Cuts(es)|
      ensures Normalized(es).0[c] == Normalized(fs).0[c]
    {
      SameSpawnsIff(es[..Cuts(es)[c]], fs[..Cuts(fs)[c]]);
      ReplayShows(es[..Cuts(es)[c]], None, "");
      ReplayShows(es[..Cuts(es)[c]], Some(0), "");
      CheckpointIgnoresOrder(Replay(es[..Cuts(es)[c]]).running, Replay(fs[..Cuts(fs)[c]]).running);
    }
    assert Normalized(es).0 == Normalized(fs).0;
  }

  /** And that is all that shows, if there are no ties. */
  lemma EqualIff<V, E>(es: seq<Envelope<V, E>>, fs: seq<Envelope<V, E>>)
    requires UntiedAtCuts(es)
    ensures Normalized(es) == Normalized(fs) <==> SameAtCuts(es, fs) && Normalized(es).1 == Normalized(fs).1
  {
    hide Normalized, SameAtCuts, UntiedAtCuts;
    if Normalized(es) == Normalized(fs) {
      DifferencesShow(es, fs);
    }
    if SameAtCuts(es, fs) && Normalized(es).1 == Normalized(fs).1 {
      SameAtCutsSameResult(es, fs);
    }
  }
}
