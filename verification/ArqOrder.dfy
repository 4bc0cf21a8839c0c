/** Packets that come early, late or more than once: what is dispatched is what it would have been in order. */
module ArqOrder {
  import opened Options
  import opened Bytes
  import opened Wire
  import opened Fragments
  import opened OversizedStream
  import opened ArqStream

  // ---- One packet that is not awaited ------------------------------------------------------------

  /** A packet with another number than the one awaited, or with none, changes neither the number awaited nor the
      message being put together, and nothing is dispatched. It is kept if its number is ahead, else dropped; as
      long as fewer are kept than are allowed. */
  lemma OtherNumbers(st: Stream, k: Parsed, limit: nat)
    requires st.expected !in st.kept
    requires k.netOp in {0x0900, 0x0d00} ==> k.arqSeq != st.expected
    ensures var ahead := st.expected < k.arqSeq < st.expected + 1024 || k.arqSeq < st.expected - 1024;
      var kept := if k.netOp in {0x0900, 0x0d00} && ahead then st.kept[k.arqSeq := k] else st.kept;
      |kept| < limit ==> Handle(st, k, limit) == Some(st.(kept := kept))
  {
  }

  lemma {:induction false} FirstKeptIsNear(kept: map<nat, Parsed>, n: nat, b: nat, left: nat)
    requires n < ARQ_MODULUS && b < ARQ_MODULUS && b in kept && Distance(n, b) < left
    ensures var r := FirstKept(kept, n, left);
      r in kept && r < ARQ_MODULUS && Distance(n, r) <= Distance(n, b)
    decreases left
  {
    hide Distance, Next;
    NoDistance(n);
    if n !in kept {
      OneCloser(n, b);
      FirstKeptIsNear(kept, Next(n), b, left - 1);
      OneCloser(n, FirstKept(kept, n, left));
    }
  }

  lemma NoDistance(n: nat)
    ensures Distance(n, n) == 0 && forall b: nat :: 0 <= Distance(n, b) < ARQ_MODULUS
  {
  }

  /** With as many kept as are allowed, the numbers up to the nearest one kept are given up, and only they. */
  lemma GivesUpToNearest(st: Stream, limit: nat)
    requires KeptOk(st.kept) && st.kept != map[] && st.expected < ARQ_MODULUS
    ensures var t := GiveUp(st, limit);
      && t.fed == st.fed && t.kept == st.kept
      && if |st.kept| < limit then t.expected == st.expected
         else
           && t.expected in st.kept
           && forall b | b in st.kept :: Distance(st.expected, t.expected) <= Distance(st.expected, b)
  {
    hide Distance, FirstKept;
    NoDistance(st.expected);
    var b :| b in st.kept;
    forall b | b in st.kept
      ensures var r := FirstKept(st.kept, st.expected, ARQ_MODULUS);
        r in st.kept && Distance(st.expected, r) <= Distance(st.expected, b)
    {
      FirstKeptIsNear(st.kept, st.expected, b, ARQ_MODULUS);
    }
  }

  /** Ahead are the numbers less than 1024 on, and besides every smaller number but the 1024 before: so a repeat from
      more than 1024 back is kept too, until its number comes round again. */
  lemma AheadIff(number: nat, expected: nat)
    requires number < 0x1_0000 && expected < 0x1_0000
    ensures Early(number, expected) <==>
      0 < Distance(expected, number) < 1024 || (number < expected && Distance(number, expected) > 1024)
  {
  }

  /** A packet kept is taken when its number comes, whatever it is: behind the one awaited now, if it has the next
      number. */
  lemma KeptIsTaken(st: Stream, k: Parsed, g: Parsed, limit: nat)
    requires st.expected < 0x1_0000 && st.kept == map[] && limit > 1
    requires HasArqSeq(k.netOp) && k.arqSeq == Next(st.expected)
    requires HasArqSeq(g.netOp) && g.arqSeq == st.expected
    requires FeedAll(st.fed, [g, k]).Some?
    ensures var t := Handle(st, k, limit);
      && t.Some? && t.value.fed == st.fed
      && Handle(t.value, g, limit) == Some(Stream(Next(Next(st.expected)), FeedAll(st.fed, [g, k]).value, map[]))
  {
    hide Feed;
    assert [g, k][..1] == [g] && [g][..0] == [];
    assert FeedAll(st.fed, [g]) == Feed(st.fed, g);
    var t := st.(kept := map[k.arqSeq := k]);
    assert st.kept[k.arqSeq := k] == t.kept;
    assert |t.kept| == 1;
    OtherNumbers(st, k, limit);
    var u := Take(t, g).value;
    assert u.kept - {u.expected} == map[];
    var w := Take(u.(kept := map[]), k).value;
    assert Drain(w) == Some(w);
  }

  // ---- Which packets have arrived ----------------------------------------------------------------

  /** The first index from `x` on that is not among those that arrived. */
  function FirstMissing(got: set<nat>, x: nat, n: nat): (r: nat)
    requires x <= n
    ensures x <= r <= n && (forall i | x <= i < r :: i in got) && (r == n || r !in got)
    decreases n - x
  {
    if x < n && x in got then FirstMissing(got, x + 1, n) else x
  }

  lemma MissingUnique(got: set<nat>, n: nat, x: nat, r: nat)
    requires x <= r <= n && (forall i | x <= i < r :: i in got) && (r == n || r !in got)
    ensures FirstMissing(got, x, n) == r
  {
    var q := FirstMissing(got, x, n);
  }

  function Ahead(got: set<nat>, x: nat): set<nat> {
    set i | i in got && i > x
  }

  // ---- The state follows them --------------------------------------------------------------------

  function At(s: nat, j: nat): (r: nat)
    ensures r < ARQ_MODULUS
  {
    (s + j) % ARQ_MODULUS
  }

  ghost predicate Numbered(ks: seq<Parsed>, s: nat) {
    forall j | 0 <= j < |ks| :: HasArqSeq(ks[j].netOp) && ks[j].arqSeq == At(s, j)
  }

  /** The packets kept are those of `got` from `x` on, none of them far ahead. */
  ghost predicate Keeps(kept: map<nat, Parsed>, ks: seq<Parsed>, s: nat, got: set<nat>, x: nat) {
    && (forall j | j in got && j >= x ::
          j < |ks| && j < x + ARQ_SEQ_WRAP_CUTOFF && At(s, j) in kept && kept[At(s, j)] == ks[j])
    && (forall n | n in kept :: exists j | j in got :: j >= x && n == At(s, j))
  }

  /** The first `x` packets have been taken in their order. */
  ghost predicate Took(st: Stream, ks: seq<Parsed>, s: nat, f: Fed, x: nat) {
    x <= |ks| && st.expected == At(s, x) && FeedAll(f, ks[..x]) == Some(st.fed)
  }

  lemma SameNumber(s: nat, i: nat, j: nat)
    requires At(s, i) == At(s, j) && -ARQ_MODULUS < i - j < ARQ_MODULUS
    ensures i == j
  {
  }

  lemma NextIs(s: nat, x: nat)
    ensures Next(At(s, x)) == At(s, x + 1)
  {
  }

  /** The awaited packet is taken. */
  lemma TakesNext(st: Stream, ks: seq<Parsed>, s: nat, f: Fed, x: nat)
    requires Took(st, ks, s, f, x) && x < |ks| && FeedAll(f, ks).Some?
    ensures Take(st, ks[x]).Some? && Took(Take(st, ks[x]).value, ks, s, f, x + 1)
    ensures Take(st, ks[x]).value.kept == st.kept
  {
    hide Feed, FeedAll;
    FedOne(f, ks, x);
    FedPrefix(f, ks, x + 1);
    NextIs(s, x);
  }

  /** What was kept is taken up to the first packet that has not arrived. */
  lemma {:induction false} DrainsToMissing(st: Stream, ks: seq<Parsed>, s: nat, f: Fed, got: set<nat>, x: nat)
    requires FeedAll(f, ks).Some? && Took(st, ks, s, f, x) && Keeps(st.kept, ks, s, got, x)
    ensures Drain(st).Some?
    ensures var y := FirstMissing(got, x, |ks|);
      Took(Drain(st).value, ks, s, f, y) && Keeps(Drain(st).value.kept, ks, s, got, y)
    decreases |ks| - x
  {
    hide FeedAll, Took, Take, At;
    TookNumber(st, ks, s, f, x);
    if x in got {
      var t := st.(kept := st.kept - {st.expected});
      LessKept(st.kept, ks, s, got, x);
      TookSame(st, t, ks, s, f, x);
      TakesNext(t, ks, s, f, x);
      DrainsToMissing(Take(t, ks[x]).value, ks, s, f, got, x + 1);
    } else {
      NotKept(st.kept, ks, s, got, x);
    }
  }

  lemma TookNumber(st: Stream, ks: seq<Parsed>, s: nat, f: Fed, x: nat)
    requires Took(st, ks, s, f, x)
    ensures x <= |ks| && st.expected == At(s, x)
  {
  }

  lemma TookSame(st: Stream, t: Stream, ks: seq<Parsed>, s: nat, f: Fed, x: nat)
    requires Took(st, ks, s, f, x) && t.expected == st.expected && t.fed == st.fed
    ensures Took(t, ks, s, f, x)
  {
  }

  lemma LessKept(kept: map<nat, Parsed>, ks: seq<Parsed>, s: nat, got: set<nat>, x: nat)
    requires Keeps(kept, ks, s, got, x) && x in got
    ensures x < |ks| && At(s, x) in kept && kept[At(s, x)] == ks[x]
    ensures Keeps(kept - {At(s, x)}, ks, s, got, x + 1)
  {
    hide At;
    forall j | j in got && j >= x + 1
      ensures At(s, j) != At(s, x)
    {
      if At(s, j) == At(s, x) {
        SameNumber(s, j, x);
      }
    }
  }

  lemma NotKept(kept: map<nat, Parsed>, ks: seq<Parsed>, s: nat, got: set<nat>, x: nat)
    requires Keeps(kept, ks, s, got, x) && x !in got
    ensures At(s, x) !in kept
  {
    hide At;
    if At(s, x) in kept {
      var j :| j in got && j >= x && At(s, x) == At(s, j);
      SameNumber(s, j, x);
    }
  }

  // ---- One arrival ---------------------------------------------------------------------------------

  /** Between arrivals: the packets before the first missing one have been taken, and the rest of those that arrived
      are kept. */
  ghost predicate Caught(st: Stream, ks: seq<Parsed>, s: nat, f: Fed, got: set<nat>) {
    var x := FirstMissing(got, 0, |ks|);
    Took(st, ks, s, f, x) && Keeps(st.kept, ks, s, got, x)
  }

  /** Index `j` is less than 1024 ahead of the first missing one and no more than 1024 behind it. */
  predicate InWindow(j: nat, x: nat) {
    x - ARQ_SEQ_WRAP_CUTOFF <= j < x + ARQ_SEQ_WRAP_CUTOFF
  }

  /** Within the window a number counts as ahead exactly if its packet is. */
  lemma EarlyIffAhead(s: nat, j: nat, x: nat)
    requires InWindow(j, x)
    ensures j != x ==> At(s, j) != At(s, x) && (Early(At(s, j), At(s, x)) <==> j > x)
  {
  }

  lemma Unfinished(st: Stream, ks: seq<Parsed>, s: nat, got: set<nat>, x: nat, limit: nat)
    requires Keeps(st.kept, ks, s, got, x) && x !in got && st.expected == At(s, x) && |Ahead(got, x)| < limit
    ensures Settle(st, limit) == Some(st)
  {
    hide At;
    NotKept(st.kept, ks, s, got, x);
    FewKept(st.kept, ks, s, got, x, limit);
  }

  lemma FewKept(kept: map<nat, Parsed>, ks: seq<Parsed>, s: nat, got: set<nat>, x: nat, limit: nat)
    requires Keeps(kept, ks, s, got, x) && x !in got && |Ahead(got, x)| < limit
    ensures |kept| < limit
  {
    hide At;
    var js := Ahead(got, x);
    ImageIsNoLarger(js, s);
    assert kept.Keys == set j | j in js :: At(s, j);
    assert |kept| == |kept.Keys|;
  }

  lemma {:induction false} ImageIsNoLarger(js: set<nat>, s: nat)
    ensures |set j | j in js :: At(s, j)| <= |js|
    decreases js
  {
    hide At;
    if js == {} {
      assert (set j | j in js :: At(s, j)) == {};
    } else {
      var i :| i in js;
      ImageIsNoLarger(js - {i}, s);
      assert (set j | j in js :: At(s, j)) == (set j | j in js - {i} :: At(s, j)) + {At(s, i)};
    }
  }

  lemma MissingIsMissing(kept: map<nat, Parsed>, ks: seq<Parsed>, s: nat, got: set<nat>)
    requires Keeps(kept, ks, s, got, FirstMissing(got, 0, |ks|))
    ensures FirstMissing(got, 0, |ks|) !in got
  {
  }

  lemma AwaitedArrives(st: Stream, ks: seq<Parsed>, s: nat, f: Fed, got: set<nat>, x: nat, limit: nat)
    requires FeedAll(f, ks).Some? && Numbered(ks, s) && Caught(st, ks, s, f, got)
    requires x == FirstMissing(got, 0, |ks|) < |ks| && |Ahead(got, x)| < limit
    ensures Handle(st, ks[x], limit).Some?
    ensures Caught(Handle(st, ks[x], limit).value, ks, s, f, got + {x})
  {
    hide FeedAll, Took, Take, Keeps, Drain, At, Handle, FirstMissing;
    MissingIsMissing(st.kept, ks, s, got);
    TookNumber(st, ks, s, f, x);
    TakesNext(st, ks, s, f, x);
    FewKept(st.kept, ks, s, got, x, limit);
    var t := Take(st, ks[x]).value;
    KeepsOn(st.kept, ks, s, got, x);
    DrainsToMissing(t, ks, s, f, got + {x}, x + 1);
    MissingUnique(got + {x}, |ks|, 0, FirstMissing(got + {x}, x + 1, |ks|));
    TakenThenDrained(st, ks[x], limit);
  }

  lemma TakenThenDrained(st: Stream, k: Parsed, limit: nat)
    requires HasArqSeq(k.netOp) && k.arqSeq == st.expected && |st.kept| < limit
    requires Take(st, k).Some? && Take(st, k).value.kept == st.kept
    ensures Handle(st, k, limit) == Drain(Take(st, k).value)
  {
    hide Feed;
  }

  lemma KeepsOn(kept: map<nat, Parsed>, ks: seq<Parsed>, s: nat, got: set<nat>, x: nat)
    requires Keeps(kept, ks, s, got, x) && x !in got
    ensures Keeps(kept, ks, s, got + {x}, x + 1)
  {
    hide At;
    forall n | n in kept
      ensures exists j | j in got + {x} :: j >= x + 1 && n == At(s, j)
    {
      var j :| j in got && j >= x && n == At(s, j);
      assert j in got + {x};
    }
  }

  /** A packet that is not awaited but is within the window: kept if it is ahead, dropped as a repeat if not. */
  lemma OtherArrives(st: Stream, ks: seq<Parsed>, s: nat, f: Fed, got: set<nat>, j: nat, limit: nat)
    requires Numbered(ks, s) && Caught(st, ks, s, f, got) && j < |ks|
    requires var x := FirstMissing(got, 0, |ks|);
      j != x && InWindow(j, x) && |Ahead(got, x)| < limit && |Ahead(got + {j}, x)| < limit
    ensures Handle(st, ks[j], limit).Some?
    ensures Caught(Handle(st, ks[j], limit).value, ks, s, f, got + {j})
  {
    hide FeedAll, Took, Keeps, Settle, At, Early, Ahead;
    var x := FirstMissing(got, 0, |ks|);
    MissingIsMissing(st.kept, ks, s, got);
    TookNumber(st, ks, s, f, x);
    EarlyIffAhead(s, j, x);
    MissingUnique(got + {j}, |ks|, 0, x);
    if j > x {
      KeepsMore(st.kept, ks, s, got, x, j);
      var t := st.(kept := st.kept[ks[j].arqSeq := ks[j]]);
      TookSame(st, t, ks, s, f, x);
      Unfinished(t, ks, s, got + {j}, x, limit);
    } else {
      assert got + {j} == got;
      Unfinished(st, ks, s, got, x, limit);
    }
  }

  lemma KeepsMore(kept: map<nat, Parsed>, ks: seq<Parsed>, s: nat, got: set<nat>, x: nat, j: nat)
    requires Keeps(kept, ks, s, got, x) && x < j < |ks| && j < x + ARQ_SEQ_WRAP_CUTOFF
    ensures Keeps(kept[At(s, j) := ks[j]], ks, s, got + {j}, x)
  {
    hide At;
    forall i | i in got && i >= x && At(s, i) == At(s, j)
      ensures i == j
    {
      SameNumber(s, i, j);
    }
    var more := kept[At(s, j) := ks[j]];
    forall n | n in more
      ensures exists i | i in got + {j} :: i >= x && n == At(s, i)
    {
      if n == At(s, j) {
        assert j in got + {j};
      } else {
        var i :| i in got && i >= x && n == At(s, i);
        assert i in got + {j};
      }
    }
  }

  // ---- Any order --------------------------------------------------------------------------------------

  /** What arrives: packet `j` of the session, for the first time or again, or something else. */
  datatype Arrival = FrameOf(j: nat) | Stray(p: seq<byte>)

  /** The indices of the packets among the arrivals. */
  function Got(arrivals: seq<Arrival>): set<nat> {
    set i | 0 <= i < |arrivals| && arrivals[i].FrameOf? :: arrivals[i].j
  }

  /** It can be read, but is not to be decoded or has no number or one that is past. */
  predicate Ignorable(p: seq<byte>, inflate: Inflate, max: nat, expected: nat) {
    && WellSized(p, false) && LongEnough(p, Initial(p, false), inflate, max)
    && var k := Open(p, inflate, max);
       k.Some? && k.value.netOp in {0x0900, 0x0d00} ==>
         var number := k.value.arqSeq;
         !(expected <= number < expected + 1024) && !(number < expected - 1024)
  }

  /** An arrival at a point where packet `x` of `n` is the first missing. */
  predicate Expectable(a: Arrival, inflate: Inflate, max: nat, s: nat, x: nat, n: nat) {
    match a
    case FrameOf(j) => j < n && InWindow(j, x)
    case Stray(p) => Ignorable(p, inflate, max, At(s, x))
  }

  /** Every packet comes less than 1024 ahead of the first missing one and no more than 1024 behind it, strays are
      not ahead, and at no time are so many ahead that the stream gives up waiting. */
  ghost predicate Orderly(arrivals: seq<Arrival>, inflate: Inflate, max: nat, s: nat, n: nat, limit: nat) {
    && (forall i | 0 <= i < |arrivals| ::
          Expectable(arrivals[i], inflate, max, s, FirstMissing(Got(arrivals[..i]), 0, n), n))
    && (forall i | 0 <= i <= |arrivals| ::
          |Ahead(Got(arrivals[..i]), FirstMissing(Got(arrivals[..i]), 0, n))| < limit)
  }

  function OnTheWire(arrivals: seq<Arrival>, frames: seq<seq<byte>>): (r: seq<seq<byte>>)
    requires forall j | j in Got(arrivals) :: j < |frames|
    ensures |r| == |arrivals|
  {
    seq(|arrivals|, i requires 0 <= i < |arrivals| =>
      if arrivals[i].FrameOf? then
        assert arrivals[i].j in Got(arrivals);
        frames[arrivals[i].j]
      else arrivals[i].p)
  }

  lemma StrayArrives(st: Stream, ks: seq<Parsed>, s: nat, f: Fed, got: set<nat>, p: seq<byte>,
                     inflate: Inflate, max: nat, limit: nat)
    requires Caught(st, ks, s, f, got)
    requires var x := FirstMissing(got, 0, |ks|);
      Ignorable(p, inflate, max, At(s, x)) && |Ahead(got, x)| < limit
    ensures Receive(st, p, inflate, max, limit) == Some(st)
  {
    hide FeedAll, Took, Keeps, Settle, At, WellSized, LongEnough, Open, Ahead;
    var x := FirstMissing(got, 0, |ks|);
    MissingIsMissing(st.kept, ks, s, got);
    TookNumber(st, ks, s, f, x);
    Unfinished(st, ks, s, got, x, limit);
  }

  lemma GotSnoc(arrivals: seq<Arrival>, i: nat)
    requires i < |arrivals|
    ensures Got(arrivals[..i + 1]) == Got(arrivals[..i]) + if arrivals[i].FrameOf? then {arrivals[i].j} else {}
  {
    var more := arrivals[..i + 1];
    assert forall k | 0 <= k < i :: more[k] == arrivals[..i][k];
    assert more[i] == arrivals[i];
  }

  lemma FrameArrives(st: Stream, ks: seq<Parsed>, s: nat, f: Fed, got: set<nat>, j: nat, p: seq<byte>,
                     inflate: Inflate, max: nat, limit: nat)
    requires FeedAll(f, ks).Some? && Numbered(ks, s) && Caught(st, ks, s, f, got)
    requires j < |ks| && Reads(p, inflate, max, ks[j]) && InWindow(j, FirstMissing(got, 0, |ks|))
    requires |Ahead(got, FirstMissing(got, 0, |ks|))| < limit
    requires |Ahead(got + {j}, FirstMissing(got + {j}, 0, |ks|))| < limit
    ensures Receive(st, p, inflate, max, limit).Some?
    ensures Caught(Receive(st, p, inflate, max, limit).value, ks, s, f, got + {j})
  {
    hide FeedAll, Caught, Handle, WellSized, LongEnough, Open, Ahead, Numbered;
    var x := FirstMissing(got, 0, |ks|);
    if j == x {
      AwaitedArrives(st, ks, s, f, got, x, limit);
    } else {
      StillMissing(st, ks, s, f, got, j);
      OtherArrives(st, ks, s, f, got, j, limit);
    }
  }

  lemma StillMissing(st: Stream, ks: seq<Parsed>, s: nat, f: Fed, got: set<nat>, j: nat)
    requires Caught(st, ks, s, f, got) && j != FirstMissing(got, 0, |ks|)
    ensures FirstMissing(got + {j}, 0, |ks|) == FirstMissing(got, 0, |ks|)
  {
    hide Took;
    MissingIsMissing(st.kept, ks, s, got);
    MissingUnique(got + {j}, |ks|, 0, FirstMissing(got, 0, |ks|));
  }

  lemma CaughtAtFirst(st: Stream, ks: seq<Parsed>, s: nat)
    requires st.expected == s % ARQ_MODULUS && st.kept == map[]
    ensures Got([]) == {} && Caught(st, ks, s, st.fed, {})
  {
    FedNone(st.fed, ks);
  }

  lemma InRange(arrivals: seq<Arrival>, inflate: Inflate, max: nat, s: nat, n: nat, limit: nat)
    requires Orderly(arrivals, inflate, max, s, n, limit)
    ensures forall j | j in Got(arrivals) :: j < n
  {
    hide Ahead, InWindow, FirstMissing;
    forall j | j in Got(arrivals)
      ensures j < n
    {
      var i :| 0 <= i < |arrivals| && arrivals[i] == FrameOf(j);
      assert Expectable(arrivals[i], inflate, max, s, FirstMissing(Got(arrivals[..i]), 0, n), n);
    }
  }

  ghost predicate OpenTo(frames: seq<seq<byte>>, ks: seq<Parsed>, inflate: Inflate, max: nat) {
    |frames| == |ks| && forall j | 0 <= j < |ks| :: Reads(frames[j], inflate, max, ks[j])
  }

  lemma {:induction false} CaughtAlways(
    st: Stream, ks: seq<Parsed>, frames: seq<seq<byte>>, arrivals: seq<Arrival>, i: nat,
    inflate: Inflate, max: nat, s: nat, limit: nat)
    requires st.expected == s % ARQ_MODULUS && st.kept == map[]
    requires FeedAll(st.fed, ks).Some? && Numbered(ks, s) && OpenTo(frames, ks, inflate, max)
    requires Orderly(arrivals, inflate, max, s, |ks|, limit) && i <= |arrivals|
    requires forall j | j in Got(arrivals) :: j < |frames|
    ensures var r := ReceiveAll(st, OnTheWire(arrivals, frames)[..i], inflate, max, limit);
      r.Some? && Caught(r.value, ks, s, st.fed, Got(arrivals[..i]))
    decreases i
  {
    hide FeedAll, Caught, Numbered, Receive, Reads, Ahead, Got, Ignorable, InWindow, FirstMissing;
    var wire := OnTheWire(arrivals, frames);
    if i == 0 {
      CaughtAtFirst(st, ks, s);
      assert arrivals[..0] == [];
    } else {
      var k := i - 1;
      CaughtAlways(st, ks, frames, arrivals, k, inflate, max, s, limit);
      GotSnoc(arrivals, k);
      var got := Got(arrivals[..k]);
      assert wire[..i][..k] == wire[..k];
      assert arrivals[..k + 1] == arrivals[..i];
      var t := ReceiveAll(st, wire[..k], inflate, max, limit).value;
      assert Expectable(arrivals[k], inflate, max, s, FirstMissing(got, 0, |ks|), |ks|);
      match arrivals[k]
      case FrameOf(j) => FrameArrives(t, ks, s, st.fed, got, j, wire[k], inflate, max, limit);
      case Stray(p) =>
        StrayArrives(t, ks, s, st.fed, got, p, inflate, max, limit);
        assert got + {} == got;
    }
  }

  lemma {:induction false} OutGrows(f: Fed, ks: seq<Parsed>, i: nat)
    requires i <= |ks| && FeedAll(f, ks).Some?
    ensures FeedAll(f, ks[..i]).Some? && FeedAll(f, ks[..i]).value.out <= FeedAll(f, ks).value.out
  {
    hide Add;
    if i == |ks| {
      assert ks[..i] == ks;
    } else {
      OutGrows(f, ks[..|ks| - 1], i);
      assert ks[..|ks| - 1][..i] == ks[..i];
    }
  }

  lemma SessionOpens(ms: seq<Sending>, inflate: Inflate, deflate: Deflate, max: nat, s: nat)
    requires AllValid(ms, max) && Inverse(inflate, deflate, max)
    ensures OpenTo(AllFrames(ms, deflate, max, s), AllCarried(ms, max, s), inflate, max)
    ensures Numbered(AllCarried(ms, max, s), s)
  {
    hide AllFrames, AllCarried, Reads;
    SameLength(ms, deflate, max, s);
    forall j | 0 <= j < |AllCarried(ms, max, s)|
      ensures Reads(AllFrames(ms, deflate, max, s)[j], inflate, max, AllCarried(ms, max, s)[j])
      ensures HasArqSeq(AllCarried(ms, max, s)[j].netOp) && AllCarried(ms, max, s)[j].arqSeq == At(s, j)
    {
      SessionFrames(ms, inflate, deflate, max, s, j);
    }
  }

  /** The packets of any number of messages, whole or cut, framed and compressed at will, arriving in any order
      within the window, some more than once, with strays between them. At every moment what has been dispatched is
      what the packets before the first missing one amount to, in order; once all have arrived, it is all the
      messages, and nothing else. */
  lemma SessionInAnyOrder(st: Stream, ms: seq<Sending>, arrivals: seq<Arrival>, inflate: Inflate, deflate: Deflate,
                          max: nat, s: nat, limit: nat)
    requires AllValid(ms, max) && Inverse(inflate, deflate, max)
    requires Idle(st.fed.asm) && st.expected == s % ARQ_MODULUS && st.kept == map[]
    requires Orderly(arrivals, inflate, max, s, |AllCarried(ms, max, s)|, limit)
    ensures forall j | j in Got(arrivals) :: j < |AllFrames(ms, deflate, max, s)|
    ensures var (ks, frames) := (AllCarried(ms, max, s), AllFrames(ms, deflate, max, s));
      var r := ReceiveAll(st, OnTheWire(arrivals, frames), inflate, max, limit);
      var x := FirstMissing(Got(arrivals), 0, |ks|);
      && r.Some? && Some(r.value.fed) == FeedAll(st.fed, ks[..x])
      && r.value.fed.out <= st.fed.out + Messages(ms)
      && (x == |ks| ==> r.value.fed.out == st.fed.out + Messages(ms) && Idle(r.value.fed.asm))
  {
    hide AllFrames, AllCarried, FeedAll, Numbered, OpenTo, Inverse, AllValid, Idle, Keeps, ReceiveAll, Got;
    hide FirstMissing, Orderly, Messages;
    var (ks, frames) := (AllCarried(ms, max, s), AllFrames(ms, deflate, max, s));
    SameLength(ms, deflate, max, s);
    InRange(arrivals, inflate, max, s, |ks|, limit);
    SessionOpens(ms, inflate, deflate, max, s);
    FeedMessages(st.fed, ms, max, s);
    CaughtAlways(st, ks, frames, arrivals, |arrivals|, inflate, max, s, limit);
    var wire := OnTheWire(arrivals, frames);
    assert wire[..|arrivals|] == wire && arrivals[..|arrivals|] == arrivals;
    var x := FirstMissing(Got(arrivals), 0, |ks|);
    OutGrows(st.fed, ks, x);
    assert ks[..|ks|] == ks;
  }

  // ---- In order ------------------------------------------------------------------------------------------

  function InOrder(n: nat): (r: seq<Arrival>)
    ensures |r| == n && forall i | 0 <= i < n :: r[i] == FrameOf(i)
  {
    seq(n, i requires 0 <= i < n => FrameOf(i))
  }

  lemma InOrderIsOrderly(n: nat, inflate: Inflate, max: nat, s: nat, limit: nat)
    requires limit > 0
    ensures Orderly(InOrder(n), inflate, max, s, n, limit)
    ensures FirstMissing(Got(InOrder(n)), 0, n) == n
  {
    forall i | 0 <= i <= n
      ensures FirstMissing(Got(InOrder(n)[..i]), 0, n) == i
      ensures Ahead(Got(InOrder(n)[..i]), i) == {}
    {
      var got := Got(InOrder(n)[..i]);
      forall j
        ensures j in got <==> 0 <= j < i
      {
        if 0 <= j < i {
          assert InOrder(n)[..i][j] == FrameOf(j);
        }
      }
      MissingUnique(got, n, 0, i);
    }
    assert InOrder(n)[..n] == InOrder(n);
  }

  /** Sent one after the other and received so, they come out whole and in order. */
  lemma SessionRoundTrip(st: Stream, ms: seq<Sending>, inflate: Inflate, deflate: Deflate, max: nat, s: nat, limit: nat)
    requires AllValid(ms, max) && Inverse(inflate, deflate, max) && limit > 0
    requires Idle(st.fed.asm) && st.expected == s % ARQ_MODULUS && st.kept == map[]
    ensures var r := ReceiveAll(st, AllFrames(ms, deflate, max, s), inflate, max, limit);
      r.Some? && r.value.fed.out == st.fed.out + Messages(ms) && Idle(r.value.fed.asm)
  {
    hide AllFrames, AllCarried, FeedAll, Inverse, AllValid, Idle, ReceiveAll, Got, Orderly, Messages;
    var n := |AllCarried(ms, max, s)|;
    SameLength(ms, deflate, max, s);
    InOrderIsOrderly(n, inflate, max, s, limit);
    SessionInAnyOrder(st, ms, InOrder(n), inflate, deflate, max, s, limit);
    assert OnTheWire(InOrder(n), AllFrames(ms, deflate, max, s)) == AllFrames(ms, deflate, max, s);
  }
}
