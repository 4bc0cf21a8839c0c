/** The game's own map format: a list of single segments. Segments that continue one another are merged into
    polylines when loaded, and saved as segments again. */
module SoeMap {
  import opened MapFile

  /** A colour that may not be valid; one that is not has all parts 0. */
  datatype Color = Color(r: nat, g: nat, b: nat, valid: bool)

  type Shown = c: Color | c.valid || (c.r == 0 && c.g == 0 && c.b == 0) witness Color(0, 0, 0, false)

  datatype Rgb = Rgb(r: nat, g: nat, b: nat)

  const BLACK := Rgb(0, 0, 0)

  /** A record: from the first point to the second. */
  datatype Segment = Segment(first: Point3, second: Point3, color: Rgb)

  datatype Polyline = Polyline(points: seq<Point3>, color: Shown, origColor: Color)

  predicate SameParts(c: Color, rgb: Rgb) {
    c.r == rgb.r && c.g == rgb.g && c.b == rgb.b
  }

  function Original(rgb: Rgb): Color {
    Color(rgb.r, rgb.g, rgb.b, true)
  }

  // ---- Loading -----------------------------------------------------------------------------------

  /** The segment goes on from where the polyline ends, in its colour as shown or as read. */
  predicate Continues(p: Polyline, s: Segment) {
    && p.points != [] && p.points[|p.points| - 1] == s.second
    && (SameParts(p.color, s.color) || SameParts(p.origColor, s.color))
  }

  function Fresh(s: Segment, convert: Rgb -> Shown): Polyline {
    Polyline([s.second, s.first], convert(s.color), Original(s.color))
  }

  function AddSegment(ps: seq<Polyline>, s: Segment, convert: Rgb -> Shown): seq<Polyline> {
    if ps != [] && Continues(ps[|ps| - 1], s) then
      var last := ps[|ps| - 1];
      ps[..|ps| - 1] + [last.(points := last.points + [s.first])]
    else ps + [Fresh(s, convert)]
  }

  function Merge(ss: seq<Segment>, convert: Rgb -> Shown): seq<Polyline> {
    if ss == [] then [] else AddSegment(Merge(ss[..|ss| - 1], convert), ss[|ss| - 1], convert)
  }

  lemma MergeNext(ss: seq<Segment>, i: nat, convert: Rgb -> Shown)
    requires i < |ss|
    ensures Merge(ss[..i + 1], convert) == AddSegment(Merge(ss[..i], convert), ss[i], convert)
  {
    hide AddSegment;
    assert ss[..i + 1][..i] == ss[..i];
  }

  lemma NoSegments(ss: seq<Segment>, convert: Rgb -> Shown)
    ensures Merge(ss[..0], convert) == []
  {
  }

  lemma ReplaceLast(ps: seq<Polyline>, p: Polyline)
    requires ps != []
    ensures ps[|ps| - 1 := p] == ps[..|ps| - 1] + [p]
  {
  }

  /** The loop keeps the index of the last point of the line it is adding to. */
  method LoadSOEMap(ss: seq<Segment>, convert: Rgb -> Shown) returns (ps: seq<Polyline>)
    ensures ps == Merge(ss, convert)
  {
    hide Merge;
    NoSegments(ss, convert);
    ps := [];
    var numPoints, checkPoint := 0, 0;
    for i := 0 to |ss|
      invariant ps == Merge(ss[..i], convert)
      invariant ps != [] ==> var n := |ps[|ps| - 1].points|;
        n >= 2 && numPoints == n && checkPoint == n - 1
    {
      var s, current := ss[i], |ps| - 1;
      MergeNext(ss, i, convert);
      if ps == [] || ps[current].points[checkPoint] != s.second ||
         (!SameParts(ps[current].color, s.color) && !SameParts(ps[current].origColor, s.color)) {
        ps := ps + [Polyline([s.second, s.first], convert(s.color), Original(s.color))];
        numPoints, checkPoint := 2, 1;
      } else {
        ReplaceLast(ps, ps[current].(points := ps[current].points + [s.first]));
        ps := ps[current := ps[current].(points := ps[current].points + [s.first])];
        checkPoint, numPoints := numPoints, numPoints + 1;
      }
    }
    assert ss[..|ss|] == ss;
  }

  // ---- Saving ------------------------------------------------------------------------------------

  /** The colour a polyline is saved in. */
  function SavedColor(p: Polyline): Rgb {
    var c := if p.color.valid then p.color else p.origColor;
    Rgb(c.r, c.g, c.b)
  }

  /** A polyline's segments, each from its end back to its start. */
  function SegmentsOf(p: Polyline): seq<Segment>
    decreases |p.points|
  {
    if |p.points| < 2 then []
    else
      var n := |p.points| - 1;
      SegmentsOf(p.(points := p.points[..n])) + [Segment(p.points[n], p.points[n - 1], SavedColor(p))]
  }

  function Expand(ps: seq<Polyline>): seq<Segment> {
    if ps == [] then [] else Expand(ps[..|ps| - 1]) + SegmentsOf(ps[|ps| - 1])
  }

  method SaveSOEMap(ps: seq<Polyline>) returns (ss: seq<Segment>)
    requires forall p | p in ps :: p.points != []
    ensures ss == Expand(ps)
  {
    ss := [];
    for i := 0 to |ps|
      invariant ss == Expand(ps[..i])
    {
      var p := ps[i];
      assert ps[..i + 1][..i] == ps[..i] && p in ps;
      ghost var before := ss;
      var last := p.points[0];
      for k := 1 to |p.points|
        invariant last == p.points[k - 1]
        invariant ss == before + SegmentsOf(p.(points := p.points[..k]))
      {
        var cur := p.points[k];
        NextSegment(p, k);
        ss := ss + [Segment(cur, last, SavedColor(p))];
        last := cur;
      }
      assert p.(points := p.points[..|p.points|]) == p;
    }
    assert ps[..|ps|] == ps;
  }

  lemma NextSegment(p: Polyline, k: nat)
    requires 1 <= k < |p.points|
    ensures SegmentsOf(p.(points := p.points[..k + 1])) ==
            SegmentsOf(p.(points := p.points[..k])) + [Segment(p.points[k], p.points[k - 1], SavedColor(p))]
  {
    assert p.points[..k + 1][..k] == p.points[..k];
  }

  // ---- Nothing is lost -----------------------------------------------------------------------------

  /** Adding a segment adds exactly that segment to what will be saved, in the line's colour. */
  lemma AddSegmentAdds(ps: seq<Polyline>, s: Segment, convert: Rgb -> Shown)
    requires forall i | 0 <= i < |ps| :: Started(ps[i], convert)
    ensures var qs := AddSegment(ps, s, convert);
      && qs != []
      && Expand(qs) == Expand(ps) + [s.(color := SavedColor(qs[|qs| - 1]))]
  {
    var qs := AddSegment(ps, s, convert);
    var q := qs[|qs| - 1];
    var n := |q.points| - 1;
    if ps != [] && Continues(ps[|ps| - 1], s) {
      var last := ps[|ps| - 1];
      assert qs[..|qs| - 1] == ps[..|ps| - 1];
      assert q.points[..n] == last.points && q.(points := last.points) == last;
    } else {
      assert qs[..|qs| - 1] == ps;
      assert SegmentsOf(q.(points := q.points[..1])) == [];
    }
  }

  predicate SameGeometry(a: Segment, b: Segment) {
    a.first == b.first && a.second == b.second
  }

  /** A saved colour is the segment's own or what that is shown as. */
  predicate ColorKept(saved: Rgb, read: Rgb, convert: Rgb -> Shown) {
    saved == read || SameParts(convert(read), saved)
  }

  /** Each line has the colours of the segment it was started with. */
  predicate Started(p: Polyline, convert: Rgb -> Shown) {
    && |p.points| >= 2 && p.origColor.valid
    && p.color == convert(Rgb(p.origColor.r, p.origColor.g, p.origColor.b))
  }

  lemma {:induction false} MergedAreStarted(ss: seq<Segment>, convert: Rgb -> Shown)
    ensures forall i | 0 <= i < |Merge(ss, convert)| :: Started(Merge(ss, convert)[i], convert)
  {
    if ss != [] {
      MergedAreStarted(ss[..|ss| - 1], convert);
    }
  }

  /** Loading and saving again gives back the very segments, one for one, in the order and direction they were
      read in, however they were merged and whatever colours they are shown in. */
  lemma {:induction false} NothingIsLost(ss: seq<Segment>, convert: Rgb -> Shown)
    ensures var out := Expand(Merge(ss, convert));
      |out| == |ss| && forall i | 0 <= i < |ss| :: SameGeometry(out[i], ss[i])
  {
    hide AddSegment, SavedColor, SameParts, Started, SegmentsOf;
    if ss != [] {
      var n := |ss| - 1;
      NothingIsLost(ss[..n], convert);
      MergedAreStarted(ss[..n], convert);
      AddSegmentAdds(Merge(ss[..n], convert), ss[n], convert);
    }
  }

  /** The colour of the segment that the line segment `i` goes into was started with. */
  function LineStart(ss: seq<Segment>, i: nat, convert: Rgb -> Shown): Rgb
    requires i < |ss|
  {
    var ps := Merge(ss[..i + 1], convert);
    if ps == [] then BLACK
    else
      var c := ps[|ps| - 1].origColor;
      Rgb(c.r, c.g, c.b)
  }

  /** A segment goes on the line of the one before it exactly if it ends where that one starts, and is of the colour
      that line was started with or is shown in; otherwise it starts a line. */
  lemma JoinsIff(ss: seq<Segment>, i: nat, convert: Rgb -> Shown)
    requires 0 < i < |ss|
    ensures var (before, after) := (Merge(ss[..i], convert), Merge(ss[..i + 1], convert));
      var start := LineStart(ss, i - 1, convert);
      if ss[i].second == ss[i - 1].first && (ss[i].color == start || SameParts(convert(start), ss[i].color)) then
        && |after| == |before| > 0 && after[..|before| - 1] == before[..|before| - 1]
        && after[|before| - 1] == before[|before| - 1].(points := before[|before| - 1].points + [ss[i].first])
      else
        && |after| == |before| + 1 && after[..|before|] == before
        && after[|before|] == Polyline([ss[i].second, ss[i].first], convert(ss[i].color),
                                       Color(ss[i].color.r, ss[i].color.g, ss[i].color.b, true))
  {
    MergeNext(ss, i, convert);
    MergeNext(ss, i - 1, convert);
    MergedAreStarted(ss[..i], convert);
    LastEnds(Merge(ss[..i - 1], convert), ss[i - 1], convert);
    hide Merge, Started, AddSegment;
    var before := Merge(ss[..i], convert);
    StartedIs(before[|before| - 1], convert);
    AddSegmentIs(before, ss[i], convert);
    hide SameParts;
  }

  lemma LastEnds(ps: seq<Polyline>, s: Segment, convert: Rgb -> Shown)
    ensures var r := AddSegment(ps, s, convert);
      r != [] && r[|r| - 1].points != [] && r[|r| - 1].points[|r[|r| - 1].points| - 1] == s.first
  {
  }

  /** Of a line that has points. */
  lemma AddSegmentIs(ps: seq<Polyline>, s: Segment, convert: Rgb -> Shown)
    requires ps != [] && ps[|ps| - 1].points != []
    ensures var (n, last, r) := (|ps| - 1, ps[|ps| - 1], AddSegment(ps, s, convert));
      if last.points[|last.points| - 1] == s.second &&
         (SameParts(last.color, s.color) || SameParts(last.origColor, s.color))
      then r == ps[..n] + [last.(points := last.points + [s.first])]
      else r == ps + [Fresh(s, convert)]
  {
  }

  lemma StartedIs(p: Polyline, convert: Rgb -> Shown)
    requires Started(p, convert)
    ensures p.points != [] && p.origColor.valid
    ensures p.color == convert(Rgb(p.origColor.r, p.origColor.g, p.origColor.b))
  {
  }

  /** A black segment goes into a line of another colour that is shown in none. It goes in because a colour that
      is none has the parts of black. */
  predicate Swallowed(s: Segment, start: Rgb, convert: Rgb -> Shown) {
    s.color == BLACK && start != BLACK && !convert(start).valid
  }

  /** Exactly which segments are saved in their own colour or the one it is shown in: all but the swallowed, and
      of those the ones whose black is shown in the colour the line was started with. */
  lemma {:induction false} ColorKeptIff(ss: seq<Segment>, i: nat, convert: Rgb -> Shown)
    requires i < |ss|
    ensures var out, start := Expand(Merge(ss, convert)), LineStart(ss, i, convert);
      && |out| == |ss|
      && (ColorKept(out[i].color, ss[i].color, convert) <==>
          !Swallowed(ss[i], start, convert) || SameParts(convert(BLACK), start))
    decreases |ss|
  {
    hide AddSegment, SavedColor, SameParts, Started, SegmentsOf, ColorKept, Swallowed;
    var n := |ss| - 1;
    NothingIsLost(ss, convert);
    NothingIsLost(ss[..n], convert);
    MergedAreStarted(ss[..n], convert);
    AddSegmentAdds(Merge(ss[..n], convert), ss[n], convert);
    if i < n {
      ColorKeptIff(ss[..n], i, convert);
      assert ss[..n][..i + 1] == ss[..i + 1];
    } else {
      LastColor(Merge(ss[..n], convert), ss[n], convert);
      assert ss[..n + 1] == ss;
    }
  }

  lemma LastColor(ps: seq<Polyline>, s: Segment, convert: Rgb -> Shown)
    requires forall i | 0 <= i < |ps| :: Started(ps[i], convert)
    ensures var qs := AddSegment(ps, s, convert);
      qs != [] &&
      var q := qs[|qs| - 1];
      var start := Rgb(q.origColor.r, q.origColor.g, q.origColor.b);
      ColorKept(SavedColor(q), s.color, convert) <==>
      !Swallowed(s, start, convert) || SameParts(convert(BLACK), start)
  {
    var qs := AddSegment(ps, s, convert);
    var q := qs[|qs| - 1];
    if ps != [] && Continues(ps[|ps| - 1], s) {
      assert Started(ps[|ps| - 1], convert);
    }
  }

  /** So when every colour is shown in some valid colour, all are. */
  lemma ColorsAreKept(ss: seq<Segment>, convert: Rgb -> Shown)
    requires forall c :: convert(c).valid
    ensures var out := Expand(Merge(ss, convert));
      |out| == |ss| && forall i | 0 <= i < |ss| :: ColorKept(out[i].color, ss[i].color, convert)
  {
    hide Merge, Expand, ColorKept, LineStart;
    NothingIsLost(ss, convert);
    forall i | 0 <= i < |ss|
      ensures ColorKept(Expand(Merge(ss, convert))[i].color, ss[i].color, convert)
    {
      ColorKeptIff(ss, i, convert);
    }
  }

  function Unshown(c: Rgb): Shown {
    Color(0, 0, 0, false)
  }

  const GREY := Rgb(127, 127, 127)

  /** A black segment behind a grey one, with a preference that is no colour: the black is not saved as black,
      nor as what it is shown in. */
  lemma BlackIsSwallowed(a: Point3, b: Point3, c: Point3)
    ensures var out := Expand(Merge([Segment(b, a, GREY), Segment(c, b, BLACK)], Unshown));
      |out| == 2 && !ColorKept(out[1].color, BLACK, Unshown)
  {
    var ss := [Segment(b, a, GREY), Segment(c, b, BLACK)];
    StartedGrey(a, b, c);
    ColorKeptIff(ss, 1, Unshown);
    hide Merge, Expand, LineStart, ColorKept;
    assert ss[1].color == BLACK;
  }

  lemma StartedGrey(a: Point3, b: Point3, c: Point3)
    ensures LineStart([Segment(b, a, GREY), Segment(c, b, BLACK)], 1, Unshown) == GREY
  {
    hide Merge;
    var ss := [Segment(b, a, GREY), Segment(c, b, BLACK)];
    NoSegments(ss, Unshown);
    MergeNext(ss, 0, Unshown);
    var one := Fresh(ss[0], Unshown);
    assert Merge(ss[..1], Unshown) == [] + [one] == [one];
    MergeNext(ss, 1, Unshown);
    assert Continues(one, ss[1]);
  }
}
