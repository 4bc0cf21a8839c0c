/** Map layers and their text form: 2D lines with an optional fixed height, and 3D lines. */
module MapFile {
  import opened Options
  import opened MapText

  const UINT32_MODULUS := 0x1_0000_0000
  const DEFAULT_COLOR := "#7F7F7F"
  const DEFAULT_ZEM := 75

  datatype Point2 = Point2(x: int, y: int)
  datatype Point3 = Point3(x: int, y: int, z: int)
  datatype LineL = LineL(name: string, color: string, points: seq<Point2>, z: int, heightSet: bool)
  datatype LineM = LineM(name: string, color: string, points: seq<Point3>)
  datatype Layer = Layer(ls: seq<LineL>, ms: seq<LineM>)

  // ---- Writing -----------------------------------------------------------------------------------

  function Coords2(ps: seq<Point2>): (r: seq<string>)
    ensures |r| == 2 * |ps|
  {
    if ps == [] then [] else [Show(ps[0].x), Show(ps[0].y)] + Coords2(ps[1..])
  }

  function Coords3(ps: seq<Point3>): (r: seq<string>)
    ensures |r| == 3 * |ps|
  {
    if ps == [] then [] else [Show(ps[0].x), Show(ps[0].y), Show(ps[0].z)] + Coords3(ps[1..])
  }

  function SaveL(l: LineL): string {
    Join(["L", l.name, l.color, Show(|l.points|)] + Coords2(l.points))
  }

  function SaveM(m: LineM): string {
    Join(["M", m.name, m.color, Show(|m.points|)] + Coords3(m.points))
  }

  function SaveH(z: int): string {
    Join(["H", Show(z)])
  }

  /** A height is written when it is not the one in force. */
  function HeightRecord(l: LineL, height: Option<int>): seq<string> {
    if l.heightSet && height != Some(l.z) then [SaveH(l.z)] else []
  }

  function HeightAfter(l: LineL, height: Option<int>): Option<int> {
    if l.heightSet then Some(l.z) else height
  }

  function SaveLs(ls: seq<LineL>, height: Option<int>): seq<string> {
    if ls == [] then []
    else HeightRecord(ls[0], height) + [SaveL(ls[0])] + SaveLs(ls[1..], HeightAfter(ls[0], height))
  }

  function SaveMs(ms: seq<LineM>): seq<string> {
    if ms == [] then [] else [SaveM(ms[0])] + SaveMs(ms[1..])
  }

  function ZemRecord(zem: int): seq<string> {
    if zem != DEFAULT_ZEM then [Join(["Z", Show(zem)])] else []
  }

  /** The file: the zone's header, its experience modifier, the lines, and whatever is written after them. */
  function Save(layer: Layer, header: string, zem: int, rest: seq<string>): seq<string> {
    [header] + ZemRecord(zem) + SaveLs(layer.ls, None) + SaveMs(layer.ms) + rest
  }

  // ---- Reading -----------------------------------------------------------------------------------

  /** What is carried from line to line. The height in force is used once it has been set. */
  datatype Loading = Loading(globHeight: int, globHeightSet: bool, layer: Layer)

  const START := Loading(0, false, Layer([], []))

  function ReadPoints2(fs: seq<string>, n: nat): (r: seq<Point2>)
    requires 2 * n <= |fs|
    ensures |r| == n
  {
    if n == 0 then [] else [Point2(ShortOr0(fs[0]), ShortOr0(fs[1]))] + ReadPoints2(fs[2..], n - 1)
  }

  function ReadPoints3(fs: seq<string>, n: nat): (r: seq<Point3>)
    requires 3 * n <= |fs|
    ensures |r| == n
  {
    if n == 0 then []
    else [Point3(ShortOr0(fs[0]), ShortOr0(fs[1]), ShortOr0(fs[2]))] + ReadPoints3(fs[3..], n - 1)
  }

  function ColorOf(s: string): string {
    if s == "" then DEFAULT_COLOR else s
  }

  function LoadL(args: seq<string>, globHeight: int, globHeightSet: bool): Option<LineL> {
    if |args| < 3 then None
    else
      var n := (|args| - 3) / 2 % UINT32_MODULUS;
      if n < 2 || ToUInt(args[2]).None? then None
      else Some(LineL(args[0], ColorOf(args[1]), ReadPoints2(args[3..], n),
                      if globHeightSet then globHeight else 0, globHeightSet))
  }

  function LoadM(args: seq<string>): Option<LineM> {
    if |args| < 3 then None
    else
      var n := (|args| - 3) / 3 % UINT32_MODULUS;
      if n < 2 || ToUInt(args[2]).None? then None
      else Some(LineM(args[0], ColorOf(args[1]), ReadPoints3(args[3..], n)))
  }

  function EntryType(fs: seq<string>): char
    requires fs != []
  {
    if fs[0] == "" then ' ' else fs[0][0]
  }

  /** One line of the file. A height record with a bad number makes the height 0 without setting it. */
  function LoadLine(st: Loading, line: string): Loading {
    var fs := Split(line);
    var args := fs[1..];
    match EntryType(fs)
    case 'L' =>
      var l := LoadL(args, st.globHeight, st.globHeightSet);
      if l.None? then st else st.(layer := st.layer.(ls := st.layer.ls + [l.value]))
    case 'M' =>
      var m := LoadM(args);
      if m.None? then st else st.(layer := st.layer.(ms := st.layer.ms + [m.value]))
    case 'H' =>
      if args == [] then st
      else if ToShort(args[0]).None? then st.(globHeight := 0)
      else st.(globHeight := ToShort(args[0]).value, globHeightSet := true)
    case _ => st
  }

  function LoadLines(st: Loading, lines: seq<string>): Loading
    decreases |lines|
  {
    if lines == [] then st else LoadLines(LoadLine(st, lines[0]), lines[1..])
  }

  /** The layer a file holds. Its first line must have two fields. */
  function Load(lines: seq<string>): Option<Layer> {
    if lines == [] || |Split(lines[0])| < 2 then None else Some(LoadLines(START, lines[1..]).layer)
  }

  lemma {:induction false} LoadLinesConcat(st: Loading, a: seq<string>, b: seq<string>)
    ensures LoadLines(st, a + b) == LoadLines(LoadLines(st, a), b)
    decreases |a|
  {
    hide LoadLine;
    if a == [] {
      assert a + b == b;
    } else {
      assert (a + b)[1..] == a[1..] + b;
      LoadLinesConcat(LoadLine(st, a[0]), a[1..], b);
    }
  }

  // ---- Layers that survive -----------------------------------------------------------------------

  /** A record can be written of the line that is read as it was written. */
  predicate SavableL(l: LineL) {
    && IsField(l.name) && IsField(l.color) && 2 <= |l.points| < UINT32_MODULUS
    && IsInt16(l.z) && (l.heightSet || l.z == 0)
    && forall i | 0 <= i < |l.points| :: IsInt16(l.points[i].x) && IsInt16(l.points[i].y)
  }

  predicate SavableM(m: LineM) {
    && IsField(m.name) && IsField(m.color) && 2 <= |m.points| < UINT32_MODULUS
    && forall i | 0 <= i < |m.points| ::
      IsInt16(m.points[i].x) && IsInt16(m.points[i].y) && IsInt16(m.points[i].z)
  }

  predicate GoodL(l: LineL) {
    SavableL(l) && l.color != ""
  }

  predicate GoodM(m: LineM) {
    SavableM(m) && m.color != ""
  }

  /** Lines without a fixed height come before all lines with one. */
  predicate UnsetFirst(ls: seq<LineL>) {
    forall i, j | 0 <= i < j < |ls| && ls[i].heightSet :: ls[j].heightSet
  }

  predicate Good(layer: Layer) {
    && (forall i | 0 <= i < |layer.ls| :: GoodL(layer.ls[i]))
    && (forall i | 0 <= i < |layer.ms| :: GoodM(layer.ms[i]))
    && UnsetFirst(layer.ls)
  }

  predicate Savable(layer: Layer) {
    && (forall i | 0 <= i < |layer.ls| :: SavableL(layer.ls[i]))
    && (forall i | 0 <= i < |layer.ms| :: SavableM(layer.ms[i]))
    && UnsetFirst(layer.ls)
  }

  // ---- Everything that is loaded is good ---------------------------------------------------------

  predicate GoodLoading(st: Loading) {
    && Good(st.layer) && IsInt16(st.globHeight)
    && (!st.globHeightSet ==> forall i | 0 <= i < |st.layer.ls| :: !st.layer.ls[i].heightSet)
  }

  lemma {:induction false} PointsAreShort(fs: seq<string>, n: nat)
    ensures 2 * n <= |fs| ==> forall i | 0 <= i < n ::
      IsInt16(ReadPoints2(fs, n)[i].x) && IsInt16(ReadPoints2(fs, n)[i].y)
    ensures 3 * n <= |fs| ==> forall i | 0 <= i < n ::
      IsInt16(ReadPoints3(fs, n)[i].x) && IsInt16(ReadPoints3(fs, n)[i].y) && IsInt16(ReadPoints3(fs, n)[i].z)
  {
    if n > 0 {
      if 2 * n <= |fs| {
        PointsAreShort(fs[2..], n - 1);
      }
      if 3 * n <= |fs| {
        PointsAreShort(fs[3..], n - 1);
      }
    }
  }

  lemma LoadedLIsGood(args: seq<string>, globHeight: int, globHeightSet: bool)
    requires (forall i | 0 <= i < |args| :: IsField(args[i])) && IsInt16(globHeight)
    ensures var l := LoadL(args, globHeight, globHeightSet);
      l.Some? ==> GoodL(l.value) && l.value.heightSet == globHeightSet
  {
    hide ReadPoints2, ShortOr0, IsInt16;
    if |args| >= 3 {
      PointsAreShort(args[3..], (|args| - 3) / 2 % UINT32_MODULUS);
    }
    ZeroIsInt16();
  }

  lemma ZeroIsInt16()
    ensures IsInt16(0)
  {
  }

  lemma LoadedMIsGood(args: seq<string>)
    requires forall i | 0 <= i < |args| :: IsField(args[i])
    ensures var m := LoadM(args);
      m.Some? ==> GoodM(m.value)
  {
    hide ReadPoints3, ShortOr0, IsInt16;
    if |args| >= 3 {
      PointsAreShort(args[3..], (|args| - 3) / 3 % UINT32_MODULUS);
    }
  }

  lemma LoadLineKeepsGood(st: Loading, line: string)
    requires GoodLoading(st) && IsLine(line)
    ensures GoodLoading(LoadLine(st, line))
  {
    hide Split, IsLine, LoadL, LoadM, GoodL, GoodM, ToShort;
    var args := Split(line)[1..];
    LoadedLIsGood(args, st.globHeight, st.globHeightSet);
    LoadedMIsGood(args);
  }

  lemma {:induction false} LoadLinesKeepsGood(st: Loading, lines: seq<string>)
    requires GoodLoading(st) && forall i | 0 <= i < |lines| :: IsLine(lines[i])
    ensures GoodLoading(LoadLines(st, lines))
    decreases |lines|
  {
    hide GoodLoading, LoadLine, IsLine;
    if lines != [] {
      LoadLineKeepsGood(st, lines[0]);
      LoadLinesKeepsGood(LoadLine(st, lines[0]), lines[1..]);
    }
  }

  /** Whatever the lines say. */
  lemma LoadedIsGood(lines: seq<string>)
    requires forall i | 0 <= i < |lines| :: IsLine(lines[i])
    ensures Load(lines).Some? ==> Good(Load(lines).value)
  {
    if lines != [] {
      LoadLinesKeepsGood(START, lines[1..]);
    }
  }
}
