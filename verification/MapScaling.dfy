/** Scaling the heights of a layer, and saving what was loaded and scaled. */
module MapScaling {
  import opened Arithmetic
  import opened Bytes
  import opened Options
  import opened MapEncoding
  import opened MapText
  import opened MapFile
  import opened MapOnDisk
  import opened MapRoundTrip
  import opened MapSurvival

  // ---- Scaling Z ---------------------------------------------------------------------------------

  datatype Scale = Up(factor: int) | Down(factor: int) {
    predicate Valid() {
      IsInt16(factor) && (Down? ==> factor != 0)
    }

    /** The scaled height, cut to the 16 bits that hold it. */
    function Z(z: int): (r: int)
      requires Valid()
      ensures IsInt16(r)
    {
      match this
      case Up(f) => ToInt16(z * f)
      case Down(f) => ToInt16(Quotient(z, f))
    }
  }

  function Abs(n: int): nat {
    if n < 0 then -n else n
  }

  /** Division that drops the fraction. */
  function Quotient(a: int, b: int): int
    requires b != 0
  {
    if (a < 0) == (b < 0) then Abs(a) / Abs(b) else -(Abs(a) / Abs(b))
  }

  function ScaleL(l: LineL, s: Scale): LineL
    requires s.Valid()
  {
    l.(z := s.Z(l.z), heightSet := true)
  }

  function ScalePoint(p: Point3, s: Scale): Point3
    requires s.Valid()
  {
    p.(z := s.Z(p.z))
  }

  function ScaleM(m: LineM, s: Scale): LineM
    requires s.Valid()
  {
    m.(points := seq(|m.points|, i requires 0 <= i < |m.points| => ScalePoint(m.points[i], s)))
  }

  function ScaleLayer(layer: Layer, s: Scale): Layer
    requires s.Valid()
  {
    Layer(seq(|layer.ls|, i requires 0 <= i < |layer.ls| => ScaleL(layer.ls[i], s)),
          seq(|layer.ms|, i requires 0 <= i < |layer.ms| => ScaleM(layer.ms[i], s)))
  }

  /** Scaling touches heights only, of every line and point, and leaves the lines and points in their order. */
  lemma OnlyHeightsChange(layer: Layer, s: Scale)
    requires s.Valid()
    ensures var r := ScaleLayer(layer, s);
      && |r.ls| == |layer.ls| && |r.ms| == |layer.ms|
      && (forall i | 0 <= i < |layer.ls| ::
            var (a, b) := (layer.ls[i], r.ls[i]);
            b.name == a.name && b.color == a.color && b.points == a.points && b.heightSet && b.z == Scaled(a.z, s))
      && (forall i | 0 <= i < |layer.ms| ::
            var (a, b) := (layer.ms[i], r.ms[i]);
            && b.name == a.name && b.color == a.color && |b.points| == |a.points|
            && forall k | 0 <= k < |a.points| ::
                 && b.points[k].x == a.points[k].x && b.points[k].y == a.points[k].y
                 && b.points[k].z == Scaled(a.points[k].z, s))
  {
    forall z
      ensures s.Z(z) == Scaled(z, s)
    {
      ScaledIs(z, s);
    }
    hide Scaled, Scale.Z;
  }

  /** The one 16-bit number that differs from the product, or from the quotient without its fraction, by a multiple of
      2 to the 16th. */
  function Scaled(z: int, s: Scale): int
    requires s.Valid()
  {
    Wrapped(if s.Up? then z * s.factor else Truncated(z, s.factor))
  }

  function Wrapped(n: int): int {
    (n + 0x8000) % 0x1_0000 - 0x8000
  }

  function Truncated(a: int, b: int): int
    requires b != 0
  {
    if a < 0 && b < 0 then -a / -b
    else if a < 0 then -(-a / b)
    else if b < 0 then -(a / -b)
    else a / b
  }

  lemma WrappedIs(n: int)
    ensures ToInt16(n) == Wrapped(n)
  {
  }

  lemma TruncatedIs(a: int, b: int)
    requires b != 0
    ensures Quotient(a, b) == Truncated(a, b)
  {
    assert Abs(a) == if a < 0 then -a else a;
    assert Abs(b) == if b < 0 then -b else b;
    hide Abs;
  }

  lemma ScaledIs(z: int, s: Scale)
    requires s.Valid()
    ensures s.Z(z) == Scaled(z, s)
  {
    hide ToInt16, Wrapped, Quotient, Truncated;
    match s
    case Up(f) => WrappedIs(z * f);
    case Down(f) =>
      TruncatedIs(z, f);
      WrappedIs(Quotient(z, f));
  }

  /** Scaling gives every 2D line a fixed height, so none without one can stand behind one with. */
  lemma ScaleKeepsGood(layer: Layer, s: Scale)
    requires Good(layer) && s.Valid()
    ensures Good(ScaleLayer(layer, s))
  {
    hide Scale.Z, IsInt16, IsField;
    forall i | 0 <= i < |layer.ls| ensures GoodL(ScaleLayer(layer, s).ls[i]) {
      assert GoodL(layer.ls[i]);
    }
    forall i | 0 <= i < |layer.ms| ensures GoodM(ScaleLayer(layer, s).ms[i]) {
      assert GoodM(layer.ms[i]);
    }
  }

  function ScaleAll(layer: Layer, ss: seq<Scale>): Layer
    requires forall s | s in ss :: s.Valid()
    decreases |ss|
  {
    if ss == [] then layer else ScaleAll(ScaleLayer(layer, ss[0]), ss[1..])
  }

  lemma {:induction false} ScaleAllKeepsGood(layer: Layer, ss: seq<Scale>)
    requires Good(layer) && forall s | s in ss :: s.Valid()
    ensures Good(ScaleAll(layer, ss))
    decreases |ss|
  {
    hide Good, ScaleLayer;
    if ss != [] {
      ScaleKeepsGood(layer, ss[0]);
      ScaleAllKeepsGood(ScaleLayer(layer, ss[0]), ss[1..]);
    }
  }

  /** Whatever file a layer came from and however often it was scaled, saving and loading gives back every line
      with its points, height and flag; and it gives back the very layer exactly when its names and colours are
      plain ASCII. */
  lemma ReachableRoundTrips(file: seq<byte>, ss: seq<Scale>, header: string, zem: int, rest: seq<string>)
    requires LoadFile(file).Some? && forall s | s in ss :: s.Valid()
    requires HeaderOk(header) && Others(rest)
    ensures var layer := ScaleAll(LoadFile(file).value, ss);
      var back := LoadFile(SaveFile(layer, header, zem, rest));
      && back.Some? && SameShape(back.value, layer)
      && (back == Some(layer) <==> PlainLayer(layer))
  {
    hide LoadFile, SaveFile, HeaderOk, Others, Good, Savable, ScaleAll, PlainLayer, RereadLayer, SameShape;
    var layer := ScaleAll(LoadFile(file).value, ss);
    LoadedFileIsGood(file);
    ScaleAllKeepsGood(LoadFile(file).value, ss);
    GoodIsSavable(layer);
    SaveThenLoad(layer, header, zem, rest);
    RereadKeepsShape(layer);
    RereadLayerIff(layer);
  }

  // ---- A line with one point -------------------------------------------------------------------------

  predicate OnePoint(m: LineM) {
    && |m.points| == 1 && IsField(m.name) && IsField(m.color)
    && IsInt16(m.points[0].x) && IsInt16(m.points[0].y) && IsInt16(m.points[0].z)
  }

  function With(layer: Layer, m: LineM): Layer {
    layer.(ms := layer.ms + [m])
  }

  /** A 3D line that has only its first point when the layer is saved is not loaded again; everything else
      is. */
  lemma OnePointLineIsLost(layer: Layer, m: LineM, header: string, zem: int, rest: seq<string>)
    requires Good(layer) && OnePoint(m) && HeaderOk(header) && Others(rest)
    ensures LoadFile(SaveFile(With(layer, m), header, zem, rest)) == Some(RereadLayer(layer))
  {
    hide Save, Load, Split, IsLine, Good, Savable, Writable, Others, RecodeAll, ReadLines, FileBytes, OnePoint;
    GoodIsSavable(layer);
    PrintedIsSavable(layer);
    var p, n := Printed(layer), PrintedM(m);
    PrintedWith(layer, m);
    FileReads(With(p, n), header, zem, rest);
    var h :| HeaderOk(h) && ReadLines(FileBytes(Save(With(p, n), header, zem, rest)))
                            == Save(RecodeLayer(With(p, n)), h, zem, RecodeAll(rest));
    RecodedOthers(rest);
    RecodedWith(p, n);
    LostWhenRead(RecodeLayer(p), RecodeM(n), h, zem, RecodeAll(rest));
    RereadIs(layer);
  }

  lemma PrintedWith(layer: Layer, m: LineM)
    requires Savable(layer) && OnePoint(m)
    ensures Printed(With(layer, m)) == With(Printed(layer), PrintedM(m))
    ensures Writable(With(Printed(layer), PrintedM(m))) && OnePoint(RecodeM(PrintedM(m)))
  {
    hide CutAtNul, Recode, IsField, Savable;
    PrintedIsSavable(layer);
    SavableIsWritable(Printed(layer));
    CutField(m.name);
    CutField(m.color);
    RecodedField(CutAtNul(m.name));
    RecodedField(CutAtNul(m.color));
    assert Printed(With(layer, m)).ms == Printed(layer).ms + [PrintedM(m)];
  }

  lemma RecodedWith(layer: Layer, m: LineM)
    ensures RecodeLayer(With(layer, m)) == With(RecodeLayer(layer), RecodeM(m))
  {
    hide Recode;
    assert RecodeLayer(With(layer, m)).ms == RecodeLayer(layer).ms + [RecodeM(m)];
  }

  lemma {:induction false} SaveMsSnoc(ms: seq<LineM>, m: LineM)
    ensures SaveMs(ms + [m]) == SaveMs(ms) + [SaveM(m)]
  {
    hide SaveM;
    if ms == [] {
      assert [m][1..] == [];
    } else {
      SaveMsSnoc(ms[1..], m);
      assert (ms + [m])[1..] == ms[1..] + [m];
    }
  }

  lemma LostWhenRead(layer: Layer, m: LineM, header: string, zem: int, rest: seq<string>)
    requires Savable(layer) && OnePoint(m) && |Split(header)| >= 2 && Others(rest)
    ensures Load(Save(With(layer, m), header, zem, rest)) == Some(Layer(DefaultLs(layer.ls), DefaultMs(layer.ms)))
  {
    hide Split, Save, LoadLine, SaveM, LoadLines, Others, Savable, OnePoint, DefaultLs, DefaultMs;
    var lost := [SaveM(m)];
    NothingElse();
    SavedIsRead(layer, header, zem, []);
    var front := Save(layer, header, zem, []);
    SaveWith(layer, m, header, zem, rest);
    SaveStarts(layer, header, zem);
    var body := front[1..];
    assert (front + (lost + rest))[1..] == body + (lost + rest);
    LoadLinesConcat(START, body, lost + rest);
    var st := LoadLines(START, body);
    LoadLinesConcat(st, lost, rest);
    OneLine(st, SaveM(m));
    TooShort(st, m);
    OthersChangeNothing(st, rest);
  }

  lemma NothingElse()
    ensures Others([])
  {
  }

  lemma SaveStarts(layer: Layer, header: string, zem: int)
    ensures var f := Save(layer, header, zem, []);
      f != [] && f[0] == header
  {
  }

  lemma SaveWith(layer: Layer, m: LineM, header: string, zem: int, rest: seq<string>)
    ensures Save(With(layer, m), header, zem, rest) == Save(layer, header, zem, []) + ([SaveM(m)] + rest)
  {
    hide SaveLs, SaveMs, ZemRecord, SaveM;
    SaveMsSnoc(layer.ms, m);
  }

  lemma TooShort(st: Loading, m: LineM)
    requires OnePoint(m)
    ensures LoadLine(st, SaveM(m)) == st
  {
    hide Split, Join, Show, Coords3, ToUInt, IsField;
    Coords3Back(m.points);
    CountBack(1);
    KindIsField();
    FieldsBack("M", m.name, m.color, Show(1), Coords3(m.points));
    var args := [m.name, m.color, Show(1)] + Coords3(m.points);
    assert (["M"] + args)[1..] == args;
  }

  lemma KindIsField()
    ensures IsField("M")
  {
  }

  // ---- Scaling there and back ----------------------------------------------------------------------

  lemma QuotientOfProduct(z: int, f: int)
    requires f != 0
    ensures Quotient(z * f, f) == z
  {
    SignOfProduct(z, f);
    DivideBack(Abs(z), Abs(f));
  }

  lemma SignOfProduct(z: int, f: int)
    ensures Abs(z * f) == Abs(z) * Abs(f)
    ensures z != 0 && f != 0 ==> ((z * f < 0) <==> ((z < 0) != (f < 0)))
  {
    if z >= 0 && f >= 0 {
      assert z * f >= 0;
    } else if z < 0 && f < 0 {
      assert z * f == (-z) * (-f) > 0;
    } else if z < 0 {
      assert z * f == -((-z) * f) && (-z) * f >= 0;
      if f > 0 {
        assert (-z) * f > 0;
      }
    } else {
      assert z * f == -(z * (-f)) && z * (-f) >= 0;
      if z > 0 {
        assert z * (-f) > 0;
      }
    }
  }

  lemma QuotientTimes(w: int, f: int)
    requires f != 0
    ensures Abs(Quotient(w, f)) * Abs(f) <= Abs(w)
    ensures Quotient(w, f) > 0 ==> (w < 0 <==> f < 0)
    ensures Quotient(w, f) < 0 ==> !(w < 0 <==> f < 0)
  {
    var a, b := Abs(w), Abs(f);
    assert a == b * (a / b) + a % b;
    assert a / b * b == b * (a / b);
  }

  lemma AtLeastOnce(a: nat, b: nat)
    requires b > 0
    ensures a <= a * b && (b > 1 && a > 0 ==> 2 * a <= a * b)
  {
    MulMonotone(a, 1, b);
    if b > 1 {
      MulMonotone(a, 2, b);
    }
  }

  /** `p` is too big, `q` is what is left of it after wrapping round and dividing by `f` again. */
  lemma TooBig(z: int, f: int, p: int, q: int)
    requires IsInt16(z) && f != 0 && !IsInt16(p)
    requires (p < 0 <==> ((z < 0) != (f < 0))) && (f == -1 ==> p == -z)
    requires Abs(q) * Abs(f) <= Abs(ToInt16(p)) && (q == z ==> Abs(q) * Abs(f) == Abs(p))
    requires q > 0 ==> (ToInt16(p) < 0 <==> f < 0)
    requires q < 0 ==> !(ToInt16(p) < 0 <==> f < 0)
    ensures ToInt16(q) == z ==> z == -0x8000 && f == -1
  {
    AtLeastOnce(Abs(q), Abs(f));
    var m := Abs(q) * Abs(f);
    assert m <= 0x8000;
  }

  /** Scaling down undoes scaling up exactly when the product fits in 16 bits; and when the lowest height is
      negated, which wraps round to itself twice. */
  lemma ScaleUndoneIff(z: int, f: int)
    requires IsInt16(z) && IsInt16(f) && f != 0
    ensures Down(f).Z(Up(f).Z(z)) == z <==> IsInt16(z * f) || (z == -0x8000 && f == -1)
  {
    var p := z * f;
    SignOfProduct(z, f);
    if IsInt16(p) {
      QuotientOfProduct(z, f);
    } else {
      Negated(z, f);
      QuotientTimes(ToInt16(p), f);
      hide ToInt16, Quotient, Abs;
      TooBig(z, f, p, Quotient(ToInt16(p), f));
      WrapsTwice();
    }
  }

  lemma WrapsTwice()
    ensures Down(-1).Z(Up(-1).Z(-0x8000)) == -0x8000
  {
    assert ToInt16(0x8000) == -0x8000 && Quotient(-0x8000, -1) == 0x8000;
  }

  lemma Negated(z: int, f: int)
    ensures f == -1 ==> z * f == -z
    ensures z * f != 0 ==> z != 0
  {
  }
}
