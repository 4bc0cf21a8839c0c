/** The lines saved of a layer are read as that layer. */
module MapRoundTrip {
  import opened Options
  import opened MapText
  import opened MapFile

  lemma {:induction false} Coords2Back(ps: seq<Point2>)
    requires forall i | 0 <= i < |ps| :: IsInt16(ps[i].x) && IsInt16(ps[i].y)
    ensures ReadPoints2(Coords2(ps), |ps|) == ps
    ensures forall i | 0 <= i < 2 * |ps| :: IsField(Coords2(ps)[i])
  {
    hide Show, ToShort, IsField, IsInt16;
    if ps != [] {
      ShortBack(ps[0].x);
      ShortBack(ps[0].y);
      Coords2Back(ps[1..]);
      assert Coords2(ps)[2..] == Coords2(ps[1..]);
      assert ps == [ps[0]] + ps[1..];
    }
  }

  lemma {:induction false} Coords3Back(ps: seq<Point3>)
    requires forall i | 0 <= i < |ps| :: IsInt16(ps[i].x) && IsInt16(ps[i].y) && IsInt16(ps[i].z)
    ensures ReadPoints3(Coords3(ps), |ps|) == ps
    ensures forall i | 0 <= i < 3 * |ps| :: IsField(Coords3(ps)[i])
  {
    hide Show, ToShort, IsField, IsInt16;
    if ps != [] {
      ShortBack(ps[0].x);
      ShortBack(ps[0].y);
      ShortBack(ps[0].z);
      Coords3Back(ps[1..]);
      assert Coords3(ps)[3..] == Coords3(ps[1..]);
      assert ps == [ps[0]] + ps[1..];
    }
  }

  lemma CountBack(n: nat)
    requires n < UINT32_MODULUS
    ensures ToUInt(Show(n)) == Some(n) && IsField(Show(n))
  {
    NumberOfDigits(n);
  }

  /** The fields a record was joined from. */
  lemma FieldsBack(kind: string, name: string, color: string, count: string, coords: seq<string>)
    requires IsField(kind) && IsField(name) && IsField(color) && IsField(count)
    requires forall i | 0 <= i < |coords| :: IsField(coords[i])
    ensures Split(Join([kind, name, color, count] + coords)) == [kind] + ([name, color, count] + coords)
    ensures ([name, color, count] + coords)[3..] == coords
  {
    hide Split, Join, IsField;
    var front := [name, color, count];
    FrontFields(name, color, count);
    Front(kind, front);
    Regroup([kind], front, coords);
    AllFields(front, coords);
    AllFields([kind], front + coords);
    SplitJoin([kind] + (front + coords));
  }

  lemma FrontFields(name: string, color: string, count: string)
    requires IsField(name) && IsField(color) && IsField(count)
    ensures forall i | 0 <= i < 3 :: IsField([name, color, count][i])
  {
    hide IsField;
    assert forall i | 0 <= i < 3 :: [name, color, count][i] in {name, color, count};
  }

  lemma Front(kind: string, front: seq<string>)
    requires |front| == 3
    ensures [kind, front[0], front[1], front[2]] == [kind] + front
  {
  }

  lemma Regroup(a: seq<string>, b: seq<string>, c: seq<string>)
    ensures a + b + c == a + (b + c)
    ensures (b + c)[|b|..] == c
  {
  }

  lemma AllFields(a: seq<string>, b: seq<string>)
    requires forall i | 0 <= i < |a| :: IsField(a[i])
    requires forall i | 0 <= i < |b| :: IsField(b[i])
    ensures forall i | 0 <= i < |a + b| :: IsField((a + b)[i])
  {
  }

  /** A colour without a name is read as the default. */
  function DefaultL(l: LineL): LineL {
    l.(color := ColorOf(l.color))
  }

  function DefaultM(m: LineM): LineM {
    m.(color := ColorOf(m.color))
  }

  function DefaultLs(ls: seq<LineL>): (r: seq<LineL>)
    ensures |r| == |ls| && forall i | 0 <= i < |ls| :: r[i] == DefaultL(ls[i])
  {
    if ls == [] then [] else [DefaultL(ls[0])] + DefaultLs(ls[1..])
  }

  function DefaultMs(ms: seq<LineM>): (r: seq<LineM>)
    ensures |r| == |ms| && forall i | 0 <= i < |ms| :: r[i] == DefaultM(ms[i])
  {
    if ms == [] then [] else [DefaultM(ms[0])] + DefaultMs(ms[1..])
  }

  lemma LineLBack(l: LineL, globHeight: int)
    requires SavableL(l) && (l.heightSet ==> globHeight == l.z)
    ensures var fs := Split(SaveL(l));
      && EntryType(fs) == 'L'
      && LoadL(fs[1..], globHeight, l.heightSet) == Some(DefaultL(l))
  {
    hide Split, Join, Show, ReadPoints2, Coords2, ToUInt;
    var args := [l.name, l.color, Show(|l.points|)] + Coords2(l.points);
    Coords2Back(l.points);
    CountBack(|l.points|);
    FieldsBack("L", l.name, l.color, Show(|l.points|), Coords2(l.points));
    assert (["L"] + args)[1..] == args;
    assert (|args| - 3) / 2 % UINT32_MODULUS == |l.points|;
  }

  lemma LineMBack(m: LineM)
    requires SavableM(m)
    ensures var fs := Split(SaveM(m));
      && EntryType(fs) == 'M'
      && LoadM(fs[1..]) == Some(DefaultM(m))
  {
    hide Split, Join, Show, ReadPoints3, Coords3, ToUInt;
    var args := [m.name, m.color, Show(|m.points|)] + Coords3(m.points);
    Coords3Back(m.points);
    CountBack(|m.points|);
    FieldsBack("M", m.name, m.color, Show(|m.points|), Coords3(m.points));
    assert (["M"] + args)[1..] == args;
    assert (|args| - 3) / 3 % UINT32_MODULUS == |m.points|;
  }

  lemma HeightBack(st: Loading, z: int)
    requires IsInt16(z)
    ensures LoadLine(st, SaveH(z)) == st.(globHeight := z, globHeightSet := true)
  {
    hide Split, Join, Show, ToShort;
    ShortBack(z);
    SplitJoin(["H", Show(z)]);
    assert ["H", Show(z)][1..] == [Show(z)];
  }

  /** The reader has the same height in force as the writer. */
  predicate Agree(st: Loading, height: Option<int>) {
    if height.Some? then st.globHeightSet && st.globHeight == height.value else !st.globHeightSet
  }

  /** One line with the height record in front of it, if it needs one. */
  lemma OneLineBack(st: Loading, l: LineL, height: Option<int>)
    requires Agree(st, height) && SavableL(l) && (st.globHeightSet ==> l.heightSet)
    ensures var st' := LoadLines(st, HeightRecord(l, height) + [SaveL(l)]);
      && Agree(st', HeightAfter(l, height))
      && st'.layer == st.layer.(ls := st.layer.ls + [DefaultL(l)])
  {
    hide Split, SaveL, SaveH, LoadL, SavableL, DefaultL;
    var records := HeightRecord(l, height) + [SaveL(l)];
    SavableHeight(l);
    if HeightRecord(l, height) == [] {
      assert records == [SaveL(l)];
      LineLBack(l, st.globHeight);
      OneLine(st, SaveL(l));
    } else {
      HeightBack(st, l.z);
      var st1 := st.(globHeight := l.z, globHeightSet := true);
      LineLBack(l, st1.globHeight);
      assert records[1..] == [SaveL(l)];
      OneLine(st1, SaveL(l));
    }
  }

  lemma SavableHeight(l: LineL)
    requires SavableL(l)
    ensures IsInt16(l.z)
  {
  }

  lemma OneLine(st: Loading, line: string)
    ensures LoadLines(st, [line]) == LoadLine(st, line)
  {
    assert [line][1..] == [];
  }

  lemma {:induction false} LinesLBack(st: Loading, ls: seq<LineL>, height: Option<int>)
    requires Agree(st, height) && UnsetFirst(ls)
    requires forall i | 0 <= i < |ls| :: SavableL(ls[i]) && (st.globHeightSet ==> ls[i].heightSet)
    ensures LoadLines(st, SaveLs(ls, height)).layer == st.layer.(ls := st.layer.ls + DefaultLs(ls))
    decreases |ls|
  {
    hide LoadLine, SavableL, HeightRecord, SaveL, DefaultL;
    if ls == [] {
      assert st.layer.ls + [] == st.layer.ls;
    } else {
      var first := HeightRecord(ls[0], height) + [SaveL(ls[0])];
      var st1 := LoadLines(st, first);
      OneLineBack(st, ls[0], height);
      LoadLinesConcat(st, first, SaveLs(ls[1..], HeightAfter(ls[0], height)));
      LinesLBack(st1, ls[1..], HeightAfter(ls[0], height));
      AppendInTwo(st.layer.ls, DefaultL(ls[0]), DefaultLs(ls[1..]));
    }
  }

  lemma {:induction false} LinesMBack(st: Loading, ms: seq<LineM>)
    requires forall i | 0 <= i < |ms| :: SavableM(ms[i])
    ensures LoadLines(st, SaveMs(ms)).layer == st.layer.(ms := st.layer.ms + DefaultMs(ms))
    decreases |ms|
  {
    hide LoadLine, LoadLines, SaveM, SavableM, DefaultM;
    if ms == [] {
      assert st.layer.ms + [] == st.layer.ms;
      NoLines(st);
    } else {
      OneLineM(st, ms[0]);
      LoadLinesConcat(st, [SaveM(ms[0])], SaveMs(ms[1..]));
      LinesMBack(LoadLines(st, [SaveM(ms[0])]), ms[1..]);
      AppendInTwo(st.layer.ms, DefaultM(ms[0]), DefaultMs(ms[1..]));
    }
  }

  lemma NoLines(st: Loading)
    ensures LoadLines(st, []) == st
  {
  }

  lemma AppendInTwo<T>(a: seq<T>, x: T, b: seq<T>)
    ensures a + [x] + b == a + ([x] + b)
  {
  }

  lemma OneLineM(st: Loading, m: LineM)
    requires SavableM(m)
    ensures LoadLines(st, [SaveM(m)]) == st.(layer := st.layer.(ms := st.layer.ms + [DefaultM(m)]))
  {
    hide Split, SaveM, LoadM, SavableM, LoadLines, DefaultM;
    LineMBack(m);
    OneLine(st, SaveM(m));
  }

  /** Records of the kinds that hold neither lines nor heights: locations, aggro ranges and the modifier. */
  predicate Others(rest: seq<string>) {
    forall i | 0 <= i < |rest| :: IsLine(rest[i]) && Split(rest[i])[0] in {"P", "A", "Z"}
  }

  lemma {:induction false} OthersChangeNothing(st: Loading, rest: seq<string>)
    requires Others(rest)
    ensures LoadLines(st, rest) == st
    decreases |rest|
  {
    hide Split;
    if rest != [] {
      OthersChangeNothing(st, rest[1..]);
    }
  }

  lemma ZemIsOther(zem: int)
    ensures Others(ZemRecord(zem))
  {
    hide Show;
    if zem != DEFAULT_ZEM {
      ZemField(zem);
      SplitJoin(["Z", Show(zem)]);
      assert ["Z", Show(zem)][1..] == [Show(zem)];
    }
  }

  lemma ZemField(zem: int)
    ensures IsField(Show(zem))
  {
    NumberOfDigits(if zem < 0 then -zem else zem);
  }

  /** The height records are where the reader needs them, and the other records disturb nothing. */
  lemma {:induction false} SavedIsRead(layer: Layer, header: string, zem: int, rest: seq<string>)
    requires Savable(layer) && |Split(header)| >= 2 && Others(rest)
    ensures Load(Save(layer, header, zem, rest)) == Some(Layer(DefaultLs(layer.ls), DefaultMs(layer.ms)))
  {
    hide Split, LoadLine, SaveLs, SaveMs, Others, SavableL, SavableM, LoadLines, DefaultLs, DefaultMs;
    var z, l, m := ZemRecord(zem), SaveLs(layer.ls, None), SaveMs(layer.ms);
    assert Save(layer, header, zem, rest)[1..] == z + (l + (m + rest));
    ZemIsOther(zem);
    OthersChangeNothing(START, z);
    LoadLinesConcat(START, z, l + (m + rest));
    LinesLBack(START, layer.ls, None);
    var st1 := LoadLines(START, l);
    LoadLinesConcat(START, l, m + rest);
    LinesMBack(st1, layer.ms);
    var st2 := LoadLines(st1, m);
    LoadLinesConcat(st1, m, rest);
    OthersChangeNothing(st2, rest);
    assert [] + DefaultLs(layer.ls) == DefaultLs(layer.ls) && [] + DefaultMs(layer.ms) == DefaultMs(layer.ms);
  }
}
