/** What of a layer is there again after it was saved to a file and the file loaded. */
module MapSurvival {
  import opened Bytes
  import opened Options
  import opened MapText
  import opened MapEncoding
  import opened MapFile
  import opened MapRoundTrip
  import opened MapOnDisk

  // ---- The lines written are lines -----------------------------------------------------------------

  lemma {:induction false} JoinIsLine(fs: seq<string>)
    requires fs != [] && forall i | 0 <= i < |fs| :: IsField(fs[i])
    ensures IsLine(Join(fs))
  {
    if |fs| > 1 {
      JoinIsLine(fs[1..]);
    }
  }

  lemma {:induction false} CoordsAreFields(ps: seq<Point2>)
    ensures forall i | 0 <= i < |Coords2(ps)| :: IsField(Coords2(ps)[i])
  {
    hide Show, IsField;
    if ps != [] {
      ZemField(ps[0].x);
      ZemField(ps[0].y);
      CoordsAreFields(ps[1..]);
    }
  }

  lemma {:induction false} Coords3AreFields(ps: seq<Point3>)
    ensures forall i | 0 <= i < |Coords3(ps)| :: IsField(Coords3(ps)[i])
  {
    hide Show, IsField;
    if ps != [] {
      ZemField(ps[0].x);
      ZemField(ps[0].y);
      ZemField(ps[0].z);
      Coords3AreFields(ps[1..]);
    }
  }

  lemma RecordIsLine(kind: string, name: string, color: string, count: nat, coords: seq<string>)
    requires IsField(kind) && kind != [] && IsField(name) && IsField(color)
    requires forall i | 0 <= i < |coords| :: IsField(coords[i])
    ensures var line := Join([kind, name, color, Show(count)] + coords); line != [] && IsLine(line)
  {
    hide IsField, Show;
    var front := [name, color, Show(count)];
    ZemField(count);
    FrontFields(name, color, Show(count));
    Front(kind, front);
    Regroup([kind], front, coords);
    AllFields(front, coords);
    AllFields([kind], front + coords);
    JoinIsLine([kind] + (front + coords));
  }

  predicate WritableL(l: LineL) {
    IsField(l.name) && IsField(l.color)
  }

  predicate WritableM(m: LineM) {
    IsField(m.name) && IsField(m.color)
  }

  predicate Writable(layer: Layer) {
    && (forall i | 0 <= i < |layer.ls| :: WritableL(layer.ls[i]))
    && (forall i | 0 <= i < |layer.ms| :: WritableM(layer.ms[i]))
  }

  lemma LIsLine(l: LineL)
    requires WritableL(l)
    ensures SaveL(l) != [] && IsLine(SaveL(l))
  {
    hide Join, IsLine, Show, Coords2;
    CoordsAreFields(l.points);
    RecordIsLine("L", l.name, l.color, |l.points|, Coords2(l.points));
  }

  lemma MIsLine(m: LineM)
    requires WritableM(m)
    ensures SaveM(m) != [] && IsLine(SaveM(m))
  {
    hide Join, IsLine, Show, Coords3;
    Coords3AreFields(m.points);
    RecordIsLine("M", m.name, m.color, |m.points|, Coords3(m.points));
  }

  lemma PairIsLine(kind: string, n: int)
    requires kind in {"H", "Z"}
    ensures var line := Join([kind, Show(n)]); line != [] && IsLine(line)
  {
    hide Show;
    ZemField(n);
    JoinIsLine([kind, Show(n)]);
    assert [kind, Show(n)][1..] == [Show(n)];
  }

  lemma LinesConcat(a: seq<string>, b: seq<string>)
    requires AreLines(a) && AreLines(b)
    ensures AreLines(a + b)
  {
    hide IsLine;
  }

  lemma {:induction false} LsAreLines(ls: seq<LineL>, height: Option<int>)
    requires forall i | 0 <= i < |ls| :: WritableL(ls[i])
    ensures AreLines(SaveLs(ls, height))
  {
    hide WritableL, IsLine, SaveL, SaveH;
    if ls != [] {
      LIsLine(ls[0]);
      HIsLine(ls[0].z);
      LsAreLines(ls[1..], HeightAfter(ls[0], height));
      LinesConcat(HeightRecord(ls[0], height), [SaveL(ls[0])]);
      LinesConcat(HeightRecord(ls[0], height) + [SaveL(ls[0])], SaveLs(ls[1..], HeightAfter(ls[0], height)));
    }
  }

  lemma HIsLine(z: int)
    ensures SaveH(z) != [] && IsLine(SaveH(z))
  {
    hide IsLine, Join, Show;
    PairIsLine("H", z);
  }

  lemma {:induction false} MsAreLines(ms: seq<LineM>)
    requires forall i | 0 <= i < |ms| :: WritableM(ms[i])
    ensures AreLines(SaveMs(ms))
  {
    hide WritableM, IsLine, SaveM;
    if ms != [] {
      MIsLine(ms[0]);
      MsAreLines(ms[1..]);
      LinesConcat([SaveM(ms[0])], SaveMs(ms[1..]));
    }
  }

  lemma OthersAreLines(rest: seq<string>)
    requires Others(rest)
    ensures AreLines(rest)
  {
    hide IsLine;
  }

  // ---- Records of other kinds stay such --------------------------------------------------------------

  lemma {:induction false} JoinSplit(s: string)
    ensures Join(Split(s)) == s
  {
    if s != [] {
      JoinSplit(s[1..]);
      if s[0] == ',' {
        EmptyInFront(Split(s[1..]));
      } else {
        LongerFirst(s[0], Split(s[1..]));
      }
      assert s == [s[0]] + s[1..];
    }
  }

  lemma EmptyInFront(fs: seq<string>)
    requires fs != []
    ensures Join([""] + fs) == "," + Join(fs)
  {
    assert ([""] + fs)[1..] == fs;
  }

  lemma LongerFirst(c: char, fs: seq<string>)
    requires fs != []
    ensures Join([[c] + fs[0]] + fs[1..]) == [c] + Join(fs)
  {
    var gs := [[c] + fs[0]] + fs[1..];
    assert gs[1..] == fs[1..];
    if |fs| > 1 {
      assert [c] + fs[0] + "," + Join(fs[1..]) == [c] + (fs[0] + "," + Join(fs[1..]));
    }
  }

  lemma RecodedOther(line: string)
    requires IsLine(line) && Split(line)[0] in {"P", "A", "Z"}
    ensures IsLine(Recode(line)) && Split(Recode(line))[0] in {"P", "A", "Z"}
  {
    hide Recode, Split, Join, IsLine, IsField;
    var fs := Split(line);
    SplitFields(line);
    JoinSplit(line);
    RecodeJoin(fs);
    forall i | 0 <= i < |fs| ensures IsField(RecodeAll(fs)[i]) {
      RecodedField(fs[i]);
    }
    SplitJoin(RecodeAll(fs));
    KindIsKept(fs[0]);
    RecodedLine(line);
  }

  lemma SplitFields(line: string)
    requires IsLine(line)
    ensures Split(line) != [] && forall i | 0 <= i < |Split(line)| :: IsField(Split(line)[i])
  {
    hide IsLine, IsField;
  }

  lemma RecodedOthers(rest: seq<string>)
    requires Others(rest)
    ensures Others(RecodeAll(rest))
  {
    hide Recode, Split, IsLine;
    forall i | 0 <= i < |rest|
      ensures IsLine(RecodeAll(rest)[i]) && Split(RecodeAll(rest)[i])[0] in {"P", "A", "Z"}
    {
      RecodedOther(rest[i]);
    }
  }

  lemma RecodedZem(zem: int)
    ensures RecodeAll(ZemRecord(zem)) == ZemRecord(zem)
    ensures AreLines(ZemRecord(zem))
  {
    hide Recode, Join, Show, IsLine;
    if zem != DEFAULT_ZEM {
      RecodedPair("Z", zem);
      OneRecoded(Join(["Z", Show(zem)]));
      PairIsLine("Z", zem);
    }
  }

  // ---- Saving and loading ------------------------------------------------------------------------------

  function RereadL(l: LineL): LineL {
    l.(name := Reread(l.name), color := ColorOf(Reread(l.color)))
  }

  function RereadM(m: LineM): LineM {
    m.(name := Reread(m.name), color := ColorOf(Reread(m.color)))
  }

  function RereadLs(ls: seq<LineL>): (r: seq<LineL>)
    ensures |r| == |ls| && forall i | 0 <= i < |ls| :: r[i] == RereadL(ls[i])
  {
    if ls == [] then [] else [RereadL(ls[0])] + RereadLs(ls[1..])
  }

  function RereadMs(ms: seq<LineM>): (r: seq<LineM>)
    ensures |r| == |ms| && forall i | 0 <= i < |ms| :: r[i] == RereadM(ms[i])
  {
    if ms == [] then [] else [RereadM(ms[0])] + RereadMs(ms[1..])
  }

  function RereadLayer(layer: Layer): Layer {
    Layer(RereadLs(layer.ls), RereadMs(layer.ms))
  }

  function RecodeLayer(layer: Layer): Layer {
    Layer(RecodeLs(layer.ls), RecodeMs(layer.ms))
  }

  lemma CutField(s: string)
    requires IsField(s)
    ensures IsField(CutAtNul(s))
  {
    CutIff(s);
    forall i | 0 <= i < |CutAtNul(s)| ensures CutAtNul(s)[i] in s {
    }
  }

  lemma PrintedIsSavable(layer: Layer)
    requires Savable(layer)
    ensures Savable(Printed(layer)) && Savable(RecodeLayer(Printed(layer)))
  {
    hide IsField, CutAtNul, Recode, IsInt16;
    forall i | 0 <= i < |layer.ls|
      ensures SavableL(PrintedL(layer.ls[i])) && SavableL(RecodeL(PrintedL(layer.ls[i])))
    {
      var l := layer.ls[i];
      CutField(l.name);
      CutField(l.color);
      RecodedField(CutAtNul(l.name));
      RecodedField(CutAtNul(l.color));
    }
    forall i | 0 <= i < |layer.ms|
      ensures SavableM(PrintedM(layer.ms[i])) && SavableM(RecodeM(PrintedM(layer.ms[i])))
    {
      var m := layer.ms[i];
      CutField(m.name);
      CutField(m.color);
      RecodedField(CutAtNul(m.name));
      RecodedField(CutAtNul(m.color));
    }
  }

  lemma SavableIsWritable(layer: Layer)
    requires Savable(layer)
    ensures Writable(layer)
  {
    hide IsField, IsInt16;
    forall i | 0 <= i < |layer.ls| ensures WritableL(layer.ls[i]) {
      assert SavableL(layer.ls[i]);
    }
    forall i | 0 <= i < |layer.ms| ensures WritableM(layer.ms[i]) {
      assert SavableM(layer.ms[i]);
    }
  }

  /** The text of the file is that of a layer with recoded names. */
  lemma FileReads(layer: Layer, header: string, zem: int, rest: seq<string>)
    requires Writable(layer) && HeaderOk(header) && Others(rest)
    ensures exists h ::
      (HeaderOk(h)
       && ReadLines(FileBytes(Save(layer, header, zem, rest))) == Save(RecodeLayer(layer), h, zem, RecodeAll(rest)))
  {
    hide RecodeAll, RecodeLs, RecodeMs, SaveLs, SaveMs, ZemRecord, WritableL, WritableM, Others, AreLines, HeaderOk;
    hide ReadLines, FileBytes;
    var z, l, m := ZemRecord(zem), SaveLs(layer.ls, None), SaveMs(layer.ms);
    var lines := z + l + m + rest;
    RecodedZem(zem);
    LsAreLines(layer.ls, None);
    MsAreLines(layer.ms);
    OthersAreLines(rest);
    LinesConcat(z, l);
    LinesConcat(z + l, m);
    LinesConcat(z + l + m, rest);
    RecodedLs(layer.ls, None);
    RecodedMs(layer.ms);
    RecodeConcat(z, l);
    RecodeConcat(z + l, m);
    RecodeConcat(z + l + m, rest);
    FileBack(header, lines);
    var h :| HeaderOk(h) && ReadLines(FileBytes([header] + lines)) == [h] + RecodeAll(lines);
    WithHeader(layer, header, zem, rest);
    WithHeader(RecodeLayer(layer), h, zem, RecodeAll(rest));
  }

  lemma WithHeader(layer: Layer, header: string, zem: int, rest: seq<string>)
    ensures Save(layer, header, zem, rest) ==
            [header] + (ZemRecord(zem) + SaveLs(layer.ls, None) + SaveMs(layer.ms) + rest)
  {
    hide ZemRecord, SaveLs, SaveMs;
  }

  /** What comes back of a savable layer: every line, in order, with its points, height and flag; and of its
      name and colour what Latin-1 and UTF-8 leave. */
  lemma SaveThenLoad(layer: Layer, header: string, zem: int, rest: seq<string>)
    requires Savable(layer) && HeaderOk(header) && Others(rest)
    ensures LoadFile(SaveFile(layer, header, zem, rest)) == Some(RereadLayer(layer))
  {
    hide Save, Load, Split, IsLine, Savable, Writable, Others, RecodeAll, ReadLines, FileBytes;
    PrintedIsSavable(layer);
    SavableIsWritable(Printed(layer));
    FileReads(Printed(layer), header, zem, rest);
    var h :| HeaderOk(h) && ReadLines(FileBytes(Save(Printed(layer), header, zem, rest)))
                            == Save(RecodeLayer(Printed(layer)), h, zem, RecodeAll(rest));
    RecodedOthers(rest);
    SavedIsRead(RecodeLayer(Printed(layer)), h, zem, RecodeAll(rest));
    RereadIs(layer);
  }

  lemma RereadIs(layer: Layer)
    ensures var p := RecodeLayer(Printed(layer));
      Layer(DefaultLs(p.ls), DefaultMs(p.ms)) == RereadLayer(layer)
  {
    hide Recode, CutAtNul, ColorOf;
    var p := RecodeLayer(Printed(layer));
    assert forall i | 0 <= i < |layer.ls| :: DefaultLs(p.ls)[i] == RereadLs(layer.ls)[i];
    assert forall i | 0 <= i < |layer.ms| :: DefaultMs(p.ms)[i] == RereadMs(layer.ms)[i];
  }

  // ---- Exactly when ------------------------------------------------------------------------------------

  predicate PlainLayer(layer: Layer) {
    && (forall i | 0 <= i < |layer.ls| :: Plain(layer.ls[i].name) && Plain(layer.ls[i].color))
    && (forall i | 0 <= i < |layer.ms| :: Plain(layer.ms[i].name) && Plain(layer.ms[i].color))
  }

  lemma ColorIff(color: string)
    requires color != ""
    ensures ColorOf(Reread(color)) == color <==> Plain(color)
  {
    RereadIff(color);
    CutIff(color);
    RecodeEmptyIff(CutAtNul(color));
    if Reread(color) == "" {
      assert color[0] == '\0';
    }
  }

  lemma RereadLayerIff(layer: Layer)
    requires Good(layer)
    ensures RereadLayer(layer) == layer <==> PlainLayer(layer)
  {
    hide Reread, Plain, ColorOf, SavableL, SavableM;
    forall i | 0 <= i < |layer.ls|
      ensures RereadL(layer.ls[i]) == layer.ls[i] <==> Plain(layer.ls[i].name) && Plain(layer.ls[i].color)
    {
      assert GoodL(layer.ls[i]);
      RereadIff(layer.ls[i].name);
      ColorIff(layer.ls[i].color);
    }
    forall i | 0 <= i < |layer.ms|
      ensures RereadM(layer.ms[i]) == layer.ms[i] <==> Plain(layer.ms[i].name) && Plain(layer.ms[i].color)
    {
      assert GoodM(layer.ms[i]);
      RereadIff(layer.ms[i].name);
      ColorIff(layer.ms[i].color);
    }
    if RereadLayer(layer) == layer {
      assert forall i | 0 <= i < |layer.ls| :: RereadLs(layer.ls)[i] == layer.ls[i];
      assert forall i | 0 <= i < |layer.ms| :: RereadMs(layer.ms)[i] == layer.ms[i];
    }
  }

  lemma LoadedFileIsGood(file: seq<byte>)
    ensures LoadFile(file).Some? ==> Good(LoadFile(file).value)
  {
    hide ReadLines, Load, Good, IsLine;
    LoadedIsGood(ReadLines(file));
  }

  lemma GoodIsSavable(layer: Layer)
    requires Good(layer)
    ensures Savable(layer)
  {
    hide SavableL, SavableM;
    forall i | 0 <= i < |layer.ls| ensures SavableL(layer.ls[i]) {
      assert GoodL(layer.ls[i]);
    }
    forall i | 0 <= i < |layer.ms| ensures SavableM(layer.ms[i]) {
      assert GoodM(layer.ms[i]);
    }
  }

  /** Exactly which layers are loaded as they were saved, whatever else is saved with them: those that a file
      could hold, with names and colours in plain ASCII. */
  lemma RoundTripIff(layer: Layer, header: string, zem: int, rest: seq<string>)
    requires HeaderOk(header) && Others(rest)
    ensures LoadFile(SaveFile(layer, header, zem, rest)) == Some(layer) <==> Good(layer) && PlainLayer(layer)
  {
    hide HeaderOk, Others, SaveFile, LoadFile, Good, Savable, RereadLayer, PlainLayer;
    LoadedFileIsGood(SaveFile(layer, header, zem, rest));
    if Good(layer) {
      GoodIsSavable(layer);
      SaveThenLoad(layer, header, zem, rest);
      RereadLayerIff(layer);
    }
  }

  /** The same lines, but for their names and colours. */
  predicate SameShape(a: Layer, b: Layer) {
    && |a.ls| == |b.ls| && |a.ms| == |b.ms|
    && (forall i | 0 <= i < |a.ls| ::
          a.ls[i].points == b.ls[i].points && a.ls[i].z == b.ls[i].z && a.ls[i].heightSet == b.ls[i].heightSet)
    && (forall i | 0 <= i < |a.ms| :: a.ms[i].points == b.ms[i].points)
  }

  lemma RereadKeepsShape(layer: Layer)
    ensures SameShape(RereadLayer(layer), layer)
  {
    hide Reread, ColorOf;
  }

  /** A file can hold the name U+00E9, in UTF-8; the layer loaded is saved and loaded again without it. */
  lemma AccentedLayerChanges(header: string, zem: int, rest: seq<string>)
    requires HeaderOk(header) && Others(rest)
    ensures var layer := Layer([Accented("\U{E9}")], []);
      && Utf8([0xC3, 0xA9]) == "\U{E9}" && Good(layer)
      && LoadFile(SaveFile(layer, header, zem, rest)) == Some(Layer([Accented([REPLACEMENT])], []))
  {
    var layer := Layer([Accented("\U{E9}")], []);
    AccentRead();
    AccentedIsGood();
    AccentedRereads();
    hide LoadFile, SaveFile, HeaderOk, Others, Good, Savable, RereadLayer, Utf8;
    GoodIsSavable(layer);
    SaveThenLoad(layer, header, zem, rest);
  }

  function Accented(name: string): LineL {
    LineL(name, DEFAULT_COLOR, [Point2(0, 0), Point2(1, 1)], 0, false)
  }

  lemma AccentedIsGood()
    ensures Good(Layer([Accented("\U{E9}")], []))
  {
  }

  lemma AccentedRereads()
    ensures RereadLayer(Layer([Accented("\U{E9}")], [])) == Layer([Accented([REPLACEMENT])], [])
  {
    var l := Accented("\U{E9}");
    AccentIsLost();
    DefaultIsPlain();
    ColorIff(DEFAULT_COLOR);
    hide Reread, ColorOf, Plain;
    var one := [l];
    assert one[1..] == [];
    assert RereadL(l) == Accented([REPLACEMENT]);
    assert RereadLs(one) == [RereadL(l)];
  }

  lemma DefaultIsPlain()
    ensures Plain(DEFAULT_COLOR)
  {
  }

  lemma AccentRead()
    ensures Utf8([0xC3, 0xA9]) == "\U{E9}"
  {
    var b: seq<byte> := [0xC3, 0xA9];
    assert Next(b) == ('\U{E9}', 2) && b[2..] == [];
  }
}
