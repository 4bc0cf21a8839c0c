/** The map being edited: layers are loaded from files, scaled in place and saved. */
module Maps {
  import opened Bytes
  import opened Options
  import opened MapEncoding
  import opened MapText
  import opened MapFile
  import opened MapOnDisk
  import opened MapRoundTrip
  import opened MapScaling
  import opened MapSurvival

  // ---- Reading records ---------------------------------------------------------------------------

  method ParsePoints2(fs: seq<string>, linePoints: nat) returns (ps: seq<Point2>)
    requires 2 * linePoints <= |fs|
    ensures ps == ReadPoints2(fs, linePoints)
  {
    hide ShortOr0;
    ps := [];
    var fit, numPoints := 0, 0;
    assert fs[0..] == fs;
    while fit < |fs| && numPoints < linePoints
      invariant fit == 2 * numPoints && numPoints <= linePoints
      invariant ps + ReadPoints2(fs[fit..], linePoints - numPoints) == ReadPoints2(fs, linePoints)
      decreases linePoints - numPoints
    {
      var p := Point2(ShortOr0(fs[fit]), ShortOr0(fs[fit + 1]));
      Append(ps, p, ReadPoints2(fs[fit + 2..], linePoints - numPoints - 1));
      assert fs[fit..][2..] == fs[fit + 2..];
      ps, fit, numPoints := ps + [p], fit + 2, numPoints + 1;
    }
  }

  method ParsePoints3(fs: seq<string>, linePoints: nat) returns (ps: seq<Point3>)
    requires 3 * linePoints <= |fs|
    ensures ps == ReadPoints3(fs, linePoints)
  {
    hide ShortOr0;
    ps := [];
    var fit, numPoints := 0, 0;
    assert fs[0..] == fs;
    while fit < |fs| && numPoints < linePoints
      invariant fit == 3 * numPoints && numPoints <= linePoints
      invariant ps + ReadPoints3(fs[fit..], linePoints - numPoints) == ReadPoints3(fs, linePoints)
      decreases linePoints - numPoints
    {
      var p := Point3(ShortOr0(fs[fit]), ShortOr0(fs[fit + 1]), ShortOr0(fs[fit + 2]));
      Append(ps, p, ReadPoints3(fs[fit + 3..], linePoints - numPoints - 1));
      assert fs[fit..][3..] == fs[fit + 3..];
      ps, fit, numPoints := ps + [p], fit + 3, numPoints + 1;
    }
  }

  lemma Append<T>(ps: seq<T>, p: T, rest: seq<T>)
    ensures ps + ([p] + rest) == ps + [p] + rest
  {
  }

  // ---- Writing records ---------------------------------------------------------------------------

  lemma {:induction false} JoinSnoc(fs: seq<string>, x: string)
    requires fs != []
    ensures Join(fs + [x]) == Join(fs) + "," + x
  {
    if |fs| == 1 {
      assert (fs + [x])[1..] == [x];
    } else {
      JoinSnoc(fs[1..], x);
      assert (fs + [x])[1..] == fs[1..] + [x];
    }
  }

  lemma {:induction false} Coords2Snoc(ps: seq<Point2>, p: Point2)
    ensures Coords2(ps + [p]) == Coords2(ps) + [Show(p.x)] + [Show(p.y)]
  {
    hide Show;
    if ps == [] {
      assert [p][1..] == [];
    } else {
      Coords2Snoc(ps[1..], p);
      assert (ps + [p])[1..] == ps[1..] + [p];
    }
  }

  lemma {:induction false} Coords3Snoc(ps: seq<Point3>, p: Point3)
    ensures Coords3(ps + [p]) == Coords3(ps) + [Show(p.x)] + [Show(p.y)] + [Show(p.z)]
  {
    hide Show;
    if ps == [] {
      assert [p][1..] == [];
    } else {
      Coords3Snoc(ps[1..], p);
      assert (ps + [p])[1..] == ps[1..] + [p];
    }
  }

  lemma Start(kind: string, name: string, color: string, count: string)
    ensures Join([kind, name, color, count]) == kind + "," + name + "," + color + "," + count
    ensures [kind, name, color, count] + [] == [kind, name, color, count]
  {
    JoinSnoc([kind], name);
    JoinSnoc([kind, name], color);
    JoinSnoc([kind, name, color], count);
    assert [kind, name] == [kind] + [name];
    assert [kind, name, color] == [kind, name] + [color];
    assert [kind, name, color, count] == [kind, name, color] + [count];
  }

  lemma JoinTwo(front: seq<string>, cs: seq<string>, x: string, y: string)
    requires front != []
    ensures Join(front + (cs + [x] + [y])) == Join(front + cs) + "," + x + "," + y
  {
    JoinSnoc(front + cs, x);
    JoinSnoc(front + cs + [x], y);
    assert front + (cs + [x] + [y]) == front + cs + [x] + [y];
  }

  method WriteL(l: LineL) returns (text: string)
    ensures text == SaveL(l)
  {
    hide Show, Join;
    ghost var front := ["L", l.name, l.color, Show(|l.points|)];
    Start("L", l.name, l.color, Show(|l.points|));
    text := "L" + "," + l.name + "," + l.color + "," + Show(|l.points|);
    for i := 0 to |l.points|
      invariant text == Join(front + Coords2(l.points[..i]))
    {
      var p := l.points[i];
      Coords2Snoc(l.points[..i], p);
      JoinTwo(front, Coords2(l.points[..i]), Show(p.x), Show(p.y));
      assert l.points[..i + 1] == l.points[..i] + [p];
      text := text + "," + Show(p.x) + "," + Show(p.y);
    }
    assert l.points[..|l.points|] == l.points;
  }

  lemma JoinThree(front: seq<string>, cs: seq<string>, x: string, y: string, z: string)
    requires front != []
    ensures Join(front + (cs + [x] + [y] + [z])) == Join(front + cs) + "," + x + "," + y + "," + z
  {
    JoinTwo(front, cs, x, y);
    JoinSnoc(front + (cs + [x] + [y]), z);
    assert front + (cs + [x] + [y] + [z]) == front + (cs + [x] + [y]) + [z];
  }

  method WriteM(m: LineM) returns (text: string)
    ensures text == SaveM(m)
  {
    hide Show, Join;
    ghost var front := ["M", m.name, m.color, Show(|m.points|)];
    Start("M", m.name, m.color, Show(|m.points|));
    text := "M" + "," + m.name + "," + m.color + "," + Show(|m.points|);
    for i := 0 to |m.points|
      invariant text == Join(front + Coords3(m.points[..i]))
    {
      var p := m.points[i];
      Coords3Snoc(m.points[..i], p);
      JoinThree(front, Coords3(m.points[..i]), Show(p.x), Show(p.y), Show(p.z));
      assert m.points[..i + 1] == m.points[..i] + [p];
      text := text + "," + Show(p.x) + "," + Show(p.y) + "," + Show(p.z);
    }
    assert m.points[..|m.points|] == m.points;
  }

  /** The rest of what is to be written, behind what has been written. */
  lemma Behind(out: seq<string>, now: seq<string>, rest: seq<string>)
    ensures out + (now + rest) == out + now + rest
  {
  }

  lemma NextL(ls: seq<LineL>, i: nat, height: Option<int>, out: seq<string>)
    requires i < |ls|
    ensures out + SaveLs(ls[i..], height) ==
            out + HeightRecord(ls[i], height) + [SaveL(ls[i])] + SaveLs(ls[i + 1..], HeightAfter(ls[i], height))
  {
    hide SaveL, HeightRecord;
    var l, rest := ls[i], SaveLs(ls[i + 1..], HeightAfter(ls[i], height));
    assert ls[i..][1..] == ls[i + 1..];
    Behind(out, HeightRecord(l, height) + [SaveL(l)], rest);
    Behind(out, HeightRecord(l, height), [SaveL(l)]);
  }

  method WriteLs(ls: seq<LineL>) returns (out: seq<string>)
    ensures out == SaveLs(ls, None)
  {
    hide SaveL, SaveH, SaveLs;
    out := [];
    var heightSet, lastHeightSet := false, 0;
    ghost var height: Option<int> := None;
    assert ls[0..] == ls && [] + SaveLs(ls, None) == SaveLs(ls, None);
    for i := 0 to |ls|
      invariant height == if heightSet then Some(lastHeightSet) else None
      invariant SaveLs(ls, None) == out + SaveLs(ls[i..], height)
    {
      var l := ls[i];
      NextL(ls, i, height, out);
      ghost var before, record := out, HeightRecord(l, height);
      if l.heightSet {
        if !heightSet || lastHeightSet != l.z {
          out := out + [SaveH(l.z)];
          lastHeightSet := l.z;
          heightSet := true;
        }
      }
      assert out == before + record;
      var text := WriteL(l);
      out := out + [text];
      height := HeightAfter(l, height);
    }
    NoneLeft(height);
    assert ls[|ls|..] == [] && out + [] == out;
  }

  lemma NoneLeft(height: Option<int>)
    ensures SaveLs([], height) == []
  {
  }

  method WriteMs(ms: seq<LineM>) returns (out: seq<string>)
    ensures out == SaveMs(ms)
  {
    hide SaveM;
    out := [];
    assert ms[0..] == ms;
    for i := 0 to |ms|
      invariant SaveMs(ms) == out + SaveMs(ms[i..])
    {
      assert ms[i..][1..] == ms[i + 1..];
      Behind(out, [SaveM(ms[i])], SaveMs(ms[i + 1..]));
      var text := WriteM(ms[i]);
      out := out + [text];
    }
    assert ms[|ms|..] == [] && out + [] == out;
  }

  method WriteFile(lines: seq<string>) returns (file: seq<byte>)
    ensures file == FileBytes(lines)
  {
    hide Latin1;
    file := [];
    assert lines[0..] == lines;
    for i := 0 to |lines|
      invariant FileBytes(lines) == file + FileBytes(lines[i..])
    {
      assert lines[i..][1..] == lines[i + 1..];
      BehindBytes(file, Latin1(lines[i]), FileBytes(lines[i + 1..]));
      file := file + Latin1(lines[i]) + [10];
    }
    assert lines[|lines|..] == [] && file + [] == file;
  }

  lemma BehindBytes(file: seq<byte>, line: seq<byte>, rest: seq<byte>)
    ensures file + (line + ([10] + rest)) == file + line + [10] + rest
  {
  }

  // ---- The map -----------------------------------------------------------------------------------

  class MapData {
    var layers: seq<Layer>
    var editLayer: nat

    /** Every layer could have come from a file. */
    ghost predicate Valid()
      reads this
    {
      forall i | 0 <= i < |layers| :: Good(layers[i])
    }

    constructor ()
      ensures Valid() && layers == []
    {
      layers := [];
      editLayer := 0;
    }

    /** Load a file as a new layer, in place of the layers there are or, when importing, behind them. */
    method LoadMap(file: seq<byte>, imported: bool)
      requires Valid() && ReadLines(file) != []
      modifies this
      ensures Valid()
      ensures layers ==
        (if imported then old(layers) else []) + if LoadFile(file).Some? then [LoadFile(file).value] else []
      ensures editLayer == if imported then old(editLayer) else 0
    {
      hide LoadLine, LoadLines, Good, Split, ReadLines, IsLine;
      var lines := ReadLines(file);
      if !imported {
        layers := [];
        editLayer := 0;
      }
      var header := Split(lines[0]);
      if |header| < 2 {
        return;
      }
      var globHeight, globHeightSet := 0, false;
      var ls: seq<LineL>, ms: seq<LineM> := [], [];
      for i := 1 to |lines|
        invariant imported ==> unchanged(this)
        invariant !imported ==> layers == [] && editLayer == 0
        invariant LoadLines(Loading(globHeight, globHeightSet, Layer(ls, ms)), lines[i..]) ==
                  LoadLines(START, lines[1..])
      {
        globHeight, globHeightSet, ls, ms := OneRecord(lines[i], globHeight, globHeightSet, ls, ms);
        NextLine(lines, i);
      }
      NoLines(Loading(globHeight, globHeightSet, Layer(ls, ms)));
      assert lines[|lines|..] == [];
      LoadedIsGood(lines);
      layers := layers + [Layer(ls, ms)];
    }

    /** What is loaded again has every line, and is the layer itself exactly when its names and colours are plain
        ASCII. */
    method SaveMap(layerNum: nat, header: string, zem: int, rest: seq<string>) returns (file: seq<byte>)
      requires Valid() && layerNum < |layers|
      ensures file == SaveFile(layers[layerNum], header, zem, rest)
      ensures HeaderOk(header) && Others(rest) ==>
        && LoadFile(file).Some? && SameShape(LoadFile(file).value, layers[layerNum])
        && (LoadFile(file) == Some(layers[layerNum]) <==> PlainLayer(layers[layerNum]))
    {
      hide SaveLs, SaveMs, LoadFile, Others, HeaderOk, Good, Savable, PrintedLs, PrintedMs, FileBytes;
      hide PlainLayer, SameShape, RereadLayer;
      var layer := layers[layerNum];
      var lines := [header];
      if zem != DEFAULT_ZEM {
        lines := lines + [Join(["Z", Show(zem)])];
      }
      assert lines == [header] + ZemRecord(zem);
      var ls := WriteLs(PrintedLs(layer.ls));
      lines := lines + ls;
      var ms := WriteMs(PrintedMs(layer.ms));
      lines := lines + ms + rest;
      assert lines == Save(Printed(layer), header, zem, rest);
      file := WriteFile(lines);
      if HeaderOk(header) && Others(rest) {
        GoodIsSavable(layer);
        SaveThenLoad(layer, header, zem, rest);
        RereadKeepsShape(layer);
        RereadLayerIff(layer);
      }
    }

    method ScaleUpZ(factor: int)
      requires Valid() && IsInt16(factor)
      modifies this`layers
      ensures Valid()
      ensures layers == if editLayer < |old(layers)| then
                old(layers)[editLayer := ScaleLayer(old(layers)[editLayer], Up(factor))] else old(layers)
    {
      hide Good;
      if editLayer >= |layers| {
        return;
      }
      ScaleKeepsGood(layers[editLayer], Up(factor));
      var scaled := ScaleLines(layers[editLayer], Up(factor));
      layers := layers[editLayer := scaled];
    }

    method ScaleDownZ(factor: int)
      requires Valid() && IsInt16(factor) && factor != 0
      modifies this`layers
      ensures Valid()
      ensures layers == if editLayer < |old(layers)| then
                old(layers)[editLayer := ScaleLayer(old(layers)[editLayer], Down(factor))] else old(layers)
    {
      hide Good;
      if editLayer >= |layers| {
        return;
      }
      ScaleKeepsGood(layers[editLayer], Down(factor));
      var scaled := ScaleLines(layers[editLayer], Down(factor));
      layers := layers[editLayer := scaled];
    }
  }

  lemma NextLine(lines: seq<string>, i: nat)
    requires i < |lines|
    ensures forall st :: LoadLines(st, lines[i..]) == LoadLines(LoadLine(st, lines[i]), lines[i + 1..])
  {
    hide LoadLine;
    assert lines[i..][1..] == lines[i + 1..];
  }

  /** One record of the file, on top of the height in force and the lines so far. */
  method OneRecord(line: string, height: int, set_: bool, lsIn: seq<LineL>, msIn: seq<LineM>)
    returns (globHeight: int, globHeightSet: bool, ls: seq<LineL>, ms: seq<LineM>)
    ensures Loading(globHeight, globHeightSet, Layer(ls, ms)) ==
            LoadLine(Loading(height, set_, Layer(lsIn, msIn)), line)
  {
    hide Split, ReadPoints2, ReadPoints3, ToShort, ToUInt;
    globHeight, globHeightSet, ls, ms := height, set_, lsIn, msIn;
    var fields := Split(line);
    var entryType := EntryType(fields);
    var args := fields[1..];
    if entryType == 'M' {
      if |args| < 3 {
        return;
      }
      var linePoints := (|args| - 3) / 3 % UINT32_MODULUS;
      if linePoints < 2 {
        return;
      }
      var color := if args[1] == "" then DEFAULT_COLOR else args[1];
      if ToUInt(args[2]).None? {
        return;
      }
      var points := ParsePoints3(args[3..], linePoints);
      ms := ms + [LineM(args[0], color, points)];
    } else if entryType == 'L' {
      if |args| < 3 {
        return;
      }
      var linePoints := (|args| - 3) / 2 % UINT32_MODULUS;
      if linePoints < 2 {
        return;
      }
      var color := if args[1] == "" then DEFAULT_COLOR else args[1];
      if ToUInt(args[2]).None? {
        return;
      }
      var points := ParsePoints2(args[3..], linePoints);
      ls := ls + [LineL(args[0], color, points, if globHeightSet then globHeight else 0, globHeightSet)];
    } else if entryType == 'H' {
      if |args| < 1 {
        return;
      }
      var z := ToShort(args[0]);
      globHeight := if z.Some? then z.value else 0;
      if z.None? {
        return;
      }
      globHeightSet := true;
    }
  }

  method ScalePoints(m: LineM, s: Scale) returns (r: LineM)
    requires s.Valid()
    ensures r == ScaleM(m, s)
  {
    hide Scale.Z;
    var data := m.points;
    for i := 0 to |m.points|
      invariant |data| == |m.points|
      invariant forall k | 0 <= k < |data| :: data[k] == if k < i then ScalePoint(m.points[k], s) else m.points[k]
    {
      data := data[i := data[i].(z := s.Z(data[i].z))];
    }
    r := m.(points := data);
    assert r.points == ScaleM(m, s).points;
  }

  method ScaleLines(layer: Layer, s: Scale) returns (r: Layer)
    requires s.Valid()
    ensures r == ScaleLayer(layer, s)
  {
    hide Scale.Z, ScaleM;
    var ls, ms := layer.ls, layer.ms;
    for i := 0 to |layer.ls|
      invariant |ls| == |layer.ls|
      invariant forall k | 0 <= k < |ls| :: ls[k] == if k < i then ScaleL(layer.ls[k], s) else layer.ls[k]
    {
      ls := ls[i := ls[i].(z := s.Z(ls[i].z), heightSet := true)];
    }
    for i := 0 to |layer.ms|
      invariant |ms| == |layer.ms|
      invariant forall k | 0 <= k < |ms| :: ms[k] == if k < i then ScaleM(layer.ms[k], s) else layer.ms[k]
    {
      var m := ScalePoints(ms[i], s);
      ms := ms[i := m];
    }
    r := Layer(ls, ms);
    assert r.ls == ScaleLayer(layer, s).ls && r.ms == ScaleLayer(layer, s).ms;
  }
}
