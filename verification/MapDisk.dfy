/** Map files as bytes, and exactly what of a layer survives being written and read again. */
module MapOnDisk {
  import opened Bytes
  import opened Options
  import opened MapText
  import opened MapEncoding
  import opened MapFile
  import opened MapRoundTrip

  // ---- The file ------------------------------------------------------------------------------------

  function FileBytes(lines: seq<string>): seq<byte> {
    if lines == [] then [] else Latin1(lines[0]) + ([10] + FileBytes(lines[1..]))
  }

  /** A byte order mark at the start of a file is no part of its text. */
  function SkipMark(b: seq<byte>): seq<byte> {
    if |b| >= 3 && b[..3] == [0xEF, 0xBB, 0xBF] then b[3..] else b
  }

  function RunLength(s: string): (n: nat)
    ensures n <= |s| && IsLine(s[..n])
    ensures n < |s| ==> IsBreak(s[n])
  {
    if s == [] || IsBreak(s[0]) then 0
    else
      var n := RunLength(s[1..]);
      assert s[..n + 1] == [s[0]] + s[1..][..n];
      n + 1
  }

  /** The lines of a text, empty ones left out. */
  function LinesOf(s: string): (r: seq<string>)
    ensures forall i | 0 <= i < |r| :: IsLine(r[i])
    decreases |s|
  {
    if s == [] then []
    else if IsBreak(s[0]) then LinesOf(s[1..])
    else
      var n := RunLength(s);
      [s[..n]] + LinesOf(s[n..])
  }

  function ReadLines(file: seq<byte>): (r: seq<string>)
    ensures forall i | 0 <= i < |r| :: IsLine(r[i])
  {
    LinesOf(Utf8(SkipMark(file)))
  }

  /** The layer a file holds. */
  function LoadFile(file: seq<byte>): Option<Layer> {
    Load(ReadLines(file))
  }

  function PrintedL(l: LineL): LineL {
    l.(name := CutAtNul(l.name), color := CutAtNul(l.color))
  }

  function PrintedM(m: LineM): LineM {
    m.(name := CutAtNul(m.name), color := CutAtNul(m.color))
  }

  function PrintedLs(ls: seq<LineL>): (r: seq<LineL>)
    ensures |r| == |ls| && forall i | 0 <= i < |ls| :: r[i] == PrintedL(ls[i])
  {
    if ls == [] then [] else [PrintedL(ls[0])] + PrintedLs(ls[1..])
  }

  function PrintedMs(ms: seq<LineM>): (r: seq<LineM>)
    ensures |r| == |ms| && forall i | 0 <= i < |ms| :: r[i] == PrintedM(ms[i])
  {
    if ms == [] then [] else [PrintedM(ms[0])] + PrintedMs(ms[1..])
  }

  function Printed(layer: Layer): Layer {
    Layer(PrintedLs(layer.ls), PrintedMs(layer.ms))
  }

  function SaveFile(layer: Layer, header: string, zem: int, rest: seq<string>): seq<byte> {
    FileBytes(Save(Printed(layer), header, zem, rest))
  }

  /** The first line has the zone's two names and its size. */
  predicate HeaderOk(header: string) {
    IsLine(header) && |Split(header)| >= 2
  }

  // ---- Lines come back one by one --------------------------------------------------------------------

  function RecodeAll(lines: seq<string>): (r: seq<string>)
    ensures |r| == |lines| && forall i | 0 <= i < |lines| :: r[i] == Recode(lines[i])
  {
    if lines == [] then [] else [Recode(lines[0])] + RecodeAll(lines[1..])
  }

  lemma {:induction false} RunOfLine(line: string, rest: string)
    requires IsLine(line)
    ensures RunLength(line + (['\n'] + rest)) == |line|
  {
    var s := line + (['\n'] + rest);
    if line != [] {
      RunOfLine(line[1..], rest);
      assert s[0] == line[0] && s[1..] == line[1..] + (['\n'] + rest);
    }
  }

  lemma FirstLine(line: string, rest: string)
    requires IsLine(line) && line != []
    ensures LinesOf(line + (['\n'] + rest)) == [line] + LinesOf(rest)
  {
    var s := line + (['\n'] + rest);
    RunOfLine(line, rest);
    assert s[0] == line[0] && s[..|line|] == line && s[|line|..] == ['\n'] + rest;
    assert (['\n'] + rest)[1..] == rest;
  }

  lemma RecodedLine(line: string)
    requires IsLine(line)
    ensures IsLine(Recode(line))
  {
    RecodeBringsNone(line, '\r');
    RecodeBringsNone(line, '\n');
  }

  lemma LineBack(line: string, rest: seq<byte>)
    requires IsLine(line) && line != []
    ensures LinesOf(Utf8(Latin1(line) + ([10] + rest))) == [Recode(line)] + LinesOf(Utf8(rest))
  {
    hide LinesOf, Utf8, Latin1, IsLine;
    Utf8Splits(Latin1(line), 10, rest);
    RecodedLine(line);
    RecodeEmptyIff(line);
    FirstLine(Recode(line), Utf8(rest));
  }

  predicate AreLines(lines: seq<string>) {
    forall i | 0 <= i < |lines| :: lines[i] != [] && IsLine(lines[i])
  }

  lemma {:induction false} LinesBack(lines: seq<string>)
    requires AreLines(lines)
    ensures LinesOf(Utf8(FileBytes(lines))) == RecodeAll(lines)
  {
    hide LinesOf, Utf8, Latin1, IsLine;
    if lines == [] {
      NoLinesInNothing();
    } else {
      LineBack(lines[0], FileBytes(lines[1..]));
      LinesBack(lines[1..]);
    }
  }

  lemma NoLinesInNothing()
    ensures LinesOf(Utf8([])) == []
  {
  }

  lemma {:induction false} CommaSplits(s: string)
    requires ',' in s
    ensures exists a, b :: s == a + ([','] + b)
  {
    var k :| 0 <= k < |s| && s[k] == ',';
    assert s == s[..k] + ([','] + s[k + 1..]);
  }

  lemma {:induction false} CommaIff(s: string)
    ensures |Split(s)| >= 2 <==> ',' in s
  {
    if s != [] {
      CommaIff(s[1..]);
    }
  }

  lemma RecodeKeepsComma(s: string)
    requires ',' in s
    ensures ',' in Recode(s)
  {
    CommaSplits(s);
    var a, b :| s == a + ([','] + b);
    RecodeSplits(a, ',', b);
    assert (Recode(a) + ([','] + Recode(b)))[|Recode(a)|] == ',';
  }

  /** A line that starts with a byte above ASCII starts with that character. */
  lemma HighByte(s: string, rest: seq<byte>)
    requires ',' in s && (Latin1(s) + rest)[0] >= 0x80
    ensures s[0] as int == (Latin1(s) + rest)[0]
    ensures (Latin1(s) + rest)[1..] == Latin1(s[1..]) + rest
    ensures ',' in s[1..]
  {
    assert Latin1(s) == Latin1Of(s[0]) + Latin1(s[1..]);
    assert (Latin1(s) + rest)[0] == Latin1Of(s[0])[0];
    var k :| 0 <= k < |s| && s[k] == ',';
    assert s[1..][k - 1] == ',';
  }

  /** What the byte order mark leaves of the header is still one. */
  lemma HeaderBack(header: string, rest: seq<byte>)
    requires HeaderOk(header)
    ensures exists h :: HeaderOk(h) && SkipMark(Latin1(header) + ([10] + rest)) == Latin1(h) + ([10] + rest)
  {
    hide Latin1, Split, IsLine;
    CommaIff(header);
    var tail := [10] + rest;
    var b := Latin1(header) + tail;
    if |b| >= 3 && b[..3] == [0xEF, 0xBB, 0xBF] {
      assert b[0] == b[..3][0] && b[1] == b[..3][1] && b[2] == b[..3][2];
      HighByte(header, tail);
      HighByte(header[1..], tail);
      HighByte(header[1..][1..], tail);
      var h := header[1..][1..][1..];
      assert b[3..] == b[1..][1..][1..];
      CommaIff(h);
      TailIsLine(header);
      assert HeaderOk(h);
    }
  }

  lemma TailIsLine(s: string)
    requires IsLine(s) && |s| >= 3
    ensures IsLine(s[1..][1..][1..])
  {
  }

  lemma FileBack(header: string, lines: seq<string>)
    requires HeaderOk(header) && AreLines(lines)
    ensures exists h :: HeaderOk(h) && ReadLines(FileBytes([header] + lines)) == [h] + RecodeAll(lines)
  {
    hide Utf8, Latin1, LinesOf, Split, IsLine, AreLines, RecodeAll, SkipMark;
    assert ([header] + lines)[1..] == lines;
    HeaderBack(header, FileBytes(lines));
    var h :| HeaderOk(h) && SkipMark(FileBytes([header] + lines)) == Latin1(h) + ([10] + FileBytes(lines));
    CommaIff(h);
    LineBack(h, FileBytes(lines));
    LinesBack(lines);
    RecodedLine(h);
    RecodeKeepsComma(h);
    CommaIff(Recode(h));
  }

  // ---- Records come back field by field ----------------------------------------------------------------

  lemma RecodedField(f: string)
    requires IsField(f)
    ensures IsField(Recode(f))
  {
    RecodeBringsNone(f, ',');
    RecodeBringsNone(f, '\r');
    RecodeBringsNone(f, '\n');
  }

  lemma {:induction false} RecodeJoin(fs: seq<string>)
    requires fs != []
    ensures Recode(Join(fs)) == Join(RecodeAll(fs))
  {
    hide Recode;
    if |fs| > 1 {
      RecodeJoin(fs[1..]);
      RecodeSplits(fs[0], ',', Join(fs[1..]));
      assert fs[0] + "," + Join(fs[1..]) == fs[0] + ([','] + Join(fs[1..]));
      assert Recode(fs[0]) + "," + Join(RecodeAll(fs[1..])) == Recode(fs[0]) + ([','] + Join(RecodeAll(fs[1..])));
    } else {
      assert RecodeAll(fs) == [Recode(fs[0])] + RecodeAll(fs[1..]) == [Recode(fs[0])];
    }
  }

  lemma {:induction false} DigitsAreAscii(n: nat)
    ensures AllAscii(Digits(n))
  {
    if n >= 10 {
      DigitsAreAscii(n / 10);
    }
  }

  lemma NumberIsKept(n: int)
    ensures Recode(Show(n)) == Show(n)
  {
    DigitsAreAscii(if n < 0 then -n else n);
    AsciiIsKept(Show(n));
  }

  lemma {:induction false} Coords2AreKept(ps: seq<Point2>)
    ensures RecodeAll(Coords2(ps)) == Coords2(ps)
  {
    hide Recode, Show;
    if ps != [] {
      NumberIsKept(ps[0].x);
      NumberIsKept(ps[0].y);
      Coords2AreKept(ps[1..]);
      RecodeConcat([Show(ps[0].x), Show(ps[0].y)], Coords2(ps[1..]));
    }
  }

  lemma {:induction false} Coords3AreKept(ps: seq<Point3>)
    ensures RecodeAll(Coords3(ps)) == Coords3(ps)
  {
    hide Recode, Show;
    if ps != [] {
      NumberIsKept(ps[0].x);
      NumberIsKept(ps[0].y);
      NumberIsKept(ps[0].z);
      Coords3AreKept(ps[1..]);
      RecodeConcat([Show(ps[0].x), Show(ps[0].y), Show(ps[0].z)], Coords3(ps[1..]));
    }
  }

  lemma RecodeConcat(a: seq<string>, b: seq<string>)
    ensures RecodeAll(a + b) == RecodeAll(a) + RecodeAll(b)
  {
  }

  lemma KindIsKept(kind: string)
    requires kind in {"L", "M", "H", "P", "A", "Z"}
    ensures Recode(kind) == kind
  {
    AsciiIsKept(kind);
  }

  function RecodeL(l: LineL): LineL {
    l.(name := Recode(l.name), color := Recode(l.color))
  }

  function RecodeM(m: LineM): LineM {
    m.(name := Recode(m.name), color := Recode(m.color))
  }

  function RecodeLs(ls: seq<LineL>): (r: seq<LineL>)
    ensures |r| == |ls| && forall i | 0 <= i < |ls| :: r[i] == RecodeL(ls[i])
  {
    if ls == [] then [] else [RecodeL(ls[0])] + RecodeLs(ls[1..])
  }

  function RecodeMs(ms: seq<LineM>): (r: seq<LineM>)
    ensures |r| == |ms| && forall i | 0 <= i < |ms| :: r[i] == RecodeM(ms[i])
  {
    if ms == [] then [] else [RecodeM(ms[0])] + RecodeMs(ms[1..])
  }

  lemma RecodedRecord(kind: string, name: string, color: string, count: nat, coords: seq<string>)
    requires kind in {"L", "M"} && RecodeAll(coords) == coords
    ensures Recode(Join([kind, name, color, Show(count)] + coords)) ==
            Join([kind, Recode(name), Recode(color), Show(count)] + coords)
  {
    hide Recode, Show, Join;
    RecodeJoin([kind, name, color, Show(count)] + coords);
    RecodeConcat([kind, name, color, Show(count)], coords);
    KindIsKept(kind);
    NumberIsKept(count);
    assert RecodeAll([kind, name, color, Show(count)]) == [kind, Recode(name), Recode(color), Show(count)];
  }

  lemma RecodedL(l: LineL)
    ensures Recode(SaveL(l)) == SaveL(RecodeL(l))
  {
    hide Recode, Show, Join, Coords2, RecodeAll;
    Coords2AreKept(l.points);
    RecodedRecord("L", l.name, l.color, |l.points|, Coords2(l.points));
  }

  lemma RecodedM(m: LineM)
    ensures Recode(SaveM(m)) == SaveM(RecodeM(m))
  {
    hide Recode, Show, Join, Coords3, RecodeAll;
    Coords3AreKept(m.points);
    RecodedRecord("M", m.name, m.color, |m.points|, Coords3(m.points));
  }

  lemma RecodedPair(kind: string, n: int)
    requires kind in {"H", "Z"}
    ensures Recode(Join([kind, Show(n)])) == Join([kind, Show(n)])
  {
    hide Recode, Show, Join;
    RecodeJoin([kind, Show(n)]);
    KindIsKept(kind);
    NumberIsKept(n);
    assert RecodeAll([kind, Show(n)]) == [kind, Show(n)];
  }

  lemma {:induction false} RecodedLs(ls: seq<LineL>, height: Option<int>)
    ensures RecodeAll(SaveLs(ls, height)) == SaveLs(RecodeLs(ls), height)
  {
    hide Recode, SaveL, SaveH;
    if ls != [] {
      var record, rest := HeightRecord(ls[0], height), SaveLs(ls[1..], HeightAfter(ls[0], height));
      RecodedHeight(ls[0], height);
      RecodedL(ls[0]);
      RecodedLs(ls[1..], HeightAfter(ls[0], height));
      RecodeConcat(record, [SaveL(ls[0])]);
      RecodeConcat(record + [SaveL(ls[0])], rest);
      OneRecoded(SaveL(ls[0]));
    }
  }

  lemma OneRecoded(line: string)
    ensures RecodeAll([line]) == [Recode(line)]
  {
  }

  lemma RecodedHeight(l: LineL, height: Option<int>)
    ensures RecodeAll(HeightRecord(l, height)) == HeightRecord(RecodeL(l), height)
  {
    hide Recode, Join, Show;
    RecodedPair("H", l.z);
    OneRecoded(SaveH(l.z));
  }

  lemma {:induction false} RecodedMs(ms: seq<LineM>)
    ensures RecodeAll(SaveMs(ms)) == SaveMs(RecodeMs(ms))
  {
    hide Recode, SaveM;
    if ms != [] {
      RecodedM(ms[0]);
      RecodedMs(ms[1..]);
      RecodeConcat([SaveM(ms[0])], SaveMs(ms[1..]));
      OneRecoded(SaveM(ms[0]));
    }
  }
}
