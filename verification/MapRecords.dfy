/** What any record of a map file gives, well-formed or not, said on its fields. */
module MapRecords {
  import opened Options
  import opened MapText
  import opened MapFile

  // ---- Numbers -------------------------------------------------------------------------------------

  predicate AllDigits(s: string) {
    s != "" && forall i | 0 <= i < |s| :: '0' <= s[i] <= '9'
  }

  /** The value of decimal digits, the first counting most. */
  function Decimal(s: string): nat
    requires AllDigits(s)
  {
    if |s| == 1 then (s[0] - '0') as nat else Power10(|s| - 1) * (s[0] - '0') as nat + Decimal(s[1..])
  }

  function Power10(n: nat): nat {
    if n == 0 then 1 else 10 * Power10(n - 1)
  }

  lemma {:induction false} NumberIs(s: string)
    ensures Number(s) == if AllDigits(s) then Some(Decimal(s)) else None
  {
    if s != "" {
      var n := |s| - 1;
      if n > 0 {
        NumberIs(s[..n]);
        if AllDigits(s) {
          DecimalSnoc(s);
        }
      }
    }
  }

  lemma {:induction false} DecimalSnoc(s: string)
    requires AllDigits(s) && |s| > 1
    ensures Decimal(s) == 10 * Decimal(s[..|s| - 1]) + (s[|s| - 1] - '0') as nat
  {
    var n := |s| - 1;
    var d := (s[0] - '0') as nat;
    if n > 1 {
      DecimalSnoc(s[1..]);
      assert s[..n][1..] == s[1..][..n - 1];
      assert Power10(n) * d == 10 * (Power10(n - 1) * d);
    } else {
      assert s[..1] == [s[0]] && s[1..] == [s[1]];
      assert Power10(1) == 10 * Power10(0) == 10;
    }
  }

  /** What a coordinate counts for: a 16-bit number with or without a minus sign, or else 0. */
  function Coordinate(s: string): int {
    if s != "" && s[0] == '-' then
      if AllDigits(s[1..]) && Decimal(s[1..]) <= 0x8000 then 0 - (Decimal(s[1..]) as int) else 0
    else if AllDigits(s) && Decimal(s) < 0x8000 then Decimal(s)
    else 0
  }

  lemma CoordinateIs(s: string)
    ensures ShortOr0(s) == Coordinate(s)
  {
    NumberIs(s);
    if s != "" {
      NumberIs(s[1..]);
    }
    hide Number, Decimal;
  }

  predicate IsShort(s: string) {
    if s != "" && s[0] == '-' then AllDigits(s[1..]) && Decimal(s[1..]) <= 0x8000
    else AllDigits(s) && Decimal(s) < 0x8000
  }

  lemma ShortIff(s: string)
    ensures ToShort(s) == if IsShort(s) then Some(Coordinate(s)) else None
  {
    NumberIs(s);
    if s != "" {
      NumberIs(s[1..]);
    }
    hide Number, Decimal;
  }

  // ---- Records -------------------------------------------------------------------------------------

  ghost predicate AreFields(fs: seq<string>) {
    fs != [] && forall i | 0 <= i < |fs| :: IsField(fs[i])
  }

  predicate Starts(s: string, c: char) {
    s != "" && s[0] == c
  }

  /** A count of points that reads as a 32-bit number; what it says does not matter. */
  predicate IsCount(s: string) {
    AllDigits(s) && Decimal(s) < 0x1_0000_0000
  }

  lemma CountIff(s: string)
    ensures ToUInt(s).Some? <==> IsCount(s)
  {
    NumberIs(s);
    hide Number, Decimal;
  }

  lemma {:induction false} Points2At(fs: seq<string>, n: nat, k: nat)
    requires 2 * n <= |fs| && k < n
    ensures ReadPoints2(fs, n)[k] == Point2(Coordinate(fs[2 * k]), Coordinate(fs[2 * k + 1]))
    decreases n
  {
    hide ShortOr0, Coordinate;
    if k == 0 {
      CoordinateIs(fs[0]);
      CoordinateIs(fs[1]);
    } else {
      Points2At(fs[2..], n - 1, k - 1);
    }
  }

  lemma {:induction false} Points3At(fs: seq<string>, n: nat, k: nat)
    requires 3 * n <= |fs| && k < n
    ensures ReadPoints3(fs, n)[k] ==
            Point3(Coordinate(fs[3 * k]), Coordinate(fs[3 * k + 1]), Coordinate(fs[3 * k + 2]))
    decreases n
  {
    hide ShortOr0, Coordinate;
    if k == 0 {
      CoordinateIs(fs[0]);
      CoordinateIs(fs[1]);
      CoordinateIs(fs[2]);
    } else {
      Points3At(fs[3..], n - 1, k - 1);
    }
  }

  /** The 2D line in a record: name, colour or the default, and a point for every two fields behind the count, with
      the height in force. */
  ghost predicate IsLineL(l: LineL, fs: seq<string>, n: nat, st: Loading)
    requires 4 + 2 * n <= |fs|
  {
    && l.name == fs[1] && l.color == (if fs[2] == "" then "#7F7F7F" else fs[2]) && |l.points| == n
    && (forall k | 0 <= k < n :: l.points[k] == Point2(Coordinate(fs[4 + 2 * k]), Coordinate(fs[5 + 2 * k])))
    && l.heightSet == st.globHeightSet && l.z == (if st.globHeightSet then st.globHeight else 0)
  }

  ghost predicate IsLineM(m: LineM, fs: seq<string>, n: nat)
    requires 4 + 3 * n <= |fs|
  {
    && m.name == fs[1] && m.color == (if fs[2] == "" then "#7F7F7F" else fs[2]) && |m.points| == n
    && forall k | 0 <= k < n ::
         m.points[k] == Point3(Coordinate(fs[4 + 3 * k]), Coordinate(fs[5 + 3 * k]), Coordinate(fs[6 + 3 * k]))
  }

  lemma LoadedL(st: Loading, fs: seq<string>)
    requires AreFields(fs) && |fs| < 0x1_0000_0000
    ensures var l := LoadL(fs[1..], st.globHeight, st.globHeightSet);
      if |fs| < 8 || !IsCount(fs[3]) then l == None else l.Some? && IsLineL(l.value, fs, (|fs| - 4) / 2, st)
  {
    hide ToUInt, IsCount, ShortOr0, Coordinate, ReadPoints2, IsField;
    if |fs| >= 8 {
      CountIff(fs[3]);
      var n := (|fs| - 4) / 2;
      assert fs[1..][3..] == fs[4..];
      forall k | 0 <= k < n
        ensures ReadPoints2(fs[4..], n)[k] == Point2(Coordinate(fs[4 + 2 * k]), Coordinate(fs[5 + 2 * k]))
      {
        Points2At(fs[4..], n, k);
      }
    }
  }

  lemma LoadedM(fs: seq<string>)
    requires AreFields(fs) && |fs| < 0x1_0000_0000
    ensures var m := LoadM(fs[1..]);
      if |fs| < 10 || !IsCount(fs[3]) then m == None else m.Some? && IsLineM(m.value, fs, (|fs| - 4) / 3)
  {
    hide ToUInt, IsCount, ShortOr0, Coordinate, ReadPoints3, IsField;
    if |fs| >= 10 {
      CountIff(fs[3]);
      var n := (|fs| - 4) / 3;
      assert fs[1..][3..] == fs[4..];
      forall k | 0 <= k < n
        ensures ReadPoints3(fs[4..], n)[k] ==
                Point3(Coordinate(fs[4 + 3 * k]), Coordinate(fs[5 + 3 * k]), Coordinate(fs[6 + 3 * k]))
      {
        Points3At(fs[4..], n, k);
      }
    }
  }

  /** A 2D record adds one line, behind the others, exactly if it has two points or more and a count; a field left
      over is ignored. */
  lemma RecordL(st: Loading, fs: seq<string>)
    requires AreFields(fs) && Starts(fs[0], 'L') && |fs| < 0x1_0000_0000
    ensures var t := LoadLine(st, Join(fs));
      if |fs| < 8 || !IsCount(fs[3]) then t == st
      else
        && |t.layer.ls| == |st.layer.ls| + 1
        && t == st.(layer := st.layer.(ls := st.layer.ls + [t.layer.ls[|st.layer.ls|]]))
        && IsLineL(t.layer.ls[|st.layer.ls|], fs, (|fs| - 4) / 2, st)
  {
    hide Split, Join, IsField, IsCount, IsLineL, LoadL;
    SplitJoin(fs);
    LoadedL(st, fs);
  }

  /** So does a 3D one, with three fields to a point. */
  lemma RecordM(st: Loading, fs: seq<string>)
    requires AreFields(fs) && Starts(fs[0], 'M') && |fs| < 0x1_0000_0000
    ensures var t := LoadLine(st, Join(fs));
      if |fs| < 10 || !IsCount(fs[3]) then t == st
      else
        && |t.layer.ms| == |st.layer.ms| + 1
        && t == st.(layer := st.layer.(ms := st.layer.ms + [t.layer.ms[|st.layer.ms|]]))
        && IsLineM(t.layer.ms[|st.layer.ms|], fs, (|fs| - 4) / 3)
  {
    hide Split, Join, IsField, IsCount, IsLineM, LoadM;
    SplitJoin(fs);
    LoadedM(fs);
  }

  /** A height record sets the height of the lines behind it. One whose number is none sets it to 0 without putting
      it in force, and one without a number does nothing; nor does a record of another kind. */
  lemma RecordH(st: Loading, fs: seq<string>)
    requires AreFields(fs)
    ensures var t := LoadLine(st, Join(fs));
      && (Starts(fs[0], 'H') ==>
            t == if |fs| == 1 then st
                 else if IsShort(fs[1]) then st.(globHeight := Coordinate(fs[1]), globHeightSet := true)
                 else st.(globHeight := 0))
      && (!Starts(fs[0], 'H') && !Starts(fs[0], 'L') && !Starts(fs[0], 'M') ==> t == st)
  {
    hide Split, Join, IsField, ToShort, IsShort, Coordinate, LoadL, LoadM;
    SplitJoin(fs);
    if |fs| > 1 {
      ShortIff(fs[1]);
    }
  }

  lemma {:induction false} TwoFieldsIff(s: string)
    ensures |Split(s)| >= 2 <==> ',' in s
  {
    if s != "" {
      TwoFieldsIff(s[1..]);
    }
  }

  /** A file is loaded exactly if it has a first line with a comma in it. */
  lemma LoadedIff(lines: seq<string>)
    ensures Load(lines).Some? <==> lines != [] && ',' in lines[0]
  {
    if lines != [] {
      TwoFieldsIff(lines[0]);
    }
  }
}
