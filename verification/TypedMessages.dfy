/** Messages of typed values: what is written of them, and that decoding gives back those very values. */
module TypedMessages {
  import opened Bytes
  import opened Options
  import opened Varints
  import opened MessageDecode
  import opened MessageEncode

  // ---- Values and messages -----------------------------------------------------------------------

  const VARINT_NAMES: set<string> := {"int32", "int64", "uint32", "uint64", "sint32", "sint64"}
  const FIXED_NAMES: set<string> := {"fixed32", "fixed64", "sfixed32", "sfixed64"}
  const OTHER_NAMES: set<string> := {"bool", "float", "double", "string", "bytes"}

  /** A value of one of the protobuf types. Floating point numbers and text are given by their bytes. */
  datatype Typed =
    | Bool(b: bool)
    | Number(ptype: string, i: int)
    | Enum(name: string, i: int)
    | Real(wide: bool, raw: seq<byte>)
    | Chars(raw: seq<byte>)
    | Octets(raw: seq<byte>)
    | Nested(name: string, m: TypedMessage)
  {
    /** The type's name in a schema. */
    function TypeName(): string {
      match this
      case Bool(_) => "bool"
      case Number(ptype, _) => ptype
      case Enum(name, _) => name
      case Real(wide, _) => if wide then "double" else "float"
      case Chars(_) => "string"
      case Octets(_) => "bytes"
      case Nested(name, _) => name
    }

    predicate IsVarint() {
      Bool? || Enum? || (Number? && ptype in VARINT_NAMES)
    }

    predicate IsFixed() {
      Real? || (Number? && ptype in FIXED_NAMES)
    }
  }

  /** Fields in any order, any of them more than once; several values of a repeated field may be packed in one, with
      fixed width or as varints. */
  datatype TypedMessage =
    | Empty
    | Put(num: nat, v: Typed, rest: TypedMessage)
    | Pack(num: nat, fixed: bool, vs: seq<Typed>, rest: TypedMessage)

  /** The integers of a type. */
  predicate Holds(ptype: string, i: int) {
    if ptype in {"int32", "sint32", "sfixed32"} then -0x8000_0000 <= i < 0x8000_0000
    else if ptype in {"uint32", "fixed32"} then 0 <= i < 0x1_0000_0000
    else if ptype in {"int64", "sint64", "sfixed64"} then -0x8000_0000_0000_0000 <= i < 0x8000_0000_0000_0000
    else ptype in {"uint64", "fixed64"} && 0 <= i < 0x1_0000_0000_0000_0000
  }

  /** A value of the type it says. */
  predicate InType(v: Typed) {
    && (v.Number? ==> Holds(v.ptype, v.i))
    && (v.Enum? ==> Holds("int32", v.i) && v.name !in VARINT_NAMES + FIXED_NAMES + OTHER_NAMES)
    && (v.Real? ==> |v.raw| == if v.wide then 8 else 4)
  }

  /** ... which is a message type exactly if the schema has it. */
  predicate Sane(v: Typed, schema: Schema) {
    && InType(v)
    && (v.TypeName() in schema <==> v.Nested?)
    && (v.Nested? ==> Conforms(v.m, schema[v.name], schema))
  }

  /** A message of this type: every field is there, with values of its type, and only those of repeated fields of
      numbers are packed. */
  predicate Conforms(m: TypedMessage, fields: Fields, schema: Schema) {
    match m
    case Empty => true
    case Put(num, v, rest) =>
      && num in fields && v.TypeName() == fields[num].ptype && Sane(v, schema)
      && Conforms(rest, fields, schema)
    case Pack(num, fixed, vs, rest) =>
      && num in fields && fields[num].repeated && fields[num].ptype !in schema
      && fields[num].ptype !in {"string", "bytes"}
      && (fixed <==> fields[num].ptype in FIXED_NAMES + {"float", "double"})
      && (forall i | 0 <= i < |vs| ::
            && vs[i].TypeName() == fields[num].ptype && InType(vs[i])
            && if fixed then vs[i].IsFixed() else vs[i].IsVarint())
      && Conforms(rest, fields, schema)
  }

  // ---- What is written ---------------------------------------------------------------------------

  /** Negative numbers go by their 64-bit two's complement, those of the sint types zigzag. */
  function VarintOf(v: Typed): nat
    requires v.IsVarint() && InType(v)
  {
    if v.Bool? then if v.b then 1 else 0
    else if v.Number? && v.ptype in {"sint32", "sint64"} then if v.i < 0 then -2 * v.i - 1 else 2 * v.i
    else if v.i < 0 then v.i + 0x1_0000_0000_0000_0000
    else v.i
  }

  predicate IsWide(v: Typed) {
    if v.Real? then v.wide else v.Number? && v.ptype in {"fixed64", "sfixed64"}
  }

  /** The lowest byte first, and two's complement. */
  function FixedOf(v: Typed): (r: seq<byte>)
    requires v.IsFixed() && InType(v)
    ensures |r| == if IsWide(v) then 8 else 4
  {
    if v.Real? then v.raw
    else if IsWide(v) then ToLe64(if v.i < 0 then v.i + 0x1_0000_0000_0000_0000 else v.i)
    else ToLe32(if v.i < 0 then v.i + 0x1_0000_0000 else v.i)
  }

  function VarintsOf(vs: seq<Typed>): (r: seq<nat>)
    requires forall i | 0 <= i < |vs| :: InType(vs[i]) && vs[i].IsVarint()
    ensures |r| == |vs| && forall i | 0 <= i < |vs| :: r[i] == VarintOf(vs[i])
  {
    seq(|vs|, i requires 0 <= i < |vs| => VarintOf(vs[i]))
  }

  function AllFixedOf(vs: seq<Typed>): (r: seq<seq<byte>>)
    requires forall i | 0 <= i < |vs| :: InType(vs[i]) && vs[i].IsFixed()
    ensures |r| == |vs| && forall i | 0 <= i < |vs| :: r[i] == FixedOf(vs[i])
  {
    seq(|vs|, i requires 0 <= i < |vs| => FixedOf(vs[i]))
  }

  function BodyOf(v: Typed, schema: Schema): Body
    requires Sane(v, schema)
    decreases v
  {
    if v.Chars? || v.Octets? then Bytes(v.raw)
    else if v.Nested? then Embedded(Written(v.m, schema[v.name], schema))
    else if v.IsVarint() then Varint(VarintOf(v))
    else if IsWide(v) then Fixed64(FixedOf(v))
    else Fixed32(FixedOf(v))
  }

  function Written(m: TypedMessage, fields: Fields, schema: Schema): Message
    requires Conforms(m, fields, schema)
    decreases m
  {
    match m
    case Empty => End
    case Put(num, v, rest) => Then(num, BodyOf(v, schema), Written(rest, fields, schema))
    case Pack(num, fixed, vs, rest) =>
      Then(num, if fixed then PackedFixed(AllFixedOf(vs)) else PackedVarints(VarintsOf(vs)),
           Written(rest, fields, schema))
  }

  // ---- What it stands for ------------------------------------------------------------------------

  /** The value as the decoder's user sees it. A negative enum number comes as 2 to the 64th more. */
  function Plain(v: Typed, schema: Schema): Value
    requires Sane(v, schema)
    decreases v, 0
  {
    match v
    case Bool(b) => Flag(b)
    case Number(_, i) => Int(i)
    case Enum(_, i) => Int(if i < 0 then i + 0x1_0000_0000_0000_0000 else i)
    case Real(_, raw) => Float(raw)
    case Chars(raw) => Text(raw)
    case Octets(raw) => Blob(raw)
    case Nested(name, m) => Sub(PlainRecord(m, schema[name], schema))
  }

  function PlainAll(vs: seq<Typed>, schema: Schema): (r: seq<Value>)
    requires forall i | 0 <= i < |vs| :: Sane(vs[i], schema)
    ensures |r| == |vs| && forall i | 0 <= i < |vs| :: r[i] == Plain(vs[i], schema)
    decreases vs
  {
    seq(|vs|, i requires 0 <= i < |vs| => Plain(vs[i], schema))
  }

  predicate Mentions(m: TypedMessage, num: nat) {
    m != Empty && (m.num == num || Mentions(m.rest, num))
  }

  /** The numbers of the fields in the order in which they first come, behind those seen before. */
  function NumsFrom(m: TypedMessage, seen: seq<nat>): (r: seq<nat>)
    ensures forall n | n in r :: n in seen || Mentions(m, n)
  {
    if m == Empty then seen else NumsFrom(m.rest, if m.num in seen then seen else seen + [m.num])
  }

  lemma {:induction false} MentionedIsField(m: TypedMessage, num: nat, fields: Fields, schema: Schema)
    requires Conforms(m, fields, schema) && Mentions(m, num)
    ensures num in fields
    decreases m
  {
    if m.num != num {
      MentionedIsField(m.rest, num, fields, schema);
    }
  }

  /** All values of one field, in order. */
  function ValuesOf(m: TypedMessage, num: nat, fields: Fields, schema: Schema): (r: seq<Value>)
    requires Conforms(m, fields, schema)
    ensures Mentions(m, num) && num in fields && !fields[num].repeated ==> r != []
    decreases m, 0
  {
    match m
    case Empty => []
    case Put(n, v, rest) =>
      (if n == num then [Plain(v, schema)] else []) + ValuesOf(rest, num, fields, schema)
    case Pack(n, _, vs, rest) =>
      (if n == num then PlainAll(vs, schema) else []) + ValuesOf(rest, num, fields, schema)
  }

  /** A repeated field has all its values, any other the last one. */
  function PlainField(m: TypedMessage, num: nat, fields: Fields, schema: Schema): Value
    requires Conforms(m, fields, schema) && Mentions(m, num)
    decreases m, 1
  {
    MentionedIsField(m, num, fields, schema);
    var vs := ValuesOf(m, num, fields, schema);
    if fields[num].repeated then List(vs) else vs[|vs| - 1]
  }

  /** What a user of the decoder sees of the message. */
  function PlainRecord(m: TypedMessage, fields: Fields, schema: Schema): (r: Record)
    requires Conforms(m, fields, schema)
    ensures |r| == |NumsFrom(m, [])|
    decreases m, 2
  {
    var nums := NumsFrom(m, []);
    seq(|nums|, i requires 0 <= i < |nums| => Entry(nums[i], PlainField(m, nums[i], fields, schema)))
  }

  // ---- One scalar ----------------------------------------------------------------------------------

  /** A value written as a varint is read as itself. */
  lemma VarintMeans(v: Typed, schema: Schema)
    requires v.IsVarint() && Sane(v, schema)
    ensures VarintValue(v.TypeName(), VarintOf(v)) == Plain(v, schema)
  {
    if v.Number? {
      assert InRange(v.ptype, v.i) && VarintOf(v) == NumberVarint(v.ptype, v.i);
      NumberRoundTrip(v.ptype, v.i);
    }
  }

  /** So is one written with fixed width. */
  lemma FixedMeans(v: Typed, schema: Schema)
    requires v.IsFixed() && Sane(v, schema)
    ensures FixedValue(v.TypeName(), FixedOf(v)) == Plain(v, schema)
    ensures Width(v.TypeName()) == |FixedOf(v)|
  {
    WidthIs(v);
    hide Width;
    if v.Number? {
      hide FixedOf, FixedValue;
      FixedNumber(v);
    }
  }

  lemma WidthIs(v: Typed)
    requires v.IsFixed()
    ensures Width(v.TypeName()) == if IsWide(v) then 8 else 4
  {
  }

  lemma FixedNumber(v: Typed)
    requires v.Number? && v.IsFixed() && InType(v)
    ensures FixedValue(v.ptype, FixedOf(v)) == Int(v.i)
  {
    hide ToLe32, ToLe64, FixedValue, Le32, Le64;
    FixedRoundTrip(v.i);
  }

  // ---- Bodies and messages ---------------------------------------------------------------------------

  /** A written value is of a form its field may take and means the value. */
  lemma {:induction false} BodyMeans(v: Typed, fd: Field, schema: Schema)
    requires Sane(v, schema) && fd.ptype == v.TypeName()
    ensures Fits(BodyOf(v, schema), Some(fd), schema)
    ensures Meaning(BodyOf(v, schema), Some(fd), schema) == Held(Some(fd), Plain(v, schema))
    decreases v, 3
  {
    hide FixedOf, VarintOf, FixedValue, VarintValue, AllFit, RecordOf, PlainRecord;
    if v.Nested? {
      WrittenMeans(v.m, schema[v.name], schema);
    } else if v.IsVarint() {
      VarintMeans(v, schema);
    } else if v.IsFixed() {
      FixedMeans(v, schema);
    }
  }

  /** Values of one type, each written in the same way. */
  ghost predicate Alike(vs: seq<Typed>, fixed: bool, ptype: string, schema: Schema) {
    forall i | 0 <= i < |vs| ::
      && Sane(vs[i], schema) && InType(vs[i]) && vs[i].TypeName() == ptype
      && if fixed then vs[i].IsFixed() else vs[i].IsVarint()
  }

  lemma {:induction false} VarintsMean(vs: seq<Typed>, ptype: string, schema: Schema)
    requires Alike(vs, false, ptype, schema)
    ensures VarintValues(ptype, VarintsOf(vs)) == PlainAll(vs, schema)
    decreases |vs|
  {
    hide VarintOf, VarintValue, Sane, Plain, InType, Typed.TypeName, Typed.IsVarint;
    if vs != [] {
      VarintMeans(vs[0], schema);
      VarintsMean(vs[1..], ptype, schema);
      assert VarintsOf(vs)[1..] == VarintsOf(vs[1..]);
    }
  }

  lemma FixedsFit(vs: seq<Typed>, ptype: string, schema: Schema)
    requires Alike(vs, true, ptype, schema)
    ensures forall r | r in AllFixedOf(vs) :: |r| == Width(ptype)
  {
    hide FixedOf, Sane, InType, Typed.TypeName, Typed.IsFixed, Width, Plain;
    forall r | r in AllFixedOf(vs)
      ensures |r| == Width(ptype)
    {
      var i :| 0 <= i < |vs| && AllFixedOf(vs)[i] == r;
      FixedMeans(vs[i], schema);
    }
  }

  lemma {:induction false} FixedValuesAt(ptype: string, raws: seq<seq<byte>>)
    requires Width(ptype) > 0 && forall r | r in raws :: |r| == Width(ptype)
    ensures |FixedValues(ptype, raws)| == |raws|
    ensures forall i | 0 <= i < |raws| :: FixedValues(ptype, raws)[i] == FixedValue(ptype, raws[i])
    decreases |raws|
  {
    hide FixedValue, Width;
    if raws != [] {
      FixedValuesAt(ptype, raws[1..]);
    }
  }

  lemma FixedsMean(vs: seq<Typed>, ptype: string, schema: Schema)
    requires Alike(vs, true, ptype, schema)
    requires Width(ptype) > 0 && forall r | r in AllFixedOf(vs) :: |r| == Width(ptype)
    ensures FixedValues(ptype, AllFixedOf(vs)) == PlainAll(vs, schema)
  {
    hide FixedOf, FixedValue, FixedValues, Sane, Plain, Width, InType, Typed.TypeName, Typed.IsFixed, AllFixedOf;
    hide PlainAll;
    FixedValuesAt(ptype, AllFixedOf(vs));
    forall i | 0 <= i < |vs|
      ensures FixedValues(ptype, AllFixedOf(vs))[i] == PlainAll(vs, schema)[i]
    {
      FixedMeans(vs[i], schema);
    }
  }

  /** The first field of a message, written, is of a form it may take and stores its values. */
  lemma FirstMeans(m: TypedMessage, fields: Fields, schema: Schema)
    requires m != Empty && Conforms(m, fields, schema)
    ensures var (w, fd) := (Written(m, fields, schema), fields[m.num]);
      && w.Then? && w.num == m.num && w.rest == Written(m.rest, fields, schema)
      && Fits(w.body, Some(fd), schema)
      && Meaning(w.body, Some(fd), schema) ==
         (if m.Put? then Held(Some(fd), Plain(m.v, schema)) else Many(PlainAll(m.vs, schema)))
    decreases m, 0
  {
    hide Plain, FixedOf, VarintOf, FixedValue, VarintValue;
    if m.Put? {
      BodyMeans(m.v, fields[m.num], schema);
    } else {
      PackMeans(m, fields, schema);
    }
  }

  lemma PackMeans(m: TypedMessage, fields: Fields, schema: Schema)
    requires m.Pack? && Conforms(m, fields, schema)
    ensures var (w, fd) := (Written(m, fields, schema), fields[m.num]);
      && Fits(w.body, Some(fd), schema) && Meaning(w.body, Some(fd), schema) == Many(PlainAll(m.vs, schema))
  {
    hide Plain, FixedOf, VarintOf, FixedValue, VarintValue, Typed.IsFixed, Typed.IsVarint, Typed.TypeName;
    hide AllFixedOf, VarintsOf, PlainAll, Sane;
    var ptype := fields[m.num].ptype;
    PackIsAlike(m, fields, schema);
    if m.fixed {
      FixedsFit(m.vs, ptype, schema);
      FixedsMean(m.vs, ptype, schema);
    } else {
      VarintsMean(m.vs, ptype, schema);
    }
  }

  lemma PackIsAlike(m: TypedMessage, fields: Fields, schema: Schema)
    requires m.Pack? && Conforms(m, fields, schema)
    ensures Alike(m.vs, m.fixed, fields[m.num].ptype, schema)
  {
    forall i | 0 <= i < |m.vs|
      ensures Sane(m.vs[i], schema)
    {
      assert InType(m.vs[i]) && !m.vs[i].Nested?;
    }
  }

  lemma {:induction false} WrittenFits(m: TypedMessage, fields: Fields, schema: Schema)
    requires Conforms(m, fields, schema)
    ensures AllFit(Written(m, fields, schema), fields, schema)
    decreases m, 1
  {
    hide Fits, Meaning, BodyOf, Plain;
    if m != Empty {
      FirstMeans(m, fields, schema);
      WrittenFits(m.rest, fields, schema);
    }
  }

  /** All values written for a field are stored, in order. */
  lemma {:induction false} StoresValues(m: TypedMessage, num: nat, fields: Fields, schema: Schema)
    requires Conforms(m, fields, schema) && AllFit(Written(m, fields, schema), fields, schema)
    ensures var ss := AllStored(Written(m, fields, schema), num, fields, schema);
      Values(ss) == ValuesOf(m, num, fields, schema) && (ss != [] <==> Mentions(m, num))
    decreases m, 1
  {
    hide Fits, Meaning, BodyOf, Plain;
    if m != Empty {
      FirstMeans(m, fields, schema);
      StoresValues(m.rest, num, fields, schema);
      var rest := AllStored(Written(m.rest, fields, schema), num, fields, schema);
      if m.num == num {
        var s := Meaning(Written(m, fields, schema).body, Some(fields[num]), schema);
        assert ([s] + rest)[1..] == rest;
      } else {
        assert [] + rest == rest;
      }
    }
  }

  lemma {:induction false} StoresNums(m: TypedMessage, fields: Fields, schema: Schema, out: Record)
    requires Conforms(m, fields, schema) && AllFit(Written(m, fields, schema), fields, schema)
    ensures Keys(RecordOf(Written(m, fields, schema), fields, schema, out)) == NumsFrom(m, Keys(out))
    decreases m, 1
  {
    hide Fits, Meaning, BodyOf, Plain, Store, Keys;
    if m != Empty {
      FirstMeans(m, fields, schema);
      var s := Meaning(Written(m, fields, schema).body, Some(fields[m.num]), schema);
      StoreGets(out, m.num, s, m.num);
      StoresNums(m.rest, fields, schema, Store(out, m.num, s));
    }
  }

  predicate NoRepeats(ns: seq<nat>) {
    forall i, j | 0 <= i < j < |ns| :: ns[i] != ns[j]
  }

  lemma {:induction false} NumsDiffer(m: TypedMessage, seen: seq<nat>)
    requires NoRepeats(seen)
    ensures NoRepeats(NumsFrom(m, seen))
    decreases m
  {
    if m != Empty {
      NumsDiffer(m.rest, if m.num in seen then seen else seen + [m.num]);
    }
  }

  lemma {:induction false} EntryAt(r: Record, i: nat)
    requires NoRepeats(Keys(r)) && i < |r|
    ensures |Keys(r)| == |r| && r[i].num == Keys(r)[i] && Get(r, Keys(r)[i]) == Some(r[i].value)
    decreases |r|
  {
    var ks := Keys(r);
    assert ks[1..] == Keys(r[1..]);
    if i > 0 {
      assert forall j, k | 0 <= j < k < |ks| - 1 :: ks[1..][j] == ks[j + 1] && ks[1..][k] == ks[k + 1];
      EntryAt(r[1..], i - 1);
      assert ks[0] != ks[i];
    } else {
      KeysAreAsMany(r);
    }
  }

  lemma {:induction false} KeysAreAsMany(r: Record)
    ensures |Keys(r)| == |r|
  {
    if r != [] {
      KeysAreAsMany(r[1..]);
    }
  }

  lemma {:induction false} LastValue(ss: seq<Stored>)
    requires ss != [] && forall i | 0 <= i < |ss| :: ss[i].One?
    ensures Values(ss) != [] && Values(ss)[|Values(ss)| - 1] == ss[|ss| - 1].v
    decreases |ss|
  {
    if |ss| > 1 {
      LastValue(ss[1..]);
    } else {
      assert ss[1..] == [];
    }
  }

  /** What is stored for a field is what the message has for it. */
  lemma FieldMeans(m: TypedMessage, num: nat, fields: Fields, schema: Schema)
    requires Conforms(m, fields, schema) && Mentions(m, num)
    ensures AllFit(Written(m, fields, schema), fields, schema)
    ensures Get(RecordOf(Written(m, fields, schema), fields, schema, []), num) ==
            Some(PlainField(m, num, fields, schema))
    decreases m, 2
  {
    hide Conforms, AllFit, RecordOf, Written, AllStored, ValuesOf, Values, Get, Mentions;
    WrittenFits(m, fields, schema);
    var w := Written(m, fields, schema);
    RecordHolds(w, num, fields, schema);
    StoresValues(m, num, fields, schema);
    StoredInKind(w, num, fields, schema);
    MentionedIsField(m, num, fields, schema);
    if !fields[num].repeated {
      LastValue(AllStored(w, num, fields, schema));
    }
  }

  /** The record of the written message is the one the message stands for. */
  lemma {:induction false} WrittenMeans(m: TypedMessage, fields: Fields, schema: Schema)
    requires Conforms(m, fields, schema)
    ensures AllFit(Written(m, fields, schema), fields, schema)
    ensures RecordOf(Written(m, fields, schema), fields, schema, []) == PlainRecord(m, fields, schema)
    decreases m, 3
  {
    hide Conforms, AllFit, RecordOf, Written, PlainField, Get, NumsFrom, Mentions;
    WrittenFits(m, fields, schema);
    StoresNums(m, fields, schema, []);
    NumsDiffer(m, []);
    var r := RecordOf(Written(m, fields, schema), fields, schema, []);
    KeysAreAsMany(r);
    forall i | 0 <= i < |r|
      ensures r[i] == PlainRecord(m, fields, schema)[i]
    {
      EntryAt(r, i);
      FieldMeans(m, Keys(r)[i], fields, schema);
    }
  }

  /** A message of typed values written anywhere in the data decodes to those very values: every field once, in the
      order in which they first come, a repeated one with all its values and any other with its last. */
  lemma TypedRoundTrip(data: seq<byte>, pos: nat, m: TypedMessage, fields: Fields, schema: Schema)
    requires Conforms(m, fields, schema) && Lies(data, pos, Encode(Written(m, fields, schema)))
    ensures Decode(data, pos, pos + |Encode(Written(m, fields, schema))|, fields, schema, []) ==
            Some(PlainRecord(m, fields, schema))
  {
    hide Conforms, AllFit, RecordOf, Written, PlainRecord, Lies, Encode, Decode;
    WrittenMeans(m, fields, schema);
    RoundTrip(data, pos, Written(m, fields, schema), fields, schema, []);
  }

  /** An enum number comes back exactly if it is not negative. */
  lemma EnumBackIff(v: Typed, schema: Schema)
    requires v.Enum? && Sane(v, schema)
    ensures Plain(v, schema) == Int(v.i) <==> v.i >= 0
  {
  }

  /** One field of type bool, as bytes. */
  lemma BoolComesBack(b: bool)
    ensures var fields: Fields := map[1 := Field("bool", false)];
      Decode([8, if b then 1 else 0], 0, 2, fields, map[], []) == Some([Entry(1, Flag(b))])
  {
    hide Decode;
    var fields: Fields := map[1 := Field("bool", false)];
    var m := Put(1, Bool(b), Empty);
    var data: seq<byte> := [8, if b then 1 else 0];
    assert Encode(Written(m, fields, map[])) == data;
    TypedRoundTrip(data, 0, m, fields, map[]);
    assert NumsFrom(m, []) == [1];
    assert ValuesOf(m, 1, fields, map[]) == [Flag(b)];
    assert PlainRecord(m, fields, map[]) == [Entry(1, Flag(b))];
  }

  /** The number in four bytes from `i` on, the lowest first. */
  function NumberIn(raw: seq<byte>, i: nat): nat
    requires i + 4 <= |raw|
  {
    var (a: nat, b: nat, c: nat, d: nat) := (raw[i], raw[i + 1], raw[i + 2], raw[i + 3]);
    a + 0x100 * b + 0x1_0000 * c + 0x100_0000 * d
  }

  /** What is stored of a field the schema does not know: an unsigned number, or the bytes. */
  function Unknown(b: Body): Value
    requires b.Varint? || (b.Fixed32? && |b.raw| == 4) || (b.Fixed64? && |b.raw| == 8) || b.Bytes?
  {
    match b
    case Varint(n) => Int(n)
    case Fixed32(raw) => Int(NumberIn(raw, 0))
    case Fixed64(raw) => Int(NumberIn(raw, 0) + 0x1_0000_0000 * NumberIn(raw, 4))
    case _ => Blob(b.raw)
  }

  lemma UnknownFieldIsKept(data: seq<byte>, pos: nat, num: nat, b: Body, fields: Fields, schema: Schema)
    requires num !in fields
    requires b.Varint? || (b.Fixed32? && |b.raw| == 4) || (b.Fixed64? && |b.raw| == 8) || b.Bytes?
    requires Lies(data, pos, Encode(Then(num, b, End)))
    ensures Decode(data, pos, pos + |Encode(Then(num, b, End))|, fields, schema, []) == Some([Entry(num, Unknown(b))])
  {
    hide Lies, Encode, Decode;
    RoundTrip(data, pos, Then(num, b, End), fields, schema, []);
  }

  /** A field of bytes or text whose length is more than there is keeps what there is, and ends the message. */
  lemma CutShortIsKept(data: seq<byte>, pos: nat, num: nat, len: nat, p: nat, s: nat, fields: Fields, schema: Schema)
    requires num in fields && fields[num].ptype in {"string", "bytes"} && fields[num].ptype !in schema
    requires Lies(data, pos, EncodeVarint(8 * num + 2)) && p == pos + |EncodeVarint(8 * num + 2)|
    requires Lies(data, p, EncodeVarint(len)) && s == p + |EncodeVarint(len)| && |data| < s + len
    ensures s <= |data|
    ensures var v := if fields[num].ptype == "string" then Text(data[s..]) else Blob(data[s..]);
      Decode(data, pos, |data|, fields, schema, []) ==
        Some([Entry(num, if fields[num].repeated then List([v]) else v)])
  {
    hide Lies, ReadVarint, EncodeVarint, FieldAt, Delimited, Decode;
    ReadsBack(data, pos, 8 * num + 2);
    ReadsBack(data, p, len);
    CutShortField(data, s, s + len, fields[num], schema);
    LengthDelimited(data, p, len, s, Some(fields[num]), schema);
    HeldAlone(fields[num], if fields[num].ptype == "string" then Text(data[s..]) else Blob(data[s..]));
    LastField(data, pos, num, 2, p, fields, schema);
    hide Merge, Held;
  }

  lemma LengthDelimited(data: seq<byte>, pos: nat, len: nat, s: nat, fd: Option<Field>, schema: Schema)
    requires ReadVarint(data, pos) == Some(Read(len, s))
    ensures FieldAt(data, pos, 2, fd, schema) == Delimited(data, s, s + len, fd, schema)
  {
    hide Delimited;
  }

  /** A field that ends the data. */
  lemma LastField(data: seq<byte>, pos: nat, num: nat, wt: nat, p: nat, fields: Fields, schema: Schema)
    requires wt < 8 && ReadVarint(data, pos) == Some(Read(8 * num + wt, p))
    requires var f := FieldAt(data, p, wt, Find(fields, num), schema); f.Got? && f.next >= |data|
    ensures var f := FieldAt(data, p, wt, Find(fields, num), schema);
      Decode(data, pos, |data|, fields, schema, []) == Some([Entry(num, Merge(None, f.s))])
  {
    TagParts(num, wt);
    hide FieldAt, ReadVarint;
  }

  lemma HeldAlone(fd: Field, v: Value)
    ensures Merge(None, Held(Some(fd), v)) == if fd.repeated then List([v]) else v
  {
    assert [] + [v] == [v];
  }

  lemma CutShortField(data: seq<byte>, s: nat, e: nat, fd: Field, schema: Schema)
    requires fd.ptype in {"string", "bytes"} && fd.ptype !in schema && s <= |data| < e
    ensures Delimited(data, s, e, Some(fd), schema) ==
            Got(Held(Some(fd), if fd.ptype == "string" then Text(data[s..]) else Blob(data[s..])), e)
  {
  }
}
