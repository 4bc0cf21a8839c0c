/** The schema-driven recursive decode of a protobuf message, and the skipping scan for its kind. */
module MessageDecode {
  import opened Bytes
  import opened Options
  import opened Varints

  const FIXED32_SCALARS: set<string> := {"fixed32", "sfixed32", "float"}
  const FIXED64_SCALARS: set<string> := {"fixed64", "sfixed64", "double"}
  const SCALAR_TYPES: set<string> :=
    FIXED32_SCALARS + FIXED64_SCALARS +
    {"int32", "int64", "uint32", "uint64", "sint32", "sint64", "bool", "string", "bytes"}

  datatype Field = Field(ptype: string, repeated: bool)

  /** The fields of one message type by number. */
  type Fields = map<nat, Field>

  type Schema = map<string, Fields>

  /** A decoded value. Floating point numbers and text keep the bytes they are made from. */
  datatype Value =
    | Int(i: int)
    | Flag(b: bool)
    | Float(raw: seq<byte>)
    | Text(raw: seq<byte>)
    | Blob(raw: seq<byte>)
    | Sub(record: seq<Entry>)
    | List(items: seq<Value>)

  /** A stored field. Its name is the schema's for that number, or the number itself, so the number is the key. */
  datatype Entry = Entry(num: nat, value: Value)

  /** What is stored, in the order the keys were first put in. */
  type Record = seq<Entry>

  /** One value that replaces, or several that are appended to a list. */
  datatype Stored = One(v: Value) | Many(vs: seq<Value>)

  function Merge(prev: Option<Value>, s: Stored): Value {
    match s
    case One(v) => v
    case Many(vs) => List((if prev.Some? && prev.value.List? then prev.value.items else []) + vs)
  }

  function Store(r: Record, num: nat, s: Stored): Record {
    if r == [] then [Entry(num, Merge(None, s))]
    else if r[0].num == num then [Entry(num, Merge(Some(r[0].value), s))] + r[1..]
    else [r[0]] + Store(r[1..], num, s)
  }

  /** What is stored under a number. */
  function Get(r: Record, num: nat): Option<Value> {
    if r == [] then None else if r[0].num == num then Some(r[0].value) else Get(r[1..], num)
  }

  function Keys(r: Record): seq<nat> {
    if r == [] then [] else [r[0].num] + Keys(r[1..])
  }

  /** Storing changes what is under that number only, and keeps the order: a new number goes to the end. */
  lemma {:induction false} StoreGets(r: Record, num: nat, s: Stored, k: nat)
    ensures Get(Store(r, num, s), k) == if k == num then Some(Merge(Get(r, num), s)) else Get(r, k)
    ensures Keys(Store(r, num, s)) == if num in Keys(r) then Keys(r) else Keys(r) + [num]
  {
    hide Merge;
    if r != [] {
      var t := Store(r, num, s);
      if r[0].num == num {
        assert t[1..] == r[1..];
      } else {
        StoreGets(r[1..], num, s, k);
        assert t[1..] == Store(r[1..], num, s);
      }
    }
  }

  // ---- Values ------------------------------------------------------------------------------------

  function Find(fields: Fields, num: nat): Option<Field> {
    if num in fields then Some(fields[num]) else None
  }

  /** A value of a field that may hold several. */
  function Held(fd: Option<Field>, v: Value): Stored {
    if fd.Some? && fd.value.repeated then Many([v]) else One(v)
  }

  function VarintValue(ptype: string, val: nat): Value {
    if ptype == "bool" then Flag(val != 0) else Int(VarintNumber(ptype, val))
  }

  function Signed(n: nat, half: nat): int {
    if n >= half then n - 2 * half else n
  }

  function Le64(p: seq<byte>): nat
    requires |p| >= 8
  {
    TWO32 * Le32(p[4..]) + Le32(p)
  }

  function FixedValue(ptype: string, raw: seq<byte>): Value
    requires |raw| == 4 || |raw| == 8
  {
    if |raw| == 4 then
      if ptype == "float" then Float(raw)
      else Int(if ptype == "sfixed32" then Signed(Le32(raw), TWO31) else Le32(raw))
    else
      if ptype == "double" then Float(raw)
      else Int(if ptype == "sfixed64" then Signed(Le64(raw), TWO63) else Le64(raw))
  }

  function ToLe64(n: nat): (r: seq<byte>)
    requires n < TWO64
    ensures |r| == 8 && Le64(r) == n
  {
    var r := ToLe32(n % TWO32) + ToLe32(n / TWO32);
    assert r[4..] == ToLe32(n / TWO32) && Le32(r) == Le32(ToLe32(n % TWO32));
    r
  }

  /** Fixed-width integers come back with their sign. */
  lemma FixedRoundTrip(v: int)
    ensures -TWO31 <= v < TWO31 ==> FixedValue("sfixed32", ToLe32(if v < 0 then v + TWO32 else v)) == Int(v)
    ensures -TWO63 <= v < TWO63 ==> FixedValue("sfixed64", ToLe64(if v < 0 then v + TWO64 else v)) == Int(v)
    ensures 0 <= v < TWO32 ==> FixedValue("fixed32", ToLe32(v)) == Int(v)
    ensures 0 <= v < TWO64 ==> FixedValue("fixed64", ToLe64(v)) == Int(v)
  {
    hide Le32, Le64, ToLe32, ToLe64;
  }

  /** A slice stops where the data does. */
  function Slice(data: seq<byte>, s: nat, e: nat): (r: seq<byte>)
    requires s <= e
    ensures e <= |data| ==> r == data[s..e]
  {
    if e <= |data| then data[s..e] else if s <= |data| then data[s..] else []
  }

  function Width(ptype: string): nat {
    if ptype in FIXED32_SCALARS then 4 else if ptype in FIXED64_SCALARS then 8 else 0
  }

  /** Scalars packed one behind another; nothing when the data ends inside one. */
  function Unpack(data: seq<byte>, pos: nat, end: nat, ptype: string): Option<seq<Value>>
    decreases if pos < |data| then |data| - pos else 0
  {
    if pos >= end then Some([])
    else
      var w := Width(ptype);
      if w > 0 then
        if pos + w > |data| then None
        else Prepend(FixedValue(ptype, data[pos..pos + w]), Unpack(data, pos + w, end, ptype))
      else
        match ReadVarint(data, pos)
        case None => None
        case Some(t) => Prepend(VarintValue(ptype, t.value), Unpack(data, t.next, end, ptype))
  }

  function Prepend(v: Value, vs: Option<seq<Value>>): Option<seq<Value>> {
    if vs.None? then None else Some([v] + vs.value)
  }

  // ---- Messages ------------------------------------------------------------------------------------

  /** What one field's bytes amount to: running off the data, a wire type that ends the message, or a value. */
  datatype Step = Crash | Stop | Got(s: Stored, next: nat)

  function Left(data: seq<byte>, pos: nat): nat {
    if pos < |data| then |data| - pos else 0
  }

  predicate IsPacked(fd: Field) {
    fd.repeated && fd.ptype != "string" && fd.ptype != "bytes"
  }

  /** A length-delimited field between `s` and `e`. */
  function Delimited(data: seq<byte>, s: nat, e: nat, fd: Option<Field>, schema: Schema): (r: Step)
    requires s <= e
    ensures !r.Stop? && (r.Got? ==> r.next == e)
    decreases Left(data, s), 1
  {
    if fd.None? then Got(One(Blob(Slice(data, s, e))), e)
    else if fd.value.ptype in schema then
      match Decode(data, s, e, schema[fd.value.ptype], schema, [])
      case None => Crash
      case Some(r) => Got(Held(fd, Sub(r)), e)
    else if fd.value.ptype == "string" then Got(Held(fd, Text(Slice(data, s, e))), e)
    else if fd.value.ptype == "bytes" then Got(Held(fd, Blob(Slice(data, s, e))), e)
    else if IsPacked(fd.value) then
      match Unpack(data, s, e, fd.value.ptype)
      case None => Crash
      case Some(vs) => Got(Many(vs), e)
    else Got(Held(fd, Blob(Slice(data, s, e))), e)
  }

  function TypeName(fd: Option<Field>): string {
    if fd.Some? then fd.value.ptype else ""
  }

  /** The field whose tag ended at `pos`. */
  function FieldAt(data: seq<byte>, pos: nat, wt: nat, fd: Option<Field>, schema: Schema): (r: Step)
    ensures r.Got? ==> r.next >= pos
    decreases Left(data, pos), 2
  {
    if wt == 0 then
      match ReadVarint(data, pos)
      case None => Crash
      case Some(t) => Got(Held(fd, VarintValue(TypeName(fd), t.value)), t.next)
    else if wt == 5 || wt == 1 then
      var w := if wt == 5 then 4 else 8;
      if pos + w > |data| then Crash
      else Got(Held(fd, FixedValue(TypeName(fd), data[pos..pos + w])), pos + w)
    else if wt == 2 then
      match ReadVarint(data, pos)
      case None => Crash
      case Some(t) => Delimited(data, t.next, t.next + t.value, fd, schema)
    else Stop
  }

  /** The message between `pos` and `end`, on top of what is stored already; nothing when the reading runs
      off the data. Fields are not held to `end`: only where the next one may start is. */
  function Decode(data: seq<byte>, pos: nat, end: nat, fields: Fields, schema: Schema, out: Record): Option<Record>
    decreases Left(data, pos), 0
  {
    if pos >= end then Some(out)
    else
      match ReadVarint(data, pos)
      case None => None
      case Some(t) =>
        match FieldAt(data, t.next, t.value % 8, Find(fields, t.value / 8), schema)
        case Crash => None
        case Stop => Some(out)
        case Got(s, next) => Decode(data, next, end, fields, schema, Store(out, t.value / 8, s))
  }

  // ---- The loops ---------------------------------------------------------------------------------

  /** The rest of a list, behind what there is. */
  function After(vs: seq<Value>, rest: Option<seq<Value>>): Option<seq<Value>> {
    if rest.None? then None else Some(vs + rest.value)
  }

  lemma AfterPrepend(vs: seq<Value>, v: Value, rest: Option<seq<Value>>)
    ensures After(vs, Prepend(v, rest)) == After(vs + [v], rest)
  {
    if rest.Some? {
      assert vs + ([v] + rest.value) == vs + [v] + rest.value;
    }
  }

  lemma AfterNothing(rest: Option<seq<Value>>)
    ensures After([], rest) == rest
  {
    if rest.Some? {
      assert [] + rest.value == rest.value;
    }
  }

  method DecodePacked(data: seq<byte>, start: nat, end: nat, ptype: string) returns (r: Option<seq<Value>>)
    ensures r == Unpack(data, start, end, ptype)
  {
    hide ReadVarint, Le32, Le64;
    var out: seq<Value>, pos := [], start;
    AfterNothing(Unpack(data, start, end, ptype));
    while pos < end
      invariant start <= pos
      invariant After(out, Unpack(data, pos, end, ptype)) == Unpack(data, start, end, ptype)
      decreases Left(data, pos), end - pos
    {
      var w := Width(ptype);
      if w > 0 {
        if pos + w > |data| {
          return None;
        }
        var v := FixedValue(ptype, data[pos..pos + w]);
        AfterPrepend(out, v, Unpack(data, pos + w, end, ptype));
        out, pos := out + [v], pos + w;
      } else {
        var t := ReadVarintAt(data, pos);
        if t.None? {
          return None;
        }
        var v := VarintValue(ptype, t.value.value);
        AfterPrepend(out, v, Unpack(data, t.value.next, end, ptype));
        out, pos := out + [v], t.value.next;
      }
    }
    assert out + [] == out;
    return Some(out);
  }

  /** The length-delimited field between `s` and `e`. */
  method DecodeDelimited(data: seq<byte>, s: nat, e: nat, fd: Option<Field>, schema: Schema) returns (r: Step)
    requires s <= e
    ensures r == Delimited(data, s, e, fd, schema)
    decreases Left(data, s), 1
  {
    if fd.None? {
      r := Got(One(Blob(Slice(data, s, e))), e);
    } else if fd.value.ptype in schema {
      var sub := DecodeMessage(data, s, e, schema[fd.value.ptype], schema);
      r := if sub.None? then Crash else Got(Held(fd, Sub(sub.value)), e);
    } else if fd.value.ptype == "string" {
      r := Got(Held(fd, Text(Slice(data, s, e))), e);
    } else if IsPacked(fd.value) {
      var vs := DecodePacked(data, s, e, fd.value.ptype);
      r := if vs.None? then Crash else Got(Many(vs.value), e);
    } else {
      r := Got(Held(fd, Blob(Slice(data, s, e))), e);
    }
  }

  method DecodeMessage(data: seq<byte>, start: nat, end: nat, fields: Fields, schema: Schema)
    returns (r: Option<Record>)
    ensures r == Decode(data, start, end, fields, schema, [])
    decreases Left(data, start), 0
  {
    hide ReadVarint, Delimited, Store, FixedValue, VarintNumber;
    var out: Record, pos := [], start;
    while pos < end
      invariant start <= pos
      invariant Decode(data, pos, end, fields, schema, out) == Decode(data, start, end, fields, schema, [])
      decreases Left(data, pos), end - pos
    {
      var t := ReadVarintAt(data, pos);
      if t.None? {
        return None;
      }
      var fnum, wt, next := t.value.value / 8, t.value.value % 8, t.value.next;
      var fd := Find(fields, fnum);
      var step: Step;
      if wt == 0 {
        var v := ReadVarintAt(data, next);
        if v.None? {
          return None;
        }
        step := Got(Held(fd, VarintValue(TypeName(fd), v.value.value)), v.value.next);
      } else if wt == 5 || wt == 1 {
        var w := if wt == 5 then 4 else 8;
        if next + w > |data| {
          return None;
        }
        step := Got(Held(fd, FixedValue(TypeName(fd), data[next..next + w])), next + w);
      } else if wt == 2 {
        var ln := ReadVarintAt(data, next);
        if ln.None? {
          return None;
        }
        var s := ln.value.next;
        step := DecodeDelimited(data, s, s + ln.value.value, fd, schema);
        if step.Crash? {
          return None;
        }
      } else {
        break;
      }
      assert step == FieldAt(data, next, wt, fd, schema);
      out, pos := Store(out, fnum, step.s), step.next;
    }
    return Some(out);
  }
}
