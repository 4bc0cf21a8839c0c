/** The skipping scan for an envelope's kind, against the full decode, and both against the encoding. */
module KindScan {
  import opened Bytes
  import opened Options
  import opened Varints
  import opened MessageDecode

  /** The numbers of the fields that make an envelope one of a kind: its message-typed fields. */
  function PayloadNums(envelope: Fields): set<nat> {
    set n | n in envelope && envelope[n].ptype !in SCALAR_TYPES
  }

  /** They are the fields whose type is none of the fifteen scalar ones. */
  lemma PayloadNumsAre(envelope: Fields, n: nat)
    ensures n in PayloadNums(envelope) <==>
      n in envelope && envelope[n].ptype !in {
        "double", "float", "int32", "int64", "uint32", "uint64", "sint32", "sint64", "fixed32", "fixed64",
        "sfixed32", "sfixed64", "bool", "string", "bytes"}
  {
  }

  datatype Skipped = Broken | Ended | At(next: nat)

  /** Past one field without looking inside. */
  function Skip(data: seq<byte>, pos: nat, wt: nat): (r: Skipped)
    ensures r.At? ==> r.next >= pos
  {
    if wt == 0 || wt == 2 then
      match ReadVarint(data, pos)
      case None => Broken
      case Some(t) => At(if wt == 0 then t.next else t.next + t.value)
    else if wt == 5 then At(pos + 4)
    else if wt == 1 then At(pos + 8)
    else Ended
  }

  datatype Scanned = Crashed | Kind(num: Option<nat>)

  function ScanKind(data: seq<byte>, pos: nat, end: nat, nums: set<nat>): Scanned
    decreases Left(data, pos)
  {
    if pos >= end then Kind(None)
    else
      match ReadVarint(data, pos)
      case None => Crashed
      case Some(t) =>
        if t.value / 8 in nums then Kind(Some(t.value / 8))
        else
          match Skip(data, t.next, t.value % 8)
          case Broken => Crashed
          case Ended => Kind(None)
          case At(next) => ScanKind(data, next, end, nums)
  }

  method EnvelopeKindNum(data: seq<byte>, start: nat, end: nat, nums: set<nat>) returns (r: Scanned)
    ensures r == ScanKind(data, start, end, nums)
  {
    hide ReadVarint;
    var pos := start;
    while pos < end
      invariant start <= pos
      invariant ScanKind(data, pos, end, nums) == ScanKind(data, start, end, nums)
      decreases Left(data, pos), end - pos
    {
      var t := ReadVarintAt(data, pos);
      if t.None? {
        return Crashed;
      }
      var fnum, wt := t.value.value / 8, t.value.value % 8;
      pos := t.value.next;
      if fnum in nums {
        return Kind(Some(fnum));
      }
      if wt == 0 {
        var v := ReadVarintAt(data, pos);
        if v.None? {
          return Crashed;
        }
        pos := v.value.next;
      } else if wt == 2 {
        var ln := ReadVarintAt(data, pos);
        if ln.None? {
          return Crashed;
        }
        pos := ln.value.next + ln.value.value;
      } else if wt == 5 {
        pos := pos + 4;
      } else if wt == 1 {
        pos := pos + 8;
      } else {
        return Kind(None);
      }
    }
    return Kind(None);
  }

  // ---- Against the full decode -----------------------------------------------------------------

  /** The first stored field, in the order of storing, that is one of `nums`. */
  function FirstIn(r: Record, nums: set<nat>): Option<nat> {
    if r == [] then None
    else if r[0].num in nums then Some(r[0].num)
    else FirstIn(r[1..], nums)
  }

  lemma {:induction false} FirstAfterStore(r: Record, num: nat, s: Stored, nums: set<nat>)
    ensures FirstIn(Store(r, num, s), nums) ==
            if FirstIn(r, nums).Some? then FirstIn(r, nums) else if num in nums then Some(num) else None
  {
    if r == [] {
      assert Store(r, num, s)[1..] == [];
    } else if r[0].num == num {
      assert Store(r, num, s)[1..] == r[1..];
    } else {
      FirstAfterStore(r[1..], num, s, nums);
      assert Store(r, num, s)[1..] == Store(r[1..], num, s);
    }
  }

  /** The field number of the group tag, or tag of an unknown wire type, at which the message is given up. */
  function GivenUpAt(data: seq<byte>, pos: nat, end: nat): Option<nat>
    decreases Left(data, pos)
  {
    if pos >= end then None
    else
      match ReadVarint(data, pos)
      case None => None
      case Some(t) =>
        match Skip(data, t.next, t.value % 8)
        case Broken => None
        case Ended => Some(t.value / 8)
        case At(next) => GivenUpAt(data, next, end)
  }

  /** The message is given up at a tag with one of the numbers, and no tag before it has one. */
  predicate GivenUpAtOneOf(data: seq<byte>, pos: nat, end: nat, nums: set<nat>)
    decreases Left(data, pos)
  {
    pos < end && ReadVarint(data, pos).Some? &&
    var t := ReadVarint(data, pos).value;
    match Skip(data, t.next, t.value % 8)
    case Broken => false
    case Ended => t.value / 8 in nums
    case At(next) => t.value / 8 !in nums && GivenUpAtOneOf(data, next, end, nums)
  }

  /** A field that decodes is skipped over to the same place. */
  lemma SkipsLikeDecode(data: seq<byte>, pos: nat, wt: nat, fd: Option<Field>, schema: Schema)
    ensures var f, k := FieldAt(data, pos, wt, fd, schema), Skip(data, pos, wt);
      && (f.Stop? <==> k.Ended?)
      && (f.Got? ==> k == At(f.next))
  {
  }

  /** The decode never takes back what it has stored. */
  lemma {:induction false} FirstStays(data: seq<byte>, pos: nat, end: nat, fields: Fields, schema: Schema, out: Record,
                                      nums: set<nat>)
    requires FirstIn(out, nums).Some?
    ensures var r := Decode(data, pos, end, fields, schema, out);
      r.Some? ==> FirstIn(r.value, nums) == FirstIn(out, nums)
    decreases Left(data, pos)
  {
    hide Store, FirstIn, FieldAt, ReadVarint;
    if pos < end && ReadVarint(data, pos).Some? {
      var t := ReadVarint(data, pos).value;
      var f := FieldAt(data, t.next, t.value % 8, Find(fields, t.value / 8), schema);
      if f.Got? {
        FirstAfterStore(out, t.value / 8, f.s, nums);
        FirstStays(data, f.next, end, fields, schema, Store(out, t.value / 8, f.s), nums);
      }
    }
  }

  lemma {:induction false} ScanFrom(data: seq<byte>, pos: nat, end: nat, fields: Fields, schema: Schema, out: Record,
                                    nums: set<nat>)
    requires FirstIn(out, nums) == None
    requires Decode(data, pos, end, fields, schema, out).Some?
    ensures var first := FirstIn(Decode(data, pos, end, fields, schema, out).value, nums);
      var stop := GivenUpAt(data, pos, end);
      && ScanKind(data, pos, end, nums) ==
         Kind(if first.Some? then first else if stop.Some? && stop.value in nums then stop else None)
      && (GivenUpAtOneOf(data, pos, end, nums) <==> first.None? && stop.Some? && stop.value in nums)
    decreases Left(data, pos)
  {
    hide Store, FirstIn, FieldAt, ReadVarint, Skip;
    if pos < end {
      var t := ReadVarint(data, pos).value;
      var fd := Find(fields, t.value / 8);
      var f := FieldAt(data, t.next, t.value % 8, fd, schema);
      SkipsLikeDecode(data, t.next, t.value % 8, fd, schema);
      if f.Got? {
        var out' := Store(out, t.value / 8, f.s);
        FirstAfterStore(out, t.value / 8, f.s, nums);
        if t.value / 8 in nums {
          FirstStays(data, f.next, end, fields, schema, out', nums);
        } else {
          ScanFrom(data, f.next, end, fields, schema, out', nums);
        }
      }
    }
  }

  /** On every envelope that decodes, the scan does not crash and names the first payload field the decode
      stores, except in one case, which skipping alone tells: the message is given up at a tag with a payload
      field's number, with no such tag before it. Then the scan names that one, and nothing is stored. */
  lemma ScanAgreesIff(data: seq<byte>, start: nat, end: nat, fields: Fields, schema: Schema)
    requires Decode(data, start, end, fields, schema, []).Some?
    ensures var nums := PayloadNums(fields);
      var first := FirstIn(Decode(data, start, end, fields, schema, []).value, nums);
      && !ScanKind(data, start, end, nums).Crashed?
      && (ScanKind(data, start, end, nums) == Kind(first) <==> !GivenUpAtOneOf(data, start, end, nums))
      && (GivenUpAtOneOf(data, start, end, nums) ==>
            first == None && ScanKind(data, start, end, nums) == Kind(GivenUpAt(data, start, end)))
  {
    ScanFrom(data, start, end, fields, schema, [], PayloadNums(fields));
  }

  /** The exception does occur: a lone group tag with the number of a payload field. */
  lemma GroupTagIsNamed(envelope: Fields)
    requires 1 in envelope && envelope[1].ptype !in SCALAR_TYPES
    ensures ScanKind([11], 0, 1, PayloadNums(envelope)) == Kind(Some(1))
    ensures Decode([11], 0, 1, envelope, map[], []) == Some([])
  {
    assert ReadVarint([11], 0) == Some(Read(11, 1));
  }
}
