/** The protobuf encoding of a message, and that decoding is its inverse. */
module MessageEncode {
  import opened Bytes
  import opened Options
  import opened Varints
  import opened MessageDecode
  import opened KindScan
  import Recording

  /** A message as it is written: fields in any order, any of them more than once. */
  datatype Message = End | Then(num: nat, body: Body, rest: Message)

  datatype Body =
    | Varint(n: nat)
    | Fixed32(raw: seq<byte>)
    | Fixed64(raw: seq<byte>)
    | Bytes(raw: seq<byte>)
    | Embedded(m: Message)
    | PackedVarints(ns: seq<nat>)
    | PackedFixed(raws: seq<seq<byte>>)

  function WireType(b: Body): (r: nat)
    ensures r < 8
  {
    match b
    case Varint(_) => 0
    case Fixed64(_) => 1
    case Fixed32(_) => 5
    case _ => 2
  }

  function Joined(raws: seq<seq<byte>>): seq<byte> {
    if raws == [] then [] else raws[0] + Joined(raws[1..])
  }

  function EncodeVarints(ns: seq<nat>): seq<byte> {
    if ns == [] then [] else EncodeVarint(ns[0]) + EncodeVarints(ns[1..])
  }

  /** The bytes between a field's tag, or length, and the next field. */
  function Content(b: Body): seq<byte>
    decreases b, 0
  {
    match b
    case Varint(n) => EncodeVarint(n)
    case Fixed32(raw) => raw
    case Fixed64(raw) => raw
    case Bytes(raw) => raw
    case Embedded(m) => Encode(m)
    case PackedVarints(ns) => EncodeVarints(ns)
    case PackedFixed(raws) => Joined(raws)
  }

  function EncodeTag(num: nat, b: Body): seq<byte> {
    EncodeVarint(8 * num + WireType(b))
  }

  function EncodeBody(b: Body): seq<byte>
    decreases b, 1
  {
    if WireType(b) == 2 then EncodeVarint(|Content(b)|) + Content(b) else Content(b)
  }

  function Encode(m: Message): seq<byte> {
    match m
    case End => []
    case Then(num, body, rest) => EncodeTag(num, body) + EncodeBody(body) + Encode(rest)
  }

  // ---- What a written message means under a schema -----------------------------------------------

  /** The body is of a form that a field of this type may take. */
  predicate Fits(b: Body, fd: Option<Field>, schema: Schema) {
    match b
    case Varint(_) => true
    case Fixed32(raw) => |raw| == 4
    case Fixed64(raw) => |raw| == 8
    case Bytes(_) => fd.None? || (fd.value.ptype !in schema && !IsPacked(fd.value))
    case Embedded(m) => fd.Some? && fd.value.ptype in schema && AllFit(m, schema[fd.value.ptype], schema)
    case PackedVarints(_) => fd.Some? && HoldsPacked(fd.value, schema) && Width(fd.value.ptype) == 0
    case PackedFixed(raws) =>
      && fd.Some? && HoldsPacked(fd.value, schema) && Width(fd.value.ptype) > 0
      && forall r | r in raws :: |r| == Width(fd.value.ptype)
  }

  predicate HoldsPacked(fd: Field, schema: Schema) {
    fd.ptype !in schema && IsPacked(fd)
  }

  predicate AllFit(m: Message, fields: Fields, schema: Schema) {
    m.Then? ==> Fits(m.body, Find(fields, m.num), schema) && AllFit(m.rest, fields, schema)
  }

  /** What storing a field's body puts in the record. */
  function Meaning(b: Body, fd: Option<Field>, schema: Schema): Stored
    requires Fits(b, fd, schema)
  {
    match b
    case Varint(n) => Held(fd, VarintValue(TypeName(fd), n))
    case Fixed32(raw) => Held(fd, FixedValue(TypeName(fd), raw))
    case Fixed64(raw) => Held(fd, FixedValue(TypeName(fd), raw))
    case Bytes(raw) => Held(fd, if TypeName(fd) == "string" then Text(raw) else Blob(raw))
    case Embedded(m) => Held(fd, Sub(RecordOf(m, schema[fd.value.ptype], schema, [])))
    case PackedVarints(ns) => Many(VarintValues(fd.value.ptype, ns))
    case PackedFixed(raws) => Many(FixedValues(fd.value.ptype, raws))
  }

  function VarintValues(ptype: string, ns: seq<nat>): seq<Value> {
    if ns == [] then [] else [VarintValue(ptype, ns[0])] + VarintValues(ptype, ns[1..])
  }

  function FixedValues(ptype: string, raws: seq<seq<byte>>): seq<Value>
    requires Width(ptype) > 0 && forall r | r in raws :: |r| == Width(ptype)
  {
    if raws == [] then [] else [FixedValue(ptype, raws[0])] + FixedValues(ptype, raws[1..])
  }

  /** The record that a message means, on top of `out`. */
  function RecordOf(m: Message, fields: Fields, schema: Schema, out: Record): Record
    requires AllFit(m, fields, schema)
  {
    match m
    case End => out
    case Then(num, body, rest) =>
      RecordOf(rest, fields, schema, Store(out, num, Meaning(body, Find(fields, num), schema)))
  }

  /** All that a message stores under a number, in order. */
  function AllStored(m: Message, num: nat, fields: Fields, schema: Schema): seq<Stored>
    requires AllFit(m, fields, schema)
  {
    match m
    case End => []
    case Then(n, body, rest) =>
      (if n == num then [Meaning(body, Find(fields, n), schema)] else []) + AllStored(rest, num, fields, schema)
  }

  function Values(ss: seq<Stored>): seq<Value> {
    if ss == [] then [] else (if ss[0].One? then [ss[0].v] else ss[0].vs) + Values(ss[1..])
  }

  /** A repeated field holds all the values written for it, in order, packed or not; any other the last. */
  function Final(ss: seq<Stored>, repeated: bool): Option<Value> {
    if ss == [] then None
    else if repeated then Some(List(Values(ss)))
    else if ss[|ss| - 1].One? then Some(ss[|ss| - 1].v)
    else None
  }

  function MergeAll(prev: Option<Value>, ss: seq<Stored>): Option<Value>
    decreases |ss|
  {
    if ss == [] then prev else MergeAll(Some(Merge(prev, ss[0])), ss[1..])
  }

  lemma {:induction false} MergedRepeated(prev: Option<Value>, ss: seq<Stored>)
    requires forall i | 0 <= i < |ss| :: ss[i].Many?
    requires prev.Some? ==> prev.value.List?
    ensures ss != [] ==> MergeAll(prev, ss) == Some(List((if prev.Some? then prev.value.items else []) + Values(ss)))
    decreases |ss|
  {
    if ss != [] {
      var had := if prev.Some? then prev.value.items else [];
      MergedRepeated(Some(List(had + ss[0].vs)), ss[1..]);
      assert had + ss[0].vs + Values(ss[1..]) == had + (ss[0].vs + Values(ss[1..]));
      if |ss| == 1 {
        assert ss[1..] == [] && had + (ss[0].vs + []) == had + ss[0].vs;
      }
    }
  }

  lemma {:induction false} MergedSingular(prev: Option<Value>, ss: seq<Stored>)
    requires forall i | 0 <= i < |ss| :: ss[i].One?
    ensures ss != [] ==> MergeAll(prev, ss) == Some(ss[|ss| - 1].v)
    decreases |ss|
  {
    if |ss| > 1 {
      MergedSingular(Some(ss[0].v), ss[1..]);
    } else if ss != [] {
      assert ss[1..] == [];
    }
  }

  predicate IsRepeated(fd: Option<Field>) {
    fd.Some? && fd.value.repeated
  }

  lemma {:induction false} StoredInKind(m: Message, num: nat, fields: Fields, schema: Schema)
    requires AllFit(m, fields, schema)
    ensures forall i | 0 <= i < |AllStored(m, num, fields, schema)| ::
      AllStored(m, num, fields, schema)[i].Many? <==> IsRepeated(Find(fields, num))
    decreases m
  {
    hide VarintValue, FixedValue, VarintValues, FixedValues, RecordOf;
    if m.Then? {
      StoredInKind(m.rest, num, fields, schema);
      assert m.num == num ==> (Meaning(m.body, Find(fields, num), schema).Many? <==> IsRepeated(Find(fields, num)));
    }
  }

  lemma {:induction false} RecordMerges(m: Message, num: nat, fields: Fields, schema: Schema, out: Record)
    requires AllFit(m, fields, schema)
    ensures Get(RecordOf(m, fields, schema, out), num) ==
            MergeAll(Get(out, num), AllStored(m, num, fields, schema))
    decreases m
  {
    hide Store, Get, Meaning, Merge;
    match m
    case End =>
    case Then(n, body, rest) =>
      var s := Meaning(body, Find(fields, n), schema);
      StoreGets(out, n, s, num);
      RecordMerges(rest, num, fields, schema, Store(out, n, s));
      var tail := AllStored(rest, num, fields, schema);
      assert ([s] + tail)[1..] == tail && [] + tail == tail;
  }

  /** What a message means, said without the order of storing: under every number is what was written for it,
      all of it for a repeated field and the last of it for any other. */
  lemma RecordHolds(m: Message, num: nat, fields: Fields, schema: Schema)
    requires AllFit(m, fields, schema)
    ensures Get(RecordOf(m, fields, schema, []), num) ==
            Final(AllStored(m, num, fields, schema), IsRepeated(Find(fields, num)))
  {
    hide RecordOf, AllStored, Values, MergeAll;
    var ss := AllStored(m, num, fields, schema);
    RecordMerges(m, num, fields, schema, []);
    StoredInKind(m, num, fields, schema);
    if ss == [] {
      NothingMerged();
    } else if IsRepeated(Find(fields, num)) {
      MergedRepeated(None, ss);
      assert [] + Values(ss) == Values(ss);
    } else {
      MergedSingular(None, ss);
    }
  }

  lemma NothingMerged()
    ensures MergeAll(None, []) == None
  {
  }

  // ---- Decoding is the inverse ---------------------------------------------------------------------

  /** `e` lies in the data at `pos`. */
  predicate Lies(data: seq<byte>, pos: nat, e: seq<byte>) {
    pos + |e| <= |data| && data[pos..pos + |e|] == e
  }

  lemma LiesSplit(data: seq<byte>, pos: nat, a: seq<byte>, b: seq<byte>)
    requires Lies(data, pos, a + b)
    ensures Lies(data, pos, a) && Lies(data, pos + |a|, b)
  {
    assert a == data[pos..pos + |a + b|][..|a|];
    assert b == data[pos..pos + |a + b|][|a|..];
  }

  lemma ReadsBack(data: seq<byte>, pos: nat, n: nat)
    requires Lies(data, pos, EncodeVarint(n))
    ensures ReadVarint(data, pos) == Some(Read(n, pos + |EncodeVarint(n)|))
  {
    VarintRoundTrip(data, pos, n);
  }

  lemma {:induction false} UnpackVarints(data: seq<byte>, pos: nat, ns: seq<nat>, ptype: string)
    requires Width(ptype) == 0 && Lies(data, pos, EncodeVarints(ns))
    ensures Unpack(data, pos, pos + |EncodeVarints(ns)|, ptype) == Some(VarintValues(ptype, ns))
    decreases |ns|
  {
    hide Lies, ReadVarint, EncodeVarint;
    if ns != [] {
      LiesSplit(data, pos, EncodeVarint(ns[0]), EncodeVarints(ns[1..]));
      ReadsBack(data, pos, ns[0]);
      UnpackVarints(data, pos + |EncodeVarint(ns[0])|, ns[1..], ptype);
    }
  }

  lemma {:induction false} UnpackFixed(data: seq<byte>, pos: nat, raws: seq<seq<byte>>, ptype: string)
    requires Width(ptype) > 0 && forall r | r in raws :: |r| == Width(ptype)
    requires Lies(data, pos, Joined(raws))
    ensures Unpack(data, pos, pos + |Joined(raws)|, ptype) == Some(FixedValues(ptype, raws))
    decreases |raws|
  {
    hide FixedValue;
    if raws != [] {
      LiesSplit(data, pos, raws[0], Joined(raws[1..]));
      UnpackFixed(data, pos + |raws[0]|, raws[1..], ptype);
    }
  }

  /** A body decodes to its meaning, and the decode goes on right behind it. */
  lemma {:induction false} BodyRoundTrip(data: seq<byte>, pos: nat, b: Body, fd: Option<Field>, schema: Schema)
    requires Fits(b, fd, schema) && Lies(data, pos, EncodeBody(b))
    ensures FieldAt(data, pos, WireType(b), fd, schema) == Got(Meaning(b, fd, schema), pos + |EncodeBody(b)|)
    decreases b, 1
  {
    hide ReadVarint, EncodeVarint, Delimited, VarintValue, Encode, EncodeVarints, Joined;
    if WireType(b) == 2 {
      var len, s := EncodeVarint(|Content(b)|), pos + |EncodeVarint(|Content(b)|)|;
      LiesSplit(data, pos, len, Content(b));
      ReadsBack(data, pos, |Content(b)|);
      ContentRoundTrip(data, s, b, fd, schema);
    } else if b.Varint? {
      ReadsBack(data, pos, b.n);
    }
  }

  lemma {:induction false} ContentRoundTrip(data: seq<byte>, s: nat, b: Body, fd: Option<Field>, schema: Schema)
    requires WireType(b) == 2 && Fits(b, fd, schema) && Lies(data, s, Content(b))
    ensures Delimited(data, s, s + |Content(b)|, fd, schema) == Got(Meaning(b, fd, schema), s + |Content(b)|)
    decreases b, 0
  {
    hide Decode, Unpack, VarintValues, FixedValues, Joined, EncodeVarints, Encode;
    match b
    case Embedded(m) => RoundTrip(data, s, m, schema[fd.value.ptype], schema, []);
    case PackedVarints(ns) => UnpackVarints(data, s, ns, fd.value.ptype);
    case PackedFixed(raws) => UnpackFixed(data, s, raws, fd.value.ptype);
    case _ =>
  }

  /** The first field's tag reads back, its body lies behind the tag and the other fields behind that. */
  lemma FirstFieldLies(data: seq<byte>, pos: nat, m: Message)
    requires m.Then? && Lies(data, pos, Encode(m))
    ensures var p := pos + |EncodeTag(m.num, m.body)|;
      var q := p + |EncodeBody(m.body)|;
      && pos < p && q + |Encode(m.rest)| == pos + |Encode(m)|
      && ReadVarint(data, pos) == Some(Read(8 * m.num + WireType(m.body), p))
      && Lies(data, p, EncodeBody(m.body))
      && Lies(data, q, Encode(m.rest))
  {
    hide Lies, EncodeBody, ReadVarint;
    var tag, e := EncodeTag(m.num, m.body), EncodeBody(m.body);
    LiesSplit(data, pos, tag + e, Encode(m.rest));
    LiesSplit(data, pos, tag, e);
    ReadsBack(data, pos, 8 * m.num + WireType(m.body));
  }

  lemma TagParts(num: nat, wt: nat)
    requires wt < 8
    ensures (8 * num + wt) / 8 == num && (8 * num + wt) % 8 == wt
  {
  }

  /** A message written anywhere in the data, with whatever may follow it, decodes to what it means. */
  lemma {:induction false} RoundTrip(data: seq<byte>, pos: nat, m: Message, fields: Fields, schema: Schema, out: Record)
    requires AllFit(m, fields, schema) && Lies(data, pos, Encode(m))
    ensures Decode(data, pos, pos + |Encode(m)|, fields, schema, out) == Some(RecordOf(m, fields, schema, out))
    decreases m, 0
  {
    hide Lies, EncodeTag, EncodeBody, ReadVarint, FieldAt, Store, Meaning, WireType;
    match m
    case End =>
    case Then(num, body, rest) =>
      FirstFieldLies(data, pos, m);
      TagParts(num, WireType(body));
      var p, fd := pos + |EncodeTag(num, body)|, Find(fields, num);
      var q := p + |EncodeBody(body)|;
      BodyRoundTrip(data, p, body, fd, schema);
      RoundTrip(data, q, rest, fields, schema, Store(out, num, Meaning(body, fd, schema)));
  }

  // ---- The kind of a written envelope ----------------------------------------------------------------

  /** The first field of the message that is one of `nums`. */
  function FirstField(m: Message, nums: set<nat>): Option<nat> {
    match m
    case End => None
    case Then(num, _, rest) => if num in nums then Some(num) else FirstField(rest, nums)
  }

  lemma {:induction false} FirstOfRecord(m: Message, fields: Fields, schema: Schema, out: Record, nums: set<nat>)
    requires AllFit(m, fields, schema)
    ensures FirstIn(RecordOf(m, fields, schema, out), nums) ==
            if FirstIn(out, nums).Some? then FirstIn(out, nums) else FirstField(m, nums)
    decreases m
  {
    hide Store, FirstIn, Meaning;
    match m
    case End =>
    case Then(num, body, rest) =>
      var s := Meaning(body, Find(fields, num), schema);
      FirstAfterStore(out, num, s, nums);
      FirstOfRecord(rest, fields, schema, Store(out, num, s), nums);
  }

  lemma {:induction false} ScanWritten(data: seq<byte>, pos: nat, m: Message, fields: Fields, schema: Schema,
                                       nums: set<nat>)
    requires AllFit(m, fields, schema) && Lies(data, pos, Encode(m))
    ensures ScanKind(data, pos, pos + |Encode(m)|, nums) == Kind(FirstField(m, nums))
    decreases m
  {
    hide Lies, EncodeTag, EncodeBody, ReadVarint, FieldAt, Skip, Meaning, WireType;
    match m
    case End =>
    case Then(num, body, rest) =>
      FirstFieldLies(data, pos, m);
      TagParts(num, WireType(body));
      var p, fd := pos + |EncodeTag(num, body)|, Find(fields, num);
      var q := p + |EncodeBody(body)|;
      BodyRoundTrip(data, p, body, fd, schema);
      SkipsLikeDecode(data, p, WireType(body), fd, schema);
      ScanWritten(data, q, rest, fields, schema, nums);
  }

  /** On a well-formed envelope the scan names the first payload field written, which is the first that the
      decode stores. */
  lemma KindOfWritten(data: seq<byte>, pos: nat, m: Message, envelope: Fields, schema: Schema)
    requires AllFit(m, envelope, schema) && Lies(data, pos, Encode(m))
    ensures var end, nums := pos + |Encode(m)|, PayloadNums(envelope);
      var decoded := Decode(data, pos, end, envelope, schema, []);
      && decoded == Some(RecordOf(m, envelope, schema, []))
      && ScanKind(data, pos, end, nums) == Kind(FirstIn(decoded.value, nums)) == Kind(FirstField(m, nums))
  {
    RoundTrip(data, pos, m, envelope, schema, []);
    ScanWritten(data, pos, m, envelope, schema, PayloadNums(envelope));
    FirstOfRecord(m, envelope, schema, [], PayloadNums(envelope));
  }

  // ---- A whole recording -----------------------------------------------------------------------------

  function EncodeAll(ms: seq<Message>): (r: seq<seq<byte>>)
    ensures |r| == |ms| && forall i | 0 <= i < |ms| :: r[i] == Encode(ms[i])
  {
    seq(|ms|, i requires 0 <= i < |ms| => Encode(ms[i]))
  }

  lemma EncodedFit(ms: seq<Message>)
    requires forall m | m in ms :: |Encode(m)| < Recording.MAX_ENVELOPE
    ensures Recording.Fit(EncodeAll(ms))
  {
  }

  /** Envelopes written to a file that was then cut off after `k` bytes: the reader finds as many records as
      lie whole in what is left, each decodes in place to what its envelope means, and the scan gives its
      kind. */
  lemma RecordingDecodes(ms: seq<Message>, k: nat, i: nat, envelope: Fields, schema: Schema)
    requires forall m | m in ms :: AllFit(m, envelope, schema) && |Encode(m)| < Recording.MAX_ENVELOPE
    requires k <= |Recording.Framed(EncodeAll(ms))|
    requires i < Recording.WholeWithin(EncodeAll(ms), k)
    ensures var file := Recording.Framed(EncodeAll(ms))[..k];
      var spans := Recording.Spans(file, 0);
      && |spans| == Recording.WholeWithin(EncodeAll(ms), k)
      && Decode(file, spans[i].0, spans[i].1, envelope, schema, []) == Some(RecordOf(ms[i], envelope, schema, []))
      && ScanKind(file, spans[i].0, spans[i].1, PayloadNums(envelope)) ==
         Kind(FirstField(ms[i], PayloadNums(envelope)))
  {
    hide Recording.Framed, Recording.Fit, Recording.Spans, Recording.Contents, Recording.WholeWithin;
    hide Encode, Decode, ScanKind, RecordOf, FirstField, AllFit, PayloadNums, FirstIn;
    var ps := EncodeAll(ms);
    EncodedFit(ms);
    var file := Recording.Framed(ps)[..k];
    var spans := Recording.Spans(file, 0);
    Recording.TruncatedReadBack(ps, k);
    Recording.ContentsAt(file, spans);
    assert Recording.ReadBack(Recording.Framed(ps)[..k])[i] == ps[i];
    KindOfWritten(file, spans[i].0, ms[i], envelope, schema);
  }
}
