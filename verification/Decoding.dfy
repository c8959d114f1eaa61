/**
 What a byte string decodes to, as a function of the bytes and of the struct that receives the fields.
 */
module Decoding {
  import opened Bits
  import opened Wire
  import opened Scalars
  import opened Descriptors

  // ------------------------------------------------------------------ single values

  /** The part of a byte string that C reads as a string. */
  function UpToNul(b: bytes): (s: bytes)
    ensures 0 !in s && |s| <= |b|
  {
    if b == [] || b[0] == 0 then [] else [b[0]] + UpToNul(b[1..])
  }

  function DecSize(f: Field, s: bytes, overhead: nat): (r: Parsed<bytes>)
    ensures r.Ok? ==> |r.rest| < |s| && |r.value| < TWO_32
    ensures r.Ok? && f.atype.Static? ==> |r.value| + overhead <= f.dataSize
    ensures r.Ok? ==> |r.value| + |r.rest| < |s|
  {
    var (n, rest) :- DecVarint32(s);
    if f.atype.Static? && n + overhead > f.dataSize then Fail else Take(n, rest)
  }

  function DecScalar(f: Field, s: bytes): (r: Parsed<Val>)
    requires !f.ltype.Submessage? && WfSize(f)
    ensures r.Ok? ==> |r.rest| < |s| && TypedScalar(f, r.value) && FitsField(f, r.value)
  {
    match f.ltype
    case Bool =>
      var (v, rest) :- DecVarint32(s);
      Ok(VInt(if v != 0 then 1 else 0), rest)
    case Varint =>
      // fields of 32 bits or less are cast to int32 first
      var (v, rest) :- DecVarint(s);
      var i := ToSigned(v, if f.dataSize == 8 then 8 else 4);
      if FitsSigned(i, f.dataSize) then Ok(VInt(i), rest) else Fail
    case UVarint =>
      var (v, rest) :- DecVarint(s);
      if v < Limit(f.dataSize) then Ok(VInt(v), rest) else Fail
    case SVarint =>
      var (v, rest) :- DecVarint(s);
      if FitsSigned(UnZigZag(v), f.dataSize) then Ok(VInt(UnZigZag(v)), rest) else Fail
    case Fixed32 =>
      var (b, rest) :- Take(4, s);
      FixedRange(b);
      Ok(VInt(FixedValue(b)), rest)
    case Fixed64 =>
      var (b, rest) :- Take(8, s);
      FixedRange(b);
      Ok(VInt(FixedValue(b)), rest)
    case Bytes =>
      var (b, rest) :- DecSize(f, s, BYTES_HEADER);
      Ok(VBytes(b), rest)
    case String =>
      var (b, rest) :- DecSize(f, s, 1);
      if |b| == SIZE_MAX then Fail else Ok(VBytes(UpToNul(b)), rest)
    case FixedLengthBytes =>
      var (n, rest) :- DecVarint32(s);
      if n == 0 then Ok(VBytes(Zeros(f.dataSize)), rest)
      else if n != f.dataSize then Fail
      else
        var (b, rest') :- Take(n, rest);
        Ok(VBytes(b), rest')
  }

  lemma FixedRange(b: bytes)
    ensures |b| == 4 ==> FixedValue(b) < TWO_32
    ensures |b| == 8 ==> FixedValue(b) < TWO_64
  {
    FixedBounded(b);
    Powers();
  }

  /** The entries of a packed array, until the bytes run out or the array is full. */
  function DecPacked(f: Field, p: bytes, items: seq<Val>, cap: nat): (r: Parsed<seq<Val>>)
    requires f.Packable() && WfSize(f)
    decreases |p|
  {
    if p == [] then Ok(items, [])
    else if |items| >= cap then Fail
    else
      var (v, rest) :- DecScalar(f, p);
      DecPacked(f, rest, items + [v], cap)
  }

  /** What is decoded extends the entries so far by values of the field, up to the size of the array. */
  lemma {:induction false} DecPackedFacts(f: Field, p: bytes, items: seq<Val>, cap: nat)
    requires f.Packable() && WfSize(f)
    ensures var r := DecPacked(f, p, items, cap);
            r.Ok? ==>
              && r.rest == [] && items <= r.value && (|items| <= cap || p != [] ==> |r.value| <= cap)
              && forall k :: |items| <= k < |r.value| ==> TypedScalar(f, r.value[k])
    decreases |p|
  {
    if p != [] && |items| < cap && DecScalar(f, p).Ok? {
      var (v, rest) := DecScalar(f, p).Extract();
      DecPackedFacts(f, rest, items + [v], cap);
    }
  }

  // ------------------------------------------------------------------ messages

  /** The struct that a submessage is read into when it has to be initialized first. */
  function FreshVal(schema: Schema, f: Field): (v: Val)
    requires f.ltype.Submessage? ==> f.sub < |schema|
    ensures f.ltype.Submessage? ==> TypedVal(schema, f, v)
  {
    if f.ltype.Submessage? then
      DefaultsTyped(schema, f.sub);
      VMsg(Defaults(schema, f.sub))
    else VNone
  }

  function DecVal(schema: Schema, f: Field, s: bytes, old': Val): (r: Parsed<Val>)
    requires WfSize(f) && (f.ltype.Submessage? ==> TypedVal(schema, f, old'))
    ensures r.Ok? ==> |r.rest| < |s| && TypedVal(schema, f, r.value)
    decreases |s|, 1
  {
    if f.ltype.Submessage? then
      var (p, rest) :- DecString(s);
      var (m, _) :- DecMsg(schema, p, old'.m);
      Ok(VMsg(m), rest)
    else DecScalar(f, s)
  }

  lemma TypedItemsAppend(schema: Schema, f: Field, items: seq<Val>, v: Val)
    requires TypedItems(schema, f, items) && TypedVal(schema, f, v)
    ensures TypedItems(schema, f, items + [v])
  {}

  lemma TypedItemsExtend(schema: Schema, f: Field, items: seq<Val>, more: seq<Val>)
    requires !f.ltype.Submessage? && TypedItems(schema, f, items)
    requires |items| <= |more| && more[..|items|] == items
    requires forall k :: |items| <= k < |more| ==> TypedScalar(f, more[k])
    ensures TypedItems(schema, f, more)
  {
    forall k | 0 <= k < |more| ensures TypedVal(schema, f, more[k]) {
      if k < |items| {
        assert more[k] == items[k];
      }
    }
  }

  function Capacity(f: Field): nat
  {
    if f.atype.Static? then f.arraySize else SIZE_MAX
  }

  function DecSlot(schema: Schema, f: Field, wireType: nat, s: bytes, slot: Slot): (r: Parsed<Slot>)
    requires WfSize(f) && (f.ltype.Submessage? ==> f.sub < |schema|)
    requires TypedSlot(schema, f, slot)
    ensures r.Ok? ==> |r.rest| < |s| && TypedSlot(schema, f, r.value)
    ensures r.Ok? && f.htype.Oneof? ==> r.value.which == f.tag
    ensures r.Ok? && f.htype.Repeated? && |slot.items| <= Capacity(f) ==> |r.value.items| <= Capacity(f)
    decreases |s|, 2
  {
    if f.htype.Repeated? then
      if wireType == WT_STRING && f.Packable() then
        var (p, rest) :- DecString(s);
        var (items, _) :- DecPacked(f, p, slot.items, Capacity(f));
        DecPackedFacts(f, p, slot.items, Capacity(f));
        TypedItemsExtend(schema, f, slot.items, items);
        Ok(Rep(items), rest)
      else if |slot.items| >= Capacity(f) then Fail
      else
        var (v, rest) :- DecVal(schema, f, s, FreshVal(schema, f));
        TypedItemsAppend(schema, f, slot.items, v);
        Ok(Rep(slot.items + [v]), rest)
    else if f.htype.Oneof? then
      var (v, rest) :- DecVal(schema, f, s, FreshVal(schema, f));
      Ok(Union(f.tag, v), rest)
    else if f.atype.Pointer? then
      var (v, rest) :- DecVal(schema, f, s, FreshVal(schema, f));
      Ok(Ptr(false, v), rest)
    else if f.htype.Optional? && f.sizeOffset != 0 then
      var (v, rest) :- DecVal(schema, f, s, slot.v);
      Ok(Opt(true, v), rest)
    else
      var (v, rest) :- DecVal(schema, f, s, slot.v);
      Ok(One(v), rest)
  }

  /** What the value of a field that is not repeated is read into. */
  function Target(schema: Schema, f: Field, slot: Slot): (v: Val)
    requires !f.htype.Repeated? && (f.ltype.Submessage? ==> f.sub < |schema|) && TypedSlot(schema, f, slot)
    ensures f.ltype.Submessage? ==> TypedVal(schema, f, v)
  {
    if f.htype.Oneof? || f.atype.Pointer? then FreshVal(schema, f) else slot.v
  }

  function SlotWith(f: Field, v: Val): Slot
  {
    if f.htype.Oneof? then Union(f.tag, v)
    else if f.atype.Pointer? then Ptr(false, v)
    else if f.htype.Optional? && f.sizeOffset != 0 then Opt(true, v)
    else One(v)
  }

  lemma SlotOfValue(schema: Schema, f: Field, wireType: nat, s: bytes, slot: Slot)
    requires WfSize(f) && !f.htype.Repeated? && (f.ltype.Submessage? ==> f.sub < |schema|) && TypedSlot(schema, f, slot)
    ensures DecSlot(schema, f, wireType, s, slot) ==
            match DecVal(schema, f, s, Target(schema, f, slot))
            case Fail => Fail
            case Ok(v, rest) => Ok(SlotWith(f, v), rest)
  {}

  /** A run of the field loop. `stopped` says that it met a tag of zero, which ends a message. */
  datatype Run = Failed | Done(m: Msg, seen: set<nat>, rest: bytes, stopped: bool)

  function Update(schema: Schema, m: Msg, i: nat, slot: Slot): (m': Msg)
    requires TypedMsg(schema, m) && i < |m.slots|
  {
    m.(slots := m.slots[Leader(schema[m.desc], i) := slot])
  }

  lemma UpdateTyped(schema: Schema, m: Msg, i: nat, slot: Slot)
    requires TypedMsg(schema, m) && i < |m.slots|
    requires TypedSlot(schema, schema[m.desc][i], slot)
    requires schema[m.desc][i].htype.Oneof? ==> slot.which == schema[m.desc][i].tag
    ensures TypedMsg(schema, Update(schema, m, i, slot))
  {
    var fields := schema[m.desc];
    var l := Leader(fields, i);
    var m' := Update(schema, m, i, slot);
    assert WfDesc(schema, m.desc);
    forall j | 0 <= j < |fields| ensures TypedField(schema, fields, m'.slots, j) {
      assert TypedField(schema, fields, m.slots, j);
      if Leader(fields, j) == l && j != i && fields[i].htype.Oneof? {
        assert fields[j].tag != fields[i].tag;
      }
    }
  }

  /** The required fields are numbered in order, and the first 64 of them are checked. */
  function See(fields: Desc, seen: set<nat>, i: nat): set<nat>
    requires i < |fields|
  {
    var k := CountRequired(fields, i);
    if fields[i].htype.Required? && k < MAX_REQUIRED_FIELDS then seen + {k} else seen
  }

  predicate AllSeen(fields: Desc, seen: set<nat>)
  {
    forall k :: 0 <= k < CountRequired(fields, |fields|) && k < MAX_REQUIRED_FIELDS ==> k in seen
  }

  function DecRun(schema: Schema, s: bytes, m: Msg, seen: set<nat>): (r: Run)
    requires TypedMsg(schema, m)
    ensures r.Done? ==> |r.rest| <= |s| && TypedMsg(schema, r.m) && r.m.desc == m.desc
    ensures r.Done? && !r.stopped ==> r.rest == []
    decreases |s|, 3
  {
    if s == [] then Done(m, seen, [], false)
    else
      match DecVarint32(s)
      case Fail => Failed
      case Ok(tag, rest) =>
        if tag == 0 then Done(m, seen, rest, true)
        else
          var fields := schema[m.desc];
          var i := Find(fields, tag / 8);
          if i == |fields| then
            match SkipUnknown(fields, tag / 8, tag % 8, rest)
            case Fail => Failed
            case Ok(_, rest') => DecRun(schema, rest', m, seen)
          else
            assert WfDesc(schema, m.desc) && WfField(schema, m.desc, fields[i]);
            assert TypedField(schema, fields, m.slots, i);
            match DecSlot(schema, fields[i], tag % 8, rest, m.slots[Leader(fields, i)])
            case Fail => Failed
            case Ok(slot, rest') =>
              UpdateTyped(schema, m, i, slot);
              DecRun(schema, rest', Update(schema, m, i, slot), See(fields, seen, i))
  }

  /**
   A field that the message does not have is skipped. In a message type with no fields at all, number 0
   matches the end marker of the descriptor, which reads as a boolean whatever the wire type.
   */
  function SkipUnknown(fields: Desc, number: nat, wireType: nat, s: bytes): (r: Parsed<()>)
    ensures r.Ok? ==> |r.rest| < |s|
  {
    if fields == [] && number == 0 then
      var (v, rest) :- DecVarint32(s);
      Ok((), rest)
    else Skip(wireType, s)
  }

  /** Reading fields into a struct, without initializing it. */
  function DecMsg(schema: Schema, s: bytes, m: Msg): (r: Parsed<Msg>)
    requires TypedMsg(schema, m)
    ensures r.Ok? ==> |r.rest| <= |s| && TypedMsg(schema, r.value) && r.value.desc == m.desc
    decreases |s|, 4
  {
    match DecRun(schema, s, m, {})
    case Failed => Fail
    case Done(m', seen, rest, _) => if AllSeen(schema[m.desc], seen) then Ok(m', rest) else Fail
  }

  /** Reading a message into a struct that is initialized first. */
  function Decode(schema: Schema, d: nat, s: bytes): (r: Parsed<Msg>)
    requires d < |schema|
    ensures r.Ok? ==> |r.rest| <= |s| && TypedMsg(schema, r.value) && r.value.desc == d
  {
    DefaultsTyped(schema, d);
    DecMsg(schema, s, Defaults(schema, d))
  }

  function DecDelimited(schema: Schema, d: nat, s: bytes): Parsed<Msg>
    requires d < |schema|
  {
    var (p, rest) :- DecString(s);
    var (m, _) :- Decode(schema, d, p);
    Ok(m, rest)
  }
}
