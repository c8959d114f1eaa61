/**
 Field descriptors and the structs they describe. A descriptor table holds every message type of a program; a
 field refers to its submessage type by position, so message types may refer to each other in cycles through
 pointers, while a struct that is stored inside another one comes earlier in the table.
 */
module Descriptors {
  import opened Bits
  import opened Wire

  datatype LType =
    | Bool | Varint | UVarint | SVarint | Fixed32 | Fixed64
    | Bytes | String | Submessage | FixedLengthBytes

  datatype HType = Required | Optional | Repeated | Oneof

  datatype AType = Static | Pointer

  /** The value of one C object: an integer or a boolean, a byte string, or a struct. */
  datatype Val = VNone | VInt(i: int) | VBytes(b: bytes) | VMsg(m: Msg)

  /** What a struct holds for one field. The members of a union share the slot of the first of them. */
  datatype Slot =
    | One(v: Val)                 // required, or proto3 without a presence flag
    | Opt(has: bool, v: Val)      // a value and its has_ flag
    | Rep(items: seq<Val>)        // a count and that many entries
    | Union(which: nat, v: Val)   // the tag of the active member, or 0, and its value
    | Joined                      // a further member of a union
    | Null(misread: bool)                 // a pointer to one value; for `misread` see `CanMisread`
    | Ptr(misread: bool, v: Val)

  datatype Msg = Msg(desc: nat, slots: seq<Slot>)

  datatype Field = Field(
    tag: nat,
    ltype: LType,
    htype: HType,
    atype: AType,
    dataOffset: nat,   // from the end of the previous field, or UNION_OFFSET
    sizeOffset: int,   // from the data to its count, flag or which_ field; 0 if it has none
    dataSize: nat,     // of one entry
    arraySize: nat,
    sub: nat,          // descriptor of a submessage
    default: Val)      // initial value of anything else
  {
    predicate Packable() {
      ltype.Bool? || ltype.Varint? || ltype.UVarint? || ltype.SVarint? || ltype.Fixed32? || ltype.Fixed64?
    }

    /** A proto3 field: it is present when it is not zero. */
    predicate Singular() {
      htype.Optional? && atype.Static? && sizeOffset == 0
    }

    function WireType(): nat {
      if ltype.Fixed32? then WT_32BIT
      else if ltype.Fixed64? then WT_64BIT
      else if Packable() then WT_VARINT
      else WT_STRING
    }
  }

  type Desc = seq<Field>

  const SIZE_MAX: nat := TWO_32 - 1       // PB_SIZE_MAX
  const UNION_OFFSET: nat := SIZE_MAX
  const BYTES_HEADER: nat := 4            // offsetof(pb_bytes_array_t, bytes)
  const TAG_LIMIT: nat := 0x2000_0000
  const MAX_REQUIRED_FIELDS: nat := 64
  const POINTER_SIZE: nat := 8

  // ------------------------------------------------------------------ descriptors

  /** Field i is stored in the same union as the field before it. */
  predicate JoinsUnion(fields: Desc, i: nat)
    requires i < |fields|
  {
    i > 0 && fields[i - 1].htype.Oneof? && fields[i].htype.Oneof? && fields[i].dataOffset == UNION_OFFSET
  }

  /** The field whose slot holds the value of field i. */
  function Leader(fields: Desc, i: nat): (l: nat)
    requires i < |fields|
    ensures l <= i
    ensures l == i || (fields[i].htype.Oneof? && fields[l].htype.Oneof?)
    ensures Leader(fields, l) == l
  {
    if JoinsUnion(fields, i) then Leader(fields, i - 1) else i
  }

  /** The position of the field with this tag, or the number of fields. */
  function Find(fields: Desc, tag: nat): (i: nat)
    ensures i <= |fields|
    ensures i < |fields| ==> fields[i].tag == tag
    ensures forall j :: 0 <= j < i ==> fields[j].tag != tag
  {
    if fields == [] || fields[0].tag == tag then 0 else 1 + Find(fields[1..], tag)
  }

  predicate UniqueTags(fields: Desc)
  {
    forall i, j :: 0 <= i < j < |fields| ==> fields[i].tag != fields[j].tag
  }

  lemma FindUnique(fields: Desc, i: nat)
    requires UniqueTags(fields) && i < |fields|
    ensures Find(fields, fields[i].tag) == i
  {}

  /** How many of the first n fields are required. */
  function CountRequired(fields: Desc, n: nat): (c: nat)
    requires n <= |fields|
    ensures c <= n
  {
    if n == 0 then 0
    else CountRequired(fields, n - 1) + if fields[n - 1].htype.Required? then 1 else 0
  }

  lemma {:induction false} CountRequiredMonotone(fields: Desc, i: nat, n: nat)
    requires i <= n <= |fields|
    ensures CountRequired(fields, i) <= CountRequired(fields, n)
    ensures i < n && fields[i].htype.Required? ==> CountRequired(fields, i) < CountRequired(fields, n)
    decreases n
  {
    if i < n {
      CountRequiredMonotone(fields, i, n - 1);
    }
  }

  // ------------------------------------------------------------------ values of C types

  /** A value of the field's own C type, for a field that is not a submessage. */
  predicate TypedScalar(f: Field, v: Val)
  {
    match f.ltype
    case Bool => v.VInt? && 0 <= v.i < 2
    case Varint => v.VInt? && FitsSigned(v.i, f.dataSize)
    case SVarint => v.VInt? && FitsSigned(v.i, f.dataSize)
    case UVarint => v.VInt? && 0 <= v.i < Limit(f.dataSize)
    case Fixed32 => v.VInt? && 0 <= v.i < TWO_32
    case Fixed64 => v.VInt? && 0 <= v.i < TWO_64
    case Bytes => v.VBytes? && |v.b| < TWO_32
    case String => v.VBytes? && 0 !in v.b && (f.atype.Static? ==> |v.b| < f.dataSize)
    case FixedLengthBytes => v.VBytes? && |v.b| == f.dataSize
    case Submessage => false
  }

  function Zeros(n: nat): bytes
  {
    seq(n, _ => 0)
  }

  /** What a field of zero bytes holds. */
  function ZeroScalar(f: Field): Val
  {
    match f.ltype
    case Bytes => VBytes([])
    case String => VBytes([])
    case FixedLengthBytes => VBytes(Zeros(f.dataSize))
    case _ => VInt(0)
  }

  predicate FitsField(f: Field, v: Val)
  {
    f.ltype.Bytes? && f.atype.Static? && v.VBytes? ==> |v.b| + BYTES_HEADER <= f.dataSize
  }

  predicate WfSize(f: Field)
  {
    && f.dataSize < TWO_32 && f.arraySize < SIZE_MAX
    && (f.atype.Pointer? ==> f.dataSize > 0)
    && (f.ltype.Bool? ==> f.dataSize == 1)
    && (f.ltype.Varint? || f.ltype.UVarint? || f.ltype.SVarint? ==> IntSize(f.dataSize))
    && (f.ltype.Fixed32? ==> f.dataSize == 4)
    && (f.ltype.Fixed64? ==> f.dataSize == 8)
  }

  predicate WfField(s: seq<Desc>, d: nat, f: Field)
  {
    && 1 <= f.tag < TAG_LIMIT
    && WfSize(f)
    && (f.ltype.Submessage? ==> f.sub < |s| && (f.atype.Static? ==> f.sub < d))
    && (f.htype.Required? ==> f.sizeOffset == 0)
    && (f.htype.Repeated? ==> f.sizeOffset != 0)
    && (f.htype.Oneof? ==> f.sizeOffset != 0 && f.atype.Static?)
    && (f.htype.Optional? && f.atype.Pointer? ==> f.sizeOffset == 0)
    && (f.atype.Static? && !f.ltype.Submessage? && (f.htype.Required? || f.htype.Optional?) ==>
          TypedScalar(f, f.default) && FitsField(f, f.default))
    && (f.Singular() && !f.ltype.Submessage? ==> f.default == ZeroScalar(f))
  }

  predicate WfDesc(s: seq<Desc>, d: nat)
    requires d < |s|
  {
    UniqueTags(s[d]) && forall i :: 0 <= i < |s[d]| ==> WfField(s, d, s[d][i])
  }

  predicate WfTable(s: seq<Desc>)
  {
    forall d :: 0 <= d < |s| ==> WfDesc(s, d)
  }

  type Schema = s: seq<Desc> | WfTable(s) witness []

  // ------------------------------------------------------------------ typed structs

  predicate TypedVal(schema: Schema, f: Field, v: Val)
    decreases v, 0
  {
    if f.ltype.Submessage? then v.VMsg? && v.m.desc == f.sub && TypedMsg(schema, v.m)
    else TypedScalar(f, v)
  }

  predicate TypedItems(schema: Schema, f: Field, items: seq<Val>)
    decreases items, 1
  {
    forall k :: 0 <= k < |items| ==> TypedVal(schema, f, items[k])
  }

  /**
   The proto3 zero check compares n bytes at the place of a pointer with zero, where n is the size of an entry. These
   can be zero although the pointer is set, if they are not all of its bytes, and otherwise although it is NULL, if
   they are more than those. Whether they are is a fact about the addresses and the memory of the struct, not about
   its data, and only the encoder looks at it: the decoder leaves it open, which is to say false.
   */
  predicate CanMisread(n: nat, isNull: bool)
  {
    if isNull then n > POINTER_SIZE else n < POINTER_SIZE
  }

  /** A slot as the field that uses it sees it. */
  predicate TypedSlot(schema: Schema, f: Field, slot: Slot)
    decreases slot, 2
  {
    if f.htype.Repeated? then slot.Rep? && |slot.items| < TWO_32 && TypedItems(schema, f, slot.items)
    else if f.htype.Oneof? then slot.Union? && (slot.which == f.tag ==> TypedVal(schema, f, slot.v))
    else if f.atype.Pointer? then
      (slot.Null? || (slot.Ptr? && TypedVal(schema, f, slot.v))) && (slot.misread ==> CanMisread(f.dataSize, slot.Null?))
    else if f.htype.Optional? && f.sizeOffset != 0 then slot.Opt? && TypedVal(schema, f, slot.v)
    else slot.One? && TypedVal(schema, f, slot.v)
  }

  /** A union is empty or holds one of its own members. */
  predicate UnionHolds(fields: Desc, l: nat, slot: Slot)
  {
    slot.Union? ==>
      if slot.which == 0 then slot.v.VNone?
      else exists i :: 0 <= i < |fields| && Leader(fields, i) == l && fields[i].tag == slot.which
  }

  predicate TypedField(schema: Schema, fields: Desc, slots: seq<Slot>, i: nat)
    requires i < |fields| == |slots|
    decreases slots, 3
  {
    && TypedSlot(schema, fields[i], slots[Leader(fields, i)])
    && (if Leader(fields, i) == i then UnionHolds(fields, i, slots[i]) && !slots[i].Joined? else slots[i].Joined?)
  }

  predicate TypedMsg(schema: Schema, m: Msg)
    decreases m, 4
  {
    && m.desc < |schema|
    && |m.slots| == |schema[m.desc]|
    && forall i :: 0 <= i < |m.slots| ==> TypedField(schema, schema[m.desc], m.slots, i)
  }

  lemma FieldFacts(schema: Schema, m: Msg, i: nat)
    requires TypedMsg(schema, m) && i < |m.slots|
    ensures UniqueTags(schema[m.desc]) && WfField(schema, m.desc, schema[m.desc][i])
    ensures TypedField(schema, schema[m.desc], m.slots, i)
    ensures TypedSlot(schema, schema[m.desc][i], m.slots[Leader(schema[m.desc], i)])
  {
    assert WfDesc(schema, m.desc);
  }

  // ------------------------------------------------------------------ initial values

  function DefaultVal(schema: Schema, f: Field): Val
    requires f.ltype.Submessage? ==> f.sub < |schema|
    decreases if f.ltype.Submessage? then f.sub + 1 else 0, 3
  {
    if f.ltype.Submessage? then VMsg(Defaults(schema, f.sub)) else f.default
  }

  function DefaultSlot(schema: Schema, d: nat, i: nat): Slot
    requires d < |schema| && i < |schema[d]|
    decreases d + 1, 1
  {
    var f := schema[d][i];
    assert WfDesc(schema, d);
    if f.htype.Repeated? then Rep([])
    else if f.htype.Oneof? then if JoinsUnion(schema[d], i) then Joined else Union(0, VNone)
    else if f.atype.Pointer? then Null(false)
    else if f.htype.Optional? && f.sizeOffset != 0 then Opt(false, DefaultVal(schema, f))
    else One(DefaultVal(schema, f))
  }

  /** A struct after initialization: presence flags off, counts and unions empty, pointers NULL. */
  function Defaults(schema: Schema, d: nat): (m: Msg)
    requires d < |schema|
    ensures m.desc == d && |m.slots| == |schema[d]|
    decreases d + 1, 2
  {
    Msg(d, seq(|schema[d]|, i requires 0 <= i < |schema[d]| => DefaultSlot(schema, d, i)))
  }

  lemma {:induction false} DefaultValTyped(schema: Schema, d: nat, f: Field)
    requires WfField(schema, d, f) && f.atype.Static? && (f.htype.Required? || f.htype.Optional?)
    ensures TypedVal(schema, f, DefaultVal(schema, f))
    decreases if f.ltype.Submessage? then f.sub + 1 else 0, 3
  {
    if f.ltype.Submessage? {
      DefaultsTyped(schema, f.sub);
    }
  }

  lemma {:induction false} DefaultsTyped(schema: Schema, d: nat)
    requires d < |schema|
    ensures TypedMsg(schema, Defaults(schema, d))
    decreases d + 1, 2
  {
    var m := Defaults(schema, d);
    var fields := schema[d];
    assert WfDesc(schema, d);
    forall i | 0 <= i < |fields| ensures TypedField(schema, fields, m.slots, i) {
      var l := Leader(fields, i);
      assert m.slots[l] == DefaultSlot(schema, d, l) && m.slots[i] == DefaultSlot(schema, d, i);
      assert WfField(schema, d, fields[l]);
      if l == i && fields[i].atype.Static? && (fields[i].htype.Required? || fields[i].htype.Optional?) {
        DefaultValTyped(schema, d, fields[i]);
      }
    }
  }
}
