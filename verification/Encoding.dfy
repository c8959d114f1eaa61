/**
 What a message encodes to, as a function of the struct. `Encodable` says when the encoder has no error to
 report other than a full stream.
 */
module Encoding {
  import opened Wire
  import opened Descriptors

  // ------------------------------------------------------------------ the proto3 zero check

  predicate IsZeroVal(schema: Schema, f: Field, v: Val)
    requires TypedVal(schema, f, v)
    decreases v, 0
  {
    match f.ltype
    case Bytes => v.b == []
    case String => v.b == []
    case FixedLengthBytes => f.dataSize == 0
    case Submessage => IsZeroMsg(schema, v.m)
    case _ => v.i == 0
  }

  predicate IsZeroSlot(schema: Schema, f: Field, slot: Slot)
    requires TypedSlot(schema, f, slot)
    decreases slot, 1
  {
    if f.htype.Required? then false
    else if f.htype.Repeated? then slot.items == []
    else if f.htype.Oneof? then slot.which == 0
    else if f.atype.Pointer? then slot.Null? != slot.misread
    else if f.sizeOffset != 0 then !slot.has
    else IsZeroVal(schema, f, slot.v)
  }

  predicate IsZeroField(schema: Schema, m: Msg, i: nat)
    requires TypedMsg(schema, m) && i < |m.slots|
    decreases m, 2
  {
    var fields := schema[m.desc];
    assert TypedField(schema, fields, m.slots, i);
    IsZeroSlot(schema, fields[i], m.slots[Leader(fields, i)])
  }

  predicate IsZeroMsg(schema: Schema, m: Msg)
    requires TypedMsg(schema, m)
    decreases m, 3
  {
    forall i :: 0 <= i < |m.slots| ==> IsZeroField(schema, m, i)
  }

  // ------------------------------------------------------------------ the encoding

  function EncVal(schema: Schema, f: Field, v: Val): bytes
    requires TypedVal(schema, f, v)
    decreases v, 0
  {
    match f.ltype
    case Bool => EncVarint(v.i)
    case Varint => EncVarint(ToUint64(v.i))
    case UVarint => EncVarint(v.i)
    case SVarint => EncVarint(ZigZag(v.i))
    case Fixed32 => EncFixed(4, v.i)
    case Fixed64 => EncFixed(8, v.i)
    case Bytes => EncString(v.b)
    case String => EncString(v.b)
    case FixedLengthBytes => EncString(v.b)
    case Submessage => EncString(EncMsg(schema, v.m))
  }

  /** The entries of a packed array. */
  function EncPacked(schema: Schema, f: Field, items: seq<Val>): bytes
    requires TypedItems(schema, f, items)
    decreases items, 1
  {
    if items == [] then []
    else
      var n := |items| - 1;
      EncPacked(schema, f, items[..n]) + EncVal(schema, f, items[n])
  }

  function EncTagged(schema: Schema, f: Field, v: Val): (s: bytes)
    requires TypedVal(schema, f, v)
    ensures |s| > 0
    decreases v, 1
  {
    EncTag(f.WireType(), f.tag) + EncVal(schema, f, v)
  }

  /** The entries of an array that is not packed, each with its tag. */
  function EncUnpacked(schema: Schema, f: Field, items: seq<Val>): bytes
    requires TypedItems(schema, f, items)
    decreases items, 1
  {
    if items == [] then []
    else
      var n := |items| - 1;
      EncUnpacked(schema, f, items[..n]) + EncTagged(schema, f, items[n])
  }

  function EncArray(schema: Schema, f: Field, items: seq<Val>): bytes
    requires TypedItems(schema, f, items)
    decreases items, 2
  {
    if items == [] then []
    else if f.Packable() then EncTag(WT_STRING, f.tag) + EncString(EncPacked(schema, f, items))
    else EncUnpacked(schema, f, items)
  }

  /** A field that is not repeated is written when this holds. */
  predicate Present(schema: Schema, f: Field, slot: Slot)
    requires TypedSlot(schema, f, slot) && !f.htype.Repeated?
  {
    if f.htype.Oneof? then slot.which == f.tag
    else if f.atype.Pointer? then slot.Ptr?
    else if f.htype.Required? then true
    else if f.sizeOffset != 0 then slot.has
    else !IsZeroVal(schema, f, slot.v)
  }

  function EncSlot(schema: Schema, f: Field, slot: Slot): bytes
    requires TypedSlot(schema, f, slot)
    decreases slot, 3
  {
    if f.htype.Repeated? then EncArray(schema, f, slot.items)
    else if Present(schema, f, slot) then EncTagged(schema, f, slot.v)
    else []
  }

  function EncField(schema: Schema, m: Msg, i: nat): bytes
    requires TypedMsg(schema, m) && i < |m.slots|
    decreases m, 4
  {
    var fields := schema[m.desc];
    assert TypedField(schema, fields, m.slots, i);
    EncSlot(schema, fields[i], m.slots[Leader(fields, i)])
  }

  /** The first n fields. */
  function EncFields(schema: Schema, m: Msg, n: nat): bytes
    requires TypedMsg(schema, m) && n <= |m.slots|
    decreases m, 5, n
  {
    if n == 0 then [] else EncFields(schema, m, n - 1) + EncField(schema, m, n - 1)
  }

  function EncMsg(schema: Schema, m: Msg): bytes
    requires TypedMsg(schema, m)
    decreases m, 6
  {
    EncFields(schema, m, |m.slots|)
  }

  // ------------------------------------------------------------------ the encoder's errors

  predicate EncodableVal(schema: Schema, f: Field, v: Val)
    requires TypedVal(schema, f, v)
    decreases v, 0
  {
    if f.ltype.Submessage? then EncodableMsg(schema, v.m) else FitsField(f, v)
  }

  predicate EncodableItems(schema: Schema, f: Field, items: seq<Val>)
    requires TypedItems(schema, f, items)
    decreases items, 1
  {
    forall k :: 0 <= k < |items| ==> EncodableVal(schema, f, items[k])
  }

  /** An array must not exceed its declared size and a required pointer must not be NULL. */
  predicate EncodableSlot(schema: Schema, f: Field, slot: Slot)
    requires TypedSlot(schema, f, slot)
    decreases slot, 2
  {
    if f.htype.Repeated? then
      (f.atype.Static? ==> |slot.items| <= f.arraySize) && EncodableItems(schema, f, slot.items)
    else if Present(schema, f, slot) then EncodableVal(schema, f, slot.v)
    else !f.htype.Required?
  }

  predicate EncodableField(schema: Schema, m: Msg, i: nat)
    requires TypedMsg(schema, m) && i < |m.slots|
    decreases m, 3
  {
    var fields := schema[m.desc];
    assert TypedField(schema, fields, m.slots, i);
    EncodableSlot(schema, fields[i], m.slots[Leader(fields, i)])
  }

  predicate EncodableFields(schema: Schema, m: Msg, n: nat)
    requires TypedMsg(schema, m) && n <= |m.slots|
    decreases m, 4, n
  {
    n > 0 ==> EncodableFields(schema, m, n - 1) && EncodableField(schema, m, n - 1)
  }

  predicate EncodableMsg(schema: Schema, m: Msg)
    requires TypedMsg(schema, m)
    decreases m, 5
  {
    EncodableFields(schema, m, |m.slots|)
  }

  lemma {:induction false} EncodableEach(schema: Schema, m: Msg, i: nat, n: nat)
    requires TypedMsg(schema, m) && i < n <= |m.slots| && EncodableFields(schema, m, n)
    ensures EncodableField(schema, m, i)
    decreases n
  {
    if i < n - 1 {
      EncodableEach(schema, m, i, n - 1);
    }
  }
}
