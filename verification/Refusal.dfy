/**
 When the encoder has an error to report other than a full stream, and on which tables it never has one.
 */
module Refusal {
  import opened Descriptors
  import opened Encoding

  // ------------------------------------------------------------------ refused structs

  /** A byte array in a static field, with its header of four bytes, is larger than the field. */
  predicate RefusedVal(schema: Schema, f: Field, v: Val)
    requires TypedVal(schema, f, v)
    decreases v, 0
  {
    if f.ltype.Submessage? then Refused(schema, v.m) else f.ltype.Bytes? && f.atype.Static? && |v.b| + 4 > f.dataSize
  }

  predicate RefusedItems(schema: Schema, f: Field, items: seq<Val>)
    requires TypedItems(schema, f, items)
    decreases items, 1
  {
    exists k :: 0 <= k < |items| && RefusedVal(schema, f, items[k])
  }

  /** A static array holds more than its declared entries, a required pointer is NULL, or a written value is refused. */
  predicate RefusedSlot(schema: Schema, f: Field, slot: Slot)
    requires TypedSlot(schema, f, slot)
    decreases slot, 2
  {
    if f.htype.Repeated? then
      (f.atype.Static? && |slot.items| > f.arraySize) || RefusedItems(schema, f, slot.items)
    else if EncSlot(schema, f, slot) != [] then
      WrittenTyped(schema, f, slot);
      RefusedVal(schema, f, slot.v)
    else f.htype.Required? && f.atype.Pointer?
  }

  predicate RefusedField(schema: Schema, m: Msg, i: nat)
    requires TypedMsg(schema, m) && i < |m.slots|
    decreases m, 3
  {
    FieldFacts(schema, m, i);
    RefusedSlot(schema, schema[m.desc][i], m.slots[Leader(schema[m.desc], i)])
  }

  /** Some field of the struct, or of a struct that is written in it, at any depth, is refused. */
  predicate Refused(schema: Schema, m: Msg)
    requires TypedMsg(schema, m)
    decreases m, 4
  {
    exists i :: 0 <= i < |m.slots| && RefusedField(schema, m, i)
  }

  lemma WrittenTyped(schema: Schema, f: Field, slot: Slot)
    requires TypedSlot(schema, f, slot) && !f.htype.Repeated?
    ensures EncSlot(schema, f, slot) != [] <==> Present(schema, f, slot)
    ensures EncSlot(schema, f, slot) != [] ==>
              (slot.One? || slot.Opt? || slot.Union? || slot.Ptr?) && TypedVal(schema, f, slot.v) && slot.v < slot
  {}

  lemma {:induction false} EncodableExactlyVal(schema: Schema, f: Field, v: Val)
    requires TypedVal(schema, f, v)
    ensures EncodableVal(schema, f, v) <==> !RefusedVal(schema, f, v)
    decreases v, 0
  {
    if f.ltype.Submessage? {
      EncodableExactly(schema, v.m);
    }
  }

  lemma {:induction false} EncodableExactlySlot(schema: Schema, f: Field, slot: Slot)
    requires TypedSlot(schema, f, slot) && (f.htype.Oneof? ==> f.atype.Static?)
    ensures EncodableSlot(schema, f, slot) <==> !RefusedSlot(schema, f, slot)
    decreases slot, 1
  {
    if f.htype.Repeated? {
      forall k | 0 <= k < |slot.items|
        ensures EncodableVal(schema, f, slot.items[k]) <==> !RefusedVal(schema, f, slot.items[k])
      {
        EncodableExactlyVal(schema, f, slot.items[k]);
      }
    } else {
      WrittenTyped(schema, f, slot);
      if EncSlot(schema, f, slot) != [] {
        EncodableExactlyVal(schema, f, slot.v);
      }
    }
  }

  lemma {:induction false} EncodableExactlyField(schema: Schema, m: Msg, i: nat)
    requires TypedMsg(schema, m) && i < |m.slots|
    ensures EncodableField(schema, m, i) <==> !RefusedField(schema, m, i)
    decreases m, 2
  {
    FieldFacts(schema, m, i);
    EncodableExactlySlot(schema, schema[m.desc][i], m.slots[Leader(schema[m.desc], i)]);
  }

  /** The encoder has an error to report exactly for these structs. */
  lemma {:induction false} EncodableExactly(schema: Schema, m: Msg)
    requires TypedMsg(schema, m)
    ensures EncodableMsg(schema, m) <==> !Refused(schema, m)
    decreases m, 3
  {
    forall i | 0 <= i < |m.slots| ensures EncodableField(schema, m, i) <==> !RefusedField(schema, m, i) {
      EncodableExactlyField(schema, m, i);
    }
    if EncodableMsg(schema, m) {
      forall i | 0 <= i < |m.slots| ensures EncodableField(schema, m, i) {
        EncodableEach(schema, m, i, |m.slots|);
      }
    } else {
      var i := NotEncodable(schema, m, |m.slots|);
      assert RefusedField(schema, m, i);
    }
  }

  lemma {:induction false} NotEncodable(schema: Schema, m: Msg, n: nat) returns (i: nat)
    requires TypedMsg(schema, m) && n <= |m.slots| && !EncodableFields(schema, m, n)
    ensures i < n && !EncodableField(schema, m, i)
  {
    if EncodableFields(schema, m, n - 1) {
      i := n - 1;
    } else {
      i := NotEncodable(schema, m, n - 1);
    }
  }

  // ------------------------------------------------------------------ tables on which nothing is refused

  /** No array, byte array or required pointer of this kind. */
  predicate NeverRefuses(f: Field)
  {
    && (f.atype.Static? ==> !f.htype.Repeated? && !f.ltype.Bytes?)
    && (f.atype.Pointer? ==> !f.htype.Required?)
  }

  predicate NeverRefusing(s: seq<Desc>)
  {
    forall d, i :: 0 <= d < |s| && 0 <= i < |s[d]| ==> NeverRefuses(s[d][i])
  }

  type HeapSchema = s: Schema | NeverRefusing(s) witness []

  lemma {:induction false} NothingRefusedVal(schema: HeapSchema, f: Field, v: Val)
    requires TypedVal(schema, f, v) && NeverRefuses(f)
    ensures EncodableVal(schema, f, v)
    decreases v, 0
  {
    if f.ltype.Submessage? {
      NothingRefused(schema, v.m);
    }
  }

  lemma {:induction false} NothingRefusedSlot(schema: HeapSchema, f: Field, slot: Slot)
    requires TypedSlot(schema, f, slot) && NeverRefuses(f)
    ensures EncodableSlot(schema, f, slot)
    decreases slot, 1
  {
    if f.htype.Repeated? {
      forall k | 0 <= k < |slot.items| ensures EncodableVal(schema, f, slot.items[k]) {
        NothingRefusedVal(schema, f, slot.items[k]);
      }
    } else if Present(schema, f, slot) {
      NothingRefusedVal(schema, f, slot.v);
    }
  }

  lemma {:induction false} NothingRefusedTo(schema: HeapSchema, m: Msg, n: nat)
    requires TypedMsg(schema, m) && n <= |m.slots|
    ensures EncodableFields(schema, m, n)
    decreases m, 2, n
  {
    if n > 0 {
      NothingRefusedTo(schema, m, n - 1);
      FieldFacts(schema, m, n - 1);
      assert NeverRefuses(schema[m.desc][n - 1]);
      NothingRefusedSlot(schema, schema[m.desc][n - 1], m.slots[Leader(schema[m.desc], n - 1)]);
    }
  }

  /** Arrays and byte arrays on the heap, of any length, and no required pointers: every struct is accepted. */
  lemma {:induction false} NothingRefused(schema: HeapSchema, m: Msg)
    requires TypedMsg(schema, m)
    ensures EncodableMsg(schema, m)
    decreases m, 3
  {
    NothingRefusedTo(schema, m, |m.slots|);
  }
}
