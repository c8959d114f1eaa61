/**
 What the encoder leaves out. A field is written or not by the value that its slot holds, which is given here case by
 case, and a proto3 value is left out exactly when it is zero throughout.
 */
module Presence {
  import opened Descriptors
  import opened Encoding

  // ------------------------------------------------------------------ zero throughout

  predicate BlankVal(schema: Schema, v: Val)
    decreases v, 0
  {
    match v
    case VInt(i) => i == 0
    case VBytes(b) => b == []
    case VMsg(m) => m.desc < |schema| && BlankMsg(schema, m)
    case VNone => false
  }

  /** A field of a submessage that the zero check passes: see `Descriptors.CanMisread` for pointers. */
  predicate BlankSlot(schema: Schema, f: Field, slot: Slot)
    decreases slot, 1
  {
    && !f.htype.Required?
    && match slot
       case Rep(items) => items == []
       case Union(which, _) => which == 0
       case Null(misread) => !misread
       case Ptr(misread, _) => misread
       case Opt(has, _) => !has
       case One(v) => BlankVal(schema, v)
       case Joined => true
  }

  predicate BlankMsg(schema: Schema, m: Msg)
    requires m.desc < |schema|
    decreases m, 2
  {
    forall i :: 0 <= i < |m.slots| && i < |schema[m.desc]| ==> BlankSlot(schema, schema[m.desc][i], m.slots[i])
  }

  lemma {:induction false} ZeroIsBlankVal(schema: Schema, f: Field, v: Val)
    requires TypedVal(schema, f, v)
    ensures IsZeroVal(schema, f, v) <==> BlankVal(schema, v)
    decreases v, 0
  {
    if f.ltype.Submessage? {
      ZeroIsBlank(schema, v.m);
    } else if f.ltype.FixedLengthBytes? {
      assert v.b == [] <==> |v.b| == 0;
    }
  }

  lemma {:induction false} ZeroIsBlankField(schema: Schema, m: Msg, i: nat)
    requires TypedMsg(schema, m) && i < |m.slots|
    ensures !m.slots[i].Joined? ==> (IsZeroField(schema, m, i) <==> BlankSlot(schema, schema[m.desc][i], m.slots[i]))
    ensures m.slots[i].Joined? ==>
              schema[m.desc][i].htype.Oneof? && BlankSlot(schema, schema[m.desc][i], m.slots[i])
    ensures m.slots[i].Joined? ==> (IsZeroField(schema, m, i) <==> IsZeroField(schema, m, Leader(schema[m.desc], i)))
    decreases m, 1
  {
    var fields := schema[m.desc];
    FieldFacts(schema, m, i);
    FieldFacts(schema, m, Leader(fields, i));
    if fields[i].Singular() {
      ZeroIsBlankVal(schema, fields[i], m.slots[i].v);
    }
  }

  /** The zero check calls a struct empty exactly when it is zero throughout. */
  lemma {:induction false} ZeroIsBlank(schema: Schema, m: Msg)
    requires TypedMsg(schema, m)
    ensures IsZeroMsg(schema, m) <==> BlankMsg(schema, m)
    decreases m, 2
  {
    forall i | 0 <= i < |m.slots|
      ensures !m.slots[i].Joined? ==> (IsZeroField(schema, m, i) <==> BlankSlot(schema, schema[m.desc][i], m.slots[i]))
    {
      ZeroIsBlankField(schema, m, i);
    }
    if BlankMsg(schema, m) {
      forall i | 0 <= i < |m.slots| ensures IsZeroField(schema, m, i) {
        ZeroIsBlankField(schema, m, i);
        assert BlankSlot(schema, schema[m.desc][i], m.slots[i]);
        var l := Leader(schema[m.desc], i);
        FieldFacts(schema, m, l);
        assert BlankSlot(schema, schema[m.desc][l], m.slots[l]);
      }
    } else {
      var i :| 0 <= i < |m.slots| && !BlankSlot(schema, schema[m.desc][i], m.slots[i]);
      ZeroIsBlankField(schema, m, i);
      assert !IsZeroField(schema, m, i);
    }
  }

  // ------------------------------------------------------------------ what is written

  /** Which slots of which fields put nothing on the wire. */
  predicate LeftOut(schema: Schema, f: Field, slot: Slot)
  {
    match slot
    case Rep(items) => items == []
    case Union(which, _) => which != f.tag
    case Null(_) => true
    case Ptr(_, _) => false
    case Opt(has, _) => !has
    case One(v) => !f.htype.Required? && BlankVal(schema, v)
    case Joined => true
  }

  lemma LeftOutExactly(schema: Schema, d: nat, f: Field, slot: Slot)
    requires WfField(schema, d, f) && TypedSlot(schema, f, slot)
    ensures EncSlot(schema, f, slot) == [] <==> LeftOut(schema, f, slot)
    ensures !f.htype.Repeated? && !LeftOut(schema, f, slot) ==>
              && (slot.One? || slot.Opt? || slot.Union? || slot.Ptr?) && TypedVal(schema, f, slot.v)
              && EncSlot(schema, f, slot) == EncTagged(schema, f, slot.v)
  {
    if f.htype.Repeated? {
      ArrayWritten(schema, f, slot.items);
    } else if f.Singular() {
      ZeroIsBlankVal(schema, f, slot.v);
    }
  }

  lemma ArrayWritten(schema: Schema, f: Field, items: seq<Val>)
    requires TypedItems(schema, f, items)
    ensures EncArray(schema, f, items) == [] <==> items == []
  {
    if items != [] && !f.Packable() {
      assert EncUnpacked(schema, f, items) != [];
    }
  }

  /** So a proto3 integer, boolean, string or byte array is written exactly when it is not zero or empty. */
  lemma ScalarWritten(schema: Schema, d: nat, f: Field, v: Val)
    requires WfField(schema, d, f) && f.htype.Optional? && f.atype.Static? && f.sizeOffset == 0
    requires !f.ltype.Submessage? && TypedSlot(schema, f, One(v))
    ensures EncSlot(schema, f, One(v)) == [] <==> v == VInt(0) || v == VBytes([])
  {
    LeftOutExactly(schema, d, f, One(v));
  }

  // ------------------------------------------------------------------ initial structs

  /** A proto3 field of this type is blank when it is initialized. */
  predicate StartsBlank(schema: Schema, f: Field)
    requires f.ltype.Submessage? ==> f.sub < |schema|
    decreases if f.ltype.Submessage? then f.sub + 1 else 0, 3
  {
    && (f.ltype.FixedLengthBytes? ==> f.dataSize == 0)
    && (f.ltype.Submessage? ==> AllBlank(schema, f.sub))
  }

  predicate AllBlank(schema: Schema, d: nat)
    requires d < |schema|
    decreases d + 1, 2
  {
    forall i :: 0 <= i < |schema[d]| ==> StaysBlank(schema, d, i)
  }

  predicate StaysBlank(schema: Schema, d: nat, i: nat)
    requires d < |schema| && i < |schema[d]|
    decreases d + 1, 1
  {
    var f := schema[d][i];
    assert WfDesc(schema, d) && WfField(schema, d, f);
    !f.htype.Required? && (f.Singular() ==> StartsBlank(schema, f))
  }

  lemma {:induction false} InitialBlankVal(schema: Schema, d: nat, f: Field)
    requires WfField(schema, d, f) && f.Singular()
    ensures BlankVal(schema, DefaultVal(schema, f)) <==> StartsBlank(schema, f)
    decreases if f.ltype.Submessage? then f.sub + 1 else 0, 5
  {
    if f.ltype.Submessage? {
      var m := Defaults(schema, f.sub);
      InitialBlank(schema, f.sub);
      assert DefaultVal(schema, f) == VMsg(m);
      assert BlankVal(schema, VMsg(m)) <==> BlankMsg(schema, m);
    } else if f.ltype.FixedLengthBytes? {
      assert |Zeros(f.dataSize)| == f.dataSize;
    }
  }

  lemma {:induction false} InitialBlankSlot(schema: Schema, d: nat, i: nat)
    requires d < |schema| && i < |schema[d]|
    ensures BlankSlot(schema, schema[d][i], DefaultSlot(schema, d, i)) <==> StaysBlank(schema, d, i)
    decreases d + 1, 3
  {
    assert WfDesc(schema, d) && WfField(schema, d, schema[d][i]);
    if schema[d][i].Singular() {
      InitialBlankVal(schema, d, schema[d][i]);
    }
  }

  lemma {:induction false} InitialBlank(schema: Schema, d: nat)
    requires d < |schema|
    ensures BlankMsg(schema, Defaults(schema, d)) <==> AllBlank(schema, d)
    decreases d + 1, 4
  {
    var m := Defaults(schema, d);
    forall i | 0 <= i < |schema[d]|
      ensures BlankSlot(schema, schema[d][i], m.slots[i]) <==> StaysBlank(schema, d, i)
    {
      InitialBlankSlot(schema, d, i);
    }
    if forall i :: 0 <= i < |schema[d]| ==> StaysBlank(schema, d, i) {
      assert AllBlank(schema, d);
      assert forall i :: 0 <= i < |schema[d]| ==> BlankSlot(schema, schema[d][i], m.slots[i]);
    } else {
      var i :| 0 <= i < |schema[d]| && !StaysBlank(schema, d, i);
      assert m.desc == d && i < |m.slots| && !BlankSlot(schema, schema[m.desc][i], m.slots[i]);
    }
  }

  /** The first n fields put nothing on the wire if none of them does. */
  predicate NoneWritten(schema: Schema, m: Msg, n: nat)
    requires TypedMsg(schema, m) && n <= |m.slots|
  {
    forall i :: 0 <= i < n ==> EncField(schema, m, i) == []
  }

  lemma OneMoreEncoded(schema: Schema, m: Msg, n: nat)
    requires TypedMsg(schema, m) && n < |m.slots|
    ensures EncFields(schema, m, n + 1) == [] <==> EncFields(schema, m, n) == [] && EncField(schema, m, n) == []
  {
    assert |EncFields(schema, m, n + 1)| == |EncFields(schema, m, n)| + |EncField(schema, m, n)|;
  }

  lemma OneMoreWritten(schema: Schema, m: Msg, n: nat)
    requires TypedMsg(schema, m) && n < |m.slots|
    ensures NoneWritten(schema, m, n + 1) <==> NoneWritten(schema, m, n) && EncField(schema, m, n) == []
  {}

  lemma {:induction false} AllLeftOut(schema: Schema, m: Msg, n: nat)
    requires TypedMsg(schema, m) && n <= |m.slots|
    ensures EncFields(schema, m, n) == [] <==> NoneWritten(schema, m, n)
  {
    if n > 0 {
      AllLeftOut(schema, m, n - 1);
      OneMoreEncoded(schema, m, n - 1);
      OneMoreWritten(schema, m, n - 1);
    }
  }

  /** A field that is silent in an initialized struct. */
  predicate StartsSilent(schema: Schema, d: nat, i: nat)
    requires d < |schema| && i < |schema[d]|
  {
    var f := schema[d][i];
    assert WfDesc(schema, d) && WfField(schema, d, f);
    (f.htype.Required? ==> f.atype.Pointer?) && (f.Singular() ==> StartsBlank(schema, f))
  }

  lemma InitialLeftOut(schema: Schema, d: nat, i: nat)
    requires d < |schema| && i < |schema[d]| && TypedMsg(schema, Defaults(schema, d))
    ensures EncField(schema, Defaults(schema, d), i) == [] <==> StartsSilent(schema, d, i)
  {
    var f, l := schema[d][i], Leader(schema[d], i);
    var slot := Defaults(schema, d).slots[l];
    FieldFacts(schema, Defaults(schema, d), i);
    assert WfDesc(schema, d);
    assert slot == DefaultSlot(schema, d, l) && WfField(schema, d, schema[d][l]);
    LeftOutExactly(schema, d, f, slot);
    if f.Singular() {
      InitialBlankVal(schema, d, f);
    }
  }

  /**
   An initialized struct is encoded to nothing exactly when it has no required field in place, and its proto3 fields
   have no byte arrays of a fixed length and no required field in them, at any depth.
   */
  lemma InitialEncodesToNothing(schema: Schema, d: nat)
    requires d < |schema|
    ensures TypedMsg(schema, Defaults(schema, d))
    ensures EncMsg(schema, Defaults(schema, d)) == [] <==> forall i :: 0 <= i < |schema[d]| ==> StartsSilent(schema, d, i)
  {
    var m := Defaults(schema, d);
    DefaultsTyped(schema, d);
    AllLeftOut(schema, m, |schema[d]|);
    forall i | 0 <= i < |schema[d]| ensures EncField(schema, m, i) == [] <==> StartsSilent(schema, d, i) {
      InitialLeftOut(schema, d, i);
    }
    if NoneWritten(schema, m, |schema[d]|) {
      assert forall i :: 0 <= i < |schema[d]| ==> EncField(schema, m, i) == [];
    }
  }
}
