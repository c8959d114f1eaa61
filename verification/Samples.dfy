/**
 Fields as the app's messages have them, each in a table of its own, with the bytes that they are on the wire.
 */
module Samples {
  import opened Wire
  import opened Descriptors
  import opened Encoding
  import opened Decoding

  lemma OneField(f: Field)
    requires WfField([[f]], 0, f)
    ensures WfTable([[f]])
  {
    assert WfDesc([[f]], 0);
  }

  /** A struct with one field is the bytes of that field. */
  lemma OneFieldBytes(schema: Schema, f: Field, slot: Slot)
    requires schema == [[f]] && TypedSlot(schema, f, slot) && !slot.Joined? && UnionHolds([f], 0, slot)
    ensures TypedMsg(schema, Msg(0, [slot]))
    ensures EncMsg(schema, Msg(0, [slot])) == EncSlot(schema, f, slot)
    ensures EncodableMsg(schema, Msg(0, [slot])) <==> EncodableSlot(schema, f, slot)
  {
    var m := Msg(0, [slot]);
    assert TypedField(schema, [f], m.slots, 0);
    assert EncField(schema, m, 0) == EncSlot(schema, f, slot);
    assert EncFields(schema, m, 0) == [] && EncFields(schema, m, 1) == [] + EncField(schema, m, 0);
    assert EncodableField(schema, m, 0) <==> EncodableSlot(schema, f, slot);
    assert EncodableFields(schema, m, 0);
  }

  lemma SmallVarint(v: nat)
    requires v < 128
    ensures EncVarint(v) == [v]
  {}

  /** `gdt_cct_NetworkConnectionInfo.network_type`: the default of an absent field is -1. */
  lemma NetworkType(f: Field)
    requires f == Field(1, Varint, Optional, Static, 0, -4, 4, 0, 0, VInt(-1))
    ensures WfTable([[f]]) && Decode([[f]], 0, []) == Ok(Msg(0, [Opt(false, VInt(-1))]), [])
  {
    assert WfField([[f]], 0, f);
    OneField(f);
    var schema: Schema := [[f]];
    DefaultsTyped(schema, 0);
    assert Defaults(schema, 0).slots == [DefaultSlot(schema, 0, 0)] == [Opt(false, VInt(-1))];
  }

  /** `firestore_client_MaybeDocument.has_committed_mutations`: false is left out and true is two bytes. */
  lemma CommittedMutations(f: Field)
    requires f == Field(4, Bool, Optional, Static, 0, 0, 1, 0, 0, VInt(0))
    ensures WfTable([[f]])
    ensures TypedMsg([[f]], Msg(0, [One(VInt(0))])) && EncMsg([[f]], Msg(0, [One(VInt(0))])) == []
    ensures TypedMsg([[f]], Msg(0, [One(VInt(1))])) && EncMsg([[f]], Msg(0, [One(VInt(1))])) == [0x20, 1]
  {
    assert WfField([[f]], 0, f);
    OneField(f);
    var schema: Schema := [[f]];
    OneFieldBytes(schema, f, One(VInt(0)));
    OneFieldBytes(schema, f, One(VInt(1)));
    SmallVarint(0x20);
    SmallVarint(1);
    assert EncSlot(schema, f, One(VInt(1))) == EncTagged(schema, f, VInt(1)) == [0x20] + [1];
  }

  lemma {:induction false} ZeroBytes(n: nat)
    ensures EncFixed(n, 0) == seq(n, _ => 0)
  {
    if n > 0 {
      ZeroBytes(n - 1);
      assert seq(n, _ => 0) == [0] + seq(n - 1, _ => 0);
    }
  }

  lemma OneFixed(schema: Schema, f: Field, v: Val, n: nat)
    requires f.ltype.Fixed64? && v == VInt(1) && TypedVal(schema, f, v) && n == 8
    ensures EncVal(schema, f, v) == [1] + seq(n - 1, _ => 0)
  {
    ZeroBytes(n - 1);
    assert EncVal(schema, f, v) == EncFixed(n, v.i) == [1] + EncFixed(n - 1, 0);
  }

  /** `google_firestore_v1_Value.double_value`, alone in its union: wire type 1 and eight bytes. */
  lemma DoubleValue(f: Field, v: Val)
    requires f == Field(3, Fixed64, Oneof, Static, 8, -8, 8, 0, 0, VNone) && v == VInt(1)
    ensures WfTable([[f]]) && TypedMsg([[f]], Msg(0, [Union(3, v)]))
    ensures EncMsg([[f]], Msg(0, [Union(3, v)])) == [0x19] + ([1] + seq(7, _ => 0))
  {
    assert WfField([[f]], 0, f);
    OneField(f);
    var schema: Schema := [[f]];
    assert Leader([f], 0) == 0;
    OneFieldBytes(schema, f, Union(3, v));
    SmallVarint(0x19);
    OneFixed(schema, f, v, 8);
  }

  /** `gdt_cct_LogEvent.timezone_offset_seconds`: 0 is written as 0 and -1 as 1. */
  lemma TimezoneOffset(f: Field)
    requires f == Field(15, SVarint, Optional, Static, 8, -8, 8, 0, 0, VInt(0))
    ensures WfTable([[f]])
    ensures TypedMsg([[f]], Msg(0, [Opt(true, VInt(0))])) && EncMsg([[f]], Msg(0, [Opt(true, VInt(0))])) == [0x78, 0]
    ensures TypedMsg([[f]], Msg(0, [Opt(true, VInt(-1))])) && EncMsg([[f]], Msg(0, [Opt(true, VInt(-1))])) == [0x78, 1]
  {
    assert WfField([[f]], 0, f);
    OneField(f);
    var schema: Schema := [[f]];
    OneFieldBytes(schema, f, Opt(true, VInt(0)));
    OneFieldBytes(schema, f, Opt(true, VInt(-1)));
    SmallVarint(0x78);
    SmallVarint(0);
    SmallVarint(1);
    assert EncSlot(schema, f, Opt(true, VInt(0))) == EncTagged(schema, f, VInt(0)) == [0x78] + [0];
    assert EncSlot(schema, f, Opt(true, VInt(-1))) == EncTagged(schema, f, VInt(-1)) == [0x78] + [1];
  }

  /** An array on the heap, whose declared size is 0, as of all repeated fields of the app: it is accepted, and packed. */
  lemma HeapArray(f: Field)
    requires f == Field(1, Varint, Repeated, Pointer, 0, -4, 4, 0, 0, VNone)
    ensures WfTable([[f]]) && TypedMsg([[f]], Msg(0, [Rep([VInt(7)])]))
    ensures EncodableMsg([[f]], Msg(0, [Rep([VInt(7)])]))
    ensures EncMsg([[f]], Msg(0, [Rep([VInt(7)])])) == [0x0A, 1, 7]
  {
    assert WfField([[f]], 0, f);
    OneField(f);
    var schema: Schema := [[f]];
    var items := [VInt(7)];
    assert TypedVal(schema, f, items[0]) && TypedItems(schema, f, items);
    OneFieldBytes(schema, f, Rep(items));
    SmallVarint(0x0A);
    SmallVarint(1);
    SmallVarint(7);
    assert EncVal(schema, f, items[0]) == [7];
    assert items[..0] == [] && EncPacked(schema, f, items[..0]) == [];
    assert EncPacked(schema, f, items) == [] + [7];
    assert EncArray(schema, f, items) == [0x0A] + ([1] + [7]);
  }
}
