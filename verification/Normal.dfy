/**
 The normal form of a struct: the memory behind an absent field holds its initial value. What the encoder leaves
 out is, in normal form, what initialization produces.
 */
module Normal {
  import opened Descriptors
  import opened Encoding

  // ------------------------------------------------------------------ normal form

  function NormVal(schema: Schema, f: Field, v: Val): (n: Val)
    requires TypedVal(schema, f, v)
    decreases v, 0
  {
    if f.ltype.Submessage? then VMsg(Norm(schema, v.m)) else v
  }

  function NormItems(schema: Schema, f: Field, items: seq<Val>): (n: seq<Val>)
    requires TypedItems(schema, f, items)
    ensures |n| == |items|
    decreases items, 1
  {
    seq(|items|, k requires 0 <= k < |items| => NormVal(schema, f, items[k]))
  }

  function NormSlot(schema: Schema, f: Field, slot: Slot): Slot
    requires TypedSlot(schema, f, slot) && (f.htype.Oneof? ==> slot.which == f.tag)
    requires f.ltype.Submessage? ==> f.sub < |schema|
    decreases slot, 2
  {
    match slot
    case Rep(items) => Rep(NormItems(schema, f, items))
    case Null(_) => Null(false)
    case Ptr(_, v) => Ptr(false, NormVal(schema, f, v))
    case Opt(has, v) => Opt(has, if has then NormVal(schema, f, v) else DefaultVal(schema, f))
    case Union(which, v) => Union(which, NormVal(schema, f, v))
    case One(v) => One(NormVal(schema, f, v))
  }

  /** The field that gives slot i its value: for a union, the member whose tag it holds. */
  function Active(fields: Desc, slots: seq<Slot>, i: nat): (a: nat)
    requires i < |slots| == |fields|
    ensures a <= |fields|
  {
    if slots[i].Union? then Find(fields, slots[i].which) else i
  }

  lemma ActiveTyped(schema: Schema, m: Msg, i: nat)
    requires TypedMsg(schema, m) && i < |m.slots| && !m.slots[i].Joined?
    ensures WfDesc(schema, m.desc)
    ensures var fields := schema[m.desc];
            var a := Active(fields, m.slots, i);
            a < |fields| ==>
              && WfField(schema, m.desc, fields[a])
              && Leader(fields, a) == i
              && TypedSlot(schema, fields[a], m.slots[i])
              && (fields[a].htype.Oneof? ==> m.slots[i].which == fields[a].tag)
    ensures m.slots[i].Union? && Active(schema[m.desc], m.slots, i) == |m.slots| ==> m.slots[i] == Union(0, VNone)
  {
    var fields := schema[m.desc];
    assert WfDesc(schema, m.desc);
    assert TypedField(schema, fields, m.slots, i);
    var a := Active(fields, m.slots, i);
    if m.slots[i].Union? && m.slots[i].which != 0 {
      var j :| 0 <= j < |fields| && Leader(fields, j) == i && fields[j].tag == m.slots[i].which;
      FindUnique(fields, j);
    }
    if a < |fields| {
      assert WfField(schema, m.desc, fields[a]);
      assert TypedField(schema, fields, m.slots, a);
    }
  }

  function NormField(schema: Schema, m: Msg, i: nat): Slot
    requires TypedMsg(schema, m) && i < |m.slots|
    decreases m, 3
  {
    var fields := schema[m.desc];
    if m.slots[i].Joined? then Joined
    else
      ActiveTyped(schema, m, i);
      var a := Active(fields, m.slots, i);
      if a == |fields| then Union(0, VNone) else NormSlot(schema, fields[a], m.slots[i])
  }

  function Norm(schema: Schema, m: Msg): (n: Msg)
    requires TypedMsg(schema, m)
    ensures n.desc == m.desc && |n.slots| == |m.slots|
    decreases m, 4
  {
    Msg(m.desc, seq(|m.slots|, i requires 0 <= i < |m.slots| => NormField(schema, m, i)))
  }

  // ------------------------------------------------------------------ what the zero check leaves out

  /** No pointer is set, in a submessage and in the proto3 submessages in it. */
  predicate BareVal(schema: Schema, f: Field, v: Val)
    requires TypedVal(schema, f, v)
    decreases v, 0
  {
    f.ltype.Submessage? ==> BareMsg(schema, v.m)
  }

  predicate BareField(schema: Schema, m: Msg, i: nat)
    requires TypedMsg(schema, m) && i < |m.slots|
    decreases m, 1
  {
    var f := schema[m.desc][i];
    FieldFacts(schema, m, i);
    if !f.htype.Optional? then true
    else if f.atype.Pointer? then m.slots[i].Null?
    else f.Singular() ==> BareVal(schema, f, m.slots[i].v)
  }

  predicate BareMsg(schema: Schema, m: Msg)
    requires TypedMsg(schema, m)
    decreases m, 2
  {
    forall i :: 0 <= i < |m.slots| ==> BareField(schema, m, i)
  }

  /** A proto3 value that the zero check omits is what the decoder starts from, exactly if no pointer is set in it. */
  lemma {:induction false} ZeroValIsDefault(schema: Schema, d: nat, f: Field, v: Val)
    requires WfField(schema, d, f) && f.Singular() && TypedVal(schema, f, v) && IsZeroVal(schema, f, v)
    ensures NormVal(schema, f, v) == DefaultVal(schema, f) <==> BareVal(schema, f, v)
    decreases v, 0
  {
    if f.ltype.Submessage? {
      ZeroMsgIsDefault(schema, v.m);
    }
  }

  lemma {:induction false} ZeroFieldIsDefault(schema: Schema, m: Msg, i: nat)
    requires TypedMsg(schema, m) && IsZeroMsg(schema, m) && i < |m.slots|
    ensures NormField(schema, m, i) == DefaultSlot(schema, m.desc, i) <==> BareField(schema, m, i)
    decreases m, 0
  {
    var fields := schema[m.desc];
    var f := fields[i];
    FieldFacts(schema, m, i);
    assert IsZeroField(schema, m, i);
    assert IsZeroSlot(schema, f, m.slots[Leader(fields, i)]);
    if !f.htype.Oneof? {
      if f.Singular() {
        ZeroValIsDefault(schema, m.desc, f, m.slots[i].v);
      }
    } else if !m.slots[i].Joined? {
      ActiveTyped(schema, m, i);
    }
  }

  lemma {:induction false} ZeroMsgIsDefault(schema: Schema, m: Msg)
    requires TypedMsg(schema, m) && IsZeroMsg(schema, m)
    ensures Norm(schema, m) == Defaults(schema, m.desc) <==> BareMsg(schema, m)
    decreases m, 1
  {
    var n, o := Norm(schema, m), Defaults(schema, m.desc);
    forall i | 0 <= i < |m.slots| ensures n.slots[i] == o.slots[i] <==> BareField(schema, m, i) {
      ZeroFieldIsDefault(schema, m, i);
    }
    if BareMsg(schema, m) {
      assert forall i :: 0 <= i < |m.slots| ==> n.slots[i] == o.slots[i];
      assert n.slots == o.slots;
    }
  }

  // ------------------------------------------------------------------ structs that survive

  /** No set pointer is in a submessage that the zero check takes for empty. */
  predicate HonestVal(schema: Schema, f: Field, v: Val)
    requires TypedVal(schema, f, v)
    decreases v, 0
  {
    f.ltype.Submessage? ==> Honest(schema, v.m)
  }

  predicate HonestItems(schema: Schema, f: Field, items: seq<Val>)
    requires TypedItems(schema, f, items)
    decreases items, 1
  {
    forall k :: 0 <= k < |items| ==> HonestVal(schema, f, items[k])
  }

  predicate HonestSlot(schema: Schema, f: Field, slot: Slot)
    requires TypedSlot(schema, f, slot)
    decreases slot, 2
  {
    if f.htype.Repeated? then HonestItems(schema, f, slot.items)
    else if Present(schema, f, slot) then HonestVal(schema, f, slot.v)
    else f.Singular() ==> BareVal(schema, f, slot.v)
  }

  predicate HonestField(schema: Schema, m: Msg, i: nat)
    requires TypedMsg(schema, m) && i < |m.slots|
    decreases m, 3
  {
    FieldFacts(schema, m, i);
    HonestSlot(schema, schema[m.desc][i], m.slots[Leader(schema[m.desc], i)])
  }

  predicate Honest(schema: Schema, m: Msg)
    requires TypedMsg(schema, m)
    decreases m, 4
  {
    forall i :: 0 <= i < |m.slots| ==> HonestField(schema, m, i)
  }

  /** Whatever keeps a field from being written, what the decoder finds instead is its initial value. */
  lemma AbsentIsDefault(schema: Schema, d: nat, i: nat, slot: Slot)
    requires d < |schema| && i < |schema[d]|
    requires var f := schema[d][i];
             !f.htype.Repeated? && !f.htype.Oneof? && TypedSlot(schema, f, slot) && !Present(schema, f, slot)
    ensures WfDesc(schema, d) && WfField(schema, d, schema[d][i])
    ensures NormSlot(schema, schema[d][i], slot) == DefaultSlot(schema, d, i) <==> HonestSlot(schema, schema[d][i], slot)
  {
    assert WfDesc(schema, d) && WfField(schema, d, schema[d][i]);
    if schema[d][i].Singular() {
      ZeroValIsDefault(schema, d, schema[d][i], slot.v);
    }
  }

  // ------------------------------------------------------------------ tables on which all structs do

  /** Entries of optional pointer fields in proto3 submessages are at least as large as a pointer. */
  predicate WideCheck(s: seq<Desc>, f: Field)
  {
    f.Singular() && f.ltype.Submessage? && f.sub < |s| ==> forall g :: g in s[f.sub] ==> Wide(g)
  }

  predicate Wide(g: Field)
  {
    g.htype.Optional? && g.atype.Pointer? ==> g.dataSize >= POINTER_SIZE
  }

  predicate WideChecks(s: seq<Desc>)
  {
    forall d, i :: 0 <= d < |s| && 0 <= i < |s[d]| ==> WideCheck(s, s[d][i])
  }

  type WideSchema = s: Schema | WideChecks(s) witness []

  lemma {:induction false} ZeroIsBare(schema: WideSchema, m: Msg)
    requires TypedMsg(schema, m) && IsZeroMsg(schema, m) && forall g :: g in schema[m.desc] ==> Wide(g)
    ensures BareMsg(schema, m)
    decreases m
  {
    var fields := schema[m.desc];
    forall i | 0 <= i < |m.slots| ensures BareField(schema, m, i) {
      FieldFacts(schema, m, i);
      assert IsZeroField(schema, m, i);
      assert IsZeroSlot(schema, fields[i], m.slots[Leader(fields, i)]);
      assert fields[i] in fields && WideCheck(schema, schema[m.desc][i]);
      if fields[i].Singular() && fields[i].ltype.Submessage? {
        assert IsZeroVal(schema, fields[i], m.slots[i].v);
        ZeroIsBare(schema, m.slots[i].v.m);
      }
    }
  }

  lemma {:induction false} WideHonestVal(schema: WideSchema, f: Field, v: Val)
    requires TypedVal(schema, f, v)
    ensures HonestVal(schema, f, v)
    decreases v, 0
  {
    if f.ltype.Submessage? {
      WideIsHonest(schema, v.m);
    }
  }

  lemma {:induction false} WideHonestField(schema: WideSchema, m: Msg, i: nat)
    requires TypedMsg(schema, m) && i < |m.slots|
    ensures HonestField(schema, m, i)
    decreases m, 0
  {
    var f, slot := schema[m.desc][i], m.slots[Leader(schema[m.desc], i)];
    FieldFacts(schema, m, i);
    assert WideCheck(schema, schema[m.desc][i]);
    if f.htype.Repeated? {
      forall k | 0 <= k < |slot.items| ensures HonestVal(schema, f, slot.items[k]) {
        WideHonestVal(schema, f, slot.items[k]);
      }
    } else if Present(schema, f, slot) {
      WideHonestVal(schema, f, slot.v);
    } else if f.Singular() && f.ltype.Submessage? {
      ZeroIsBare(schema, slot.v.m);
    }
  }

  lemma {:induction false} WideIsHonest(schema: WideSchema, m: Msg)
    requires TypedMsg(schema, m)
    ensures Honest(schema, m)
    decreases m, 1
  {
    forall i | 0 <= i < |m.slots| ensures HonestField(schema, m, i) {
      WideHonestField(schema, m, i);
    }
  }
}
