/**
 What a field holds that does not occur on the wire: what the descriptor says, or what it held before.
 */
module Initial {
  import opened Wire
  import opened Descriptors
  import opened Decoding
  import opened Required

  // ------------------------------------------------------------------ initial structs

  predicate InitialVal(schema: Schema, f: Field, v: Val)
    decreases v, 0
  {
    if f.ltype.Submessage? then v.VMsg? && v.m.desc == f.sub && InitialMsg(schema, v.m) else v == f.default
  }

  /** The storage of a field before anything has been read: the default of the descriptor behind a flag that is off. */
  predicate InitialSlot(schema: Schema, f: Field, slot: Slot)
    decreases slot, 1
  {
    if f.htype.Repeated? then slot == Rep([])
    else if f.htype.Oneof? then slot == Union(0, VNone)
    else if f.atype.Pointer? then slot == Null(false)
    else if f.htype.Optional? && f.sizeOffset != 0 then slot.Opt? && !slot.has && InitialVal(schema, f, slot.v)
    else slot.One? && InitialVal(schema, f, slot.v)
  }

  /** A struct in which this holds of all fields, and in the structs that are stored in it. */
  predicate InitialMsg(schema: Schema, m: Msg)
    decreases m, 2
  {
    && m.desc < |schema| && |m.slots| == |schema[m.desc]|
    && forall i :: 0 <= i < |m.slots| ==>
         if Leader(schema[m.desc], i) == i then InitialSlot(schema, schema[m.desc][i], m.slots[i]) else m.slots[i] == Joined
  }

  lemma {:induction false} DefaultsInitialVal(schema: Schema, d: nat, f: Field)
    requires WfField(schema, d, f) && f.atype.Static? && (f.htype.Required? || f.htype.Optional?)
    ensures InitialVal(schema, f, DefaultVal(schema, f))
    decreases if f.ltype.Submessage? then f.sub + 1 else 0, 1
  {
    if f.ltype.Submessage? {
      DefaultsInitial(schema, f.sub);
    }
  }

  lemma {:induction false} DefaultsInitial(schema: Schema, d: nat)
    requires d < |schema|
    ensures InitialMsg(schema, Defaults(schema, d))
    decreases d + 1, 0
  {
    var m, fields := Defaults(schema, d), schema[d];
    assert WfDesc(schema, d);
    forall i | 0 <= i < |fields|
      ensures if Leader(fields, i) == i then InitialSlot(schema, fields[i], m.slots[i]) else m.slots[i] == Joined
    {
      assert m.slots[i] == DefaultSlot(schema, d, i) && WfField(schema, d, fields[i]);
      if fields[i].atype.Static? && (fields[i].htype.Required? || fields[i].htype.Optional?) {
        DefaultsInitialVal(schema, d, fields[i]);
      }
    }
  }

  lemma {:induction false} InitialUniqueVal(schema: Schema, f: Field, a: Val, b: Val)
    requires InitialVal(schema, f, a) && InitialVal(schema, f, b)
    ensures a == b
    decreases a, 0
  {
    if f.ltype.Submessage? {
      InitialUnique(schema, a.m, b.m);
    }
  }

  lemma {:induction false} InitialUniqueSlot(schema: Schema, f: Field, a: Slot, b: Slot)
    requires InitialSlot(schema, f, a) && InitialSlot(schema, f, b)
    ensures a == b
    decreases a, 1
  {
    if a.One? || a.Opt? {
      InitialUniqueVal(schema, f, a.v, b.v);
    }
  }

  /** There is only one initial struct of a type. */
  lemma {:induction false} InitialUnique(schema: Schema, a: Msg, b: Msg)
    requires InitialMsg(schema, a) && InitialMsg(schema, b) && a.desc == b.desc
    ensures a == b
    decreases a, 2
  {
    var fields := schema[a.desc];
    forall i | 0 <= i < |fields| ensures a.slots[i] == b.slots[i] {
      if Leader(fields, i) == i {
        InitialUniqueSlot(schema, fields[i], a.slots[i], b.slots[i]);
      }
    }
    assert a.slots == b.slots;
  }

  /** Initialization makes exactly that struct. */
  lemma InitialExactly(schema: Schema, m: Msg)
    requires m.desc < |schema|
    ensures m == Defaults(schema, m.desc) <==> InitialMsg(schema, m)
  {
    DefaultsInitial(schema, m.desc);
    if InitialMsg(schema, m) {
      InitialUnique(schema, m, Defaults(schema, m.desc));
    }
  }

  // ------------------------------------------------------------------ fields that do not occur

  /** Neither field i nor, if it is in a union, another member of the union is among these. */
  predicate Spared(fields: Desc, at: set<nat>, i: nat)
    requires i < |fields|
  {
    forall j :: 0 <= j < |fields| && Leader(fields, j) == Leader(fields, i) ==> j !in at
  }

  /** A field that does not occur keeps what its storage held. */
  lemma {:induction false} Untouched(schema: Schema, s: bytes, m: Msg, seen: set<nat>, i: nat)
    requires TypedMsg(schema, m) && i < |m.slots| && DecRun(schema, s, m, seen).Done?
    requires Spared(schema[m.desc], Occurring(schema, s, m), i)
    ensures var l := Leader(schema[m.desc], i); DecRun(schema, s, m, seen).m.slots[l] == m.slots[l]
    decreases |s|
  {
    if s != [] && DecVarint32(s).value != 0 {
      var tag, rest := DecVarint32(s).value, DecVarint32(s).rest;
      var fields := schema[m.desc];
      var k := Find(fields, tag / 8);
      if k == |fields| {
        Untouched(schema, SkipUnknown(fields, tag / 8, tag % 8, rest).rest, m, seen, i);
      } else {
        FieldFacts(schema, m, k);
        var r := DecSlot(schema, fields[k], tag % 8, rest, m.slots[Leader(fields, k)]);
        UpdateTyped(schema, m, k, r.value);
        var m' := Update(schema, m, k, r.value);
        assert Occurring(schema, s, m) == {k} + Occurring(schema, r.rest, m');
        Untouched(schema, r.rest, m', See(fields, seen, k), i);
        assert Leader(fields, k) != Leader(fields, i);
      }
    }
  }

  lemma InitialForms(schema: Schema, f: Field, slot: Slot)
    requires InitialSlot(schema, f, slot)
    ensures f.htype.Repeated? ==> slot == Rep([])
    ensures f.htype.Oneof? ==> slot == Union(0, VNone)
    ensures f.atype.Pointer? && !f.htype.Repeated? && !f.htype.Oneof? ==> slot == Null(false)
    ensures f.atype.Static? && !f.ltype.Submessage? && f.htype.Required? ==> slot == One(f.default)
    ensures f.atype.Static? && !f.ltype.Submessage? && f.htype.Optional? ==>
              slot == if f.sizeOffset != 0 then Opt(false, f.default) else One(f.default)
  {}

  /**
   A message that was decoded holds the initial value of each field that did not occur: the default of its
   descriptor, or nothing.
   */
  lemma AbsentIsInitial(schema: Schema, d: nat, s: bytes, i: nat)
    requires d < |schema| && i < |schema[d]| && Decode(schema, d, s).Ok?
    requires TypedMsg(schema, Defaults(schema, d)) && Spared(schema[d], Occurring(schema, s, Defaults(schema, d)), i)
    ensures var f, slot := schema[d][i], Decode(schema, d, s).value.slots[Leader(schema[d], i)];
            && InitialSlot(schema, f, slot)
            && (f.htype.Repeated? ==> slot == Rep([]))
            && (f.htype.Oneof? ==> slot == Union(0, VNone))
            && (f.atype.Pointer? && !f.htype.Repeated? && !f.htype.Oneof? ==> slot == Null(false))
            && (f.atype.Static? && !f.ltype.Submessage? && f.htype.Required? ==> slot == One(f.default))
            && (f.atype.Static? && !f.ltype.Submessage? && f.htype.Optional? ==>
                  slot == if f.sizeOffset != 0 then Opt(false, f.default) else One(f.default))
  {
    Untouched(schema, s, Defaults(schema, d), {}, i);
    InitialAt(schema, d, i);
    InitialForms(schema, schema[d][i], Defaults(schema, d).slots[Leader(schema[d], i)]);
  }

  lemma InitialAt(schema: Schema, d: nat, i: nat)
    requires d < |schema| && i < |schema[d]|
    ensures InitialSlot(schema, schema[d][i], Defaults(schema, d).slots[Leader(schema[d], i)])
  {
    DefaultsInitial(schema, d);
    assert InitialSlot(schema, schema[d][Leader(schema[d], i)], Defaults(schema, d).slots[Leader(schema[d], i)]);
  }

  /** The same inside of a struct that was read: what its payload does not mention is as it was, or initial. */
  lemma AbsentInside(schema: Schema, f: Field, s: bytes, old': Val, j: nat)
    requires f.ltype.Submessage? && WfSize(f) && TypedVal(schema, f, old') && DecVal(schema, f, s, old').Ok?
    requires j < |old'.m.slots| && Spared(schema[f.sub], Occurring(schema, DecString(s).value, old'.m), j)
    ensures var l := Leader(schema[f.sub], j);
            var v := DecVal(schema, f, s, old').value;
            && v.VMsg? && |v.m.slots| == |old'.m.slots| && v.m.slots[l] == old'.m.slots[l]
            && (InitialMsg(schema, old'.m) ==> InitialSlot(schema, schema[f.sub][l], v.m.slots[l]))
  {
    Untouched(schema, DecString(s).value, old'.m, {}, j);
  }

  /** Where that struct has been initialized first: in an array, in a union and behind a pointer. */
  lemma FreshIsInitial(schema: Schema, f: Field)
    requires f.ltype.Submessage? && f.sub < |schema|
    ensures FreshVal(schema, f).VMsg? && InitialMsg(schema, FreshVal(schema, f).m)
  {
    DefaultsInitial(schema, f.sub);
  }
}
