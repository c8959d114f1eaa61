/**
 Decoding an encoded message into a struct that already holds one: arrays are appended, structs are merged, and of
 everything else the last value wins.
 */
module Merging {
  import opened Bits
  import opened Wire
  import opened Descriptors
  import opened Encoding
  import opened Decoding
  import opened Composition
  import opened Arrays
  import opened Normal

  // ------------------------------------------------------------------ merged structs

  function MergeVal(schema: Schema, f: Field, a: Val, v: Val): Val
    requires TypedVal(schema, f, v) && (f.ltype.Submessage? ==> TypedVal(schema, f, a))
    decreases v, 0
  {
    if f.ltype.Submessage? then VMsg(MergeMsg(schema, a.m, v.m)) else v
  }

  /** A value read into fresh memory. */
  function RebuiltVal(schema: Schema, f: Field, v: Val): Val
    requires TypedVal(schema, f, v)
    decreases v, 1
  {
    assert f.ltype.Submessage? ==> TypedMsg(schema, v.m);
    MergeVal(schema, f, FreshVal(schema, f), v)
  }

  function RebuiltItems(schema: Schema, f: Field, items: seq<Val>): (r: seq<Val>)
    requires TypedItems(schema, f, items)
    ensures |r| == |items|
    decreases items, 2
  {
    seq(|items|, k requires 0 <= k < |items| => RebuiltVal(schema, f, items[k]))
  }

  lemma RebuiltScalars(schema: Schema, f: Field, items: seq<Val>)
    requires TypedItems(schema, f, items) && !f.ltype.Submessage?
    ensures RebuiltItems(schema, f, items) == items
  {
    forall k | 0 <= k < |items| ensures RebuiltItems(schema, f, items)[k] == items[k] {
      assert TypedVal(schema, f, items[k]);
      assert MergeVal(schema, f, FreshVal(schema, f), items[k]) == items[k];
    }
  }

  lemma RebuiltItemsLast(schema: Schema, f: Field, items: seq<Val>)
    requires TypedItems(schema, f, items) && items != []
    ensures var n := |items| - 1;
            RebuiltItems(schema, f, items[..n]) + [RebuiltVal(schema, f, items[n])] == RebuiltItems(schema, f, items)
  {}

  /** Members of unions and values on the heap replace what was there. */
  function MergeSlot(schema: Schema, f: Field, a: Slot, slot: Slot): Slot
    requires TypedSlot(schema, f, a) && TypedSlot(schema, f, slot)
    decreases slot, 3
  {
    if f.htype.Repeated? then Rep(a.items + RebuiltItems(schema, f, slot.items))
    else if !Present(schema, f, slot) then a
    else if f.htype.Oneof? || f.atype.Pointer? then SlotWith(f, RebuiltVal(schema, f, slot.v))
    else SlotWith(f, MergeVal(schema, f, a.v, slot.v))
  }

  function MergeField(schema: Schema, a: Msg, m: Msg, i: nat): Slot
    requires TypedMsg(schema, a) && TypedMsg(schema, m) && a.desc == m.desc && i < |m.slots|
    decreases m, 4
  {
    var fields := schema[m.desc];
    if m.slots[i].Joined? then a.slots[i]
    else
      ActiveTyped(schema, m, i);
      var f := Active(fields, m.slots, i);
      if f == |fields| then a.slots[i]
      else
        assert TypedField(schema, fields, a.slots, f);
        MergeSlot(schema, fields[f], a.slots[i], m.slots[i])
  }

  function MergeMsg(schema: Schema, a: Msg, m: Msg): (r: Msg)
    requires TypedMsg(schema, a) && TypedMsg(schema, m) && a.desc == m.desc
    ensures r.desc == m.desc && |r.slots| == |m.slots|
    decreases m, 5
  {
    Msg(m.desc, seq(|m.slots|, i requires 0 <= i < |m.slots| => MergeField(schema, a, m, i)))
  }

  /** A struct read into an initialized one. */
  function Rebuilt(schema: Schema, m: Msg): Msg
    requires TypedMsg(schema, m)
  {
    DefaultsTyped(schema, m.desc);
    MergeMsg(schema, Defaults(schema, m.desc), m)
  }

  // ------------------------------------------------------------------ when the arrays fit

  predicate FitsVal(schema: Schema, f: Field, a: Val, v: Val)
    requires TypedVal(schema, f, v) && (f.ltype.Submessage? ==> TypedVal(schema, f, a))
    decreases v, 0
  {
    f.ltype.Submessage? ==> FitsMsg(schema, a.m, v.m)
  }

  predicate FitsSlot(schema: Schema, f: Field, a: Slot, slot: Slot)
    requires TypedSlot(schema, f, a) && TypedSlot(schema, f, slot)
    decreases slot, 2
  {
    if f.htype.Repeated? then slot.items == [] || |a.items| + |slot.items| <= Capacity(f)
    else if !Present(schema, f, slot) || f.htype.Oneof? || f.atype.Pointer? then true
    else FitsVal(schema, f, a.v, slot.v)
  }

  predicate FitsAt(schema: Schema, a: Msg, m: Msg, i: nat)
    requires TypedMsg(schema, a) && TypedMsg(schema, m) && a.desc == m.desc && i < |m.slots|
    decreases m, 3
  {
    var fields := schema[m.desc];
    assert TypedField(schema, fields, a.slots, i) && TypedField(schema, fields, m.slots, i);
    var l := Leader(fields, i);
    FitsSlot(schema, fields[i], a.slots[l], m.slots[l])
  }

  /** The arrays among the first n fields have room for the entries of both structs. */
  predicate FitsTo(schema: Schema, a: Msg, m: Msg, n: nat)
    requires TypedMsg(schema, a) && TypedMsg(schema, m) && a.desc == m.desc && n <= |m.slots|
    decreases m, 4, n
  {
    n > 0 ==> FitsTo(schema, a, m, n - 1) && FitsAt(schema, a, m, n - 1)
  }

  predicate FitsMsg(schema: Schema, a: Msg, m: Msg)
    requires TypedMsg(schema, a) && TypedMsg(schema, m) && a.desc == m.desc
    decreases m, 5
  {
    FitsTo(schema, a, m, |m.slots|)
  }

  // ------------------------------------------------------------------ merging into an initialized struct

  /** A union member with another tag than the union holds. */
  predicate Inactive(f: Field, slot: Slot)
  {
    f.htype.Oneof? && slot.Union? && slot.which != f.tag
  }

  /** A struct stored in place is initialized like one that is read into fresh memory. */
  lemma DefaultStorage(schema: Schema, d: nat, i: nat)
    requires d < |schema| && i < |schema[d]|
    ensures WfDesc(schema, d) && WfField(schema, d, schema[d][i])
    ensures var f, slot := schema[d][i], Defaults(schema, d).slots[i];
            f.ltype.Submessage? && f.atype.Static? && (f.htype.Required? || f.htype.Optional?) ==>
              (slot.One? || slot.Opt?) && slot.v == FreshVal(schema, f)
  {
    assert WfDesc(schema, d) && WfField(schema, d, schema[d][i]);
    assert Defaults(schema, d).slots[i] == DefaultSlot(schema, d, i);
  }

  lemma {:induction false} FreshFitsVal(schema: Schema, f: Field, v: Val)
    requires TypedVal(schema, f, v) && EncodableVal(schema, f, v) && (f.ltype.Submessage? ==> f.sub < |schema|)
    ensures FitsVal(schema, f, FreshVal(schema, f), v)
    decreases v, 0
  {
    if f.ltype.Submessage? {
      FreshFits(schema, v.m);
    }
  }

  lemma {:induction false} FreshFitsAt(schema: Schema, m: Msg, i: nat)
    requires TypedMsg(schema, m) && EncodableMsg(schema, m) && i < |m.slots|
    requires TypedMsg(schema, Defaults(schema, m.desc))
    ensures FitsAt(schema, Defaults(schema, m.desc), m, i)
    decreases m, 0
  {
    var fields := schema[m.desc];
    var f, slot := fields[i], m.slots[Leader(fields, i)];
    FieldFacts(schema, m, i);
    FieldFacts(schema, Defaults(schema, m.desc), i);
    EncodableEach(schema, m, i, |m.slots|);
    if !f.htype.Repeated? && Present(schema, f, slot) {
      DefaultStorage(schema, m.desc, i);
      FreshFitsVal(schema, f, slot.v);
    }
  }

  lemma {:induction false} FreshFitsTo(schema: Schema, m: Msg, n: nat)
    requires TypedMsg(schema, m) && EncodableMsg(schema, m) && n <= |m.slots|
    requires TypedMsg(schema, Defaults(schema, m.desc))
    ensures FitsTo(schema, Defaults(schema, m.desc), m, n)
    decreases m, 1, n
  {
    if n > 0 {
      FreshFitsTo(schema, m, n - 1);
      FreshFitsAt(schema, m, n - 1);
    }
  }

  /** An initialized struct has room for all that the encoder accepts. */
  lemma {:induction false} FreshFits(schema: Schema, m: Msg)
    requires TypedMsg(schema, m) && EncodableMsg(schema, m)
    ensures TypedMsg(schema, Defaults(schema, m.desc))
    ensures FitsMsg(schema, Defaults(schema, m.desc), m)
    decreases m, 2
  {
    DefaultsTyped(schema, m.desc);
    FreshFitsTo(schema, m, |m.slots|);
  }

  lemma {:induction false} RebuiltIsNormVal(schema: Schema, f: Field, v: Val)
    requires TypedVal(schema, f, v)
    ensures RebuiltVal(schema, f, v) == NormVal(schema, f, v) <==> HonestVal(schema, f, v)
    decreases v, 0
  {
    if f.ltype.Submessage? {
      RebuiltIsNorm(schema, v.m);
    }
  }

  lemma {:induction false} RebuiltIsNormItems(schema: Schema, f: Field, items: seq<Val>)
    requires TypedItems(schema, f, items)
    ensures RebuiltItems(schema, f, items) == NormItems(schema, f, items) <==> HonestItems(schema, f, items)
    decreases items, 1
  {
    var r, n := RebuiltItems(schema, f, items), NormItems(schema, f, items);
    forall k | 0 <= k < |items| ensures r[k] == n[k] <==> HonestVal(schema, f, items[k]) {
      RebuiltIsNormVal(schema, f, items[k]);
    }
    if HonestItems(schema, f, items) {
      assert forall k :: 0 <= k < |items| ==> r[k] == n[k];
    }
  }

  /** Field i gives slot `Leader(i)` its value. */
  lemma {:induction false} RebuiltIsNormSlot(schema: Schema, m: Msg, i: nat)
    requires TypedMsg(schema, m) && i < |m.slots| && TypedMsg(schema, Defaults(schema, m.desc))
    requires !Inactive(schema[m.desc][i], m.slots[Leader(schema[m.desc], i)])
    ensures var f, l := schema[m.desc][i], Leader(schema[m.desc], i);
            var a := Defaults(schema, m.desc).slots[l];
            && TypedSlot(schema, f, a) && TypedSlot(schema, f, m.slots[l]) && WfField(schema, m.desc, f)
            && (MergeSlot(schema, f, a, m.slots[l]) == NormSlot(schema, f, m.slots[l]) <==> HonestField(schema, m, i))
    decreases m, 0
  {
    var fields := schema[m.desc];
    var f, l := fields[i], Leader(fields, i);
    var slot, a := m.slots[l], Defaults(schema, m.desc).slots[l];
    FieldFacts(schema, m, i);
    FieldFacts(schema, Defaults(schema, m.desc), i);
    assert a == DefaultSlot(schema, m.desc, l);
    if f.htype.Repeated? {
      assert [] + RebuiltItems(schema, f, slot.items) == RebuiltItems(schema, f, slot.items);
      RebuiltIsNormItems(schema, f, slot.items);
    } else if Present(schema, f, slot) {
      DefaultStorage(schema, m.desc, i);
      RebuiltIsNormVal(schema, f, slot.v);
    } else {
      AbsentIsDefault(schema, m.desc, i, slot);
    }
  }

  /** Slot i, whichever field it takes its value from. */
  lemma {:induction false} RebuiltIsNormField(schema: Schema, m: Msg, i: nat)
    requires TypedMsg(schema, m) && i < |m.slots| && TypedMsg(schema, Defaults(schema, m.desc))
    ensures var a := Active(schema[m.desc], m.slots, i);
            MergeField(schema, Defaults(schema, m.desc), m, i) == NormField(schema, m, i) <==>
            (m.slots[i].Joined? || a == |m.slots| || HonestField(schema, m, a))
    decreases m, 1
  {
    FieldFacts(schema, m, i);
    FieldFacts(schema, Defaults(schema, m.desc), i);
    assert Defaults(schema, m.desc).slots[i] == DefaultSlot(schema, m.desc, i);
    if !m.slots[i].Joined? {
      ActiveTyped(schema, m, i);
      var f := Active(schema[m.desc], m.slots, i);
      if f < |m.slots| {
        RebuiltIsNormSlot(schema, m, f);
      }
    }
  }

  /** A field that its slot does not take its value from is written by nobody. */
  lemma HonestByLeader(schema: Schema, m: Msg, n: nat)
    requires TypedMsg(schema, m) && n < |m.slots|
    ensures var l := Leader(schema[m.desc], n);
            !m.slots[l].Joined? && (HonestField(schema, m, n) || Active(schema[m.desc], m.slots, l) == n)
  {
    var fields := schema[m.desc];
    FieldFacts(schema, m, n);
    FieldFacts(schema, m, Leader(fields, n));
    FindUnique(fields, n);
  }

  /**
   Reading a struct into an initialized one gives its normal form exactly if no set pointer is in a submessage that
   the zero check took for empty.
   */
  lemma {:induction false} RebuiltIsNorm(schema: Schema, m: Msg)
    requires TypedMsg(schema, m)
    ensures Rebuilt(schema, m) == Norm(schema, m) <==> Honest(schema, m)
    decreases m, 2
  {
    DefaultsTyped(schema, m.desc);
    var fields, r, n := schema[m.desc], Rebuilt(schema, m), Norm(schema, m);
    forall i | 0 <= i < |m.slots|
      ensures r.slots[i] == n.slots[i] <==>
              (m.slots[i].Joined? || Active(fields, m.slots, i) == |m.slots| ||
               HonestField(schema, m, Active(fields, m.slots, i)))
    {
      RebuiltIsNormField(schema, m, i);
    }
    if forall k :: 0 <= k < |m.slots| ==> HonestField(schema, m, k) {
      assert Honest(schema, m) && r.slots == n.slots;
    } else {
      var k :| 0 <= k < |m.slots| && !HonestField(schema, m, k);
      HonestByLeader(schema, m, k);
      assert r.slots[Leader(fields, k)] != n.slots[Leader(fields, k)];
    }
  }

  // ------------------------------------------------------------------ the runs

  /** The struct when the first n fields have been decoded. */
  function MergeTo(schema: Schema, a: Msg, m: Msg, n: nat): (r: Msg)
    requires TypedMsg(schema, a) && TypedMsg(schema, m) && a.desc == m.desc
    ensures r.desc == m.desc && |r.slots| == |m.slots|
  {
    Msg(m.desc, seq(|m.slots|, i requires 0 <= i < |m.slots| =>
      if Active(schema[m.desc], m.slots, i) < n then MergeField(schema, a, m, i) else a.slots[i]))
  }

  function SeenTo(fields: Desc, n: nat): set<nat>
    requires n <= |fields|
  {
    if n == 0 then {} else See(fields, SeenTo(fields, n - 1), n - 1)
  }

  lemma {:induction false} SeenAll(fields: Desc, n: nat)
    requires n <= |fields|
    ensures forall k :: 0 <= k < CountRequired(fields, n) && k < MAX_REQUIRED_FIELDS ==> k in SeenTo(fields, n)
  {
    if n > 0 {
      SeenAll(fields, n - 1);
    }
  }

  lemma ActiveLeader(schema: Schema, m: Msg, i: nat)
    requires TypedMsg(schema, m) && i < |m.slots|
    ensures var f := Active(schema[m.desc], m.slots, i);
            f < |m.slots| && !m.slots[i].Joined? ==> Leader(schema[m.desc], f) == i
  {
    FieldFacts(schema, m, i);
    if !m.slots[i].Joined? {
      ActiveTyped(schema, m, i);
    }
  }

  /** Decoding field n leaves every slot but its own alone. */
  lemma MergeToFrame(schema: Schema, a: Msg, m: Msg, n: nat, i: nat)
    requires TypedMsg(schema, a) && TypedMsg(schema, m) && a.desc == m.desc
    requires n < |m.slots| && i < |m.slots| && i != Leader(schema[m.desc], n)
    ensures MergeTo(schema, a, m, n + 1).slots[i] == MergeTo(schema, a, m, n).slots[i]
  {
    ActiveLeader(schema, m, i);
  }

  /** Field n does not give its slot a value, or it takes it from the old to the new one. */
  lemma MergeToStep(schema: Schema, a: Msg, m: Msg, n: nat)
    requires TypedMsg(schema, a) && TypedMsg(schema, m) && a.desc == m.desc && n < |m.slots|
    ensures var fields := schema[m.desc];
            var l := Leader(fields, n);
            var m0, m1 := MergeTo(schema, a, m, n), MergeTo(schema, a, m, n + 1);
            if Inactive(fields[n], m.slots[l]) then m1 == m0
            else m0.slots[l] == a.slots[l] && m1.slots == m0.slots[l := MergeField(schema, a, m, l)]
  {
    var fields := schema[m.desc];
    var l := Leader(fields, n);
    FieldFacts(schema, m, n);
    FieldFacts(schema, m, l);
    FindUnique(fields, n);
    forall i | 0 <= i < |m.slots| && i != l
      ensures MergeTo(schema, a, m, n + 1).slots[i] == MergeTo(schema, a, m, n).slots[i]
    {
      MergeToFrame(schema, a, m, n, i);
    }
  }

  lemma MergeActive(schema: Schema, a: Msg, m: Msg, n: nat)
    requires TypedMsg(schema, a) && TypedMsg(schema, m) && a.desc == m.desc && n < |m.slots|
    requires !Inactive(schema[m.desc][n], m.slots[Leader(schema[m.desc], n)])
    ensures var f, l := schema[m.desc][n], Leader(schema[m.desc], n);
            && WfField(schema, m.desc, f) && TypedSlot(schema, f, a.slots[l]) && TypedSlot(schema, f, m.slots[l])
            && MergeField(schema, a, m, l) == MergeSlot(schema, f, a.slots[l], m.slots[l])
  {
    FieldFacts(schema, m, n);
    FieldFacts(schema, a, n);
    FieldFacts(schema, m, Leader(schema[m.desc], n));
    FindUnique(schema[m.desc], n);
  }

  /** One value, read into storage that holds `base`. */
  lemma {:induction false} MergeRunVal(schema: Schema, d: nat, f: Field, v: Val, t: bytes, base: Val)
    requires WfField(schema, d, f) && TypedVal(schema, f, v) && EncodableVal(schema, f, v)
    requires |EncVal(schema, f, v)| < TWO_32 && (f.ltype.Submessage? ==> TypedVal(schema, f, base))
    ensures DecVal(schema, f, EncVal(schema, f, v) + t, base) ==
            if FitsVal(schema, f, base, v) then Ok(MergeVal(schema, f, base, v), t) else Fail
    decreases v, 0
  {
    if f.ltype.Submessage? {
      DecStringInverse(EncMsg(schema, v.m), t);
      MergeRun(schema, base.m, v.m);
    } else {
      RoundTripScalar(schema, f, v, t);
    }
  }

  /** One value, read into fresh memory. */
  lemma {:induction false} FreshRunVal(schema: Schema, d: nat, f: Field, v: Val, t: bytes)
    requires WfField(schema, d, f) && TypedVal(schema, f, v) && EncodableVal(schema, f, v)
    requires |EncVal(schema, f, v)| < TWO_32
    ensures DecVal(schema, f, EncVal(schema, f, v) + t, FreshVal(schema, f)) == Ok(RebuiltVal(schema, f, v), t)
    decreases v, 1
  {
    MergeRunVal(schema, d, f, v, t, FreshVal(schema, f));
    FreshFitsVal(schema, f, v);
  }

  /** One entry of an array, with its own tag. */
  lemma {:induction false} EntryRun(schema: Schema, i: nat, v: Val, t: bytes, m: Msg, seen: set<nat>)
    requires TypedMsg(schema, m) && i < |m.slots|
    requires var f := schema[m.desc][i];
             f.htype.Repeated? && m.slots[i].Rep? && TypedVal(schema, f, v) && EncodableVal(schema, f, v) &&
             |EncTagged(schema, f, v)| < TWO_32 && (f.ltype.Submessage? || !f.Packable())
    ensures var f := schema[m.desc][i];
            var m' := Extended(m, i, [RebuiltVal(schema, f, v)]);
            var s := EncTagged(schema, f, v) + t;
            if |m.slots[i].items| < Capacity(f) then
              TypedMsg(schema, m') && DecRun(schema, s, m, seen) == DecRun(schema, t, m', seen)
            else DecRun(schema, s, m, seen) == Failed
    decreases v, 2
  {
    var f := schema[m.desc][i];
    var s := EncVal(schema, f, v);
    FieldFacts(schema, m, i);
    StepField(schema, i, f.WireType(), s + t, m, seen);
    FreshRunVal(schema, m.desc, f, v, t);
    ConcatAssociates(EncTag(f.WireType(), f.tag), s, t);
  }

  lemma {:induction false} EntriesRun(schema: Schema, i: nat, items: seq<Val>, t: bytes, m: Msg, seen: set<nat>)
    requires TypedMsg(schema, m) && i < |m.slots|
    requires var f := schema[m.desc][i];
             f.htype.Repeated? && !f.Packable() && m.slots[i].Rep? && TypedItems(schema, f, items) &&
             EncodableItems(schema, f, items) && |EncUnpacked(schema, f, items)| < TWO_32
    ensures var f := schema[m.desc][i];
            var m' := Extended(m, i, RebuiltItems(schema, f, items));
            var s := EncUnpacked(schema, f, items) + t;
            if items == [] || |m.slots[i].items| + |items| <= Capacity(f) then
              TypedMsg(schema, m') && DecRun(schema, s, m, seen) == DecRun(schema, t, m', seen)
            else DecRun(schema, s, m, seen) == Failed
    decreases items, 1
  {
    var f := schema[m.desc][i];
    ExtendedTwice(m, i, [], []);
    if items == [] {
      assert [] + t == t;
      assert RebuiltItems(schema, f, items) == [];
    } else {
      var n := |items| - 1;
      var e := EncTagged(schema, f, items[n]);
      ConcatAssociates(EncUnpacked(schema, f, items[..n]), e, t);
      EntriesRun(schema, i, items[..n], e + t, m, seen);
      var before := RebuiltItems(schema, f, items[..n]);
      if n == 0 || |m.slots[i].items| + n <= Capacity(f) {
        EntryRun(schema, i, items[n], t, Extended(m, i, before), seen);
        RebuiltItemsLast(schema, f, items);
        ExtendedTwice(m, i, before, [RebuiltVal(schema, f, items[n])]);
      }
    }
  }

  /** The value of a field that is not repeated. */
  lemma {:induction false} SlotRun(schema: Schema, d: nat, f: Field, a: Slot, slot: Slot, t: bytes)
    requires WfField(schema, d, f) && TypedSlot(schema, f, a) && TypedSlot(schema, f, slot)
    requires !f.htype.Repeated? && Present(schema, f, slot) && EncodableSlot(schema, f, slot)
    requires |EncVal(schema, f, slot.v)| < TWO_32
    ensures DecSlot(schema, f, f.WireType(), EncVal(schema, f, slot.v) + t, a) ==
            if FitsSlot(schema, f, a, slot) then Ok(MergeSlot(schema, f, a, slot), t) else Fail
    decreases slot, 3
  {
    SlotOfValue(schema, f, f.WireType(), EncVal(schema, f, slot.v) + t, a);
    if f.htype.Oneof? || f.atype.Pointer? {
      FreshRunVal(schema, d, f, slot.v, t);
    } else {
      MergeRunVal(schema, d, f, slot.v, t, a.v);
    }
  }

  lemma {:induction false} SingleRun(schema: Schema, a: Msg, m: Msg, n: nat, t: bytes, seen: set<nat>)
    requires TypedMsg(schema, a) && TypedMsg(schema, m) && a.desc == m.desc && n < |m.slots|
    requires EncodableField(schema, m, n) && TypedMsg(schema, MergeTo(schema, a, m, n))
    requires var fields := schema[m.desc];
             var slot := m.slots[Leader(fields, n)];
             TypedSlot(schema, fields[n], slot) && !fields[n].htype.Repeated? && Present(schema, fields[n], slot) &&
             |EncTagged(schema, fields[n], slot.v)| < TWO_32
    ensures var fields := schema[m.desc];
            var s := EncTagged(schema, fields[n], m.slots[Leader(fields, n)].v) + t;
            var m0, m1 := MergeTo(schema, a, m, n), MergeTo(schema, a, m, n + 1);
            if FitsAt(schema, a, m, n) then
              TypedMsg(schema, m1) && DecRun(schema, s, m0, seen) == DecRun(schema, t, m1, See(fields, seen, n))
            else DecRun(schema, s, m0, seen) == Failed
    decreases m.slots[Leader(schema[m.desc], n)], 4
  {
    var fields := schema[m.desc];
    var f, l := fields[n], Leader(fields, n);
    var s := EncVal(schema, f, m.slots[l].v);
    FieldFacts(schema, m, n);
    MergeToStep(schema, a, m, n);
    MergeActive(schema, a, m, n);
    StepField(schema, n, f.WireType(), s + t, MergeTo(schema, a, m, n), seen);
    SlotRun(schema, m.desc, f, a.slots[l], m.slots[l], t);
    ConcatAssociates(EncTag(f.WireType(), f.tag), s, t);
  }

  lemma {:induction false} ArrayRun(schema: Schema, a: Msg, m: Msg, n: nat, t: bytes, seen: set<nat>)
    requires TypedMsg(schema, a) && TypedMsg(schema, m) && a.desc == m.desc && n < |m.slots|
    requires EncodableField(schema, m, n) && TypedMsg(schema, MergeTo(schema, a, m, n))
    requires var f := schema[m.desc][n];
             f.htype.Repeated? && TypedSlot(schema, f, m.slots[n]) && |EncArray(schema, f, m.slots[n].items)| < TWO_32
    ensures var s := EncArray(schema, schema[m.desc][n], m.slots[n].items) + t;
            var m0, m1 := MergeTo(schema, a, m, n), MergeTo(schema, a, m, n + 1);
            if FitsAt(schema, a, m, n) then TypedMsg(schema, m1) && DecRun(schema, s, m0, seen) == DecRun(schema, t, m1, seen)
            else DecRun(schema, s, m0, seen) == Failed
    decreases m.slots[n], 4
  {
    var f, items := schema[m.desc][n], m.slots[n].items;
    var m0, m1 := MergeTo(schema, a, m, n), MergeTo(schema, a, m, n + 1);
    FieldFacts(schema, m, n);
    MergeToStep(schema, a, m, n);
    MergeActive(schema, a, m, n);
    assert m0.slots[n] == a.slots[n];
    assert m1 == Extended(m0, n, RebuiltItems(schema, f, items));
    assert FitsAt(schema, a, m, n) <==> items == [] || |m0.slots[n].items| + |items| <= Capacity(f);
    if items == [] {
      ExtendedTwice(m0, n, [], []);
      assert RebuiltItems(schema, f, items) == [] && [] + t == t;
    } else if f.Packable() {
      PackedRun(schema, n, items, t, m0, seen);
    } else {
      EntriesRun(schema, n, items, t, m0, seen);
    }
  }

  lemma PackedRun(schema: Schema, i: nat, items: seq<Val>, t: bytes, m: Msg, seen: set<nat>)
    requires TypedMsg(schema, m) && i < |m.slots| && items != []
    requires var f := schema[m.desc][i];
             f.htype.Repeated? && f.Packable() && m.slots[i].Rep? && TypedItems(schema, f, items) &&
             |EncArray(schema, f, items)| < TWO_32
    ensures var f := schema[m.desc][i];
            var m' := Extended(m, i, RebuiltItems(schema, f, items));
            var s := EncArray(schema, f, items) + t;
            if |m.slots[i].items| + |items| <= Capacity(f) then
              TypedMsg(schema, m') && DecRun(schema, s, m, seen) == DecRun(schema, t, m', seen)
            else DecRun(schema, s, m, seen) == Failed
  {
    var f := schema[m.desc][i];
    assert Packed(items).Items() == items;
    RebuiltScalars(schema, f, items);
    DecPackedPiece(schema, i, items, t, m, seen);
  }

  lemma {:induction false} FieldRun(schema: Schema, a: Msg, m: Msg, n: nat, t: bytes, seen: set<nat>)
    requires TypedMsg(schema, a) && TypedMsg(schema, m) && a.desc == m.desc && n < |m.slots|
    requires EncodableField(schema, m, n) && TypedMsg(schema, MergeTo(schema, a, m, n))
    requires |EncField(schema, m, n)| < TWO_32
    ensures var s := EncField(schema, m, n) + t;
            var m0, m1 := MergeTo(schema, a, m, n), MergeTo(schema, a, m, n + 1);
            if FitsAt(schema, a, m, n) then
              TypedMsg(schema, m1) && DecRun(schema, s, m0, seen) == DecRun(schema, t, m1, See(schema[m.desc], seen, n))
            else DecRun(schema, s, m0, seen) == Failed
    decreases m, 0
  {
    var fields := schema[m.desc];
    var f, l := fields[n], Leader(fields, n);
    FieldFacts(schema, m, n);
    FieldFacts(schema, a, n);
    if f.htype.Repeated? {
      ArrayRun(schema, a, m, n, t, seen);
    } else if Present(schema, f, m.slots[l]) {
      SingleRun(schema, a, m, n, t, seen);
    } else {
      assert EncField(schema, m, n) + t == t;
      AbsentStep(schema, a, m, n);
    }
  }

  lemma AbsentStep(schema: Schema, a: Msg, m: Msg, n: nat)
    requires TypedMsg(schema, a) && TypedMsg(schema, m) && a.desc == m.desc && n < |m.slots|
    requires var f, slot := schema[m.desc][n], m.slots[Leader(schema[m.desc], n)];
             TypedSlot(schema, f, slot) && !f.htype.Repeated? && !Present(schema, f, slot)
    ensures FitsAt(schema, a, m, n) && MergeTo(schema, a, m, n + 1) == MergeTo(schema, a, m, n)
  {
    var fields := schema[m.desc];
    FieldFacts(schema, a, n);
    MergeToStep(schema, a, m, n);
    if !Inactive(fields[n], m.slots[Leader(fields, n)]) {
      MergeActive(schema, a, m, n);
      assert MergeTo(schema, a, m, n + 1).slots == MergeTo(schema, a, m, n).slots;
    }
  }

  lemma {:induction false} FieldsRun(schema: Schema, a: Msg, m: Msg, n: nat, t: bytes)
    requires TypedMsg(schema, a) && TypedMsg(schema, m) && a.desc == m.desc && n <= |m.slots|
    requires EncodableFields(schema, m, n) && |EncFields(schema, m, n)| < TWO_32
    ensures var s := EncFields(schema, m, n) + t;
            var m1 := MergeTo(schema, a, m, n);
            if FitsTo(schema, a, m, n) then
              TypedMsg(schema, m1) && DecRun(schema, s, a, {}) == DecRun(schema, t, m1, SeenTo(schema[m.desc], n))
            else DecRun(schema, s, a, {}) == Failed
    decreases m, 1, n
  {
    if n == 0 {
      assert EncFields(schema, m, 0) + t == t;
      assert MergeTo(schema, a, m, 0).slots == a.slots;
    } else {
      var s := EncField(schema, m, n - 1);
      ConcatAssociates(EncFields(schema, m, n - 1), s, t);
      FieldsRun(schema, a, m, n - 1, s + t);
      if FitsTo(schema, a, m, n - 1) {
        FieldRun(schema, a, m, n - 1, t, SeenTo(schema[m.desc], n - 1));
      }
    }
  }

  lemma MergeToAll(schema: Schema, a: Msg, m: Msg)
    requires TypedMsg(schema, a) && TypedMsg(schema, m) && a.desc == m.desc
    ensures MergeTo(schema, a, m, |m.slots|) == MergeMsg(schema, a, m)
  {
    forall i | 0 <= i < |m.slots|
      ensures MergeTo(schema, a, m, |m.slots|).slots[i] == MergeField(schema, a, m, i)
    {
      FieldFacts(schema, m, i);
    }
  }

  /** The encoding of a message, whatever follows it, in a run on a struct that holds another one. */
  lemma {:induction false} MergeRunThen(schema: Schema, a: Msg, m: Msg, t: bytes)
    requires TypedMsg(schema, a) && TypedMsg(schema, m) && a.desc == m.desc
    requires EncodableMsg(schema, m) && |EncMsg(schema, m)| < TWO_32
    ensures var run := DecRun(schema, EncMsg(schema, m) + t, a, {});
            if FitsMsg(schema, a, m) then
              var m1 := MergeMsg(schema, a, m);
              TypedMsg(schema, m1) && run == DecRun(schema, t, m1, SeenTo(schema[m.desc], |m.slots|))
            else run == Failed
    decreases m, 2
  {
    FieldsRun(schema, a, m, |m.slots|, t);
    MergeToAll(schema, a, m);
  }

  /** Decoding the encoding of a message into a struct: it fails exactly when an array has no room. */
  lemma {:induction false} MergeRun(schema: Schema, a: Msg, m: Msg)
    requires TypedMsg(schema, a) && TypedMsg(schema, m) && a.desc == m.desc
    requires EncodableMsg(schema, m) && |EncMsg(schema, m)| < TWO_32
    ensures DecMsg(schema, EncMsg(schema, m), a) ==
            if FitsMsg(schema, a, m) then Ok(MergeMsg(schema, a, m), []) else Fail
    ensures FitsMsg(schema, a, m) ==> TypedMsg(schema, MergeMsg(schema, a, m))
    decreases m, 3
  {
    MergeRunThen(schema, a, m, []);
    SeenAll(schema[m.desc], |m.slots|);
    assert EncMsg(schema, m) + [] == EncMsg(schema, m);
  }
}
