/**
 How often the encoder visits a field. A submessage that is really written is encoded twice, once to measure
 it, but while it is only measured it is encoded once. A proto3 submessage is also walked by the zero check.
 */
module Work {
  import opened Bits
  import opened Descriptors
  import opened Encoding

  /** Fields that the zero check of a field walks over. It stops at the first that is not zero. */
  function ChecksSlot(schema: Schema, f: Field, slot: Slot): nat
    requires TypedSlot(schema, f, slot)
    decreases slot, 0
  {
    if f.Singular() && f.ltype.Submessage? then
      assert TypedVal(schema, f, slot.v);
      ChecksFields(schema, slot.v.m, 0)
    else 0
  }

  function ChecksFields(schema: Schema, m: Msg, n: nat): nat
    requires TypedMsg(schema, m) && n <= |m.slots|
    decreases m, 0, |m.slots| - n
  {
    if n == |m.slots| then 0
    else
      var fields := schema[m.desc];
      assert TypedField(schema, fields, m.slots, n);
      1 + ChecksSlot(schema, fields[n], m.slots[Leader(fields, n)])
      + if IsZeroField(schema, m, n) then ChecksFields(schema, m, n + 1) else 0
  }

  function VisitsVal(schema: Schema, f: Field, v: Val, sizing: bool): nat
    requires TypedVal(schema, f, v)
    decreases v, 0
  {
    if !f.ltype.Submessage? then 0
    else VisitsMsg(schema, v.m, true) + if sizing then 0 else VisitsMsg(schema, v.m, false)
  }

  function VisitsItems(schema: Schema, f: Field, items: seq<Val>, sizing: bool): nat
    requires TypedItems(schema, f, items)
    decreases items, 1
  {
    if items == [] then 0
    else
      var n := |items| - 1;
      VisitsItems(schema, f, items[..n], sizing) + VisitsVal(schema, f, items[n], sizing)
  }

  function VisitsSlot(schema: Schema, f: Field, slot: Slot, sizing: bool): nat
    requires TypedSlot(schema, f, slot)
    decreases slot, 2
  {
    if f.htype.Repeated? then VisitsItems(schema, f, slot.items, sizing)
    else if Present(schema, f, slot) then VisitsVal(schema, f, slot.v, sizing)
    else 0
  }

  function VisitsField(schema: Schema, m: Msg, i: nat, sizing: bool): nat
    requires TypedMsg(schema, m) && i < |m.slots|
    decreases m, 3
  {
    var fields := schema[m.desc];
    assert TypedField(schema, fields, m.slots, i);
    var slot := m.slots[Leader(fields, i)];
    1 + ChecksSlot(schema, fields[i], slot) + VisitsSlot(schema, fields[i], slot, sizing)
  }

  /** Visits to the first n fields of a message and to all fields below them. */
  function VisitsFields(schema: Schema, m: Msg, n: nat, sizing: bool): nat
    requires TypedMsg(schema, m) && n <= |m.slots|
    decreases m, 4, n
  {
    if n == 0 then 0 else VisitsFields(schema, m, n - 1, sizing) + VisitsField(schema, m, n - 1, sizing)
  }

  function VisitsMsg(schema: Schema, m: Msg, sizing: bool): nat
    requires TypedMsg(schema, m)
    decreases m, 5
  {
    VisitsFields(schema, m, |m.slots|, sizing)
  }

  // ------------------------------------------------------------------ fields weighed by their depth

  /** The fields of a message and below, with their checks, k times at the top, k + 1 times one level down, and so on. */
  function WeighVal(schema: Schema, f: Field, v: Val, k: nat): nat
    requires TypedVal(schema, f, v)
    decreases v, 0
  {
    if f.ltype.Submessage? then WeighFields(schema, v.m, |v.m.slots|, k + 1) else 0
  }

  function WeighItems(schema: Schema, f: Field, items: seq<Val>, k: nat): nat
    requires TypedItems(schema, f, items)
    decreases items, 1
  {
    if items == [] then 0
    else
      var n := |items| - 1;
      WeighItems(schema, f, items[..n], k) + WeighVal(schema, f, items[n], k)
  }

  function WeighSlot(schema: Schema, f: Field, slot: Slot, k: nat): nat
    requires TypedSlot(schema, f, slot)
    decreases slot, 2
  {
    if f.htype.Repeated? then WeighItems(schema, f, slot.items, k)
    else if Present(schema, f, slot) then WeighVal(schema, f, slot.v, k)
    else 0
  }

  function WeighField(schema: Schema, m: Msg, i: nat, k: nat): nat
    requires TypedMsg(schema, m) && i < |m.slots|
    decreases m, 3
  {
    var fields := schema[m.desc];
    assert TypedField(schema, fields, m.slots, i);
    var slot := m.slots[Leader(fields, i)];
    k * (1 + ChecksSlot(schema, fields[i], slot)) + WeighSlot(schema, fields[i], slot, k)
  }

  function WeighFields(schema: Schema, m: Msg, n: nat, k: nat): nat
    requires TypedMsg(schema, m) && n <= |m.slots|
    decreases m, 4, n
  {
    if n == 0 then 0 else WeighFields(schema, m, n - 1, k) + WeighField(schema, m, n - 1, k)
  }

  lemma Distribute(k: nat, a: nat, b: nat)
    ensures k * (a + b) == k * a + k * b
    ensures (k + 1) * a == k * a + a
  {}

  lemma {:induction false} WeighValVisits(schema: Schema, f: Field, v: Val, k: nat)
    requires TypedVal(schema, f, v)
    ensures WeighVal(schema, f, v, k + 1) == k * VisitsVal(schema, f, v, true) + VisitsVal(schema, f, v, false)
    decreases v, 0
  {
    if f.ltype.Submessage? {
      WeighFieldsVisits(schema, v.m, |v.m.slots|, k + 1);
    }
  }

  lemma {:induction false} WeighItemsVisits(schema: Schema, f: Field, items: seq<Val>, k: nat)
    requires TypedItems(schema, f, items)
    ensures WeighItems(schema, f, items, k + 1) == k * VisitsItems(schema, f, items, true) + VisitsItems(schema, f, items, false)
    decreases items, 1
  {
    if items != [] {
      var n := |items| - 1;
      WeighItemsVisits(schema, f, items[..n], k);
      WeighValVisits(schema, f, items[n], k);
      Distribute(k, VisitsItems(schema, f, items[..n], true), VisitsVal(schema, f, items[n], true));
    }
  }

  lemma {:induction false} WeighSlotVisits(schema: Schema, f: Field, slot: Slot, k: nat)
    requires TypedSlot(schema, f, slot)
    ensures WeighSlot(schema, f, slot, k + 1) == k * VisitsSlot(schema, f, slot, true) + VisitsSlot(schema, f, slot, false)
    decreases slot, 2
  {
    if f.htype.Repeated? {
      WeighItemsVisits(schema, f, slot.items, k);
    } else if Present(schema, f, slot) {
      WeighValVisits(schema, f, slot.v, k);
    }
  }

  lemma {:induction false} WeighFieldVisits(schema: Schema, m: Msg, n: nat, k: nat)
    requires TypedMsg(schema, m) && n < |m.slots|
    ensures WeighField(schema, m, n, k + 1) == k * VisitsField(schema, m, n, true) + VisitsField(schema, m, n, false)
    decreases m, 3
  {
    var f, slot := schema[m.desc][n], m.slots[Leader(schema[m.desc], n)];
    FieldFacts(schema, m, n);
    WeighSlotVisits(schema, f, slot, k);
    var c := 1 + ChecksSlot(schema, f, slot);
    Distribute(k, c, VisitsSlot(schema, f, slot, true));
  }

  lemma {:induction false} WeighFieldsVisits(schema: Schema, m: Msg, n: nat, k: nat)
    requires TypedMsg(schema, m) && n <= |m.slots|
    ensures WeighFields(schema, m, n, k + 1) == k * VisitsFields(schema, m, n, true) + VisitsFields(schema, m, n, false)
    decreases m, 4, n
  {
    if n > 0 {
      WeighFieldsVisits(schema, m, n - 1, k);
      WeighFieldVisits(schema, m, n - 1, k);
      Distribute(k, VisitsFields(schema, m, n - 1, true), VisitsField(schema, m, n - 1, true));
    }
  }

  /** In a real run, a field under k submessages is visited and checked k + 1 times; in a measuring run, once. */
  lemma RealVisits(schema: Schema, m: Msg)
    requires TypedMsg(schema, m)
    ensures VisitsMsg(schema, m, false) == WeighFields(schema, m, |m.slots|, 1)
  {
    WeighFieldsVisits(schema, m, |m.slots|, 0);
  }

  // ------------------------------------------------------------------ a factor of depth

  function Max(a: nat, b: nat): nat
  {
    if a > b then a else b
  }

  /** How deep the structs of a value are nested. */
  function DepthVal(v: Val): nat
    decreases v, 0
  {
    if v.VMsg? then 1 + Depth(v.m) else 0
  }

  function DepthItems(items: seq<Val>): nat
    decreases items, 1
  {
    if items == [] then 0 else Max(DepthItems(items[..|items| - 1]), DepthVal(items[|items| - 1]))
  }

  function DepthSlot(slot: Slot): nat
    decreases slot, 2
  {
    match slot
    case Joined => 0
    case Null(_) => 0
    case Rep(items) => DepthItems(items)
    case One(v) => DepthVal(v)
    case Opt(_, v) => DepthVal(v)
    case Union(_, v) => DepthVal(v)
    case Ptr(_, v) => DepthVal(v)
  }

  function DepthSlots(slots: seq<Slot>): nat
    decreases slots, 3
  {
    if slots == [] then 0 else Max(DepthSlots(slots[..|slots| - 1]), DepthSlot(slots[|slots| - 1]))
  }

  function Depth(m: Msg): nat
    decreases m, 4
  {
    DepthSlots(m.slots)
  }

  lemma {:induction false} SlotWithinDepth(slots: seq<Slot>, i: nat)
    requires i < |slots|
    ensures DepthSlot(slots[i]) <= DepthSlots(slots)
  {
    if i < |slots| - 1 {
      SlotWithinDepth(slots[..|slots| - 1], i);
    }
  }

  lemma {:induction false} WeighValBound(schema: Schema, f: Field, v: Val, k: nat, d: nat)
    requires TypedVal(schema, f, v) && DepthVal(v) <= d
    ensures WeighVal(schema, f, v, k) <= (k + d) * VisitsVal(schema, f, v, true)
    decreases v, 0
  {
    if f.ltype.Submessage? {
      WeighFieldsBound(schema, v.m, |v.m.slots|, k + 1, d - 1);
    }
  }

  lemma {:induction false} WeighItemsBound(schema: Schema, f: Field, items: seq<Val>, k: nat, d: nat)
    requires TypedItems(schema, f, items) && DepthItems(items) <= d
    ensures WeighItems(schema, f, items, k) <= (k + d) * VisitsItems(schema, f, items, true)
    decreases items, 1
  {
    if items != [] {
      var n := |items| - 1;
      WeighItemsBound(schema, f, items[..n], k, d);
      WeighValBound(schema, f, items[n], k, d);
      Distribute(k + d, VisitsItems(schema, f, items[..n], true), VisitsVal(schema, f, items[n], true));
    }
  }

  lemma {:induction false} WeighSlotBound(schema: Schema, f: Field, slot: Slot, k: nat, d: nat)
    requires TypedSlot(schema, f, slot) && DepthSlot(slot) <= d
    ensures WeighSlot(schema, f, slot, k) <= (k + d) * VisitsSlot(schema, f, slot, true)
    decreases slot, 2
  {
    if f.htype.Repeated? {
      WeighItemsBound(schema, f, slot.items, k, d);
    } else if Present(schema, f, slot) {
      WeighValBound(schema, f, slot.v, k, d);
    }
  }

  lemma {:induction false} WeighFieldBound(schema: Schema, m: Msg, n: nat, k: nat, d: nat)
    requires TypedMsg(schema, m) && n < |m.slots| && Depth(m) <= d
    ensures WeighField(schema, m, n, k) <= (k + d) * VisitsField(schema, m, n, true)
    decreases m, 4
  {
    var fields := schema[m.desc];
    var l := Leader(fields, n);
    FieldFacts(schema, m, n);
    SlotWithinDepth(m.slots, l);
    WeighSlotBound(schema, fields[n], m.slots[l], k, d);
    var c := 1 + ChecksSlot(schema, fields[n], m.slots[l]);
    Distribute(k + d, c, VisitsSlot(schema, fields[n], m.slots[l], true));
    MulMonotone(k, k + d, c);
  }

  lemma {:induction false} WeighFieldsBound(schema: Schema, m: Msg, n: nat, k: nat, d: nat)
    requires TypedMsg(schema, m) && n <= |m.slots| && Depth(m) <= d
    ensures WeighFields(schema, m, n, k) <= (k + d) * VisitsFields(schema, m, n, true)
    decreases m, 5, n
  {
    if n > 0 {
      WeighFieldsBound(schema, m, n - 1, k, d);
      WeighFieldBound(schema, m, n - 1, k, d);
      Distribute(k + d, VisitsFields(schema, m, n - 1, true), VisitsField(schema, m, n - 1, true));
    }
  }

  // ------------------------------------------------------------------ a measuring run

  /** How many fields a struct has, with those of all structs in it. */
  function CountVal(schema: Schema, f: Field, v: Val): nat
    requires TypedVal(schema, f, v)
    decreases v, 0
  {
    if f.ltype.Submessage? then CountFields(schema, v.m, |v.m.slots|) else 0
  }

  function CountItems(schema: Schema, f: Field, items: seq<Val>): nat
    requires TypedItems(schema, f, items)
    decreases items, 1
  {
    if items == [] then 0
    else
      var n := |items| - 1;
      CountItems(schema, f, items[..n]) + CountVal(schema, f, items[n])
  }

  function CountSlot(schema: Schema, f: Field, slot: Slot): nat
    requires TypedSlot(schema, f, slot)
    decreases slot, 2
  {
    if f.htype.Repeated? then CountItems(schema, f, slot.items)
    else if f.Singular() || Present(schema, f, slot) then CountVal(schema, f, slot.v)
    else 0
  }

  function CountField(schema: Schema, m: Msg, n: nat): nat
    requires TypedMsg(schema, m) && n < |m.slots|
    decreases m, 3
  {
    var fields := schema[m.desc];
    assert TypedField(schema, fields, m.slots, n);
    1 + CountSlot(schema, fields[n], m.slots[Leader(fields, n)])
  }

  function CountFields(schema: Schema, m: Msg, n: nat): nat
    requires TypedMsg(schema, m) && n <= |m.slots|
    decreases m, 4, n
  {
    if n == 0 then 0 else CountFields(schema, m, n - 1) + CountField(schema, m, n - 1)
  }

  /** The zero check of a field walks over every field below it once at most. */
  lemma {:induction false} ChecksSlotBound(schema: Schema, f: Field, slot: Slot)
    requires TypedSlot(schema, f, slot)
    ensures ChecksSlot(schema, f, slot) <= CountSlot(schema, f, slot)
    decreases slot, 0
  {
    if f.Singular() && f.ltype.Submessage? {
      ChecksFieldsBound(schema, slot.v.m, 0);
    }
  }

  lemma {:induction false} ChecksFieldsBound(schema: Schema, m: Msg, n: nat)
    requires TypedMsg(schema, m) && n <= |m.slots|
    ensures CountFields(schema, m, n) + ChecksFields(schema, m, n) <= CountFields(schema, m, |m.slots|)
    decreases m, 0, |m.slots| - n
  {
    if n < |m.slots| {
      FieldFacts(schema, m, n);
      ChecksSlotBound(schema, schema[m.desc][n], m.slots[Leader(schema[m.desc], n)]);
      ChecksFieldsBound(schema, m, n + 1);
    }
  }

  lemma {:induction false} VisitsValBound(schema: Schema, f: Field, v: Val, d: nat)
    requires TypedVal(schema, f, v) && DepthVal(v) <= d
    ensures VisitsVal(schema, f, v, true) <= d * CountVal(schema, f, v)
    decreases v, 0
  {
    if f.ltype.Submessage? {
      VisitsFieldsBound(schema, v.m, |v.m.slots|, d - 1);
    }
  }

  lemma {:induction false} VisitsItemsBound(schema: Schema, f: Field, items: seq<Val>, d: nat)
    requires TypedItems(schema, f, items) && DepthItems(items) <= d
    ensures VisitsItems(schema, f, items, true) <= d * CountItems(schema, f, items)
    decreases items, 1
  {
    if items != [] {
      var n := |items| - 1;
      VisitsItemsBound(schema, f, items[..n], d);
      VisitsValBound(schema, f, items[n], d);
      Distribute(d, CountItems(schema, f, items[..n]), CountVal(schema, f, items[n]));
    }
  }

  lemma {:induction false} VisitsSlotBound(schema: Schema, f: Field, slot: Slot, d: nat)
    requires TypedSlot(schema, f, slot) && DepthSlot(slot) <= d
    ensures VisitsSlot(schema, f, slot, true) <= d * CountSlot(schema, f, slot)
    decreases slot, 2
  {
    if f.htype.Repeated? {
      VisitsItemsBound(schema, f, slot.items, d);
    } else if Present(schema, f, slot) {
      VisitsValBound(schema, f, slot.v, d);
    }
  }

  lemma {:induction false} VisitsFieldBound(schema: Schema, m: Msg, n: nat, d: nat)
    requires TypedMsg(schema, m) && n < |m.slots| && Depth(m) <= d
    ensures VisitsField(schema, m, n, true) <= (1 + d) * CountField(schema, m, n)
    decreases m, 4
  {
    var fields := schema[m.desc];
    var f, slot := fields[n], m.slots[Leader(fields, n)];
    FieldFacts(schema, m, n);
    SlotWithinDepth(m.slots, Leader(fields, n));
    VisitsSlotBound(schema, f, slot, d);
    ChecksSlotBound(schema, f, slot);
    Distribute(1 + d, 1, CountSlot(schema, f, slot));
    Distribute(d, CountSlot(schema, f, slot), 0);
  }

  /** Each field below the top is checked by at most as many checks as there are structs around it. */
  lemma {:induction false} VisitsFieldsBound(schema: Schema, m: Msg, n: nat, d: nat)
    requires TypedMsg(schema, m) && n <= |m.slots| && Depth(m) <= d
    ensures VisitsFields(schema, m, n, true) <= (1 + d) * CountFields(schema, m, n)
    decreases m, 5, n
  {
    if n > 0 {
      VisitsFieldsBound(schema, m, n - 1, d);
      VisitsFieldBound(schema, m, n - 1, d);
      Distribute(1 + d, CountFields(schema, m, n - 1), CountField(schema, m, n - 1));
    }
  }

  /**
   Encoding everything below a submessage twice makes a real run longer by a factor of the depth at most, and the
   zero checks make either run longer by another one.
   */
  lemma WorkBound(schema: Schema, m: Msg)
    requires TypedMsg(schema, m)
    ensures VisitsMsg(schema, m, false) <= (1 + Depth(m)) * VisitsMsg(schema, m, true)
    ensures VisitsMsg(schema, m, true) <= (1 + Depth(m)) * CountFields(schema, m, |m.slots|)
  {
    RealVisits(schema, m);
    WeighFieldsBound(schema, m, |m.slots|, 1, Depth(m));
    VisitsFieldsBound(schema, m, |m.slots|, Depth(m));
  }
}
