/**
 The round trip and the merging of encoded messages field by field, in terms of encoding and decoding alone: what
 each slot holds afterwards follows from what was written and from how its value is read by itself.
 */
module ByField {
  import opened Bits
  import opened Wire
  import opened Descriptors
  import opened Encoding
  import opened Decoding
  import opened Normal
  import opened Merging
  import opened RoundTrip
  import opened Initial
  import opened Presence

  // ------------------------------------------------------------------ what is written

  predicate Writes(schema: Schema, m: Msg, i: nat)
    requires TypedMsg(schema, m) && i < |m.slots|
  {
    EncField(schema, m, i) != []
  }

  /** No field that uses this storage is written. */
  predicate Unwritten(schema: Schema, m: Msg, l: nat)
    requires TypedMsg(schema, m) && l < |m.slots|
  {
    forall i :: 0 <= i < |m.slots| && Leader(schema[m.desc], i) == l ==> !Writes(schema, m, i)
  }

  /** A value behind its flag, in its union, or behind its pointer. */
  function Holding(f: Field, v: Val): Slot
  {
    if f.htype.Oneof? then Union(f.tag, v)
    else if f.atype.Pointer? then Ptr(false, v)
    else if f.htype.Optional? && f.sizeOffset != 0 then Opt(true, v)
    else One(v)
  }

  /** A struct stored in place, which is merged with what it held. */
  predicate Merges(f: Field)
  {
    f.ltype.Submessage? && f.atype.Static? && (f.htype.Required? || f.htype.Optional?)
  }

  lemma WrittenFacts(schema: Schema, m: Msg, i: nat)
    requires TypedMsg(schema, m) && i < |m.slots| && !schema[m.desc][i].htype.Repeated?
    ensures var f, slot := schema[m.desc][i], m.slots[Leader(schema[m.desc], i)];
            && WfField(schema, m.desc, f) && TypedSlot(schema, f, slot)
            && (Writes(schema, m, i) <==> Present(schema, f, slot))
            && (Writes(schema, m, i) ==> (slot.One? || slot.Opt? || slot.Union? || slot.Ptr?) && TypedVal(schema, f, slot.v))
  {
    FieldFacts(schema, m, i);
    var f, slot := schema[m.desc][i], m.slots[Leader(schema[m.desc], i)];
    assert EncField(schema, m, i) == EncSlot(schema, f, slot);
    assert Present(schema, f, slot) ==> EncSlot(schema, f, slot) == EncTagged(schema, f, slot.v);
  }

  // ------------------------------------------------------------------ merging, field by field

  lemma MergedArray(schema: Schema, a: Msg, m: Msg, i: nat)
    requires TypedMsg(schema, a) && TypedMsg(schema, m) && a.desc == m.desc && i < |m.slots|
    requires schema[m.desc][i].htype.Repeated?
    ensures a.slots[i].Rep? && m.slots[i].Rep? && TypedItems(schema, schema[m.desc][i], m.slots[i].items)
    ensures MergeMsg(schema, a, m).slots[i] ==
            Rep(a.slots[i].items + RebuiltItems(schema, schema[m.desc][i], m.slots[i].items))
  {
    FieldFacts(schema, m, i);
    FieldFacts(schema, a, i);
    MergeActive(schema, a, m, i);
  }

  lemma MergedValue(schema: Schema, a: Msg, m: Msg, i: nat)
    requires TypedMsg(schema, a) && TypedMsg(schema, m) && a.desc == m.desc && i < |m.slots|
    requires !schema[m.desc][i].htype.Repeated? && Writes(schema, m, i)
    ensures var f, l := schema[m.desc][i], Leader(schema[m.desc], i);
            && TypedSlot(schema, f, m.slots[l]) && Present(schema, f, m.slots[l]) && TypedVal(schema, f, m.slots[l].v)
            && TypedSlot(schema, f, a.slots[l])
            && (Merges(f) ==> (a.slots[l].One? || a.slots[l].Opt?) && TypedVal(schema, f, a.slots[l].v))
            && MergeMsg(schema, a, m).slots[l] ==
               Holding(f, if Merges(f) then MergeVal(schema, f, a.slots[l].v, m.slots[l].v)
                          else RebuiltVal(schema, f, m.slots[l].v))
  {
    FieldFacts(schema, a, i);
    WrittenFacts(schema, m, i);
    MergeActive(schema, a, m, i);
  }

  lemma MergedNothing(schema: Schema, a: Msg, m: Msg, l: nat)
    requires TypedMsg(schema, a) && TypedMsg(schema, m) && a.desc == m.desc && l < |m.slots|
    requires Leader(schema[m.desc], l) == l && Unwritten(schema, m, l) && !schema[m.desc][l].htype.Repeated?
    ensures MergeMsg(schema, a, m).slots[l] == a.slots[l]
  {
    FieldFacts(schema, m, l);
    FieldFacts(schema, a, l);
    ActiveTyped(schema, m, l);
    var i := Active(schema[m.desc], m.slots, l);
    if i < |m.slots| {
      FieldFacts(schema, a, i);
      WrittenFacts(schema, m, i);
      assert Leader(schema[m.desc], i) == l && !Writes(schema, m, i);
      assert MergeField(schema, a, m, l) == MergeSlot(schema, schema[m.desc][i], a.slots[l], m.slots[l]);
    }
  }

  // ------------------------------------------------------------------ structs inside

  lemma {:induction false} FieldWithin(schema: Schema, m: Msg, i: nat, n: nat)
    requires TypedMsg(schema, m) && i < n <= |m.slots|
    ensures |EncField(schema, m, i)| <= |EncFields(schema, m, n)|
    decreases n
  {
    if i < n - 1 {
      FieldWithin(schema, m, i, n - 1);
    }
  }

  lemma {:induction false} EntryWithin(schema: Schema, f: Field, items: seq<Val>, k: nat)
    requires TypedItems(schema, f, items) && k < |items|
    ensures |EncVal(schema, f, items[k])| < |EncUnpacked(schema, f, items)|
    decreases |items|
  {
    if k < |items| - 1 {
      EntryWithin(schema, f, items[..|items| - 1], k);
    }
  }

  lemma ValidValue(schema: Schema, m: Msg, i: nat)
    requires Valid(schema, m) && i < |m.slots| && !schema[m.desc][i].htype.Repeated? && Writes(schema, m, i)
    ensures var f, slot := schema[m.desc][i], m.slots[Leader(schema[m.desc], i)];
            TypedSlot(schema, f, slot) && Present(schema, f, slot) && TypedVal(schema, f, slot.v) &&
            (f.ltype.Submessage? ==> Valid(schema, slot.v.m))
  {
    var f, slot := schema[m.desc][i], m.slots[Leader(schema[m.desc], i)];
    WrittenFacts(schema, m, i);
    EncodableEach(schema, m, i, |m.slots|);
    FieldWithin(schema, m, i, |m.slots|);
    if f.ltype.Submessage? {
      assert EncField(schema, m, i) == EncTagged(schema, f, slot.v);
      ValidPart(schema, f, slot.v);
    }
  }

  lemma ValidPart(schema: Schema, f: Field, v: Val)
    requires f.ltype.Submessage? && TypedVal(schema, f, v) && EncodableVal(schema, f, v) && |EncVal(schema, f, v)| < TWO_32
    ensures Valid(schema, v.m)
  {
    assert EncVal(schema, f, v) == EncString(EncMsg(schema, v.m));
  }

  lemma ValidEntry(schema: Schema, m: Msg, i: nat, k: nat)
    requires Valid(schema, m) && i < |m.slots| && schema[m.desc][i].htype.Repeated?
    requires m.slots[i].Rep? && k < |m.slots[i].items|
    ensures var f := schema[m.desc][i];
            TypedItems(schema, f, m.slots[i].items) && TypedVal(schema, f, m.slots[i].items[k]) &&
            (f.ltype.Submessage? ==> Valid(schema, m.slots[i].items[k].m))
  {
    var f, items := schema[m.desc][i], m.slots[i].items;
    FieldFacts(schema, m, i);
    EncodableEach(schema, m, i, |m.slots|);
    FieldWithin(schema, m, i, |m.slots|);
    if f.ltype.Submessage? {
      assert EncodableSlot(schema, f, m.slots[i]) && EncodableItems(schema, f, items);
      assert EncField(schema, m, i) == EncArray(schema, f, items) == EncUnpacked(schema, f, items);
      EntryWithin(schema, f, items, k);
      ValidPart(schema, f, items[k]);
    }
  }

  // ------------------------------------------------------------------ the round trip

  /** What a value is read back as: itself, or a struct as it is read back from its own encoding. */
  function ReadBack(schema: Schema, f: Field, v: Val): Val
    requires TypedVal(schema, f, v)
  {
    if f.ltype.Submessage? then
      match Decode(schema, f.sub, EncMsg(schema, v.m))
      case Ok(m, _) => VMsg(m)
      case Fail => VNone
    else v
  }

  lemma ReadBackIsRebuilt(schema: Schema, f: Field, v: Val)
    requires TypedVal(schema, f, v) && (f.ltype.Submessage? ==> Valid(schema, v.m))
    ensures ReadBack(schema, f, v) == RebuiltVal(schema, f, v)
    ensures f.ltype.Submessage? ==> Decode(schema, f.sub, EncMsg(schema, v.m)) == Ok(Rebuilt(schema, v.m), [])
  {
    if f.ltype.Submessage? {
      RoundTripMsg(schema, v.m);
    }
  }

  lemma SurvivesArray(schema: Schema, m: Msg, i: nat)
    requires Valid(schema, m) && i < |m.slots| && schema[m.desc][i].htype.Repeated?
    requires TypedMsg(schema, Defaults(schema, m.desc))
    ensures var f, slot := schema[m.desc][i], Rebuilt(schema, m).slots[i];
            && slot.Rep? && m.slots[i].Rep? && TypedItems(schema, f, m.slots[i].items)
            && |slot.items| == |m.slots[i].items|
            && forall k :: 0 <= k < |slot.items| ==> slot.items[k] == ReadBack(schema, f, m.slots[i].items[k])
  {
    var f := schema[m.desc][i];
    MergedArray(schema, Defaults(schema, m.desc), m, i);
    assert Defaults(schema, m.desc).slots[i] == DefaultSlot(schema, m.desc, i) == Rep([]);
    forall k | 0 <= k < |m.slots[i].items|
      ensures RebuiltItems(schema, f, m.slots[i].items)[k] == ReadBack(schema, f, m.slots[i].items[k])
    {
      ValidEntry(schema, m, i, k);
      ReadBackIsRebuilt(schema, f, m.slots[i].items[k]);
    }
  }

  lemma SurvivesValue(schema: Schema, m: Msg, i: nat)
    requires Valid(schema, m) && i < |m.slots| && !schema[m.desc][i].htype.Repeated? && Writes(schema, m, i)
    requires TypedMsg(schema, Defaults(schema, m.desc))
    ensures var f, l := schema[m.desc][i], Leader(schema[m.desc], i);
            && TypedSlot(schema, f, m.slots[l]) && Present(schema, f, m.slots[l]) && TypedVal(schema, f, m.slots[l].v)
            && Rebuilt(schema, m).slots[l] == Holding(f, ReadBack(schema, f, m.slots[l].v))
  {
    var f, l := schema[m.desc][i], Leader(schema[m.desc], i);
    MergedValue(schema, Defaults(schema, m.desc), m, i);
    ValidValue(schema, m, i);
    ReadBackIsRebuilt(schema, f, m.slots[l].v);
    if Merges(f) {
      DefaultStorage(schema, m.desc, i);
    }
  }

  /**
   Every message that is encoded is read back field by field: arrays entry by entry, each value that was written
   as it was, structs as from their own encoding, and the storage of what was not written is initial.
   */
  lemma FieldSurvives(schema: Schema, m: Msg, i: nat)
    requires Valid(schema, m) && i < |m.slots|
    ensures Decode(schema, m.desc, EncMsg(schema, m)).Ok? && Decode(schema, m.desc, EncMsg(schema, m)).rest == []
    ensures var f, l := schema[m.desc][i], Leader(schema[m.desc], i);
            var slot, slot' := m.slots[l], Decode(schema, m.desc, EncMsg(schema, m)).value.slots[l];
            && (f.htype.Repeated? ==>
                  && slot.Rep? && slot'.Rep? && |slot'.items| == |slot.items| && TypedItems(schema, f, slot.items)
                  && forall k :: 0 <= k < |slot.items| ==> slot'.items[k] == ReadBack(schema, f, slot.items[k]))
            && (!f.htype.Repeated? && Writes(schema, m, i) ==>
                  && (slot.One? || slot.Opt? || slot.Union? || slot.Ptr?) && TypedVal(schema, f, slot.v)
                  && slot' == Holding(f, ReadBack(schema, f, slot.v)))
            && (Unwritten(schema, m, l) ==> InitialSlot(schema, f, slot'))
  {
    var fields, l := schema[m.desc], Leader(schema[m.desc], i);
    RoundTripMsg(schema, m);
    DefaultsTyped(schema, m.desc);
    FieldFacts(schema, m, i);
    if fields[i].htype.Repeated? {
      SurvivesArray(schema, m, i);
    } else if Writes(schema, m, i) {
      WrittenFacts(schema, m, i);
      SurvivesValue(schema, m, i);
    }
    if Unwritten(schema, m, l) {
      SurvivesNothing(schema, m, i);
    }
  }

  lemma SurvivesNothing(schema: Schema, m: Msg, i: nat)
    requires Valid(schema, m) && i < |m.slots| && Unwritten(schema, m, Leader(schema[m.desc], i))
    requires TypedMsg(schema, Defaults(schema, m.desc))
    ensures InitialSlot(schema, schema[m.desc][i], Rebuilt(schema, m).slots[Leader(schema[m.desc], i)])
  {
    var f, l := schema[m.desc][i], Leader(schema[m.desc], i);
    if f.htype.Repeated? {
      SurvivesArray(schema, m, i);
      FieldFacts(schema, m, i);
      assert !Writes(schema, m, i) && EncField(schema, m, i) == EncArray(schema, f, m.slots[i].items);
      if m.slots[i].items != [] {
        ArrayWritten(schema, f, m.slots[i].items);
      }
    } else {
      MergedNothing(schema, Defaults(schema, m.desc), m, l);
      InitialAt(schema, m.desc, i);
    }
  }

  // ------------------------------------------------------------------ one message after another

  lemma {:induction false} FitsEach(schema: Schema, a: Msg, m: Msg, n: nat)
    requires TypedMsg(schema, a) && TypedMsg(schema, m) && a.desc == m.desc && n <= |m.slots|
    ensures FitsTo(schema, a, m, n) ==> forall i :: 0 <= i < n ==> FitsAt(schema, a, m, i)
    ensures !FitsTo(schema, a, m, n) ==> exists i :: 0 <= i < n && !FitsAt(schema, a, m, i)
  {
    if n > 0 {
      FitsEach(schema, a, m, n - 1);
      assert FitsTo(schema, a, m, n) <==> FitsTo(schema, a, m, n - 1) && FitsAt(schema, a, m, n - 1);
    }
  }

  /** What was put on the wire for the struct that is stored in field i, by the two messages one after the other. */
  function BothInside(schema: Schema, x: Msg, y: Msg, i: nat): bytes
    requires TypedMsg(schema, x) && TypedMsg(schema, y) && x.desc == y.desc && i < |y.slots|
    requires Merges(schema[y.desc][i]) && Writes(schema, y, i)
  {
    FieldFacts(schema, x, i);
    FieldFacts(schema, y, i);
    (if Writes(schema, x, i) then EncMsg(schema, x.slots[i].v.m) else []) + EncMsg(schema, y.slots[i].v.m)
  }

  /** What those bytes decode to by themselves. */
  function DecodeInside(schema: Schema, x: Msg, y: Msg, i: nat): Parsed<Msg>
    requires TypedMsg(schema, x) && TypedMsg(schema, y) && x.desc == y.desc && i < |y.slots|
    requires Merges(schema[y.desc][i]) && Writes(schema, y, i)
  {
    FieldFacts(schema, y, i);
    Decode(schema, schema[y.desc][i].sub, BothInside(schema, x, y, i))
  }

  lemma {:induction false} MergedInside(schema: Schema, x: Msg, y: Msg, i: nat)
    requires Valid(schema, x) && Valid(schema, y) && x.desc == y.desc && i < |y.slots|
    requires Merges(schema[y.desc][i]) && Writes(schema, y, i)
    requires TypedMsg(schema, Defaults(schema, x.desc)) && TypedMsg(schema, Rebuilt(schema, x))
    ensures var f, a := schema[y.desc][i], Rebuilt(schema, x).slots[i];
            && TypedSlot(schema, f, y.slots[i]) && TypedVal(schema, f, y.slots[i].v)
            && (a.One? || a.Opt?) && TypedVal(schema, f, a.v)
            && DecodeInside(schema, x, y, i) ==
               if FitsMsg(schema, a.v.m, y.slots[i].v.m) then Ok(MergeMsg(schema, a.v.m, y.slots[i].v.m), []) else Fail
  {
    FieldFacts(schema, x, i);
    FieldFacts(schema, Rebuilt(schema, x), i);
    ValidValue(schema, y, i);
    var f, v := schema[y.desc][i], y.slots[i].v;
    if Writes(schema, x, i) {
      ValidValue(schema, x, i);
      SurvivesValue(schema, x, i);
      ReadBackIsRebuilt(schema, f, x.slots[i].v);
      LastOneWins(schema, x.slots[i].v.m, v.m);
    } else {
      FirstInside(schema, x, y, i);
    }
  }

  lemma FirstInside(schema: Schema, x: Msg, y: Msg, i: nat)
    requires Valid(schema, x) && Valid(schema, y) && x.desc == y.desc && i < |y.slots|
    requires Merges(schema[y.desc][i]) && Writes(schema, y, i) && !Writes(schema, x, i)
    requires TypedMsg(schema, Defaults(schema, x.desc))
    ensures var f, a := schema[y.desc][i], Rebuilt(schema, x).slots[i];
            && TypedSlot(schema, f, y.slots[i]) && TypedVal(schema, f, y.slots[i].v)
            && (a.One? || a.Opt?) && f.sub < |schema| && a.v == VMsg(Defaults(schema, f.sub)) && TypedVal(schema, f, a.v)
            && FitsMsg(schema, a.v.m, y.slots[i].v.m)
            && DecodeInside(schema, x, y, i) == Ok(MergeMsg(schema, a.v.m, y.slots[i].v.m), [])
  {
    FieldFacts(schema, x, i);
    ValidValue(schema, y, i);
    var f, v := schema[y.desc][i], y.slots[i].v;
    MergedNothing(schema, Defaults(schema, x.desc), x, i);
    DefaultStorage(schema, x.desc, i);
    FreshFits(schema, v.m);
    RoundTripMsg(schema, v.m);
    assert [] + EncMsg(schema, v.m) == EncMsg(schema, v.m);
  }

  /** An array has no room for the entries of both, or the struct stored in field i has such an array in it. */
  predicate Overflows(schema: Schema, x: Msg, y: Msg, i: nat)
    requires TypedMsg(schema, x) && TypedMsg(schema, y) && x.desc == y.desc && i < |y.slots|
  {
    var f := schema[y.desc][i];
    FieldFacts(schema, x, i);
    FieldFacts(schema, y, i);
    if f.htype.Repeated? then
      y.slots[i].items != [] &&
      |x.slots[i].items| + |y.slots[i].items| > if f.atype.Static? then f.arraySize else 0xFFFF_FFFF
    else Merges(f) && Writes(schema, y, i) && DecodeInside(schema, x, y, i) == Fail
  }

  lemma FitsByField(schema: Schema, x: Msg, y: Msg, i: nat)
    requires Valid(schema, x) && Valid(schema, y) && x.desc == y.desc && i < |y.slots|
    requires TypedMsg(schema, Defaults(schema, x.desc)) && TypedMsg(schema, Rebuilt(schema, x))
    ensures FitsAt(schema, Rebuilt(schema, x), y, i) <==> !Overflows(schema, x, y, i)
  {
    var f := schema[y.desc][i];
    FieldFacts(schema, y, i);
    FieldFacts(schema, Rebuilt(schema, x), i);
    if f.htype.Repeated? {
      SurvivesArray(schema, x, i);
    } else {
      WrittenFacts(schema, y, i);
      if Merges(f) && Writes(schema, y, i) {
        MergedInside(schema, x, y, i);
        assert FitsAt(schema, Rebuilt(schema, x), y, i) <==>
               FitsVal(schema, f, Rebuilt(schema, x).slots[i].v, y.slots[i].v);
      } else {
        var l := Leader(schema[y.desc], i);
        assert FitsSlot(schema, f, Rebuilt(schema, x).slots[l], y.slots[l]);
      }
    }
  }

  /** Decoding two encodings in a row fails exactly when some array, at any depth, has no room for both. */
  lemma BothFitExactly(schema: Schema, x: Msg, y: Msg)
    requires Valid(schema, x) && Valid(schema, y) && x.desc == y.desc
    ensures Decode(schema, x.desc, EncMsg(schema, x) + EncMsg(schema, y)) == Fail <==>
            exists i :: 0 <= i < |y.slots| && Overflows(schema, x, y, i)
  {
    LastOneWins(schema, x, y);
    DefaultsTyped(schema, x.desc);
    FitsEach(schema, Rebuilt(schema, x), y, |y.slots|);
    forall i | 0 <= i < |y.slots| ensures FitsAt(schema, Rebuilt(schema, x), y, i) <==> !Overflows(schema, x, y, i) {
      FitsByField(schema, x, y, i);
    }
    if !FitsMsg(schema, Rebuilt(schema, x), y) {
      var i :| 0 <= i < |y.slots| && !FitsAt(schema, Rebuilt(schema, x), y, i);
      assert Overflows(schema, x, y, i);
    }
  }

  /**
   Last one wins, field by field. With X and Y for what the two encodings decode to by themselves: an array has the
   entries of X and then those of Y; a struct stored in place is what its own two encodings decode to in a row; any
   other field that the second message wrote is as in Y, and what it did not write is as in X.
   */
  lemma LastOneWinsByField(schema: Schema, x: Msg, y: Msg, i: nat)
    requires Valid(schema, x) && Valid(schema, y) && x.desc == y.desc && i < |y.slots|
    requires Decode(schema, x.desc, EncMsg(schema, x) + EncMsg(schema, y)).Ok?
    ensures Decode(schema, x.desc, EncMsg(schema, x) + EncMsg(schema, y)).rest == []
    ensures Decode(schema, x.desc, EncMsg(schema, x)).Ok? && Decode(schema, x.desc, EncMsg(schema, y)).Ok?
    ensures var f, l := schema[y.desc][i], Leader(schema[y.desc], i);
            var X, Y := Decode(schema, x.desc, EncMsg(schema, x)).value, Decode(schema, x.desc, EncMsg(schema, y)).value;
            var slot := Decode(schema, x.desc, EncMsg(schema, x) + EncMsg(schema, y)).value.slots[l];
            && (f.htype.Repeated? ==>
                  X.slots[l].Rep? && Y.slots[l].Rep? && slot == Rep(X.slots[l].items + Y.slots[l].items))
            && (!f.htype.Repeated? && Writes(schema, y, i) && !Merges(f) ==> slot == Y.slots[l])
            && (Merges(f) && Writes(schema, y, i) ==>
                  var r := DecodeInside(schema, x, y, i);
                  r.Ok? && slot == Holding(f, VMsg(r.value)))
            && (!f.htype.Repeated? && Unwritten(schema, y, l) ==> slot == X.slots[l])
  {
    var f, l, n := schema[y.desc][i], Leader(schema[y.desc], i), Rebuilt(schema, x);
    RoundTripMsg(schema, x);
    RoundTripMsg(schema, y);
    LastOneWins(schema, x, y);
    DefaultsTyped(schema, x.desc);
    FieldFacts(schema, y, i);
    if f.htype.Repeated? {
      ArrayAfter(schema, n, y, i);
    } else if Writes(schema, y, i) {
      if Merges(f) {
        MergedValue(schema, n, y, i);
        MergedInside(schema, x, y, i);
        FitsEach(schema, n, y, |y.slots|);
        assert FitsAt(schema, n, y, i);
        FitsByField(schema, x, y, i);
      } else {
        MergedValue(schema, n, y, i);
        MergedValue(schema, Defaults(schema, y.desc), y, i);
      }
    } else if Unwritten(schema, y, l) {
      MergedNothing(schema, n, y, l);
    }
  }

  lemma ArrayAfter(schema: Schema, a: Msg, y: Msg, i: nat)
    requires TypedMsg(schema, a) && TypedMsg(schema, y) && a.desc == y.desc && i < |y.slots|
    requires schema[y.desc][i].htype.Repeated? && TypedMsg(schema, Defaults(schema, y.desc))
    ensures a.slots[i].Rep? && Rebuilt(schema, y).slots[i].Rep?
    ensures MergeMsg(schema, a, y).slots[i] == Rep(a.slots[i].items + Rebuilt(schema, y).slots[i].items)
  {
    MergedArray(schema, a, y, i);
    MergedArray(schema, Defaults(schema, y.desc), y, i);
    assert Defaults(schema, y.desc).slots[i] == DefaultSlot(schema, y.desc, i) == Rep([]);
    var items := RebuiltItems(schema, schema[y.desc][i], y.slots[i].items);
    assert [] + items == items;
  }
}
