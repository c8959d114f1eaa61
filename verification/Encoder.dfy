/**
 The message encoder on streams. Each method writes exactly what `Encoding` says, or fails exactly when the
 struct is not encodable or the stream is too small.
 */
module Encoder {
  import opened Bits
  import opened Wire
  import opened Descriptors
  import opened Encoding
  import opened Iteration
  import opened Output
  import opened Work
  import opened ZeroCheck

  // ------------------------------------------------------------------ the zero check

  /**
   The struct from the place of a pointer on. Where a block lies and what lies behind a pointer is not known, but
   what the check makes of it is a fact about the struct.
   */
  method PlaceOf(n: nat, isNull: bool, zero: bool) returns (memory: bytes)
    requires n > 0 && (zero != isNull ==> CanMisread(n, isNull))
    ensures n <= |memory| && (ZeroBytes(memory, n) <==> zero)
    ensures exists address, beyond :: Shows(n, isNull, zero, address, beyond) && memory == Place(address, beyond)
  {
    var address: nat, beyond: bytes := *, *;
    if !Shows(n, isNull, zero, address, beyond) {
      ExampleShows(n, isNull, zero);
      var example := Example(n, isNull, zero);
      address, beyond := example.0, example.1;
    }
    memory := Place(address, beyond);
  }

  /** The zero check on a pointer, which reads as many bytes as an entry has. */
  method CheckPointer(schema: Schema, f: Field, slot: Slot) returns (zero: bool)
    requires WfSize(f) && TypedSlot(schema, f, slot) && f.htype.Optional? && f.atype.Pointer?
    ensures zero == IsZeroSlot(schema, f, slot)
    ensures f.dataSize == POINTER_SIZE ==> zero == slot.Null?
  {
    var memory := PlaceOf(f.dataSize, slot.Null?, IsZeroSlot(schema, f, slot));
    zero := AllZero(memory, f.dataSize);
  }

  method CheckDefault(schema: Schema, f: Field, slot: Slot) returns (zero: bool, ghost visits: nat)
    requires WfSize(f) && TypedSlot(schema, f, slot)
    ensures zero == IsZeroSlot(schema, f, slot)
    ensures visits == ChecksSlot(schema, f, slot)
    decreases slot, 1
  {
    visits := 0;
    if f.htype.Required? {
      return false, 0;
    } else if f.htype.Repeated? {
      return |slot.items| == 0, 0;
    } else if f.htype.Oneof? {
      return slot.which == 0, 0;
    } else if f.sizeOffset != 0 && f.atype.Static? {
      return !slot.has, 0;
    }
    if f.atype.Pointer? {
      zero := CheckPointer(schema, f, slot);
    } else if f.ltype.Bytes? || f.ltype.String? {
      return |slot.v.b| == 0, 0;
    } else if f.ltype.FixedLengthBytes? {
      return f.dataSize == 0, 0;
    } else if f.ltype.Submessage? {
      zero, visits := CheckSubmessage(schema, slot.v.m);
    } else {
      return slot.v.i == 0, 0;
    }
  }

  /** All fields of a submessage, up to the first that is not zero. */
  method CheckSubmessage(schema: Schema, m: Msg) returns (zero: bool, ghost visits: nat)
    requires TypedMsg(schema, m)
    ensures zero == IsZeroMsg(schema, m)
    ensures visits == ChecksFields(schema, m, 0)
    decreases m, 2
  {
    assert WfDesc(schema, m.desc);
    var iter := new FieldIter(schema[m.desc]);
    zero, visits := CheckLoop(schema, m, iter);
  }

  method CheckLoop(schema: Schema, m: Msg, iter: FieldIter) returns (zero: bool, ghost visits: nat)
    requires TypedMsg(schema, m) && iter.Valid() && iter.fields == schema[m.desc] && iter.pos == 0
    modifies iter
    ensures zero == IsZeroMsg(schema, m)
    ensures visits == ChecksFields(schema, m, 0)
    decreases m, 1
  {
    var more := iter.fields != [];
    zero, visits := true, 0;
    ghost var n := 0;
    while more
      invariant iter.Valid() && 0 <= n <= |m.slots| && (if more then n == iter.pos < |m.slots| else n == |m.slots|)
      invariant zero && IsZeroTo(schema, m, n)
      invariant visits + ChecksFields(schema, m, n) == ChecksFields(schema, m, 0)
      decreases |m.slots| - n
    {
      ghost var below;
      zero, below := CheckNth(schema, m, iter.pos);
      visits := visits + below;
      if !zero {
        NotZero(schema, m, n);
        return;
      }
      n := n + 1;
      more := iter.Next();
    }
  }

  predicate IsZeroTo(schema: Schema, m: Msg, n: nat)
    requires TypedMsg(schema, m) && n <= |m.slots|
  {
    forall i :: 0 <= i < n ==> IsZeroField(schema, m, i)
  }

  lemma NotZero(schema: Schema, m: Msg, i: nat)
    requires TypedMsg(schema, m) && i < |m.slots| && !IsZeroField(schema, m, i)
    ensures !IsZeroMsg(schema, m)
  {}

  method CheckNth(schema: Schema, m: Msg, n: nat) returns (zero: bool, ghost visits: nat)
    requires TypedMsg(schema, m) && n < |m.slots|
    ensures zero == IsZeroField(schema, m, n)
    ensures ChecksFields(schema, m, n) == visits + if zero then ChecksFields(schema, m, n + 1) else 0
    decreases m, 0
  {
    var fields := schema[m.desc];
    FieldFacts(schema, m, n);
    zero, visits := CheckDefault(schema, fields[n], m.slots[Leader(fields, n)]);
    visits := visits + 1;
  }

  // ------------------------------------------------------------------ parts of an encoding

  lemma OutcomeOfPart(
    sizing: bool, maxSize: nat, before: bytes, after: bytes, a: bytes, b: bytes, good1: bool, good2: bool)
    requires Outcome(false, sizing, maxSize, before, after, a, good1)
    requires a <= b && (good2 ==> good1)
    ensures Outcome(false, sizing, maxSize, before, after, b, good2)
  {}

  lemma {:induction false} PackedPrefix(schema: Schema, f: Field, items: seq<Val>, n: nat)
    requires TypedItems(schema, f, items) && n <= |items|
    ensures EncPacked(schema, f, items[..n]) <= EncPacked(schema, f, items)
  {
    if n < |items| {
      var k := |items| - 1;
      PackedPrefix(schema, f, items[..k], n);
      assert items[..k][..n] == items[..n];
    } else {
      assert items[..n] == items;
    }
  }

  lemma {:induction false} UnpackedPrefix(schema: Schema, f: Field, items: seq<Val>, n: nat)
    requires TypedItems(schema, f, items) && n <= |items|
    ensures EncUnpacked(schema, f, items[..n]) <= EncUnpacked(schema, f, items)
  {
    if n < |items| {
      var k := |items| - 1;
      UnpackedPrefix(schema, f, items[..k], n);
      assert items[..k][..n] == items[..n];
    } else {
      assert items[..n] == items;
    }
  }

  lemma {:induction false} FieldsPrefix(schema: Schema, m: Msg, n: nat)
    requires TypedMsg(schema, m) && n <= |m.slots|
    ensures EncFields(schema, m, n) <= EncMsg(schema, m)
    decreases |m.slots| - n
  {
    if n < |m.slots| {
      FieldFacts(schema, m, n);
      FieldsPrefix(schema, m, n + 1);
    }
  }

  // ------------------------------------------------------------------ values

  method EncodeScalar(s: OStream, schema: Schema, f: Field, v: Val) returns (ok: bool)
    requires s.Valid() && WfSize(f) && !f.ltype.Submessage? && TypedVal(schema, f, v)
    requires |EncVal(schema, f, v)| < TWO_64
    modifies s, s.buf
    ensures s.Valid() && s.Framed()
    ensures Outcome(ok, s.sizing, s.maxSize, old(s.Contents), s.Contents, EncVal(schema, f, v), EncodableVal(schema, f, v))
  {
    if f.Packable() {
      ok := EncodeNumber(s, schema, f, v);
      return;
    }
    if f.ltype.Bytes? && f.atype.Static? && |v.b| + BYTES_HEADER > f.dataSize {
      return false;
    }
    ok := EncodeString(s, v.b);
  }

  method EncodeNumber(s: OStream, schema: Schema, f: Field, v: Val) returns (ok: bool)
    requires s.Valid() && WfSize(f) && f.Packable() && TypedVal(schema, f, v)
    modifies s, s.buf
    ensures s.Valid() && s.Framed()
    ensures Outcome(ok, s.sizing, s.maxSize, old(s.Contents), s.Contents, EncVal(schema, f, v), true)
  {
    match f.ltype
    case Bool => ok := EncodeVarint(s, v.i);
    case Varint => ok := EncodeVarint(s, ToUint64(v.i));
    case UVarint => ok := EncodeVarint(s, v.i);
    case SVarint => ok := EncodeSVarint(s, v.i);
    case Fixed32 => ok := EncodeFixed32(s, v.i);
    case Fixed64 => ok := EncodeFixed64(s, v.i);
  }

  method EncodeValue(s: OStream, schema: Schema, f: Field, v: Val) returns (ok: bool, ghost visits: nat)
    requires s.Valid() && WfSize(f) && TypedVal(schema, f, v) && |EncVal(schema, f, v)| < TWO_64
    modifies s, s.buf
    ensures s.Valid() && s.Framed()
    ensures Outcome(ok, s.sizing, s.maxSize, old(s.Contents), s.Contents, EncVal(schema, f, v), EncodableVal(schema, f, v))
    ensures ok ==> visits == VisitsVal(schema, f, v, s.sizing)
    decreases v, 1
  {
    if f.ltype.Submessage? {
      ok, visits := EncodeSubmessage(s, schema, v.m);
    } else {
      ok := EncodeScalar(s, schema, f, v);
      visits := 0;
    }
  }

  /**
   A submessage is measured first and then written through a stream of exactly that size. The two passes agree:
   once there is room for the measured size, the second pass cannot fail.
   */
  method EncodeSubmessage(s: OStream, schema: Schema, m: Msg) returns (ok: bool, ghost visits: nat)
    requires s.Valid() && TypedMsg(schema, m) && |EncMsg(schema, m)| < TWO_64
    modifies s, s.buf
    ensures s.Valid() && s.Framed()
    ensures Outcome(ok, s.sizing, s.maxSize, old(s.Contents), s.Contents, EncString(EncMsg(schema, m)), EncodableMsg(schema, m))
    ensures ok ==> visits == VisitsMsg(schema, m, true) + if s.sizing then 0 else VisitsMsg(schema, m, false)
    decreases m, 6
  {
    ghost var body := EncMsg(schema, m);
    ghost var head := EncVarint(|body|);
    var measure := new OStream.Sizing();
    ok, visits := Encode(measure, schema, m);
    if !ok {
      return;
    }
    var size := measure.bytesWritten;
    ok := EncodeVarint(s, size);
    ghost var c := s.Contents;
    if !ok {
      OutcomeOfPart(s.sizing, s.maxSize, old(s.Contents), c, head, head + body, true, true);
      return;
    }
    if s.sizing {
      ok := s.Count(size, body);
      OutcomeThen(true, ok, s.sizing, s.maxSize, old(s.Contents), c, s.Contents, head, body, true, true);
      return;
    }
    if s.bytesWritten + size > s.maxSize {
      return false, visits;
    }
    ghost var more;
    ok, more := WriteMeasured(s, schema, m, size);
    visits := visits + more;
    assert c + body == old(s.Contents) + (head + body);
  }

  /** The second pass: there is room, so it succeeds and writes as many bytes as were measured, which is checked. */
  method WriteMeasured(s: OStream, schema: Schema, m: Msg, size: nat) returns (ok: bool, ghost visits: nat)
    requires s.Valid() && !s.sizing && TypedMsg(schema, m) && EncodableMsg(schema, m)
    requires size == |EncMsg(schema, m)| < TWO_64 && s.bytesWritten + size <= s.maxSize
    modifies s, s.buf
    ensures s.Valid() && s.Framed()
    ensures ok && s.Contents == old(s.Contents) + EncMsg(schema, m)
    ensures visits == VisitsMsg(schema, m, false)
    decreases m, 5, 2
  {
    var sub := new OStream.Within(s, size);
    var status;
    status, visits := Encode(sub, schema, m);
    assert s.buf[s.start..s.state] == old(s.buf[s.start..s.state]);
    s.Absorb(sub);
    ok := status && sub.bytesWritten == size;
  }

  // ------------------------------------------------------------------ arrays

  /** The size of a packed array: known for fixed-size entries, measured otherwise. */
  method MeasurePacked(schema: Schema, f: Field, items: seq<Val>) returns (ok: bool, size: nat)
    requires WfSize(f) && f.Packable() && TypedItems(schema, f, items)
    requires |EncPacked(schema, f, items)| < TWO_64
    ensures ok && size == |EncPacked(schema, f, items)|
  {
    if f.ltype.Fixed32? {
      PackedFixed(schema, f, items);
      return true, 4 * |items|;
    } else if f.ltype.Fixed64? {
      PackedFixed(schema, f, items);
      return true, 8 * |items|;
    }
    size := 0;
    var measure := new OStream.Sizing();
    for i := 0 to |items|
      invariant measure.Valid() && measure.sizing && fresh(measure) && fresh(measure.buf)
      invariant measure.Contents == EncPacked(schema, f, items[..i])
    {
      PackedPrefix(schema, f, items, i + 1);
      assert items[..i + 1][..i] == items[..i];
      ok := EncodeScalar(measure, schema, f, items[i]);
      if !ok {
        return;
      }
    }
    assert items[..|items|] == items;
    return true, measure.bytesWritten;
  }

  lemma {:induction false} PackedFixed(schema: Schema, f: Field, items: seq<Val>)
    requires TypedItems(schema, f, items)
    ensures f.ltype.Fixed32? ==> |EncPacked(schema, f, items)| == 4 * |items|
    ensures f.ltype.Fixed64? ==> |EncPacked(schema, f, items)| == 8 * |items|
  {
    if items != [] {
      PackedFixed(schema, f, items[..|items| - 1]);
    }
  }

  /** Entry i of a packed array, after the entries before it have been written behind `c`. */
  method EncodePackedEntry(s: OStream, schema: Schema, f: Field, items: seq<Val>, i: nat, ghost c: bytes) returns (ok: bool)
    requires s.Valid() && WfSize(f) && f.Packable() && TypedItems(schema, f, items) && i < |items|
    requires |EncPacked(schema, f, items)| < TWO_64
    requires s.Contents == c + EncPacked(schema, f, items[..i])
    modifies s, s.buf
    ensures s.Valid() && s.Framed()
    ensures ok ==> s.Contents == c + EncPacked(schema, f, items[..i + 1])
    ensures !ok ==> Outcome(false, s.sizing, s.maxSize, c, s.Contents, EncPacked(schema, f, items), true)
  {
    ghost var c1 := s.Contents;
    PackedPrefix(schema, f, items, i + 1);
    assert items[..i + 1][..i] == items[..i];
    ok := EncodeScalar(s, schema, f, items[i]);
    OutcomeThen(true, ok, s.sizing, s.maxSize, c, c1, s.Contents,
                EncPacked(schema, f, items[..i]), EncVal(schema, f, items[i]), true, true);
    if !ok {
      OutcomeOfPart(s.sizing, s.maxSize, c, s.Contents,
                    EncPacked(schema, f, items[..i + 1]), EncPacked(schema, f, items), true, true);
    }
  }

  method EncodePackedItems(s: OStream, schema: Schema, f: Field, items: seq<Val>) returns (ok: bool)
    requires s.Valid() && WfSize(f) && f.Packable() && TypedItems(schema, f, items)
    requires |EncPacked(schema, f, items)| < TWO_64
    modifies s, s.buf
    ensures s.Valid() && s.Framed()
    ensures Outcome(ok, s.sizing, s.maxSize, old(s.Contents), s.Contents, EncPacked(schema, f, items), true)
  {
    for i := 0 to |items|
      invariant s.Valid() && s.Framed()
      invariant s.Contents == old(s.Contents) + EncPacked(schema, f, items[..i])
    {
      ok := EncodePackedEntry(s, schema, f, items, i, old(s.Contents));
      if !ok {
        return;
      }
    }
    assert items[..|items|] == items;
    ok := true;
  }

  method EncodeTagged(s: OStream, schema: Schema, f: Field, v: Val) returns (ok: bool, ghost visits: nat)
    requires s.Valid() && WfSize(f) && TypedVal(schema, f, v) && f.tag < TAG_LIMIT
    requires |EncTagged(schema, f, v)| < TWO_64
    modifies s, s.buf
    ensures s.Valid() && s.Framed()
    ensures Outcome(ok, s.sizing, s.maxSize, old(s.Contents), s.Contents, EncTagged(schema, f, v), EncodableVal(schema, f, v))
    ensures ok ==> visits == VisitsVal(schema, f, v, s.sizing)
    decreases v, 2
  {
    ok := EncodeTag(s, f.WireType(), f.tag);
    ghost var c, ok1 := s.Contents, ok;
    visits := 0;
    if ok {
      ok, visits := EncodeValue(s, schema, f, v);
    }
    OutcomeThen(ok1, ok, s.sizing, s.maxSize, old(s.Contents), c, s.Contents,
                EncTag(f.WireType(), f.tag), EncVal(schema, f, v), true, EncodableVal(schema, f, v));
  }

  method EncodePackedArray(s: OStream, schema: Schema, f: Field, items: seq<Val>) returns (ok: bool)
    requires s.Valid() && WfSize(f) && f.Packable() && TypedItems(schema, f, items) && f.tag < TAG_LIMIT
    requires |EncTag(WT_STRING, f.tag) + EncString(EncPacked(schema, f, items))| < TWO_64
    modifies s, s.buf
    ensures s.Valid() && s.Framed()
    ensures Outcome(ok, s.sizing, s.maxSize, old(s.Contents), s.Contents,
                    EncTag(WT_STRING, f.tag) + EncString(EncPacked(schema, f, items)), true)
  {
    ghost var tag, p := EncTag(WT_STRING, f.tag), EncPacked(schema, f, items);
    ghost var head := EncVarint(|p|);
    ConcatAssociates(tag, head, p);
    ok := EncodeTag(s, WT_STRING, f.tag);
    if !ok {
      OutcomeOfPart(s.sizing, s.maxSize, old(s.Contents), s.Contents, tag, tag + EncString(p), true, true);
      return;
    }
    ghost var c1 := s.Contents;
    var measured, size := MeasurePacked(schema, f, items);
    if !measured {
      return false;
    }
    ok := EncodeVarint(s, size);
    ghost var c2 := s.Contents;
    OutcomeThen(true, ok, s.sizing, s.maxSize, old(s.Contents), c1, c2, tag, head, true, true);
    if !ok {
      OutcomeOfPart(s.sizing, s.maxSize, old(s.Contents), s.Contents, tag + head, tag + EncString(p), true, true);
      return;
    }
    if s.sizing {
      ok := s.Count(size, p);
    } else {
      ok := EncodePackedItems(s, schema, f, items);
    }
    OutcomeThen(true, ok, s.sizing, s.maxSize, old(s.Contents), c2, s.Contents, tag + head, p, true, true);
  }

  /** Entry i, after the entries before it have been written behind `c`. */
  method EncodeEntry(s: OStream, schema: Schema, f: Field, items: seq<Val>, i: nat, ghost c: bytes)
    returns (ok: bool, ghost visits: nat)
    requires s.Valid() && WfSize(f) && TypedItems(schema, f, items) && f.tag < TAG_LIMIT && i < |items|
    requires |EncUnpacked(schema, f, items)| < TWO_64
    requires s.Contents == c + EncUnpacked(schema, f, items[..i]) && EncodableItems(schema, f, items[..i])
    modifies s, s.buf
    ensures s.Valid() && s.Framed()
    ensures ok ==> s.Contents == c + EncUnpacked(schema, f, items[..i + 1]) && EncodableItems(schema, f, items[..i + 1])
    ensures ok ==> VisitsItems(schema, f, items[..i + 1], s.sizing) == VisitsItems(schema, f, items[..i], s.sizing) + visits
    ensures !ok ==> Outcome(false, s.sizing, s.maxSize, c, s.Contents,
                            EncUnpacked(schema, f, items), EncodableItems(schema, f, items))
    decreases items, 2
  {
    UnpackedPrefix(schema, f, items, i + 1);
    assert items[..i + 1][..i] == items[..i];
    ghost var c1 := s.Contents;
    ok, visits := EncodeTagged(s, schema, f, items[i]);
    OutcomeThen(true, ok, s.sizing, s.maxSize, c, c1, s.Contents, EncUnpacked(schema, f, items[..i]),
                EncTagged(schema, f, items[i]), true, EncodableVal(schema, f, items[i]));
    if !ok {
      OutcomeOfPart(s.sizing, s.maxSize, c, s.Contents,
                    EncUnpacked(schema, f, items[..i + 1]), EncUnpacked(schema, f, items),
                    EncodableVal(schema, f, items[i]), EncodableItems(schema, f, items));
    }
  }

  method EncodeUnpackedArray(s: OStream, schema: Schema, f: Field, items: seq<Val>) returns (ok: bool, ghost visits: nat)
    requires s.Valid() && WfSize(f) && TypedItems(schema, f, items) && f.tag < TAG_LIMIT
    requires |EncUnpacked(schema, f, items)| < TWO_64
    modifies s, s.buf
    ensures s.Valid() && s.Framed()
    ensures Outcome(ok, s.sizing, s.maxSize, old(s.Contents), s.Contents,
                    EncUnpacked(schema, f, items), EncodableItems(schema, f, items))
    ensures ok ==> visits == VisitsItems(schema, f, items, s.sizing)
    decreases items, 3
  {
    visits := 0;
    for i := 0 to |items|
      invariant s.Valid() && s.Framed()
      invariant s.Contents == old(s.Contents) + EncUnpacked(schema, f, items[..i])
      invariant EncodableItems(schema, f, items[..i])
      invariant visits == VisitsItems(schema, f, items[..i], s.sizing)
    {
      ghost var below;
      ok, below := EncodeEntry(s, schema, f, items, i, old(s.Contents));
      if !ok {
        return;
      }
      visits := visits + below;
    }
    assert items[..|items|] == items;
    ok := true;
  }

  method EncodeArray(s: OStream, schema: Schema, f: Field, slot: Slot) returns (ok: bool, ghost visits: nat)
    requires s.Valid() && WfSize(f) && TypedSlot(schema, f, slot) && f.htype.Repeated? && f.tag < TAG_LIMIT
    requires |EncArray(schema, f, slot.items)| < TWO_64
    modifies s, s.buf
    ensures s.Valid() && s.Framed()
    ensures Outcome(ok, s.sizing, s.maxSize, old(s.Contents), s.Contents,
                    EncArray(schema, f, slot.items), EncodableSlot(schema, f, slot))
    ensures ok ==> visits == VisitsSlot(schema, f, slot, s.sizing)
    decreases slot, 4
  {
    if |slot.items| == 0 {
      return true, 0;
    }
    if !f.atype.Pointer? && |slot.items| > f.arraySize {
      return false, 0;
    }
    if f.Packable() {
      assert EncodableItems(schema, f, slot.items);
      ok := EncodePackedArray(s, schema, f, slot.items);
      PackedVisits(schema, f, slot.items, s.sizing);
      visits := 0;
    } else {
      ok, visits := EncodeUnpackedArray(s, schema, f, slot.items);
    }
  }

  lemma {:induction false} PackedVisits(schema: Schema, f: Field, items: seq<Val>, sizing: bool)
    requires TypedItems(schema, f, items) && !f.ltype.Submessage?
    ensures VisitsItems(schema, f, items, sizing) == 0
  {
    if items != [] {
      PackedVisits(schema, f, items[..|items| - 1], sizing);
    }
  }

  // ------------------------------------------------------------------ fields and messages

  method EncodeField(s: OStream, schema: Schema, f: Field, slot: Slot) returns (ok: bool, ghost visits: nat)
    requires s.Valid() && WfSize(f) && TypedSlot(schema, f, slot) && f.tag < TAG_LIMIT
    requires |EncSlot(schema, f, slot)| < TWO_64
    modifies s, s.buf
    ensures s.Valid() && s.Framed()
    ensures Outcome(ok, s.sizing, s.maxSize, old(s.Contents), s.Contents,
                    EncSlot(schema, f, slot), EncodableSlot(schema, f, slot))
    ensures ok ==> visits == 1 + ChecksSlot(schema, f, slot) + VisitsSlot(schema, f, slot, s.sizing)
    decreases slot, 5
  {
    var implicitHas := true;
    ghost var checks := 0;
    if f.sizeOffset == 0 && f.htype.Optional? {
      var zero;
      zero, checks := CheckDefault(schema, f, slot);
      implicitHas := !zero;
    }
    if f.atype.Pointer? && !f.htype.Repeated? && !f.htype.Oneof? {
      implicitHas := slot.Ptr?;
    }
    ghost var below := 0;
    ok := true;
    if f.htype.Repeated? {
      ok, below := EncodeArray(s, schema, f, slot);
    } else if f.htype.Required? && f.atype.Pointer? && slot.Null? {
      return false, 1;
    } else {
      var present :=
        if f.htype.Required? then true
        else if f.htype.Oneof? then slot.which == f.tag
        else if f.sizeOffset != 0 && f.atype.Static? then slot.has
        else implicitHas;
      assert present == Present(schema, f, slot);
      if present {
        ok, below := EncodeTagged(s, schema, f, slot.v);
      }
    }
    visits := 1 + checks + below;
  }

  /** Field n, after the fields before it have been written behind `c`. */
  method EncodeNth(s: OStream, schema: Schema, m: Msg, n: nat, ghost c: bytes, ghost before: nat)
    returns (ok: bool, ghost visits: nat)
    requires s.Valid() && TypedMsg(schema, m) && n < |m.slots| && |EncMsg(schema, m)| < TWO_64
    requires s.Contents == c + EncFields(schema, m, n) && EncodableFields(schema, m, n)
    requires before == VisitsFields(schema, m, n, s.sizing)
    modifies s, s.buf
    ensures s.Valid() && s.Framed()
    ensures ok ==> s.Contents == c + EncFields(schema, m, n + 1) && EncodableFields(schema, m, n + 1)
    ensures ok ==> visits == VisitsFields(schema, m, n + 1, s.sizing)
    ensures !ok ==> Outcome(false, s.sizing, s.maxSize, c, s.Contents, EncMsg(schema, m), EncodableMsg(schema, m))
    decreases m, 4
  {
    var fields := schema[m.desc];
    FieldFacts(schema, m, n);
    FieldsPrefix(schema, m, n + 1);
    ghost var c1 := s.Contents;
    ok, visits := EncodeField(s, schema, fields[n], m.slots[Leader(fields, n)]);
    visits := before + visits;
    OutcomeThen(true, ok, s.sizing, s.maxSize, c, c1, s.Contents,
                EncFields(schema, m, n), EncField(schema, m, n), true, EncodableField(schema, m, n));
    if !ok {
      if EncodableMsg(schema, m) {
        EncodableEach(schema, m, n, |fields|);
      }
      OutcomeOfPart(s.sizing, s.maxSize, c, s.Contents, EncFields(schema, m, n + 1), EncMsg(schema, m),
                    EncodableField(schema, m, n), EncodableMsg(schema, m));
    }
  }

  /** The loop over all fields, with an iterator at the first one. */
  method EncodeLoop(s: OStream, schema: Schema, m: Msg, iter: FieldIter, ghost c: bytes)
    returns (ok: bool, ghost visits: nat)
    requires s.Valid() && TypedMsg(schema, m) && |EncMsg(schema, m)| < TWO_64
    requires iter.Valid() && iter.fields == schema[m.desc] && iter.pos == 0 && s.Contents == c
    modifies s, s.buf, iter
    ensures s.Valid() && s.Framed()
    ensures ok ==> s.Contents == c + EncMsg(schema, m) && EncodableMsg(schema, m)
    ensures ok ==> visits == VisitsMsg(schema, m, s.sizing)
    ensures !ok ==> Outcome(false, s.sizing, s.maxSize, c, s.Contents, EncMsg(schema, m), EncodableMsg(schema, m))
    decreases m, 5, 0
  {
    visits := 0;
    var more := iter.fields != [];
    ghost var n := 0;
    while more
      invariant iter.Valid()
      invariant 0 <= n <= |m.slots| && (if more then n == iter.pos < |m.slots| else n == |m.slots|)
      invariant s.Valid() && s.Framed()
      invariant s.Contents == c + EncFields(schema, m, n)
      invariant EncodableFields(schema, m, n)
      invariant visits == VisitsFields(schema, m, n, s.sizing)
      decreases |m.slots| - n
    {
      ok, visits := EncodeNth(s, schema, m, iter.pos, c, visits);
      if !ok {
        return;
      }
      n := n + 1;
      more := iter.Next();
    }
    ok := true;
  }

  /** All fields of a message, in the order of the descriptor. */
  method Encode(s: OStream, schema: Schema, m: Msg) returns (ok: bool, ghost visits: nat)
    requires s.Valid() && TypedMsg(schema, m) && |EncMsg(schema, m)| < TWO_64
    modifies s, s.buf
    ensures s.Valid() && s.Framed()
    ensures Outcome(ok, s.sizing, s.maxSize, old(s.Contents), s.Contents, EncMsg(schema, m), EncodableMsg(schema, m))
    ensures ok ==> visits == VisitsMsg(schema, m, s.sizing)
    decreases m, 5, 1
  {
    assert WfDesc(schema, m.desc);
    var iter := new FieldIter(schema[m.desc]);
    ok, visits := EncodeLoop(s, schema, m, iter, s.Contents);
  }

  // ------------------------------------------------------------------ entry points

  /** The size that `Encode` needs. */
  method GetEncodedSize(schema: Schema, m: Msg) returns (ok: bool, size: nat)
    requires TypedMsg(schema, m) && |EncMsg(schema, m)| < TWO_64
    ensures ok <==> EncodableMsg(schema, m)
    ensures ok ==> size == |EncMsg(schema, m)|
  {
    var measure := new OStream.Sizing();
    ghost var visits;
    ok, visits := Encode(measure, schema, m);
    size := measure.bytesWritten;
  }

  method EncodeDelimited(s: OStream, schema: Schema, m: Msg) returns (ok: bool)
    requires s.Valid() && TypedMsg(schema, m) && |EncMsg(schema, m)| < TWO_64
    modifies s, s.buf
    ensures s.Valid() && s.Framed()
    ensures Outcome(ok, s.sizing, s.maxSize, old(s.Contents), s.Contents, EncString(EncMsg(schema, m)), EncodableMsg(schema, m))
  {
    ghost var visits;
    ok, visits := EncodeSubmessage(s, schema, m);
  }

  method EncodeNullTerminated(s: OStream, schema: Schema, m: Msg) returns (ok: bool)
    requires s.Valid() && TypedMsg(schema, m) && |EncMsg(schema, m)| < TWO_64
    modifies s, s.buf
    ensures s.Valid() && s.Framed()
    ensures Outcome(ok, s.sizing, s.maxSize, old(s.Contents), s.Contents, EncMsg(schema, m) + [0], EncodableMsg(schema, m))
  {
    ghost var visits;
    ok, visits := Encode(s, schema, m);
    ghost var c, ok1 := s.Contents, ok;
    if ok {
      ok := s.Write([0]);
    }
    OutcomeThen(ok1, ok, s.sizing, s.maxSize, old(s.Contents), c, s.Contents,
                EncMsg(schema, m), [0], EncodableMsg(schema, m), true);
  }

  /**
   Encoding into a buffer of `size` bytes succeeds exactly when the encoded size is at most that. Nothing is
   written at or past the limit, and what a failed call has written is a prefix of the encoding.
   */
  method EncodeToBuffer(buf: array<byte>, size: nat, schema: Schema, m: Msg) returns (ok: bool, written: nat)
    requires size <= buf.Length && TypedMsg(schema, m) && |EncMsg(schema, m)| < TWO_64
    modifies buf
    ensures ok <==> EncodableMsg(schema, m) && |EncMsg(schema, m)| <= size
    ensures ok ==> written == |EncMsg(schema, m)|
    ensures written <= size && buf[written..] == old(buf[written..])
    ensures EncodableMsg(schema, m) ==> buf[..written] <= EncMsg(schema, m)
  {
    var s := new OStream.FromBuffer(buf, size);
    ghost var visits;
    ok, visits := Encode(s, schema, m);
    written := s.bytesWritten;
    assert buf[..written] == s.Contents && [] + EncMsg(schema, m) == EncMsg(schema, m);
  }
}
