/**
 Decoding a concatenation: the fields of one message followed by those of another, unknown fields in between,
 and arrays cut into packed and single pieces.
 */
module Composition {
  import opened Bits
  import opened Wire
  import opened Scalars
  import opened Descriptors
  import opened Decoding

  // ------------------------------------------------------------------ a parse does not depend on what follows

  lemma DecSizeExtends(f: Field, s: bytes, t: bytes, overhead: nat)
    requires DecSize(f, s, overhead).Ok?
    ensures DecSize(f, s + t, overhead) == Ok(DecSize(f, s, overhead).value, DecSize(f, s, overhead).rest + t)
  {
    DecVarint32Extends(s, t);
    TakeExtends(DecVarint32(s).value, DecVarint32(s).rest, t);
  }

  lemma DecScalarExtends(f: Field, s: bytes, t: bytes)
    requires !f.ltype.Submessage? && WfSize(f) && DecScalar(f, s).Ok?
    ensures DecScalar(f, s + t) == Ok(DecScalar(f, s).value, DecScalar(f, s).rest + t)
  {
    match f.ltype
    case Bool => DecVarint32Extends(s, t);
    case Varint => DecVarintExtends(s, t);
    case UVarint => DecVarintExtends(s, t);
    case SVarint => DecVarintExtends(s, t);
    case Fixed32 => TakeExtends(4, s, t);
    case Fixed64 => TakeExtends(8, s, t);
    case Bytes => DecSizeExtends(f, s, t, BYTES_HEADER);
    case String => DecSizeExtends(f, s, t, 1);
    case FixedLengthBytes =>
      DecVarint32Extends(s, t);
      if DecVarint32(s).value == f.dataSize {
        TakeExtends(f.dataSize, DecVarint32(s).rest, t);
      }
  }

  lemma DecValExtends(schema: Schema, f: Field, s: bytes, t: bytes, base: Val)
    requires WfSize(f) && (f.ltype.Submessage? ==> TypedVal(schema, f, base))
    requires DecVal(schema, f, s, base).Ok?
    ensures var r := DecVal(schema, f, s, base); DecVal(schema, f, s + t, base) == Ok(r.value, r.rest + t)
  {
    if f.ltype.Submessage? {
      DecStringExtends(s, t);
    } else {
      DecScalarExtends(f, s, t);
    }
  }

  lemma DecSlotExtends(schema: Schema, f: Field, wireType: nat, s: bytes, t: bytes, slot: Slot)
    requires WfSize(f) && (f.ltype.Submessage? ==> f.sub < |schema|)
    requires TypedSlot(schema, f, slot) && DecSlot(schema, f, wireType, s, slot).Ok?
    ensures var r := DecSlot(schema, f, wireType, s, slot);
            DecSlot(schema, f, wireType, s + t, slot) == Ok(r.value, r.rest + t)
  {
    if f.htype.Repeated? {
      if wireType == WT_STRING && f.Packable() {
        DecStringExtends(s, t);
      } else {
        DecValExtends(schema, f, s, t, FreshVal(schema, f));
      }
    } else if f.htype.Oneof? || f.atype.Pointer? {
      DecValExtends(schema, f, s, t, FreshVal(schema, f));
    } else {
      DecValExtends(schema, f, s, t, slot.v);
    }
  }

  lemma SkipUnknownExtends(fields: Desc, number: nat, wireType: nat, s: bytes, t: bytes)
    requires SkipUnknown(fields, number, wireType, s).Ok?
    ensures SkipUnknown(fields, number, wireType, s + t) == Ok((), SkipUnknown(fields, number, wireType, s).rest + t)
  {
    if fields == [] && number == 0 {
      DecVarint32Extends(s, t);
    } else {
      SkipExtends(wireType, s, t);
    }
  }

  // ------------------------------------------------------------------ runs

  /** A run that used up its bytes without meeting a zero tag. */
  predicate Complete(r: Run)
  {
    r.Done? && !r.stopped
  }

  /**
   The field loop on a concatenation: it goes on with the second part from where the first one left the struct,
   unless a zero tag in the first part has ended the message.
   */
  lemma {:induction false} RunConcat(schema: Schema, a: bytes, b: bytes, m: Msg, seen: set<nat>)
    requires TypedMsg(schema, m)
    ensures var r := DecRun(schema, a, m, seen);
            r.Done? ==>
              DecRun(schema, a + b, m, seen) ==
              if r.stopped then r.(rest := r.rest + b) else DecRun(schema, b, r.m, r.seen)
    decreases |a|
  {
    if a == [] {
      assert a + b == b;
    } else if DecRun(schema, a, m, seen).Done? {
      DecVarint32Extends(a, b);
      var tag, rest := DecVarint32(a).value, DecVarint32(a).rest;
      var fields := schema[m.desc];
      var i := Find(fields, tag / 8);
      if tag == 0 {
      } else if i == |fields| {
        SkipUnknownExtends(fields, tag / 8, tag % 8, rest, b);
        RunConcat(schema, SkipUnknown(fields, tag / 8, tag % 8, rest).rest, b, m, seen);
      } else {
        assert WfDesc(schema, m.desc) && WfField(schema, m.desc, fields[i]);
        assert TypedField(schema, fields, m.slots, i);
        var slot := m.slots[Leader(fields, i)];
        var r := DecSlot(schema, fields[i], tag % 8, rest, slot);
        DecSlotExtends(schema, fields[i], tag % 8, rest, b, slot);
        UpdateTyped(schema, m, i, r.value);
        RunConcat(schema, r.rest, b, Update(schema, m, i, r.value), See(fields, seen, i));
      }
    }
  }

  /** Which required fields have been seen only adds up: the struct does not depend on it. */
  lemma {:induction false} RunSeen(schema: Schema, s: bytes, m: Msg, seen: set<nat>, more: set<nat>)
    requires TypedMsg(schema, m)
    ensures var r := DecRun(schema, s, m, seen);
            DecRun(schema, s, m, seen + more) == if r.Done? then r.(seen := r.seen + more) else Failed
    ensures var r := DecRun(schema, s, m, seen); r.Done? ==> seen <= r.seen
    decreases |s|
  {
    if s != [] && DecVarint32(s).Ok? && DecVarint32(s).value != 0 {
      var tag, rest := DecVarint32(s).value, DecVarint32(s).rest;
      var fields := schema[m.desc];
      var i := Find(fields, tag / 8);
      if i == |fields| {
        if SkipUnknown(fields, tag / 8, tag % 8, rest).Ok? {
          RunSeen(schema, SkipUnknown(fields, tag / 8, tag % 8, rest).rest, m, seen, more);
        }
      } else {
        assert WfDesc(schema, m.desc) && WfField(schema, m.desc, fields[i]);
        assert TypedField(schema, fields, m.slots, i);
        var r := DecSlot(schema, fields[i], tag % 8, rest, m.slots[Leader(fields, i)]);
        if r.Ok? {
          UpdateTyped(schema, m, i, r.value);
          assert See(fields, seen + more, i) == See(fields, seen, i) + more;
          RunSeen(schema, r.rest, Update(schema, m, i, r.value), See(fields, seen, i), more);
        }
      }
    }
  }

  /** A run whose first number is the tag of field i, with this wire type. */
  lemma RunField(schema: Schema, x: bytes, i: nat, wireType: nat, s: bytes, m: Msg, seen: set<nat>)
    requires TypedMsg(schema, m) && i < |m.slots| && wireType < 8 && x != []
    requires schema[m.desc][i].tag > 0 && Find(schema[m.desc], schema[m.desc][i].tag) == i
    requires DecVarint32(x) == Ok(schema[m.desc][i].tag * 8 + wireType, s)
    requires WfField(schema, m.desc, schema[m.desc][i])
    requires TypedSlot(schema, schema[m.desc][i], m.slots[Leader(schema[m.desc], i)])
    ensures var fields := schema[m.desc];
            var r := DecSlot(schema, fields[i], wireType, s, m.slots[Leader(fields, i)]);
            if r.Ok? then
              TypedMsg(schema, Update(schema, m, i, r.value)) &&
              DecRun(schema, x, m, seen) == DecRun(schema, r.rest, Update(schema, m, i, r.value), See(fields, seen, i))
            else DecRun(schema, x, m, seen) == Failed
  {
    var fields := schema[m.desc];
    var tag := fields[i].tag * 8 + wireType;
    assert tag / 8 == fields[i].tag && tag % 8 == wireType;
    var r := DecSlot(schema, fields[i], wireType, s, m.slots[Leader(fields, i)]);
    if r.Ok? {
      UpdateTyped(schema, m, i, r.value);
    }
  }

  /** One field that the message has, from its tag on. */
  lemma StepField(schema: Schema, i: nat, wireType: nat, s: bytes, m: Msg, seen: set<nat>)
    requires TypedMsg(schema, m) && i < |m.slots| && wireType < 8
    ensures WfDesc(schema, m.desc) && WfField(schema, m.desc, schema[m.desc][i])
    ensures TypedField(schema, schema[m.desc], m.slots, i)
    ensures var fields := schema[m.desc];
            var r := DecSlot(schema, fields[i], wireType, s, m.slots[Leader(fields, i)]);
            if r.Ok? then
              TypedMsg(schema, Update(schema, m, i, r.value)) &&
              DecRun(schema, EncTag(wireType, fields[i].tag) + s, m, seen) ==
              DecRun(schema, r.rest, Update(schema, m, i, r.value), See(fields, seen, i))
            else DecRun(schema, EncTag(wireType, fields[i].tag) + s, m, seen) == Failed
  {
    var fields := schema[m.desc];
    FieldFacts(schema, m, i);
    assert WfDesc(schema, m.desc);
    DecTagInverse(wireType, fields[i].tag, s);
    FindUnique(fields, i);
    RunField(schema, EncTag(wireType, fields[i].tag) + s, i, wireType, s, m, seen);
  }

  // ------------------------------------------------------------------ merging

  /**
   Decoding a and then b into the same struct, against decoding a ++ b at once. When a uses up its bytes the two
   agree. When a zero tag ends it, the single run stops there too, leaves the struct as a left it, and
   b unread.
   */
  lemma Merge(schema: Schema, a: bytes, b: bytes, m: Msg)
    requires TypedMsg(schema, m) && DecMsg(schema, a, m).Ok?
    ensures var ra := DecMsg(schema, a, m);
            if DecRun(schema, a, m, {}).stopped then
              DecMsg(schema, a + b, m) == Ok(ra.value, ra.rest + b)
            else
              DecMsg(schema, b, ra.value).Ok? ==> DecMsg(schema, a + b, m) == DecMsg(schema, b, ra.value)
  {
    var r := DecRun(schema, a, m, {});
    RunConcat(schema, a, b, m, {});
    if !r.stopped {
      RunSeen(schema, b, r.m, {}, r.seen);
      assert {} + r.seen == r.seen;
    }
  }

  /** A zero byte completes any message without required fields, and hides from one run what follows it. */
  lemma StopsAtZero(schema: Schema, b: bytes, m: Msg)
    requires TypedMsg(schema, m) && CountRequired(schema[m.desc], |schema[m.desc]|) == 0
    ensures DecMsg(schema, [0] + b, m) == Ok(m, b)
  {
    var s := [0] + b;
    assert s[0] == 0 && s[1..] == b;
    assert DecRun(schema, s, m, {}) == Done(m, {}, b, true);
  }

  /** The two ways of merging differ on the bytes 00 and 08 05, for a message with one optional integer. */
  lemma MergeFails()
    ensures var f := Field(1, UVarint, Optional, Static, 4, -4, 4, 0, 0, VInt(0));
            WfTable([[f]]) &&
            var m := Msg(0, [Opt(false, VInt(0))]);
            TypedMsg([[f]], m) &&
            DecMsg([[f]], [0], m) == Ok(m, []) &&
            DecMsg([[f]], [8, 5], m) == Ok(Msg(0, [Opt(true, VInt(5))]), []) &&
            DecMsg([[f]], [0, 8, 5], m) == Ok(m, [8, 5])
  {
    var f := Field(1, UVarint, Optional, Static, 4, -4, 4, 0, 0, VInt(0));
    var table: seq<Desc> := [[f]];
    assert WfField(table, 0, f);
    assert WfDesc(table, 0);
    var schema: Schema := table;
    var m := Msg(0, [Opt(false, VInt(0))]);
    assert TypedField(schema, [f], m.slots, 0);
    assert CountRequired([f], 1) == 0;
    StopsAtZero(schema, [], m);
    assert [0] + [] == [0];
    StopsAtZero(schema, [8, 5], m);
    assert [0] + [8, 5] == [0, 8, 5];
    assert DecSlot(schema, f, 0, [5], m.slots[0]) == Ok(Opt(true, VInt(5)), []) by {
      assert RawVarint([5]) == Ok(5, []);
    }
    assert DecVarint32([8, 5]) == Ok(8, [5]);
    assert Find([f], 1) == 0;
    var m' := Msg(0, [Opt(true, VInt(5))]);
    assert Update(schema, m, 0, Opt(true, VInt(5))) == m';
    UpdateTyped(schema, m, 0, Opt(true, VInt(5)));
    assert DecRun(schema, [], m', {}) == Done(m', {}, [], false);
    assert DecRun(schema, [8, 5], m, {}) == Done(m', {}, [], false);
  }

  // ------------------------------------------------------------------ unknown fields

  /** A field as it stands on the wire, whatever message it belongs to. */
  datatype WireField =
    | VarintField(number: nat, v: nat)
    | Fixed64Field(number: nat, v: nat)
    | StringField(number: nat, b: bytes)
    | Fixed32Field(number: nat, v: nat)
  {
    function WireType(): nat {
      match this
      case VarintField(_, _) => WT_VARINT
      case Fixed64Field(_, _) => WT_64BIT
      case StringField(_, _) => WT_STRING
      case Fixed32Field(_, _) => WT_32BIT
    }

    function Payload(): bytes {
      match this
      case VarintField(_, v) => EncVarint(v)
      case Fixed64Field(_, v) => EncFixed(8, v)
      case StringField(_, b) => EncString(b)
      case Fixed32Field(_, v) => EncFixed(4, v)
    }

    function Encoding(): bytes {
      EncTag(WireType(), number) + Payload()
    }

    predicate Unknown(fields: Desc) {
      1 <= number < TAG_LIMIT && Find(fields, number) == |fields| && (StringField? ==> |b| < TWO_32)
    }
  }

  lemma DecStringInverse(b: bytes, t: bytes)
    requires |b| < TWO_32
    ensures DecString(EncString(b) + t) == Ok(b, t)
  {
    Varint32Inverse(|b|, b + t);
    assert EncString(b) + t == EncVarint(|b|) + (b + t);
    assert (b + t)[..|b|] == b && (b + t)[|b|..] == t;
  }

  lemma DecTagInverse(wireType: nat, number: nat, t: bytes)
    requires wireType < 8 && number < TAG_LIMIT
    ensures DecVarint32(EncTag(wireType, number) + t) == Ok(number * 8 + wireType, t)
    ensures (number * 8 + wireType) / 8 == number && (number * 8 + wireType) % 8 == wireType
  {
    Varint32Inverse(number * 8 + wireType, t);
  }

  /** Skipping passes over exactly what the encoder of that wire type writes. */
  lemma SkipInverse(u: WireField, t: bytes)
    requires u.StringField? ==> |u.b| < TWO_32
    ensures Skip(u.WireType(), u.Payload() + t) == Ok((), t)
  {
    match u
    case VarintField(_, v) => RawVarintInverse(v, t);
    case StringField(_, b) => DecStringInverse(b, t);
    case Fixed64Field(_, v) => assert (u.Payload() + t)[8..] == t;
    case Fixed32Field(_, v) => assert (u.Payload() + t)[4..] == t;
  }

  /** The bytes of one complete field that a message does not have. */
  predicate UnknownField(fields: Desc, u: bytes)
  {
    var r := DecVarint32(u);
    r.Ok? && r.value / 8 > 0 && Find(fields, r.value / 8) == |fields| && Skip(r.value % 8, r.rest) == Ok((), [])
  }

  /** What an encoder writes for a field is one, for each of the four wire types. */
  lemma WireFieldUnknown(fields: Desc, u: WireField)
    requires u.Unknown(fields)
    ensures UnknownField(fields, u.Encoding())
  {
    DecTagInverse(u.WireType(), u.number, u.Payload());
    SkipInverse(u, []);
    assert u.Payload() + [] == u.Payload();
  }

  lemma StepUnknown(schema: Schema, u: bytes, t: bytes, m: Msg, seen: set<nat>)
    requires TypedMsg(schema, m) && UnknownField(schema[m.desc], u)
    ensures DecRun(schema, u + t, m, seen) == DecRun(schema, t, m, seen)
  {
    var r := DecVarint32(u);
    DecVarint32Extends(u, t);
    SkipExtends(r.value % 8, r.rest, t);
    assert [] + t == t;
    assert u + t != [];
  }

  function Concat(us: seq<bytes>): bytes
  {
    if us == [] then [] else us[0] + Concat(us[1..])
  }

  lemma {:induction false} RunUnknown(schema: Schema, us: seq<bytes>, b: bytes, m: Msg, seen: set<nat>)
    requires TypedMsg(schema, m)
    requires forall u :: u in us ==> UnknownField(schema[m.desc], u)
    ensures DecRun(schema, Concat(us) + b, m, seen) == DecRun(schema, b, m, seen)
  {
    if us == [] {
      assert Concat(us) + b == b;
    } else {
      assert us[0] in us;
      StepUnknown(schema, us[0], Concat(us[1..]) + b, m, seen);
      ConcatAssociates(us[0], Concat(us[1..]), b);
      RunUnknown(schema, us[1..], b, m, seen);
    }
  }

  lemma RunUnknownBetween(schema: Schema, a: bytes, us: seq<bytes>, b: bytes, m: Msg)
    requires TypedMsg(schema, m) && Complete(DecRun(schema, a, m, {}))
    requires forall u :: u in us ==> UnknownField(schema[m.desc], u)
    ensures DecRun(schema, a + (Concat(us) + b), m, {}) == DecRun(schema, a + b, m, {})
  {
    var r := DecRun(schema, a, m, {});
    RunConcat(schema, a, Concat(us) + b, m, {});
    RunConcat(schema, a, b, m, {});
    RunUnknown(schema, us, b, r.m, r.seen);
  }

  /**
   Any unknown fields, in any spelling of their numbers, lengths and values, may stand between complete fields: the
   outcome, the struct and what is left unread are the same without them.
   */
  lemma UnknownFieldsTransparent(schema: Schema, a: bytes, us: seq<bytes>, b: bytes, m: Msg)
    requires TypedMsg(schema, m) && Complete(DecRun(schema, a, m, {}))
    requires forall u :: u in us ==> UnknownField(schema[m.desc], u)
    ensures DecMsg(schema, a + Concat(us) + b, m) == DecMsg(schema, a + b, m)
  {
    RunUnknownBetween(schema, a, us, b, m);
    ConcatAssociates(a, Concat(us), b);
  }
}
