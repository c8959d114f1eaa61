/**
 Scalars and arrays of scalars on the wire: each scalar decodes back to itself, and an array decodes to the same
 entries however it was cut into packed chunks and single elements.
 */
module Arrays {
  import opened Bits
  import opened Wire
  import opened Scalars
  import opened Descriptors
  import opened Encoding
  import opened Decoding
  import opened Composition

  // ------------------------------------------------------------------ scalars

  lemma {:induction false} UpToNulIdentity(b: bytes)
    requires 0 !in b
    ensures UpToNul(b) == b
  {
    if b != [] {
      UpToNulIdentity(b[1..]);
    }
  }

  lemma RoundTripVarint(schema: Schema, f: Field, v: Val, t: bytes)
    requires WfSize(f) && TypedVal(schema, f, v)
    requires f.ltype.Varint? || f.ltype.UVarint? || f.ltype.SVarint?
    ensures DecScalar(f, EncVal(schema, f, v) + t) == Ok(v, t)
  {
    match f.ltype
    case Varint =>
      SignedInverse(v.i, f.dataSize);
      VarintInverse(ToUint64(v.i), t);
    case UVarint =>
      VarintInverse(v.i, t);
    case SVarint =>
      ZigZagBijection(v.i, 0);
      VarintInverse(ZigZag(v.i), t);
  }

  lemma RoundTripFixed(n: nat, v: nat, t: bytes)
    requires v < Pow2(8 * n)
    ensures Take(n, EncFixed(n, v) + t) == Ok(EncFixed(n, v), t) && FixedValue(EncFixed(n, v)) == v
  {
    FixedInverse(n, v);
    var s := EncFixed(n, v) + t;
    assert s[..n] == EncFixed(n, v) && s[n..] == t;
  }

  lemma RoundTripSize(f: Field, b: bytes, t: bytes, overhead: nat)
    requires |b| < TWO_32 && (f.atype.Static? ==> |b| + overhead <= f.dataSize)
    ensures DecSize(f, EncString(b) + t, overhead) == Ok(b, t)
  {
    DecStringInverse(b, t);
  }

  lemma RoundTripScalar(schema: Schema, f: Field, v: Val, t: bytes)
    requires WfSize(f) && !f.ltype.Submessage? && TypedVal(schema, f, v) && FitsField(f, v)
    requires |EncVal(schema, f, v)| < TWO_32
    ensures DecScalar(f, EncVal(schema, f, v) + t) == Ok(v, t)
  {
    match f.ltype
    case Bool => Varint32Inverse(v.i, t);
    case Fixed32 => Powers(); RoundTripFixed(4, v.i, t);
    case Fixed64 => Powers(); RoundTripFixed(8, v.i, t);
    case Bytes => RoundTripSize(f, v.b, t, BYTES_HEADER);
    case String => RoundTripSize(f, v.b, t, 1); UpToNulIdentity(v.b);
    case FixedLengthBytes =>
      Varint32Inverse(|v.b|, v.b + t);
      ConcatAssociates(EncVarint(|v.b|), v.b, t);
      assert (v.b + t)[..|v.b|] == v.b && (v.b + t)[|v.b|..] == t;
      assert Zeros(0) == [];
    case _ => RoundTripVarint(schema, f, v, t);
  }

  // ------------------------------------------------------------------ packed chunks

  lemma EncScalarNotEmpty(schema: Schema, f: Field, v: Val)
    requires f.Packable() && TypedVal(schema, f, v)
    ensures EncVal(schema, f, v) != []
  {
    if f.ltype.Fixed32? || f.ltype.Fixed64? {
      assert |EncVal(schema, f, v)| >= 4;
    }
  }

  /** A packed chunk, and whatever follows it in the chunk, read into an array that holds `before`. */
  lemma {:induction false} RoundTripPacked(schema: Schema, f: Field, items: seq<Val>, t: bytes, before: seq<Val>, cap: nat)
    requires f.Packable() && WfSize(f) && TypedItems(schema, f, items) && |EncPacked(schema, f, items)| < TWO_32
    ensures |before| + |items| <= cap ==>
              DecPacked(f, EncPacked(schema, f, items) + t, before, cap) == DecPacked(f, t, before + items, cap)
    ensures items != [] && cap < |before| + |items| ==> DecPacked(f, EncPacked(schema, f, items) + t, before, cap) == Fail
    decreases |items|
  {
    if items == [] {
      assert EncPacked(schema, f, items) + t == t && before + items == before;
    } else {
      var n := |items| - 1;
      var s := EncVal(schema, f, items[n]);
      ConcatAssociates(EncPacked(schema, f, items[..n]), s, t);
      RoundTripPacked(schema, f, items[..n], s + t, before, cap);
      RoundTripScalar(schema, f, items[n], t);
      EncScalarNotEmpty(schema, f, items[n]);
      assert before + items[..n] + [items[n]] == before + items;
    }
  }

  /** The struct with more entries in the array of field i. */
  function Extended(m: Msg, i: nat, items: seq<Val>): Msg
    requires i < |m.slots| && m.slots[i].Rep?
  {
    m.(slots := m.slots[i := Rep(m.slots[i].items + items)])
  }

  lemma ExtendedTwice(m: Msg, i: nat, a: seq<Val>, b: seq<Val>)
    requires i < |m.slots| && m.slots[i].Rep?
    ensures Extended(Extended(m, i, a), i, b) == Extended(m, i, a + b)
    ensures Extended(m, i, []) == m
  {
    assert m.slots[i].items + a + b == m.slots[i].items + (a + b);
    assert m.slots[i].items + [] == m.slots[i].items;
  }

  // ------------------------------------------------------------------ arrays cut into pieces

  /** A piece of an array on the wire: one element with its own tag, or a packed chunk. */
  datatype Piece = Single(v: Val) | Packed(vs: seq<Val>) {
    function Items(): seq<Val> {
      if Single? then [v] else vs
    }
  }

  predicate TypedPiece(schema: Schema, f: Field, p: Piece)
  {
    TypedItems(schema, f, p.Items()) && |EncPacked(schema, f, p.Items())| < TWO_32
  }

  function EncPiece(schema: Schema, f: Field, p: Piece): bytes
    requires TypedPiece(schema, f, p)
  {
    if p.Single? then
      assert TypedVal(schema, f, p.Items()[0]);
      EncTagged(schema, f, p.v)
    else EncTag(WT_STRING, f.tag) + EncString(EncPacked(schema, f, p.vs))
  }

  function EncPieces(schema: Schema, f: Field, ps: seq<Piece>): bytes
    requires forall p :: p in ps ==> TypedPiece(schema, f, p)
  {
    if ps == [] then []
    else
      assert TypedPiece(schema, f, ps[0]);
      EncPiece(schema, f, ps[0]) + EncPieces(schema, f, ps[1..])
  }

  function AllItems(ps: seq<Piece>): seq<Val>
  {
    if ps == [] then [] else ps[0].Items() + AllItems(ps[1..])
  }

  predicate ScalarArray(schema: Schema, m: Msg, i: nat)
  {
    && TypedMsg(schema, m) && i < |m.slots|
    && schema[m.desc][i].htype.Repeated? && schema[m.desc][i].Packable()
    && m.slots[i].Rep? && |m.slots[i].items| <= Capacity(schema[m.desc][i])
  }

  lemma DecPackedSlot(schema: Schema, f: Field, vs: seq<Val>, t: bytes, slot: Slot)
    requires WfSize(f) && f.htype.Repeated? && f.Packable() && TypedSlot(schema, f, slot)
    requires TypedPiece(schema, f, Packed(vs))
    ensures DecSlot(schema, f, WT_STRING, EncString(EncPacked(schema, f, vs)) + t, slot) ==
            if vs == [] || |slot.items| + |vs| <= Capacity(f) then Ok(Rep(slot.items + vs), t) else Fail
  {
    var p := EncPacked(schema, f, vs);
    DecStringInverse(p, t);
    RoundTripPacked(schema, f, vs, [], slot.items, Capacity(f));
    assert p + [] == p;
    assert vs == [] ==> slot.items + vs == slot.items;
  }

  lemma DecPackedPiece(schema: Schema, i: nat, vs: seq<Val>, t: bytes, m: Msg, seen: set<nat>)
    requires TypedMsg(schema, m) && i < |m.slots| && m.slots[i].Rep?
    requires schema[m.desc][i].htype.Repeated? && schema[m.desc][i].Packable()
    requires TypedPiece(schema, schema[m.desc][i], Packed(vs))
    ensures var f := schema[m.desc][i];
            var s := EncPiece(schema, f, Packed(vs)) + t;
            if vs == [] || |m.slots[i].items| + |vs| <= Capacity(f) then
              TypedMsg(schema, Extended(m, i, vs)) && DecRun(schema, s, m, seen) == DecRun(schema, t, Extended(m, i, vs), seen)
            else DecRun(schema, s, m, seen) == Failed
  {
    var f := schema[m.desc][i];
    var p := EncPacked(schema, f, vs);
    FieldFacts(schema, m, i);
    assert TypedItems(schema, f, Packed(vs).Items());
    StepField(schema, i, WT_STRING, EncString(p) + t, m, seen);
    ConcatAssociates(EncTag(WT_STRING, f.tag), EncString(p), t);
    DecPackedSlot(schema, f, vs, t, m.slots[i]);
  }

  lemma DecSinglePiece(schema: Schema, i: nat, v: Val, t: bytes, m: Msg, seen: set<nat>)
    requires ScalarArray(schema, m, i) && TypedPiece(schema, schema[m.desc][i], Single(v))
    ensures var f := schema[m.desc][i];
            var s := EncPiece(schema, f, Single(v)) + t;
            if |m.slots[i].items| < Capacity(f) then
              TypedMsg(schema, Extended(m, i, [v])) && DecRun(schema, s, m, seen) == DecRun(schema, t, Extended(m, i, [v]), seen)
            else DecRun(schema, s, m, seen) == Failed
  {
    var f := schema[m.desc][i];
    assert TypedVal(schema, f, Single(v).Items()[0]);
    var s := EncVal(schema, f, v);
    FieldFacts(schema, m, i);
    assert EncPacked(schema, f, [v]) == [] + s;
    StepField(schema, i, f.WireType(), s + t, m, seen);
    ConcatAssociates(EncTag(f.WireType(), f.tag), s, t);
    RoundTripScalar(schema, f, v, t);
  }

  /**
   An array of scalars, however it is cut, is read to the end exactly when it fits, and then the struct has
   gained the same entries in the same order.
   */
  lemma {:induction false} PiecesAgree(schema: Schema, i: nat, ps: seq<Piece>, t: bytes, m: Msg, seen: set<nat>)
    requires ScalarArray(schema, m, i) && forall p :: p in ps ==> TypedPiece(schema, schema[m.desc][i], p)
    ensures var f := schema[m.desc][i];
            var s := EncPieces(schema, f, ps) + t;
            var items := AllItems(ps);
            if |m.slots[i].items| + |items| <= Capacity(f) then
              TypedMsg(schema, Extended(m, i, items)) &&
              DecRun(schema, s, m, seen) == DecRun(schema, t, Extended(m, i, items), seen)
            else DecRun(schema, s, m, seen) == Failed
    decreases ps
  {
    var f := schema[m.desc][i];
    ExtendedTwice(m, i, [], []);
    if ps == [] {
      assert [] + t == t;
    } else {
      var p, rest := ps[0], ps[1..];
      var u := EncPieces(schema, f, rest) + t;
      assert p in ps && TypedPiece(schema, f, p);
      ConcatAssociates(EncPiece(schema, f, p), EncPieces(schema, f, rest), t);
      if p.Single? {
        DecSinglePiece(schema, i, p.v, u, m, seen);
      } else {
        DecPackedPiece(schema, i, p.vs, u, m, seen);
      }
      if |m.slots[i].items| + |p.Items()| <= Capacity(f) {
        PiecesAgree(schema, i, rest, t, Extended(m, i, p.Items()), seen);
        ExtendedTwice(m, i, p.Items(), AllItems(rest));
      }
    }
  }
}
