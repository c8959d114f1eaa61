/**
 Decoding what was encoded: one message into an initialized struct, and one after another into the same struct.
 */
module RoundTrip {
  import opened Bits
  import opened Wire
  import opened Descriptors
  import opened Encoding
  import opened Decoding
  import opened Composition
  import opened Normal
  import opened Merging

  /** A message that the encoder accepts and whose length a decoder can read. */
  predicate Valid(schema: Schema, m: Msg)
  {
    TypedMsg(schema, m) && EncodableMsg(schema, m) && |EncMsg(schema, m)| < TWO_32
  }

  /** The encoding of a message, whatever follows it, in a run on an initialized struct. */
  lemma RoundTripThen(schema: Schema, m: Msg, t: bytes)
    requires Valid(schema, m)
    ensures TypedMsg(schema, Defaults(schema, m.desc)) && TypedMsg(schema, Rebuilt(schema, m))
    ensures DecRun(schema, EncMsg(schema, m) + t, Defaults(schema, m.desc), {}) ==
            DecRun(schema, t, Rebuilt(schema, m), SeenTo(schema[m.desc], |m.slots|))
  {
    FreshFits(schema, m);
    MergeRunThen(schema, Defaults(schema, m.desc), m, t);
  }

  /** Decoding an encoded message rebuilds it, up to submessages that the zero check took for empty. */
  lemma RoundTripMsg(schema: Schema, m: Msg)
    requires Valid(schema, m)
    ensures Decode(schema, m.desc, EncMsg(schema, m)) == Ok(Rebuilt(schema, m), [])
    ensures Decode(schema, m.desc, EncMsg(schema, m)) == Ok(Norm(schema, m), []) <==> Honest(schema, m)
  {
    FreshFits(schema, m);
    MergeRun(schema, Defaults(schema, m.desc), m);
    RebuiltIsNorm(schema, m);
  }

  /** No such submessage exists when entries behind optional pointers are at least as large as a pointer. */
  lemma RoundTripWide(schema: WideSchema, m: Msg)
    requires Valid(schema, m)
    ensures Decode(schema, m.desc, EncMsg(schema, m)) == Ok(Norm(schema, m), [])
  {
    WideIsHonest(schema, m);
    RoundTripMsg(schema, m);
  }

  // ------------------------------------------------------------------ a struct that does not survive

  /** A proto3 struct with a pointer to a boolean, and one that holds it as a proto3 submessage. */
  function Table(): seq<Desc>
  {
    [[Field(1, Bool, Optional, Pointer, 0, 0, 1, 0, 0, VNone)],
     [Field(1, Submessage, Optional, Static, 0, 0, POINTER_SIZE, 0, 0, VNone)]]
  }

  /** The pointer is set, and the lowest byte of the address is zero. */
  function Inner(): Msg
  {
    Msg(0, [Ptr(true, VInt(1))])
  }

  function Outer(): Msg
  {
    Msg(1, [One(VMsg(Inner()))])
  }

  lemma OuterFacts(schema: Schema)
    requires schema == Table()
    ensures Valid(schema, Outer()) && EncMsg(schema, Outer()) == [] && !Honest(schema, Outer())
  {
    var m := Outer();
    var f := schema[1][0];
    assert TypedField(schema, schema[0], Inner().slots, 0);
    assert IsZeroField(schema, Inner(), 0);
    assert IsZeroMsg(schema, Inner());
    assert TypedVal(schema, f, m.slots[0].v);
    assert TypedField(schema, schema[1], m.slots, 0);
    assert IsZeroVal(schema, f, m.slots[0].v);
    assert EncodableField(schema, m, 0) && EncodableFields(schema, m, 0);
    assert EncField(schema, m, 0) == [] && EncFields(schema, m, 0) == [];
    assert EncFields(schema, m, 1) == [] + [];
    assert !BareField(schema, Inner(), 0);
    assert !BareMsg(schema, Inner());
    assert !HonestField(schema, m, 0);
  }

  /** The encoder accepts the struct, writes nothing, and the decoder does not find the boolean again. */
  lemma LostPointer()
    ensures WfTable(Table()) && Valid(Table(), Outer())
    ensures EncMsg(Table(), Outer()) == []
    ensures Decode(Table(), 1, []).Ok? && Decode(Table(), 1, []).value != Norm(Table(), Outer())
  {
    var t := Table();
    assert WfField(t, 0, t[0][0]) && WfField(t, 1, t[1][0]);
    assert WfDesc(t, 0) && WfDesc(t, 1);
    OuterFacts(t);
    RoundTripMsg(t, Outer());
  }

  // ------------------------------------------------------------------ one message after another

  /**
   Last one wins: two encodings in a row decode to the second message merged into the first, and fail exactly when
   the arrays of the two do not fit.
   */
  lemma LastOneWins(schema: Schema, x: Msg, y: Msg)
    requires Valid(schema, x) && Valid(schema, y) && x.desc == y.desc
    ensures TypedMsg(schema, Rebuilt(schema, x))
    ensures Decode(schema, x.desc, EncMsg(schema, x) + EncMsg(schema, y)) ==
            if FitsMsg(schema, Rebuilt(schema, x), y) then Ok(MergeMsg(schema, Rebuilt(schema, x), y), []) else Fail
  {
    var n, seen := Rebuilt(schema, x), SeenTo(schema[x.desc], |x.slots|);
    RoundTripThen(schema, x, EncMsg(schema, y));
    MergeRunThen(schema, n, y, []);
    assert EncMsg(schema, y) + [] == EncMsg(schema, y);
    RunSeen(schema, EncMsg(schema, y), n, {}, seen);
    assert {} + seen == seen;
    SeenAll(schema[x.desc], |x.slots|);
  }

  /** A run over an encoded message meets no zero tag, whatever struct it is on. */
  lemma EncodedIsComplete(schema: Schema, x: Msg, m: Msg)
    requires Valid(schema, x) && TypedMsg(schema, m) && m.desc == x.desc
    ensures var run := DecRun(schema, EncMsg(schema, x), m, {}); run.Done? ==> Complete(run) && run.rest == []
  {
    MergeRunThen(schema, m, x, []);
    assert EncMsg(schema, x) + [] == EncMsg(schema, x);
  }

  /** So merging agrees with one decoding of the concatenation whenever the first part is what the encoder wrote. */
  lemma MergingEncoded(schema: Schema, x: Msg, b: bytes, m: Msg)
    requires Valid(schema, x) && TypedMsg(schema, m) && m.desc == x.desc
    requires DecMsg(schema, EncMsg(schema, x), m).Ok?
    requires DecMsg(schema, b, DecMsg(schema, EncMsg(schema, x), m).value).Ok?
    ensures DecMsg(schema, EncMsg(schema, x), m).rest == []
    ensures DecMsg(schema, EncMsg(schema, x) + b, m) == DecMsg(schema, b, DecMsg(schema, EncMsg(schema, x), m).value)
  {
    EncodedIsComplete(schema, x, m);
    Merge(schema, EncMsg(schema, x), b, m);
  }
}
