/**
 Where a run stops. Each parser depends only on the bytes that it consumes, so a run that a zero tag ends splits
 into a complete run and that tag. This gives the condition under which merging works, on the bytes.
 */
module Stopping {
  import opened Bits
  import opened Wire
  import opened Descriptors
  import opened Decoding
  import opened Composition

  // ------------------------------------------------------------------ what a parser consumes

  /** The bytes of `s` before `rest`. */
  function Used(s: bytes, rest: bytes): bytes
    requires |rest| <= |s|
  {
    s[..|s| - |rest|]
  }

  /** `s` is what a parser consumes and `rest`, and it needs no more than that. */
  predicate Trimmed<T(==)>(s: bytes, r: Parsed<T>, alone: Parsed<T>)
    requires r.Ok? && |r.rest| <= |s|
  {
    s == Used(s, r.rest) + r.rest && alone == Ok(r.value, [])
  }

  lemma UsedTwice(s: bytes, r1: bytes, r2: bytes)
    requires |r2| <= |r1| <= |s|
    requires s == Used(s, r1) + r1 && r1 == Used(r1, r2) + r2
    ensures s == Used(s, r2) + r2 && Used(s, r2) == Used(s, r1) + Used(r1, r2)
  {}

  lemma {:induction false} RawVarintTrims(s: bytes)
    requires RawVarint(s).Ok?
    ensures Trimmed(s, RawVarint(s), RawVarint(Used(s, RawVarint(s).rest)))
  {
    var rest := RawVarint(s).rest;
    if s[0] < 128 {
      assert Used(s, rest) == [s[0]];
    } else {
      RawVarintTrims(s[1..]);
      assert Used(s, rest) == [s[0]] + Used(s[1..], rest);
    }
  }

  lemma DecVarintTrims(s: bytes)
    requires DecVarint(s).Ok?
    ensures Trimmed(s, DecVarint(s), DecVarint(Used(s, DecVarint(s).rest)))
  {
    RawVarintTrims(s);
  }

  /** What a byte that others follow leaves to be read does not depend on the others. */
  lemma DecVarint32FromStep(b: byte, result: nat, bitpos: nat) returns (bad: bool, result': nat, bitpos': nat)
    requires b >= 128 && result < TWO_32 && bitpos < 256
    ensures result' < TWO_32 && bitpos' < 256
    ensures forall s: bytes :: DecVarint32From([b] + s, result, bitpos) ==
                               if bad then Fail else DecVarint32From(s, result', bitpos')
  {
    bad := bitpos >= 32 && b % 128 != 0 && (result / TWO_31 == 0 || b != (if bitpos < 63 then 0xFF else 0x01));
    result' := if bitpos >= 32 then result else Merge32(result, b % 128, bitpos);
    bitpos' := (bitpos + 7) % 256;
    forall s: bytes
      ensures DecVarint32From([b] + s, result, bitpos) ==
              if bad then Fail else DecVarint32From(s, result', bitpos')
    {
      assert ([b] + s)[0] == b && ([b] + s)[1..] == s;
    }
  }

  lemma {:induction false} DecVarint32FromTrims(s: bytes, result: nat, bitpos: nat)
    requires result < TWO_32 && bitpos < 256 && DecVarint32From(s, result, bitpos).Ok?
    ensures var r := DecVarint32From(s, result, bitpos);
            Trimmed(s, r, DecVarint32From(Used(s, r.rest), result, bitpos))
    decreases s
  {
    var rest := DecVarint32From(s, result, bitpos).rest;
    if s[0] < 128 {
      assert Used(s, rest) == [s[0]];
    } else {
      var bad, result', bitpos' := DecVarint32FromStep(s[0], result, bitpos);
      assert s == [s[0]] + s[1..];
      DecVarint32FromTrims(s[1..], result', bitpos');
      assert Used(s, rest) == [s[0]] + Used(s[1..], rest);
    }
  }

  lemma DecVarint32Trims(s: bytes)
    requires DecVarint32(s).Ok?
    ensures Trimmed(s, DecVarint32(s), DecVarint32(Used(s, DecVarint32(s).rest)))
  {
    var rest := DecVarint32(s).rest;
    if s[0] < 128 {
      assert Used(s, rest) == [s[0]];
    } else {
      DecVarint32FromTrims(s[1..], s[0] - 128, 7);
      assert Used(s, rest) == [s[0]] + Used(s[1..], rest);
    }
  }

  lemma TakeTrims(n: nat, s: bytes)
    requires Take(n, s).Ok?
    ensures Trimmed(s, Take(n, s), Take(n, Used(s, Take(n, s).rest)))
  {
    var p := s[..n];
    assert Used(s, Take(n, s).rest) == p && p[..n] == p && p[n..] == [];
  }

  /** A number, and then something of that size or otherwise. */
  lemma Varint32Then(s: bytes, rest: bytes)
    requires DecVarint32(s).Ok? && |rest| <= |DecVarint32(s).rest|
    requires var r := DecVarint32(s).rest; r == Used(r, rest) + rest
    ensures s == Used(s, rest) + rest
    ensures DecVarint32(Used(s, rest)) == Ok(DecVarint32(s).value, Used(DecVarint32(s).rest, rest))
  {
    var r := DecVarint32(s);
    DecVarint32Trims(s);
    UsedTwice(s, r.rest, rest);
    DecVarint32Extends(Used(s, r.rest), Used(r.rest, rest));
    assert [] + Used(r.rest, rest) == Used(r.rest, rest);
  }

  lemma DecStringTrims(s: bytes)
    requires DecString(s).Ok?
    ensures Trimmed(s, DecString(s), DecString(Used(s, DecString(s).rest)))
  {
    var r := DecVarint32(s);
    TakeTrims(r.value, r.rest);
    Varint32Then(s, DecString(s).rest);
  }

  lemma SkipTrims(wireType: nat, s: bytes)
    requires Skip(wireType, s).Ok?
    ensures Trimmed(s, Skip(wireType, s), Skip(wireType, Used(s, Skip(wireType, s).rest)))
  {
    if wireType == WT_VARINT {
      RawVarintTrims(s);
    } else if wireType == WT_STRING {
      DecStringTrims(s);
    } else {
      TakeTrims(if wireType == WT_64BIT then 8 else 4, s);
    }
  }

  lemma DecSizeTrims(f: Field, s: bytes, overhead: nat)
    requires DecSize(f, s, overhead).Ok?
    ensures Trimmed(s, DecSize(f, s, overhead), DecSize(f, Used(s, DecSize(f, s, overhead).rest), overhead))
  {
    var r := DecVarint32(s);
    TakeTrims(r.value, r.rest);
    Varint32Then(s, DecSize(f, s, overhead).rest);
  }

  lemma FixedLengthTrims(f: Field, s: bytes)
    requires f.ltype.FixedLengthBytes? && WfSize(f) && DecScalar(f, s).Ok?
    ensures Trimmed(s, DecScalar(f, s), DecScalar(f, Used(s, DecScalar(f, s).rest)))
  {
    DecVarint32Trims(s);
    if DecVarint32(s).value != 0 {
      TakeTrims(f.dataSize, DecVarint32(s).rest);
      Varint32Then(s, DecScalar(f, s).rest);
    }
  }

  lemma DecScalarTrims(f: Field, s: bytes)
    requires !f.ltype.Submessage? && WfSize(f) && DecScalar(f, s).Ok?
    ensures Trimmed(s, DecScalar(f, s), DecScalar(f, Used(s, DecScalar(f, s).rest)))
  {
    match f.ltype
    case Bool => DecVarint32Trims(s);
    case Varint => DecVarintTrims(s);
    case UVarint => DecVarintTrims(s);
    case SVarint => DecVarintTrims(s);
    case Fixed32 => TakeTrims(4, s);
    case Fixed64 => TakeTrims(8, s);
    case Bytes => DecSizeTrims(f, s, BYTES_HEADER);
    case String => DecSizeTrims(f, s, 1);
    case FixedLengthBytes => FixedLengthTrims(f, s);
  }

  lemma DecValTrims(schema: Schema, f: Field, s: bytes, base: Val)
    requires WfSize(f) && (f.ltype.Submessage? ==> TypedVal(schema, f, base))
    requires DecVal(schema, f, s, base).Ok?
    ensures var r := DecVal(schema, f, s, base); Trimmed(s, r, DecVal(schema, f, Used(s, r.rest), base))
  {
    if f.ltype.Submessage? {
      DecStringTrims(s);
    } else {
      DecScalarTrims(f, s);
    }
  }

  lemma DecSlotTrims(schema: Schema, f: Field, wireType: nat, s: bytes, slot: Slot)
    requires WfSize(f) && (f.ltype.Submessage? ==> f.sub < |schema|)
    requires TypedSlot(schema, f, slot) && DecSlot(schema, f, wireType, s, slot).Ok?
    ensures var r := DecSlot(schema, f, wireType, s, slot);
            Trimmed(s, r, DecSlot(schema, f, wireType, Used(s, r.rest), slot))
  {
    if !f.htype.Repeated? {
      SlotOfValue(schema, f, wireType, s, slot);
      DecValTrims(schema, f, s, Target(schema, f, slot));
      SlotOfValue(schema, f, wireType, Used(s, DecSlot(schema, f, wireType, s, slot).rest), slot);
    } else if wireType == WT_STRING && f.Packable() {
      DecStringTrims(s);
    } else {
      DecValTrims(schema, f, s, FreshVal(schema, f));
    }
  }

  lemma SkipUnknownTrims(fields: Desc, number: nat, wireType: nat, s: bytes)
    requires SkipUnknown(fields, number, wireType, s).Ok?
    ensures var r := SkipUnknown(fields, number, wireType, s);
            Trimmed(s, r, SkipUnknown(fields, number, wireType, Used(s, r.rest)))
  {
    if fields == [] && number == 0 {
      DecVarint32Trims(s);
    } else {
      SkipTrims(wireType, s);
    }
  }

  // ------------------------------------------------------------------ where a run stops

  /** A zero tag, in any spelling, after fields that are read to their end. */
  predicate StopsAt(schema: Schema, a: bytes, m: Msg, seen: set<nat>, k: nat)
    requires TypedMsg(schema, m) && k <= |a|
  {
    && Complete(DecRun(schema, a[..k], m, seen))
    && DecVarint32(a[k..]).Ok? && DecVarint32(a[k..]).value == 0
  }

  lemma StopsThere(schema: Schema, a: bytes, m: Msg, seen: set<nat>, k: nat)
    requires TypedMsg(schema, m) && k <= |a| && StopsAt(schema, a, m, seen, k)
    ensures DecRun(schema, a, m, seen).Done? && DecRun(schema, a, m, seen).stopped
  {
    RunConcat(schema, a[..k], a[k..], m, seen);
    assert a[..k] + a[k..] == a;
    assert a[k..] != [];
  }

  /** The first field of a run, on its own bytes. */
  predicate FirstStep(schema: Schema, s: bytes, m: Msg, seen: set<nat>, rest: bytes, m': Msg, seen': set<nat>)
    requires TypedMsg(schema, m)
  {
    && |rest| < |s| && s == Used(s, rest) + rest
    && TypedMsg(schema, m') && m'.desc == m.desc
    && DecRun(schema, Used(s, rest), m, seen) == Done(m', seen', [], false)
    && DecRun(schema, s, m, seen) == DecRun(schema, rest, m', seen')
  }

  lemma StepBefore(schema: Schema, s: bytes, rest: bytes, m: Msg, seen: set<nat>, m': Msg, seen': set<nat>, k: nat)
    requires TypedMsg(schema, m) && FirstStep(schema, s, m, seen, rest, m', seen')
    requires k <= |rest| && StopsAt(schema, rest, m', seen', k)
    ensures StopsAt(schema, s, m, seen, |s| - |rest| + k)
  {
    RunConcat(schema, Used(s, rest), rest[..k], m, seen);
    assert s[..|s| - |rest| + k] == Used(s, rest) + rest[..k];
    assert s[|s| - |rest| + k..] == rest[k..];
  }

  lemma SkipStep(schema: Schema, s: bytes, m: Msg, seen: set<nat>) returns (rest: bytes)
    requires TypedMsg(schema, m) && s != [] && DecRun(schema, s, m, seen).Done?
    requires DecVarint32(s).value != 0 && Find(schema[m.desc], DecVarint32(s).value / 8) == |m.slots|
    ensures FirstStep(schema, s, m, seen, rest, m, seen)
  {
    var tag, body := DecVarint32(s).value, DecVarint32(s).rest;
    rest := SkipUnknown(schema[m.desc], tag / 8, tag % 8, body).rest;
    SkipUnknownTrims(schema[m.desc], tag / 8, tag % 8, body);
    Varint32Then(s, rest);
    assert DecRun(schema, [], m, seen) == Done(m, seen, [], false);
  }

  lemma FieldStep(schema: Schema, s: bytes, m: Msg, seen: set<nat>) returns (rest: bytes, m': Msg, seen': set<nat>)
    requires TypedMsg(schema, m) && s != [] && DecRun(schema, s, m, seen).Done?
    requires DecVarint32(s).value != 0 && Find(schema[m.desc], DecVarint32(s).value / 8) < |m.slots|
    ensures FirstStep(schema, s, m, seen, rest, m', seen')
  {
    var tag, body := DecVarint32(s).value, DecVarint32(s).rest;
    var fields := schema[m.desc];
    var i := Find(fields, tag / 8);
    FieldFacts(schema, m, i);
    var slot := m.slots[Leader(fields, i)];
    var r := DecSlot(schema, fields[i], tag % 8, body, slot);
    UpdateTyped(schema, m, i, r.value);
    rest, m', seen' := r.rest, Update(schema, m, i, r.value), See(fields, seen, i);
    DecSlotTrims(schema, fields[i], tag % 8, body, slot);
    Varint32Then(s, rest);
    assert DecRun(schema, [], m', seen') == Done(m', seen', [], false);
  }

  lemma NextStep(schema: Schema, s: bytes, m: Msg, seen: set<nat>) returns (rest: bytes, m': Msg, seen': set<nat>)
    requires TypedMsg(schema, m) && s != [] && DecRun(schema, s, m, seen).Done? && DecVarint32(s).value != 0
    ensures FirstStep(schema, s, m, seen, rest, m', seen')
  {
    if Find(schema[m.desc], DecVarint32(s).value / 8) == |m.slots| {
      rest := SkipStep(schema, s, m, seen);
      m', seen' := m, seen;
    } else {
      rest, m', seen' := FieldStep(schema, s, m, seen);
    }
  }

  lemma StopsAtOnce(schema: Schema, s: bytes, m: Msg, seen: set<nat>)
    requires TypedMsg(schema, m) && DecVarint32(s).Ok? && DecVarint32(s).value == 0
    ensures StopsAt(schema, s, m, seen, 0)
  {
    assert s[..0] == [] && s[0..] == s;
  }

  predicate Stopped(r: Run)
  {
    r.Done? && r.stopped
  }

  lemma StoppedTag(schema: Schema, s: bytes, m: Msg, seen: set<nat>)
    requires TypedMsg(schema, m) && Stopped(DecRun(schema, s, m, seen))
    ensures s != [] && DecVarint32(s).Ok?
  {}

  /** The tag where a run stops is at the beginning, or behind the first field. */
  lemma {:induction false} StopPoint(schema: Schema, s: bytes, m: Msg, seen: set<nat>) returns (k: nat)
    requires TypedMsg(schema, m) && Stopped(DecRun(schema, s, m, seen))
    ensures k <= |s| && StopsAt(schema, s, m, seen, k)
    decreases |s|, 1
  {
    StoppedTag(schema, s, m, seen);
    if DecVarint32(s).value == 0 {
      StopsAtOnce(schema, s, m, seen);
      k := 0;
    } else {
      k := StopsLater(schema, s, m, seen);
    }
  }

  lemma {:induction false} StopsLater(schema: Schema, s: bytes, m: Msg, seen: set<nat>) returns (k: nat)
    requires TypedMsg(schema, m) && Stopped(DecRun(schema, s, m, seen))
    requires s != [] && DecVarint32(s).Ok? && DecVarint32(s).value != 0
    ensures k <= |s| && StopsAt(schema, s, m, seen, k)
    decreases |s|, 0
  {
    var rest, m', seen' := NextStep(schema, s, m, seen);
    var j := StopPoint(schema, rest, m', seen');
    StepBefore(schema, s, rest, m, seen, m', seen', j);
    k := |s| - |rest| + j;
  }

  /** A run stops early if and only if a zero tag stands after fields that are read to their end. */
  lemma StoppedExactly(schema: Schema, a: bytes, m: Msg, seen: set<nat>)
    requires TypedMsg(schema, m) && DecRun(schema, a, m, seen).Done?
    ensures DecRun(schema, a, m, seen).stopped <==> exists k :: 0 <= k <= |a| && StopsAt(schema, a, m, seen, k)
  {
    if DecRun(schema, a, m, seen).stopped {
      var k := StopPoint(schema, a, m, seen);
    } else if k :| 0 <= k <= |a| && StopsAt(schema, a, m, seen, k) {
      StopsThere(schema, a, m, seen, k);
    }
  }

  // ------------------------------------------------------------------ merging

  lemma RunConsumes(schema: Schema, s: bytes, m: Msg, seen: set<nat>)
    requires TypedMsg(schema, m) && s != [] && DecRun(schema, s, m, seen).Done?
    ensures |DecRun(schema, s, m, seen).rest| < |s|
  {}

  /**
   When both parts are read to their ends, merging agrees with a single run if and only if the first part has no
   zero tag after complete fields, or nothing follows it.
   */
  lemma MergeExactly(schema: Schema, a: bytes, b: bytes, m: Msg)
    requires TypedMsg(schema, m) && DecMsg(schema, a, m).Ok? && DecMsg(schema, a, m).rest == []
    requires DecMsg(schema, b, DecMsg(schema, a, m).value).Ok?
    ensures DecMsg(schema, a + b, m) == DecMsg(schema, b, DecMsg(schema, a, m).value) <==>
            b == [] || forall k :: 0 <= k <= |a| ==> !StopsAt(schema, a, m, {}, k)
  {
    var r := DecRun(schema, a, m, {});
    StoppedExactly(schema, a, m, {});
    Merge(schema, a, b, m);
    if b != [] {
      RunConsumes(schema, b, r.m, {});
    } else {
      assert a + b == a;
    }
  }

  lemma {:induction false} MergeNothing(k: nat)
    ensures OrAt(0, 0, k) == 0 && Merge32(0, 0, k) == 0
  {
    if k > 0 {
      MergeNothing(k - 1);
    }
  }

  /** The 8-bit position counter after n more bytes. */
  function After(bitpos: nat, n: nat): (k: nat)
    requires bitpos < 256
    ensures k < 256
    decreases n
  {
    if n == 0 then bitpos else After((bitpos + 7) % 256, n - 1)
  }

  /** Continuation bytes without bits leave the register at zero and only move the position counter, which wraps. */
  lemma {:induction false} EmptyGroups(n: nat, t: bytes, bitpos: nat)
    requires bitpos < 256
    ensures DecVarint32From(seq(n, _ => 0x80) + t, 0, bitpos) == DecVarint32From(t, 0, After(bitpos, n))
    decreases n
  {
    var s: bytes := seq(n, _ => 0x80) + t;
    if n == 0 {
      assert s == t;
    } else {
      assert s[0] == 0x80 && s[1..] == seq(n - 1, _ => 0x80) + t;
      MergeNothing(bitpos);
      EmptyGroups(n - 1, t, (bitpos + 7) % 256);
    }
  }

  /** Bit 32 is out of the register. */
  lemma LostBit(k: nat)
    requires k == 31
    ensures Merge32(0, 2, k) == 0
  {
    OrAtDisjoint(0, 2, k);
    ShlIsProduct(2, k);
    Powers();
    assert Pow2(32) == 2 * Pow2(k);
  }

  lemma {:induction false} AfterSteps(n: nat, bitpos: nat)
    requires bitpos + 7 * n < 256
    ensures After(bitpos, n) == bitpos + 7 * n
    decreases n
  {
    if n > 0 {
      AfterSteps(n - 1, bitpos + 7);
    }
  }

  lemma {:induction false} AfterAdds(bitpos: nat, m: nat, n: nat)
    requires bitpos < 256
    ensures After(bitpos, m + n) == After(After(bitpos, m), n)
    decreases m
  {
    if m > 0 {
      AfterAdds((bitpos + 7) % 256, m - 1, n);
    }
  }

  lemma CounterWraps(n: nat)
    requires n == 40
    ensures After(7, n) == 31
  {
    AfterAdds(7, 35, n - 35);
    AfterSteps(35, 7);
    AfterAdds(252, 1, n - 36);
    AfterSteps(1, 0);
    AfterSteps(n - 36, 3);
  }

  /** No test on the last byte would do instead: this zero tag of 42 bytes ends in 02. */
  lemma OverlongZeroTag()
    ensures DecVarint32(seq(41, _ => 0x80) + [2]) == Ok(0, [])
  {
    var s: bytes := seq(41, _ => 0x80) + [2];
    assert s[0] == 0x80 && s[1..] == seq(40, _ => 0x80) + [2];
    EmptyGroups(40, [2], 7);
    LostBit(31);
    CounterWraps(40);
    LastByte([2]);
  }

  lemma LastByte(t: bytes)
    requires t == [2] && Merge32(0, 2, 31) == 0
    ensures DecVarint32From(t, 0, 31) == Ok(0, [])
  {}
}
