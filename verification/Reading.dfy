/**
 What the decoder makes of any bytes, value by value: which are accepted, and as what. The ranges and lengths are
 given in numbers, and a value by what relates it to the bytes.
 */
module Reading {
  import opened Bits
  import opened Wire
  import opened Descriptors
  import opened Decoding
  import opened Composition
  import opened Format

  /** Half of the values of an integer type of this many bytes. */
  function HalfRange(size: nat): (half: int)
    ensures half > 0
  {
    if size == 1 then 0x80 else if size == 2 then 0x8000 else if size == 4 then 0x8000_0000 else 0x8000_0000_0000_0000
  }

  /** A boolean is true for every number but zero. */
  lemma BoolReads(f: Field, s: bytes)
    requires f.ltype.Bool? && WfSize(f)
    ensures match DecVarint32(s)
            case Fail => DecScalar(f, s) == Fail
            case Ok(v, rest) => DecScalar(f, s) == Ok(VInt(if v == 0 then 0 else 1), rest)
  {}

  lemma SameRemainder(v: nat, i: int, w: int)
    requires w > 0 && -w <= i < w && (v - i) % w == 0
    ensures v % w == if i < 0 then i + w else i
  {
    var low := if i < 0 then i + w else i;
    var q := (v - i) / w - if i < 0 then 1 else 0;
    assert q * w == v - low by {
      assert (v - i) / w * w == v - i;
    }
    MulBound(q, w);
    DivModUnique(v, q, low, w);
  }

  lemma RemainderSame(v: nat, w: int)
    requires w > 0
    ensures (v - v % w) % w == 0 && (v - (v % w - w)) % w == 0
  {
    var q := v / w;
    assert v - v % w == q * w;
    MultipleOf(q, w);
    assert v - (v % w - w) == (q + 1) * w;
    MultipleOf(q + 1, w);
  }

  lemma MultipleOf(q: nat, w: nat)
    requires w > 0
    ensures q * w % w == 0
  {
    DivModUnique(q * w, q, 0, w);
  }

  lemma CastOf(v: nat, n: nat, i: int)
    requires n == 4 || n == 8
    ensures ToSigned(v, n) == i <==> -HalfRange(n) <= i < HalfRange(n) && (v - i) % (2 * HalfRange(n)) == 0
  {
    RemainderSame(v, 2 * HalfRange(n));
    if -HalfRange(n) <= i < HalfRange(n) && (v - i) % (2 * HalfRange(n)) == 0 {
      SameRemainder(v, i, 2 * HalfRange(n));
    }
  }

  /**
   A signed integer is the one in the range of the field that agrees with the number on the wire in the low 64
   bits, or in the low 32 for a field of 32 bits or less; if there is none, the field is refused.
   */
  lemma SignedReads(f: Field, s: bytes, i: int)
    requires f.ltype.Varint? && WfSize(f)
    ensures match DecVarint(s)
            case Fail => DecScalar(f, s) == Fail
            case Ok(v, rest) =>
              DecScalar(f, s) == Ok(VInt(i), rest) <==>
              && -HalfRange(f.dataSize) <= i < HalfRange(f.dataSize)
              && (v - i) % (if f.dataSize == 8 then 0x1_0000_0000_0000_0000 else 0x1_0000_0000) == 0
  {
    if DecVarint(s).Ok? {
      CastOf(DecVarint(s).value, if f.dataSize == 8 then 8 else 4, i);
    }
  }

  lemma UnsignedReads(f: Field, s: bytes)
    requires f.ltype.UVarint? && WfSize(f)
    ensures match DecVarint(s)
            case Fail => DecScalar(f, s) == Fail
            case Ok(v, rest) => DecScalar(f, s) == if v < 2 * HalfRange(f.dataSize) then Ok(VInt(v), rest) else Fail
  {}

  /** The number on the wire is twice the value, or one less than twice the magnitude of a negative one. */
  lemma ZigZagReads(f: Field, s: bytes, i: int)
    requires f.ltype.SVarint? && WfSize(f)
    ensures match DecVarint(s)
            case Fail => DecScalar(f, s) == Fail
            case Ok(v, rest) =>
              DecScalar(f, s) == Ok(VInt(i), rest) <==>
              -HalfRange(f.dataSize) <= i < HalfRange(f.dataSize) && (v == 2 * i || (i < 0 && v == 2 * -i - 1))
  {}

  lemma FixedReads(f: Field, s: bytes)
    requires (f.ltype.Fixed32? || f.ltype.Fixed64?) && WfSize(f)
    ensures var n := if f.ltype.Fixed32? then 4 else 8;
            DecScalar(f, s) == if |s| >= n then Ok(VInt(LittleEndian(s, n)), s[n..]) else Fail
  {
    var n := if f.ltype.Fixed32? then 4 else 8;
    if |s| >= n {
      FixedValueExactly(s[..n]);
      LittleEndianPrefix(s, n, n);
    }
  }

  lemma {:induction false} LittleEndianPrefix(s: bytes, n: nat, k: nat)
    requires k <= n <= |s|
    ensures LittleEndian(s[..n], k) == LittleEndian(s, k)
  {
    if k > 0 {
      LittleEndianPrefix(s, n, k - 1);
    }
  }

  /** A byte array: in a static field its length and a header of four bytes must fit. */
  lemma BytesReads(f: Field, s: bytes)
    requires f.ltype.Bytes? && WfSize(f)
    ensures match DecVarint32(s)
            case Fail => DecScalar(f, s) == Fail
            case Ok(n, rest) =>
              DecScalar(f, s) == if n <= |rest| && (f.atype.Static? ==> n + 4 <= f.dataSize)
                                 then Ok(VBytes(rest[..n]), rest[n..]) else Fail
  {}

  /** A string ends at its first zero byte, if it has one, and there must be room for one more. */
  lemma StringReads(f: Field, s: bytes)
    requires f.ltype.String? && WfSize(f)
    ensures match DecVarint32(s)
            case Fail => DecScalar(f, s) == Fail
            case Ok(n, rest) =>
              if n <= |rest| && (if f.atype.Static? then n + 1 <= f.dataSize else n + 1 < 0x1_0000_0000) then
                var r := DecScalar(f, s);
                && r.Ok? && r.rest == rest[n..] && 0 !in r.value.b && r.value.b <= rest[..n]
                && (|r.value.b| < n ==> rest[|r.value.b|] == 0)
              else DecScalar(f, s) == Fail
  {
    if DecVarint32(s).Ok? && DecVarint32(s).value <= |DecVarint32(s).rest| {
      UpToNulExactly(DecVarint32(s).rest[..DecVarint32(s).value]);
    }
  }

  lemma {:induction false} UpToNulExactly(b: bytes)
    ensures UpToNul(b) <= b && 0 !in UpToNul(b) && (|UpToNul(b)| < |b| ==> b[|UpToNul(b)|] == 0)
  {
    if b != [] && b[0] != 0 {
      UpToNulExactly(b[1..]);
    }
  }

  /** Exactly as many bytes as the field has, or none at all for zeros. */
  lemma FixedLengthReads(f: Field, s: bytes)
    requires f.ltype.FixedLengthBytes? && WfSize(f)
    ensures match DecVarint32(s)
            case Fail => DecScalar(f, s) == Fail
            case Ok(n, rest) =>
              if n == 0 then
                var r := DecScalar(f, s);
                r.Ok? && r.rest == rest && |r.value.b| == f.dataSize && forall k :: 0 <= k < f.dataSize ==> r.value.b[k] == 0
              else
                DecScalar(f, s) == if n == f.dataSize && n <= |rest| then Ok(VBytes(rest[..n]), rest[n..]) else Fail
  {}

  /** A field is read by its own type. Its wire type matters for arrays of integers and booleans only. */
  lemma WireTypeIgnored(schema: Schema, f: Field, w: nat, w': nat, s: bytes, slot: Slot)
    requires WfSize(f) && (f.ltype.Submessage? ==> f.sub < |schema|) && TypedSlot(schema, f, slot)
    requires f.htype.Repeated? && f.Packable() ==> (w == 2 <==> w' == 2)
    ensures DecSlot(schema, f, w, s, slot) == DecSlot(schema, f, w', s, slot)
  {}

  // ------------------------------------------------------------------ structs and unknown fields

  /** A struct is read from the bytes that its length delimits; of those, what it leaves is passed over. */
  lemma StructReads(schema: Schema, f: Field, p: bytes, t: bytes, old': Val)
    requires f.ltype.Submessage? && WfSize(f) && TypedVal(schema, f, old') && |p| < 0x1_0000_0000
    ensures var r := DecMsg(schema, p, old'.m);
            DecVal(schema, f, EncVarint(|p|) + p + t, old') == if r.Ok? then Ok(VMsg(r.value), t) else Fail
  {
    DecStringInverse(p, t);
    assert EncString(p) == EncVarint(|p|) + p;
  }

  lemma DelimitedReads(schema: Schema, d: nat, p: bytes, t: bytes)
    requires d < |schema| && |p| < 0x1_0000_0000
    ensures var r := Decode(schema, d, p);
            DecDelimited(schema, d, EncVarint(|p|) + p + t) == if r.Ok? then Ok(r.value, t) else Fail
  {
    DecStringInverse(p, t);
    assert EncString(p) == EncVarint(|p|) + p;
  }

  /**
   A field that the message does not have is passed over by its wire type, with one exception: in a message without
   fields the number 0 is that of the end marker, and what follows is read as a boolean.
   */
  lemma UnknownReads(fields: Desc, number: nat, w: nat, s: bytes)
    ensures fields != [] || number != 0 ==> SkipUnknown(fields, number, w, s) == Skip(w, s)
    ensures match DecVarint32(s)
            case Fail => SkipUnknown([], 0, w, s) == Fail
            case Ok(_, rest) => SkipUnknown([], 0, w, s) == Ok((), rest)
  {}
}
