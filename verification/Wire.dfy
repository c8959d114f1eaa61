/**
 The wire primitives of the Protocol Buffers encoding, as functions on byte strings: varints, zigzag,
 little-endian fixed integers, tags and length-delimited strings. The encoders and decoders on streams are
 proved against these.
 */
module Wire {
  import opened Bits

  type byte = x: int | 0 <= x < 256
  type bytes = seq<byte>

  const WT_VARINT: nat := 0
  const WT_64BIT: nat := 1
  const WT_STRING: nat := 2
  const WT_32BIT: nat := 5

  /** What a parser returns: a failure, or a value with the bytes that follow it. */
  datatype Parsed<+T> = Fail | Ok(value: T, rest: bytes) {
    predicate IsFailure() {
      Fail?
    }

    function PropagateFailure<U>(): Parsed<U>
      requires Fail?
    {
      Fail
    }

    function Extract(): (T, bytes)
      requires Ok?
    {
      (value, rest)
    }
  }

  lemma ConcatAssociates(a: bytes, b: bytes, c: bytes)
    ensures a + b + c == a + (b + c)
  {}

  // ------------------------------------------------------------------ varints

  /** Seven bits a byte, least significant first, the top bit set on every byte but the last. */
  function EncVarint(v: nat): (s: bytes)
    ensures |s| > 0
  {
    if v < 128 then [v] else [v % 128 + 128] + EncVarint(v / 128)
  }

  /** The number a varint spells, whatever its length. */
  function RawVarint(s: bytes): (r: Parsed<nat>)
    ensures r.Ok? ==> |r.rest| < |s|
  {
    if s == [] then Fail
    else if s[0] < 128 then Ok(s[0], s[1..])
    else
      var (v, rest) :- RawVarint(s[1..]);
      Ok(s[0] - 128 + 128 * v, rest)
  }

  /** A 64-bit varint: at most ten bytes, bits past the 64th dropped. */
  function DecVarint(s: bytes): (r: Parsed<nat>)
    ensures r.Ok? ==> |r.rest| < |s| && r.value < TWO_64
  {
    var (v, rest) :- RawVarint(s);
    if |s| - |rest| <= 10 then Ok(v % TWO_64, rest) else Fail
  }

  /** Bytes after the first of a 32-bit varint. `bitpos` is an 8-bit counter that wraps around. */
  function DecVarint32From(s: bytes, result: nat, bitpos: nat): (r: Parsed<nat>)
    requires result < TWO_32 && bitpos < 256
    ensures r.Ok? ==> |r.rest| < |s| && r.value < TWO_32
  {
    if s == [] then Fail
    else
      var b := s[0];
      if bitpos >= 32 && b % 128 != 0 && (result / TWO_31 == 0 || b != (if bitpos < 63 then 0xFF else 0x01)) then
        Fail
      else
        var result' := if bitpos >= 32 then result else Merge32(result, b % 128, bitpos);
        var bitpos' := (bitpos + 7) % 256;
        if b >= 128 then DecVarint32From(s[1..], result', bitpos')
        else if bitpos' == 35 && b / 16 % 8 != 0 then Fail
        else Ok(result', s[1..])
  }

  /** `result | (uint32_t)bits << k` */
  function Merge32(result: nat, bits: nat, k: nat): (r: nat)
    ensures r < TWO_32
  {
    OrAt(result, bits, k) % TWO_32
  }

  function DecVarint32(s: bytes): (r: Parsed<nat>)
    ensures r.Ok? ==> |r.rest| < |s| && r.value < TWO_32
  {
    if s == [] then Fail
    else if s[0] < 128 then Ok(s[0], s[1..])
    else DecVarint32From(s[1..], s[0] - 128, 7)
  }

  // ------------------------------------------------------------------ other scalars

  /** Little-endian, `n` bytes. */
  function EncFixed(n: nat, v: nat): (s: bytes)
    ensures |s| == n
  {
    if n == 0 then [] else [v % 256] + EncFixed(n - 1, v / 256)
  }

  function FixedValue(s: bytes): nat
  {
    if s == [] then 0 else s[0] + 256 * FixedValue(s[1..])
  }

  /** A signed integer in two's complement on 64 bits. */
  function ToUint64(i: int): (v: nat)
    requires -(TWO_63 as int) <= i < TWO_63
  {
    if i < 0 then i + TWO_64 else i
  }

  /** The integer widths of the codec, in bytes, and the number of values of each. */
  predicate IntSize(n: nat)
  {
    n == 1 || n == 2 || n == 4 || n == 8
  }

  function Limit(n: nat): nat
  {
    if n == 1 then 0x100 else if n == 2 then 0x1_0000 else if n == 4 then TWO_32 else TWO_64
  }

  predicate FitsSigned(i: int, n: nat)
  {
    -(Limit(n) / 2) <= i < Limit(n) / 2
  }

  /** The low `n` bytes of a value, taken as a signed integer: C's cast to the type of that width. */
  function ToSigned(v: nat, n: nat): (i: int)
    ensures FitsSigned(i, n)
  {
    var low := v % Limit(n);
    if low < Limit(n) / 2 then low else low - Limit(n)
  }

  function ZigZag(i: int): nat
  {
    if i < 0 then -2 * i - 1 else 2 * i
  }

  function UnZigZag(v: nat): int
  {
    if v % 2 == 1 then -(v / 2) - 1 else v / 2
  }

  // ------------------------------------------------------------------ tags, strings, skipping

  function EncTag(wireType: nat, number: nat): (s: bytes)
    ensures |s| > 0
  {
    EncVarint(number * 8 + wireType)
  }

  function Take(n: nat, s: bytes): (r: Parsed<bytes>)
    ensures r.Ok? ==> |r.rest| == |s| - n && |r.value| == n
  {
    if |s| < n then Fail else Ok(s[..n], s[n..])
  }

  /** A length and that many bytes. */
  function EncString(b: bytes): (s: bytes)
    ensures |s| > |b|
  {
    EncVarint(|b|) + b
  }

  function DecString(s: bytes): (r: Parsed<bytes>)
    ensures r.Ok? ==> |r.rest| < |s| && |r.value| < |s| && |r.value| < TWO_32
  {
    var (n, rest) :- DecVarint32(s);
    Take(n, rest)
  }

  /** Passing over a value whose field is unknown. */
  function Skip(wireType: nat, s: bytes): (r: Parsed<()>)
    ensures r.Ok? ==> |r.rest| < |s|
  {
    if wireType == WT_VARINT then
      var (v, rest) :- RawVarint(s);
      Ok((), rest)
    else if wireType == WT_64BIT then
      var (b, rest) :- Take(8, s);
      Ok((), rest)
    else if wireType == WT_STRING then
      var (b, rest) :- DecString(s);
      Ok((), rest)
    else if wireType == WT_32BIT then
      var (b, rest) :- Take(4, s);
      Ok((), rest)
    else Fail
  }

  // ------------------------------------------------------------------ a parse does not depend on what follows

  lemma {:induction false} RawVarintExtends(s: bytes, t: bytes)
    requires RawVarint(s).Ok?
    ensures RawVarint(s + t) == Ok(RawVarint(s).value, RawVarint(s).rest + t)
  {
    if s[0] < 128 {
      assert (s + t)[1..] == s[1..] + t;
    } else {
      RawVarintExtends(s[1..], t);
      assert (s + t)[1..] == s[1..] + t;
    }
  }

  lemma DecVarintExtends(s: bytes, t: bytes)
    requires DecVarint(s).Ok?
    ensures DecVarint(s + t) == Ok(DecVarint(s).value, DecVarint(s).rest + t)
  {
    RawVarintExtends(s, t);
  }

  lemma {:induction false} DecVarint32FromExtends(s: bytes, t: bytes, result: nat, bitpos: nat)
    requires result < TWO_32 && bitpos < 256
    requires DecVarint32From(s, result, bitpos).Ok?
    ensures var r := DecVarint32From(s, result, bitpos);
            DecVarint32From(s + t, result, bitpos) == Ok(r.value, r.rest + t)
    decreases s
  {
    assert (s + t)[1..] == s[1..] + t;
    if s[0] >= 128 {
      var result' := if bitpos >= 32 then result else Merge32(result, s[0] % 128, bitpos);
      DecVarint32FromExtends(s[1..], t, result', (bitpos + 7) % 256);
    }
  }

  lemma DecVarint32Extends(s: bytes, t: bytes)
    requires DecVarint32(s).Ok?
    ensures DecVarint32(s + t) == Ok(DecVarint32(s).value, DecVarint32(s).rest + t)
  {
    assert (s + t)[1..] == s[1..] + t;
    if s[0] >= 128 {
      DecVarint32FromExtends(s[1..], t, s[0] - 128, 7);
    }
  }

  lemma TakeExtends(n: nat, s: bytes, t: bytes)
    requires Take(n, s).Ok?
    ensures Take(n, s + t) == Ok(Take(n, s).value, Take(n, s).rest + t)
  {
    assert (s + t)[..n] == s[..n] && (s + t)[n..] == s[n..] + t;
  }

  lemma DecStringExtends(s: bytes, t: bytes)
    requires DecString(s).Ok?
    ensures DecString(s + t) == Ok(DecString(s).value, DecString(s).rest + t)
  {
    DecVarint32Extends(s, t);
    TakeExtends(DecVarint32(s).value, DecVarint32(s).rest, t);
  }

  lemma SkipExtends(wireType: nat, s: bytes, t: bytes)
    requires Skip(wireType, s).Ok?
    ensures Skip(wireType, s + t) == Ok((), Skip(wireType, s).rest + t)
  {
    if wireType == WT_VARINT {
      RawVarintExtends(s, t);
    } else if wireType == WT_STRING {
      DecStringExtends(s, t);
    }
  }
}
