/**
 The inverse laws of the wire primitives: what each encoder writes, the matching decoder reads back, and
 exactly which values the narrow 32-bit varint decoder accepts.
 */
module Scalars {
  import opened Bits
  import opened Wire

  // ------------------------------------------------------------------ varints

  lemma {:induction false} RawVarintInverse(v: nat, t: bytes)
    ensures RawVarint(EncVarint(v) + t) == Ok(v, t)
  {
    var s := EncVarint(v) + t;
    if v < 128 {
      assert s[1..] == t;
    } else {
      assert s[1..] == EncVarint(v / 128) + t;
      RawVarintInverse(v / 128, t);
    }
  }

  /** The encoding takes k bytes or fewer exactly when the value has at most 7k bits. */
  lemma {:induction false} VarintLength(v: nat, k: nat)
    requires k > 0
    ensures |EncVarint(v)| <= k <==> v < Pow2(7 * k)
  {
    Powers();
    if v >= 128 {
      if k == 1 {
        assert |EncVarint(v / 128)| > 0;
      } else {
        VarintLength(v / 128, k - 1);
        Pow2Adds(7, 7 * (k - 1));
      }
    } else {
      Pow2Monotone(7, 7 * k);
    }
  }

  /** No byte string spells a value in fewer bytes than the encoder uses. */
  lemma {:induction false} VarintMinimal(s: bytes)
    requires RawVarint(s).Ok?
    ensures |EncVarint(RawVarint(s).value)| <= |s| - |RawVarint(s).rest|
  {
    if s[0] >= 128 {
      VarintMinimal(s[1..]);
    }
  }

  lemma VarintFitsBuffer(v: nat)
    requires v < TWO_64
    ensures |EncVarint(v)| <= 10
  {
    Powers();
    Pow2Monotone(64, 70);
    VarintLength(v, 10);
  }

  lemma VarintInverse(v: nat, t: bytes)
    requires v < TWO_64
    ensures DecVarint(EncVarint(v) + t) == Ok(v, t)
  {
    RawVarintInverse(v, t);
    VarintFitsBuffer(v);
    SmallMod(v, TWO_64);
  }

  // ------------------------------------------------------------------ the 32-bit decoder

  /** The value of a bit of byte `i` of a varint, for the bytes that the 32-bit register holds. */
  function Scale(i: nat): nat
    requires 1 <= i <= 4
  {
    if i == 1 then 0x80 else if i == 2 then 0x4000 else if i == 3 then 0x20_0000 else 0x1000_0000
  }

  lemma Merge32IsSum(r: nat, bits: nat, i: nat)
    requires 1 <= i <= 4 && bits < 128 && r < Scale(i)
    ensures Merge32(r, bits, 7 * i) == r + (if i == 4 then bits % 16 else bits) * Scale(i)
  {
    ScaleIsPow2(i);
    OrAtDisjoint(r, bits, 7 * i);
    ShlIsProduct(bits, 7 * i);
    assert i == 4 ==> bits * 0x1000_0000 % TWO_32 == bits % 16 * 0x1000_0000;
  }

  lemma ScaleIsPow2(i: nat)
    requires 1 <= i <= 4
    ensures Pow2(7 * i) == Scale(i)
  {
    assert Pow2(7) == 0x80;
    Pow2Adds(7, 7);
    Pow2Adds(14, 7);
    Pow2Adds(21, 7);
  }

  /** How large the part of a 64-bit value from byte `i` of its varint on can be. */
  function HighBound(i: nat): nat
    requires 5 <= i <= 9
  {
    if i == 5 then 0x2000_0000 else if i == 6 then 0x40_0000 else if i == 7 then 0x8000 else if i == 8 then 0x100 else 2
  }

  /** The part of a value from bit 35 up, seen by the 32-bit decoder that holds `r`. */
  predicate HighBytesAccepted(w: nat, r: nat, i: nat)
    requires 5 <= i <= 9
    decreases w
  {
    if w < 128 then i == 9 && w == 1 && r >= TWO_31
    else if i == 9 then false
    else (w % 128 == 0 || (w % 128 == 127 && r >= TWO_31)) && HighBytesAccepted(w / 128, r, i + 1)
  }

  /** What the decoder makes of the rest `w` of a value, at bit `k` and holding `r`, with `t` behind it. */
  function Narrow(w: nat, r: nat, k: nat, t: bytes): Parsed<nat>
    requires r < TWO_32 && k < 256
    decreases w
  {
    var more := w >= 128;
    var bits := if more then w % 128 else w;
    if k >= 32 && bits != 0 && (r < TWO_31 || more != (k < 63) || bits != (if more then 127 else 1)) then Fail
    else
      var r' := if k >= 32 then r else Merge32(r, bits, k);
      if more then Narrow(w / 128, r', if k < 249 then k + 7 else k - 249, t)
      else if k == 28 && bits >= 16 then Fail
      else Ok(r', t)
  }

  lemma {:induction false} NarrowOfBytes(w: nat, r: nat, k: nat, t: bytes)
    requires r < TWO_32 && k < 256
    ensures DecVarint32From(EncVarint(w) + t, r, k) == Narrow(w, r, k, t)
    decreases w
  {
    var s := EncVarint(w) + t;
    ByteFacts(if w < 128 then w else w % 128, k);
    if w < 128 {
      assert s[0] == w && s[1..] == t;
    } else {
      var m := w % 128;
      assert s[0] == m + 128 && s[1..] == EncVarint(w / 128) + t;
      var r' := if k >= 32 then r else Merge32(r, m, k);
      NarrowOfBytes(w / 128, r', if k < 249 then k + 7 else k - 249, t);
    }
  }

  lemma ByteFacts(m: nat, k: nat)
    requires m < 128 && k < 256
    ensures m % 128 == m && (m + 128) % 128 == m && (m / 16 % 8 != 0 <==> m >= 16)
    ensures (k + 7) % 256 == if k < 249 then k + 7 else k - 249
  {}

  lemma {:induction false} HighBytes(w: nat, r: nat, i: nat, t: bytes)
    requires 5 <= i <= 9 && 0 < w < HighBound(i) && r < TWO_32
    ensures Narrow(w, r, 7 * i, t) == if HighBytesAccepted(w, r, i) then Ok(r, t) else Fail
    decreases 9 - i
  {
    if w >= 128 {
      HighBytes(w / 128, r, i + 1, t);
    }
  }

  /** One byte of the part that the register holds, with `r'` for what it holds then. */
  lemma LowByteMore(w: nat, r: nat, r': nat, k: nat, t: bytes)
    requires w >= 128 && r < TWO_32 && k < 32 && r' == Merge32(r, w % 128, k)
    ensures Narrow(w, r, k, t) == Narrow(w / 128, r', k + 7, t)
  {}

  lemma LowByteEnds(w: nat, r: nat, r': nat, k: nat, t: bytes)
    requires w < 128 && r < TWO_32 && k < 32 && r' == Merge32(r, w, k)
    ensures Narrow(w, r, k, t) == if k == 28 && w >= 16 then Fail else Ok(r', t)
  {}

  /** What the decoder makes of a value whose bits are `low` (0..31), `lost` (32..34) and `high` (35 and up). */
  function PartsResult(high: nat, lost: nat, low: nat, t: bytes): Parsed<nat>
  {
    if (high == 0 && lost == 0) || (high > 0 && HighBytesAccepted(high, low, 5)) then Ok(low, t) else Fail
  }

  predicate Parts(v: nat, high: nat, lost: nat, low: nat)
  {
    v == high * 0x8_0000_0000 + lost * 0x1_0000_0000 + low && high < 0x2000_0000 && lost < 8 && low < TWO_32
  }

  lemma SmallParts(v: nat, high: nat, lost: nat, low: nat)
    requires Parts(v, high, lost, low) && v < TWO_32
    ensures high == 0 && lost == 0 && low == v
  {}

  /** The fifth byte, of which the register holds four bits. */
  lemma LowBytes4(v: nat, w: nat, r: nat, high: nat, lost: nat, low: nat, t: bytes)
    requires v == w * 0x1000_0000 + r && 0 < w && r < 0x1000_0000 && Parts(v, high, lost, low)
    ensures Narrow(w, r, 28, t) == PartsResult(high, lost, low, t)
  {
    TopByte(w, r, high, lost, low);
    Merge32IsSum(r, w % 128, 4);
    if w >= 128 {
      LowByteMore(w, r, low, 28, t);
      HighBytes(w / 128, low, 5, t);
    } else {
      FifthByteEnds(w, r, lost, low, t);
    }
  }

  lemma FifthByteEnds(w: nat, r: nat, lost: nat, low: nat, t: bytes)
    requires w < 128 && lost == w / 16 && r < TWO_32 && low == Merge32(r, w, 28)
    ensures Narrow(w, r, 28, t) == PartsResult(0, lost, low, t)
  {
    LowByteEnds(w, r, low, 28, t);
  }

  lemma TopByte(w: nat, r: nat, high: nat, lost: nat, low: nat)
    requires r < 0x1000_0000 && Parts(w * 0x1000_0000 + r, high, lost, low)
    ensures w / 128 == high && w % 128 / 16 == lost && r + w % 128 % 16 * 0x1000_0000 == low
  {
    var top := low / 0x1000_0000;
    assert w == high * 128 + lost * 16 + top;
    DivModUnique(w, high, lost * 16 + top, 128);
    DivModUnique(lost * 16 + top, lost, top, 16);
  }

  /** A value that ends in the part that the register holds. */
  lemma LowBytesEnd(v: nat, w: nat, r: nat, k: nat, high: nat, lost: nat, low: nat, t: bytes)
    requires w < 128 && r < TWO_32 && k < 28 && Parts(v, high, lost, low)
    requires v < TWO_32 && v == Merge32(r, w, k)
    ensures Narrow(w, r, k, t) == PartsResult(high, lost, low, t)
  {
    LowByteEnds(w, r, v, k, t);
    SmallParts(v, high, lost, low);
  }

  /** Moving seven bits from the rest of a value to the part that the register holds. */
  lemma Regroup(w: nat, r: nat, s: nat)
    requires r < s
    ensures w * s + r == w / 128 * (128 * s) + (r + w % 128 * s)
    ensures r + w % 128 * s < 128 * s
  {
    var q, m := w / 128, w % 128;
    assert w == q * 128 + m;
    assert (q * 128 + m) * s == q * (128 * s) + m * s;
    MulMonotone(m, 127, s);
  }

  lemma Hold(w: nat, r: nat, i: nat) returns (r': nat)
    requires 1 <= i <= 3 && r < Scale(i)
    ensures r' == Merge32(r, w % 128, 7 * i) && r' < Scale(i + 1)
    ensures w * Scale(i) + r == w / 128 * Scale(i + 1) + r'
  {
    Merge32IsSum(r, w % 128, i);
    Regroup(w, r, Scale(i));
    r' := r + w % 128 * Scale(i);
  }

  /** The bytes that the register holds, from byte `i` on. */
  lemma {:induction false} LowBytes(v: nat, w: nat, r: nat, i: nat, high: nat, lost: nat, low: nat, t: bytes)
    requires 1 <= i <= 4 && 0 < w && r < Scale(i)
    requires v == w * Scale(i) + r && Parts(v, high, lost, low)
    ensures Narrow(w, r, 7 * i, t) == PartsResult(high, lost, low, t)
    decreases 4 - i
  {
    if i == 4 {
      LowBytes4(v, w, r, high, lost, low, t);
    } else {
      var r' := Hold(w, r, i);
      if w >= 128 {
        LowByteMore(w, r, r', 7 * i, t);
        LowBytes(v, w / 128, r', i + 1, high, lost, low, t);
      } else {
        LowBytesEnd(v, w, r, 7 * i, high, lost, low, t);
      }
    }
  }

  /** Each of the lowest `n` groups of seven bits is all zeros or all ones. */
  predicate UniformGroups(w: nat, n: nat)
  {
    n == 0 || ((w % 128 == 0 || w % 128 == 127) && UniformGroups(w / 128, n - 1))
  }

  lemma {:induction false} HighGroups(w: nat, r: nat, i: nat)
    requires 5 <= i <= 9 && 0 < w < HighBound(i)
    ensures w < HighBound(i) / 2 ==> !HighBytesAccepted(w, r, i)
    ensures w >= HighBound(i) / 2 ==> (HighBytesAccepted(w, r, i) <==> r >= TWO_31 && UniformGroups(w, 9 - i))
    decreases 9 - i
  {
    if w >= 128 {
      HighGroups(w / 128, r, i + 1);
    }
  }

  lemma NarrowByParts(v: nat, high: nat, lost: nat, low: nat, t: bytes)
    requires Parts(v, high, lost, low)
    ensures DecVarint32(EncVarint(v) + t) == PartsResult(high, lost, low, t)
  {
    var s := EncVarint(v) + t;
    if v < 128 {
      assert s[0] == v && s[1..] == t;
    } else {
      assert s[0] == v % 128 + 128 && s[1..] == EncVarint(v / 128) + t;
      NarrowOfBytes(v / 128, v % 128, 7, t);
      LowBytes(v, v / 128, v % 128, 1, high, lost, low, t);
    }
  }

  /**
   The 32-bit decoder on the shortest encoding of any 64-bit value with bits `low` (0..31), `lost` (32..34) and
   `high` (35..63). It takes the values below 2^32, none from there to 2^63, and above that those with bit 31
   set in which each of the bit groups 35..41, 42..48, 49..55 and 56..62 is all zeros or all ones:
   bits 32..34 are not looked at. What it returns is the value modulo 2^32.
   */
  lemma NarrowVarint(v: nat, high: nat, lost: nat, low: nat, t: bytes)
    requires Parts(v, high, lost, low)
    ensures DecVarint32(EncVarint(v) + t) ==
            if v < TWO_32 || (v >= TWO_63 && low >= TWO_31 && UniformGroups(high, 4)) then Ok(low, t) else Fail
  {
    NarrowByParts(v, high, lost, low, t);
    assert v < TWO_32 <==> high == 0 && lost == 0;
    assert v >= TWO_63 <==> high >= 0x1000_0000;
    if high > 0 {
      HighGroups(high, low, 5);
    }
  }

  lemma Varint32Inverse(v: nat, t: bytes)
    requires v < TWO_32
    ensures DecVarint32(EncVarint(v) + t) == Ok(v, t)
  {
    NarrowByParts(v, 0, 0, v, t);
  }

  /** Every negative int32, written with its 64-bit sign extension, is read back as its 32-bit image. */
  lemma NarrowNegative(i: int, t: bytes)
    requires -(TWO_31 as int) <= i < 0
    ensures DecVarint32(EncVarint(ToUint64(i)) + t) == Ok(i + TWO_32, t)
  {
    NarrowByParts(ToUint64(i), 0x1FFF_FFFF, 7, i + TWO_32, t);
    HighGroups(0x1FFF_FFFF, i + TWO_32, 5);
    assert UniformGroups(0x1FFF_FFFF, 4);
  }

  // ------------------------------------------------------------------ fixed, zigzag, two's complement

  lemma {:induction false} FixedInverse(n: nat, v: nat)
    requires v < Pow2(8 * n)
    ensures FixedValue(EncFixed(n, v)) == v
  {
    if n > 0 {
      Pow2Adds(8, 8 * (n - 1));
      assert Pow2(8) == 256;
      FixedInverse(n - 1, v / 256);
      assert EncFixed(n, v)[1..] == EncFixed(n - 1, v / 256);
    }
  }

  lemma {:induction false} FixedBounded(s: bytes)
    ensures FixedValue(s) < Pow2(8 * |s|)
  {
    if s != [] {
      Pow2Adds(8, 8 * (|s| - 1));
      assert Pow2(8) == 256;
      FixedBounded(s[1..]);
    }
  }

  /** Zigzag is a bijection between the signed and the unsigned 64-bit integers. */
  lemma ZigZagBijection(i: int, v: nat)
    ensures -(TWO_63 as int) <= i < TWO_63 <==> ZigZag(i) < TWO_64
    ensures v < TWO_64 <==> -(TWO_63 as int) <= UnZigZag(v) < TWO_63
    ensures UnZigZag(ZigZag(i)) == i && ZigZag(UnZigZag(v)) == v
  {}

  /** A signed integer survives the trip through the low bytes of its 64-bit image. */
  lemma SignedInverse(i: int, n: nat)
    requires IntSize(n) && FitsSigned(i, n)
    ensures -(TWO_63 as int) <= i < TWO_63
    ensures ToSigned(ToUint64(i), n) == i
    ensures n <= 4 ==> ToSigned(ToUint64(i), 4) == i
  {
    if i < 0 {
      if n <= 4 {
        WrapsTo(i, 4);
      }
      WrapsTo(i, n);
    } else {
      SmallMod(i, Limit(4));
      SmallMod(i, Limit(n));
    }
  }

  lemma SmallMod(a: nat, m: nat)
    ensures a < m ==> a % m == a
  {}

  lemma WrapsTo(i: int, n: nat)
    requires IntSize(n) && -(Limit(n) as int) <= i < 0
    ensures (i + TWO_64) % Limit(n) == i + Limit(n)
  {
    if n == 1 {
      DivModUnique(i + TWO_64, 0xFF_FFFF_FFFF_FFFF, i + 0x100, 0x100);
    } else if n == 2 {
      DivModUnique(i + TWO_64, 0xFFFF_FFFF_FFFF, i + 0x1_0000, 0x1_0000);
    } else if n == 4 {
      DivModUnique(i + TWO_64, 0xFFFF_FFFF, i + TWO_32, TWO_32);
    }
  }
}
