/**
 The decoders of single values. The C code casts a number to the type of the field and compares it with what it
 was before the cast; the specification asks whether it fits.
 */
module ScalarDecoders {
  import opened Bits
  import opened Wire
  import opened Scalars
  import opened Descriptors
  import opened Decoding
  import opened Input
  import opened Memory
  import opened Allocation

  /** As `Reads`, for a reader that also fails when an allocation does. */
  ghost predicate Gives<T>(ok: bool, value: T, rest: bytes, r: Parsed<T>, outOfMemory: bool)
  {
    if ok then r == Ok(value, rest) else r == Fail || outOfMemory
  }

  /** C's cast of an integer to the signed type of `n` bytes. */
  function CastSigned(i: int, n: nat): (r: int)
    ensures FitsSigned(r, n)
  {
    ToSigned(i % TWO_64, n)
  }

  /** Casting changes an integer exactly when it does not fit. */
  lemma CastKeepsFitting(i: int, n: nat)
    requires IntSize(n) && FitsSigned(i, 8)
    ensures CastSigned(i, n) == i <==> FitsSigned(i, n)
  {
    if FitsSigned(i, n) {
      if i < 0 {
        NegativeMod(i);
        WrapsTo(i, n);
      } else {
        SmallMod(i, TWO_64);
        SmallMod(i, Limit(n));
      }
    }
  }

  lemma NegativeMod(i: int)
    requires -(TWO_63 as int) <= i < 0
    ensures i % TWO_64 == i + TWO_64
  {}

  lemma CutKeepsFitting(v: nat, n: nat)
    requires IntSize(n)
    ensures v % Limit(n) == v <==> v < Limit(n)
  {}

  method DecodeVarintField(s: IStream, f: Field) returns (ok: bool, v: Val)
    requires s.Valid() && WfSize(f) && f.ltype.Varint?
    modifies s
    ensures s.Valid() && s.Conserved(true)
    ensures Reads(ok, v, s.Rest(), DecScalar(f, old(s.Rest())))
  {
    var value;
    ok, value := DecodeVarint(s);
    if !ok {
      return false, VNone;
    }
    var svalue := ToSigned(value, if f.dataSize == 8 then 8 else 4);
    var clamped := CastSigned(svalue, f.dataSize);
    CastKeepsFitting(svalue, f.dataSize);
    if clamped != svalue {
      return false, VNone;
    }
    return true, VInt(clamped);
  }

  method DecodeUVarintField(s: IStream, f: Field) returns (ok: bool, v: Val)
    requires s.Valid() && WfSize(f) && f.ltype.UVarint?
    modifies s
    ensures s.Valid() && s.Conserved(true)
    ensures Reads(ok, v, s.Rest(), DecScalar(f, old(s.Rest())))
  {
    var value;
    ok, value := DecodeVarint(s);
    if !ok {
      return false, VNone;
    }
    var clamped := value % Limit(f.dataSize);
    CutKeepsFitting(value, f.dataSize);
    if clamped != value {
      return false, VNone;
    }
    return true, VInt(clamped);
  }

  /** `~(value >> 1)` or `value >> 1`, as a signed number. */
  method DecodeSVarint(s: IStream) returns (ok: bool, i: int)
    requires s.Valid()
    modifies s
    ensures s.Valid() && s.Conserved(true)
    ensures match DecVarint(old(s.Rest()))
            case Fail => !ok
            case Ok(v, rest) => ok && i == UnZigZag(v) && s.Rest() == rest && FitsSigned(i, 8)
  {
    var value;
    ok, value := DecodeVarint(s);
    if !ok {
      return false, 0;
    }
    i := SignedHalf(value);
  }

  function SignedHalf(value: nat): (i: int)
    requires value < TWO_64
    ensures i == UnZigZag(value) && FitsSigned(i, 8)
  {
    var half := value / 2;
    SmallMod(half, TWO_64);
    SmallMod(TWO_64 - 1 - half, TWO_64);
    if value % 2 == 1 then ToSigned(TWO_64 - 1 - half, 8) else ToSigned(half, 8)
  }

  method DecodeSVarintField(s: IStream, f: Field) returns (ok: bool, v: Val)
    requires s.Valid() && WfSize(f) && f.ltype.SVarint?
    modifies s
    ensures s.Valid() && s.Conserved(true)
    ensures Reads(ok, v, s.Rest(), DecScalar(f, old(s.Rest())))
  {
    var value;
    ok, value := DecodeSVarint(s);
    if !ok {
      return false, VNone;
    }
    var clamped := CastSigned(value, f.dataSize);
    CastKeepsFitting(value, f.dataSize);
    if clamped != value {
      return false, VNone;
    }
    return true, VInt(clamped);
  }

  lemma {:induction false} FixedAppend(p: bytes, b: byte)
    ensures FixedValue(p + [b]) == FixedValue(p) + Shl(b, 8 * |p|)
  {
    if p != [] {
      FixedAppend(p[1..], b);
      assert (p + [b])[1..] == p[1..] + [b];
      ShlBytes(b, 8 * (|p| - 1));
    }
  }

  lemma {:induction false} ShlBytes(b: nat, k: nat)
    ensures Shl(b, k + 8) == 256 * Shl(b, k)
  {
    if k > 0 {
      ShlBytes(b, k - 1);
    } else {
      ShlAdds(0, b, 0);
      assert Shl(b, 8) == 2 * Shl(b, 7);
    }
  }

  /** `bytes[0] | bytes[1] << 8 | ...`, in a register of the width that holds them all. */
  method Assemble(b: bytes) returns (v: nat)
    ensures v == FixedValue(b)
  {
    v := 0;
    for i := 0 to |b|
      invariant v == FixedValue(b[..i])
    {
      FixedBounded(b[..i]);
      FixedAppend(b[..i], b[i]);
      OrAtDisjoint(v, b[i], 8 * i);
      assert b[..i] + [b[i]] == b[..i + 1];
      v := OrAt(v, b[i], 8 * i);
    }
    assert b[..|b|] == b;
  }

  method DecodeFixedField(s: IStream, f: Field) returns (ok: bool, v: Val)
    requires s.Valid() && WfSize(f) && (f.ltype.Fixed32? || f.ltype.Fixed64?)
    modifies s
    ensures s.Valid() && s.Conserved(true)
    ensures Reads(ok, v, s.Rest(), DecScalar(f, old(s.Rest())))
  {
    var b;
    ok, b := s.Read(if f.ltype.Fixed32? then 4 else 8);
    if !ok {
      return false, VNone;
    }
    var i := Assemble(b);
    v := VInt(i);
  }

  /** The string of a pointer field is allocated; `p` and `q` are the pointer before and after. */
  predicate Allocated(f: Field)
  {
    f.atype.Pointer? && (f.ltype.Bytes? || f.ltype.String?)
  }

  /** Storage for `size` bytes: a new block, or the field itself if they fit. */
  method StorageFor(heap: Heap, f: Field, allocSize: nat, p: nat, ghost frame: multiset<nat>) returns (ok: bool, q: nat)
    requires heap.Valid() && heap.live == frame + BlockOf(p) && 0 < allocSize < TWO_64
    modifies heap
    ensures heap.Valid() && heap.live == frame + BlockOf(q) && heap.lost == old(heap.lost)
    ensures heap.failures == old(heap.failures) + if f.atype.Pointer? && !ok then 1 else 0
    ensures if f.atype.Static? then q == p && (ok <==> allocSize <= f.dataSize) else ok ==> q != 0
    ensures f.atype.Pointer? && ok ==> q in heap.sizes && heap.sizes[q] == allocSize
  {
    if f.atype.Pointer? {
      ok, q := AllocateField(heap, p, allocSize, 1, frame);
      return;
    }
    return allocSize <= f.dataSize, p;
  }

  method DecodeBytesField(s: IStream, heap: Heap, f: Field, p: nat, ghost frame: multiset<nat>)
    returns (ok: bool, v: Val, q: nat)
    requires s.Valid() && WfSize(f) && f.ltype.Bytes? && heap.Valid() && heap.live == frame + BlockOf(p)
    modifies s, heap
    ensures s.Valid() && s.Conserved(true)
    ensures Gives(ok, v, s.Rest(), DecScalar(f, old(s.Rest())), heap.failures > old(heap.failures))
    ensures heap.Valid() && heap.live == frame + BlockOf(q) && heap.lost == old(heap.lost)
    ensures heap.failures >= old(heap.failures) && (if Allocated(f) then ok ==> q != 0 else q == p)
    ensures ok && Allocated(f) ==> q in heap.sizes && heap.sizes[q] == DecVarint32(old(s.Rest())).value + 4
  {
    v, q := VNone, p;
    var size, b;
    ok, size := DecodeVarint32(s);
    if !ok {
      return;
    }
    ok, q := StorageFor(heap, f, size + BYTES_HEADER, p, frame);
    if !ok {
      return;
    }
    ok, b := s.Read(size);
    v := VBytes(b);
  }

  /** Space for the end of the string is added in 32 bits. */
  function WithTerminator(size: nat): (r: nat)
    requires size < TWO_32
    ensures if size == SIZE_MAX then r == 0 else r == size + 1
  {
    (size + 1) % TWO_32
  }

  method DecodeStringField(s: IStream, heap: Heap, f: Field, p: nat, ghost frame: multiset<nat>)
    returns (ok: bool, v: Val, q: nat)
    requires s.Valid() && WfSize(f) && f.ltype.String? && heap.Valid() && heap.live == frame + BlockOf(p)
    modifies s, heap
    ensures s.Valid() && s.Conserved(true)
    ensures Gives(ok, v, s.Rest(), DecScalar(f, old(s.Rest())), heap.failures > old(heap.failures))
    ensures heap.Valid() && heap.live == frame + BlockOf(q) && heap.lost == old(heap.lost)
    ensures heap.failures >= old(heap.failures) && (if Allocated(f) then ok ==> q != 0 else q == p)
    ensures ok && Allocated(f) ==> q in heap.sizes && heap.sizes[q] == DecVarint32(old(s.Rest())).value + 1
  {
    v, q := VNone, p;
    var size, b;
    ok, size := DecodeVarint32(s);
    if !ok {
      return;
    }
    var allocSize := WithTerminator(size);
    if allocSize < size {
      return false, v, q;
    }
    ok, q := StorageFor(heap, f, allocSize, p, frame);
    if !ok {
      return;
    }
    ok, b := s.Read(size);
    v := VBytes(UpToNul(b));
  }

  method DecodeFixedLengthBytes(s: IStream, f: Field) returns (ok: bool, v: Val)
    requires s.Valid() && WfSize(f) && f.ltype.FixedLengthBytes?
    modifies s
    ensures s.Valid() && s.Conserved(true)
    ensures Reads(ok, v, s.Rest(), DecScalar(f, old(s.Rest())))
  {
    var size, b;
    ok, size := DecodeVarint32(s);
    if !ok {
      return false, VNone;
    }
    if size == 0 {
      return true, VBytes(Zeros(f.dataSize));
    }
    if size != f.dataSize {
      return false, VNone;
    }
    ok, b := s.Read(f.dataSize);
    v := VBytes(b);
  }

  method DecodeBool(s: IStream) returns (ok: bool, v: Val)
    requires s.Valid()
    modifies s
    ensures s.Valid() && s.Conserved(true)
    ensures match DecVarint32(old(s.Rest()))
            case Fail => !ok
            case Ok(n, rest) => ok && v == VInt(if n != 0 then 1 else 0) && s.Rest() == rest
  {
    var value;
    ok, value := DecodeVarint32(s);
    v := VInt(if value != 0 then 1 else 0);
  }

  /** The decoders of packable types. */
  method DecodeNumber(s: IStream, f: Field) returns (ok: bool, v: Val)
    requires s.Valid() && WfSize(f) && f.Packable()
    modifies s
    ensures s.Valid() && s.Conserved(true)
    ensures Reads(ok, v, s.Rest(), DecScalar(f, old(s.Rest())))
  {
    if f.ltype.Bool? {
      ok, v := DecodeBool(s);
    } else if f.ltype.Varint? {
      ok, v := DecodeVarintField(s, f);
    } else if f.ltype.UVarint? {
      ok, v := DecodeUVarintField(s, f);
    } else if f.ltype.SVarint? {
      ok, v := DecodeSVarintField(s, f);
    } else {
      ok, v := DecodeFixedField(s, f);
    }
  }

  method DecodeScalar(s: IStream, heap: Heap, f: Field, p: nat, ghost frame: multiset<nat>)
    returns (ok: bool, v: Val, q: nat)
    requires s.Valid() && WfSize(f) && !f.ltype.Submessage? && heap.Valid() && heap.live == frame + BlockOf(p)
    modifies s, heap
    ensures s.Valid() && s.Conserved(true)
    ensures Gives(ok, v, s.Rest(), DecScalar(f, old(s.Rest())), heap.failures > old(heap.failures))
    ensures heap.Valid() && heap.live == frame + BlockOf(q) && heap.lost == old(heap.lost)
    ensures heap.failures >= old(heap.failures) && (if Allocated(f) then ok ==> q != 0 else q == p)
    ensures ok && Allocated(f) ==>
              q in heap.sizes && heap.sizes[q] == DecVarint32(old(s.Rest())).value + if f.ltype.Bytes? then 4 else 1
  {
    q := p;
    if f.ltype.Bytes? {
      ok, v, q := DecodeBytesField(s, heap, f, p, frame);
    } else if f.ltype.String? {
      ok, v, q := DecodeStringField(s, heap, f, p, frame);
    } else if f.ltype.FixedLengthBytes? {
      ok, v := DecodeFixedLengthBytes(s, f);
    } else {
      ok, v := DecodeNumber(s, f);
    }
  }
}
