/**
 Output streams and the primitives that write to them. A stream writes into a buffer, or only counts.
 */
module Output {
  import opened Bits
  import opened Wire
  import opened Scalars

  /**
   The effect of writing `b` to a stream that held `before`: it succeeds exactly when `b` is good and there is
   room for all of it, and whatever a failed write of a good `b` left behind is a prefix of it.
   */
  ghost predicate Outcome(ok: bool, sizing: bool, maxSize: nat, before: bytes, after: bytes, b: bytes, good: bool)
  {
    && (ok <==> good && (sizing || |before| + |b| <= maxSize))
    && before <= after
    && (ok ==> after == before + b)
    && (!ok && good ==> after <= before + b)
  }

  lemma OutcomeThen(
    ok1: bool, ok2: bool, sizing: bool, maxSize: nat, c0: bytes, c1: bytes, c2: bytes,
    a: bytes, b: bytes, good1: bool, good2: bool)
    requires Outcome(ok1, sizing, maxSize, c0, c1, a, good1)
    requires if ok1 then Outcome(ok2, sizing, maxSize, c1, c2, b, good2) else !ok2 && c2 == c1
    ensures Outcome(ok2, sizing, maxSize, c0, c2, a + b, good1 && good2)
  {
    assert c0 + a + b == c0 + (a + b);
  }

  class OStream {
    const sizing: bool         // no callback: nothing is stored
    const buf: array<byte>
    const maxSize: nat
    var state: nat             // where the next byte goes
    var bytesWritten: nat
    ghost var Contents: bytes  // what was written, or counted, so far
    ghost const start: nat     // where the contents begin in the buffer

    ghost predicate Valid()
      reads this, buf
    {
      && bytesWritten == |Contents|
      && (!sizing ==>
            && |Contents| <= maxSize
            && start + maxSize <= buf.Length
            && state == start + |Contents|
            && buf[start..state] == Contents)
    }

    constructor FromBuffer(buf: array<byte>, size: nat)
      requires size <= buf.Length
      ensures Valid() && Contents == [] && !sizing && this.buf == buf && maxSize == size && start == 0
    {
      this.sizing, this.buf, this.maxSize := false, buf, size;
      this.state, this.bytesWritten := 0, 0;
      this.Contents, this.start := [], 0;
    }

    constructor Sizing()
      ensures Valid() && Contents == [] && sizing && fresh(buf)
    {
      var none := new byte[0];
      this.sizing, this.buf, this.maxSize := true, none, 0;
      this.state, this.bytesWritten := 0, 0;
      this.Contents, this.start := [], 0;
    }

    /** A stream over the next `size` bytes of another one. */
    constructor Within(parent: OStream, size: nat)
      requires parent.Valid() && !parent.sizing && parent.bytesWritten + size <= parent.maxSize
      ensures Valid() && Contents == [] && !sizing && buf == parent.buf && maxSize == size && start == parent.state
    {
      this.sizing, this.buf, this.maxSize := false, parent.buf, size;
      this.state, this.bytesWritten := parent.state, 0;
      this.Contents, this.start := [], parent.state;
    }

    /** Only the bytes from the old to the new position have changed. */
    twostate predicate Framed()
      reads this, buf
    {
      && old(state) <= state
      && forall k :: 0 <= k < buf.Length && !(old(state) <= k < state) ==> buf[k] == old(buf[k])
    }

    method BufWrite(b: bytes)
      requires state + |b| <= buf.Length
      modifies this`state, buf
      ensures state == old(state) + |b| && buf[old(state)..state] == b && Framed()
    {
      var dest := state;
      state := dest + |b|;
      for i := 0 to |b|
        invariant state == dest + |b| && buf[dest..dest + i] == b[..i]
        invariant forall k :: 0 <= k < buf.Length && !(dest <= k < dest + i) ==> buf[k] == old(buf[k])
      {
        buf[dest + i] := b[i];
      }
      assert b[..|b|] == b;
    }

    method Write(b: bytes) returns (ok: bool)
      requires Valid()
      modifies this, buf
      ensures Valid() && Framed()
      ensures Outcome(ok, sizing, maxSize, old(Contents), Contents, b, true)
      ensures !ok ==> Contents == old(Contents)
    {
      if |b| > 0 && !sizing {
        if bytesWritten + |b| > maxSize {
          return false;
        }
        BufWrite(b);
        assert buf[start..state] == buf[start..old(state)] + buf[old(state)..state];
        assert buf[start..old(state)] == old(buf[start..state]);
      }
      bytesWritten := bytesWritten + |b|;
      Contents := Contents + b;
      return true;
    }

    /** Taking over what was written through a stream within this one. */
    method Absorb(sub: OStream)
      requires Valid() && sub.Valid() && !sizing && !sub.sizing && this != sub
      requires sub.buf == buf && sub.start == state && bytesWritten + sub.bytesWritten <= maxSize
      modifies this
      ensures Valid() && Contents == old(Contents) + sub.Contents && state == sub.state
    {
      bytesWritten := bytesWritten + sub.bytesWritten;
      state := sub.state;
      Contents := Contents + sub.Contents;
      assert buf[start..state] == buf[start..sub.start] + buf[sub.start..state];
    }

    /** Passing over `n` bytes of a stream that only counts. */
    method Count(n: nat, ghost b: bytes) returns (ok: bool)
      requires Valid() && sizing && n == |b|
      modifies this
      ensures Valid() && Framed()
      ensures Outcome(ok, sizing, maxSize, old(Contents), Contents, b, true)
    {
      bytesWritten := bytesWritten + n;
      Contents := Contents + b;
      return true;
    }
  }

  // ------------------------------------------------------------------ varints

  /** The bytes of a varint before the top bit of the last one is cleared. */
  function Continued(v: nat): bytes
  {
    if v == 0 then [] else [v % 128 + 128] + Continued(v / 128)
  }

  lemma {:induction false} ContinuedIsVarint(v: nat)
    requires v > 0
    ensures |Continued(v)| == |EncVarint(v)|
    ensures EncVarint(v) == Continued(v)[|Continued(v)| - 1 := Continued(v)[|Continued(v)| - 1] % 128]
  {
    if v >= 128 {
      ContinuedIsVarint(v / 128);
    } else {
      assert Continued(v / 128) == [];
    }
  }

  /** The loop that fills the local buffer; it stays within its ten bytes. */
  method FillVarint(value: nat) returns (buffer: array<byte>, n: nat)
    requires |Continued(value)| <= 10
    ensures fresh(buffer) && n <= buffer.Length == 10 && buffer[..n] == Continued(value)
  {
    buffer := new byte[10];
    n := 0;
    var v := value;
    while v != 0
      invariant n <= 10 && Continued(value) == buffer[..n] + Continued(v)
    {
      ghost var done := buffer[..n];
      assert |Continued(value)| == n + |Continued(v)|;
      buffer[n] := v % 128 + 128;
      assert buffer[..n + 1] == done + [v % 128 + 128];
      v := v / 128;
      n := n + 1;
    }
  }

  method EncodeVarint(s: OStream, value: nat) returns (ok: bool)
    requires s.Valid() && value < TWO_64
    modifies s, s.buf
    ensures s.Valid() && s.Framed()
    ensures Outcome(ok, s.sizing, s.maxSize, old(s.Contents), s.Contents, EncVarint(value), true)
  {
    if value <= 0x7F {
      ok := s.Write([value]);
      return;
    }
    VarintFitsBuffer(value);
    ContinuedIsVarint(value);
    var buffer, i := FillVarint(value);
    buffer[i - 1] := buffer[i - 1] % 128;
    ok := s.Write(buffer[..i]);
  }

  /** `~((uint64_t)i << 1)` for a negative value, `(uint64_t)i << 1` otherwise. */
  method EncodeSVarint(s: OStream, i: int) returns (ok: bool)
    requires s.Valid() && -(TWO_63 as int) <= i < TWO_63
    modifies s, s.buf
    ensures s.Valid() && s.Framed()
    ensures Outcome(ok, s.sizing, s.maxSize, old(s.Contents), s.Contents, EncVarint(ZigZag(i)), true)
  {
    var shifted := ToUint64(i) * 2 % TWO_64;
    var zigzagged := if i < 0 then TWO_64 - 1 - shifted else shifted;
    assert zigzagged == ZigZag(i);
    ok := EncodeVarint(s, zigzagged);
  }

  /** `v >> 8 * i & 0xFF` */
  function ByteOf(v: nat, i: nat): byte
  {
    if i == 0 then v % 256 else ByteOf(v / 256, i - 1)
  }

  lemma {:induction false} FixedBytes(n: nat, v: nat)
    ensures forall i :: 0 <= i < n ==> EncFixed(n, v)[i] == ByteOf(v, i)
  {
    if n > 0 {
      FixedBytes(n - 1, v / 256);
    }
  }

  method EncodeFixed32(s: OStream, v: nat) returns (ok: bool)
    requires s.Valid() && v < TWO_32
    modifies s, s.buf
    ensures s.Valid() && s.Framed()
    ensures Outcome(ok, s.sizing, s.maxSize, old(s.Contents), s.Contents, EncFixed(4, v), true)
  {
    var b := new byte[4];
    b[0], b[1], b[2], b[3] := ByteOf(v, 0), ByteOf(v, 1), ByteOf(v, 2), ByteOf(v, 3);
    FixedBytes(4, v);
    assert b[..] == EncFixed(4, v);
    ok := s.Write(b[..]);
  }

  method EncodeFixed64(s: OStream, v: nat) returns (ok: bool)
    requires s.Valid() && v < TWO_64
    modifies s, s.buf
    ensures s.Valid() && s.Framed()
    ensures Outcome(ok, s.sizing, s.maxSize, old(s.Contents), s.Contents, EncFixed(8, v), true)
  {
    var b := new byte[8];
    b[0], b[1], b[2], b[3] := ByteOf(v, 0), ByteOf(v, 1), ByteOf(v, 2), ByteOf(v, 3);
    b[4], b[5], b[6], b[7] := ByteOf(v, 4), ByteOf(v, 5), ByteOf(v, 6), ByteOf(v, 7);
    FixedBytes(8, v);
    assert b[..] == EncFixed(8, v);
    ok := s.Write(b[..]);
  }

  method EncodeTag(s: OStream, wireType: nat, number: nat) returns (ok: bool)
    requires s.Valid() && wireType < 8 && number < TWO_32
    modifies s, s.buf
    ensures s.Valid() && s.Framed()
    ensures Outcome(ok, s.sizing, s.maxSize, old(s.Contents), s.Contents, EncTag(wireType, number), true)
  {
    ok := EncodeVarint(s, number * 8 + wireType);
  }

  method EncodeString(s: OStream, b: bytes) returns (ok: bool)
    requires s.Valid() && |b| < TWO_64
    modifies s, s.buf
    ensures s.Valid() && s.Framed()
    ensures Outcome(ok, s.sizing, s.maxSize, old(s.Contents), s.Contents, EncString(b), true)
  {
    ok := EncodeVarint(s, |b|);
    ghost var c := s.Contents;
    ghost var ok1 := ok;
    if ok {
      ok := s.Write(b);
    }
    OutcomeThen(ok1, ok, s.sizing, s.maxSize, old(s.Contents), c, s.Contents, EncVarint(|b|), b, true, true);
  }
}
