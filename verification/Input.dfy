/**
 Input streams and the primitives that read from them. Every read that succeeds returns what the matching
 function of `Wire` says and leaves the stream at the bytes that the function leaves.
 */
module Input {
  import opened Bits
  import opened Wire

  /** The outcome of reading with a parser that gives `r` on the bytes that were left. */
  ghost predicate Reads<T>(ok: bool, value: T, rest: bytes, r: Parsed<T>)
  {
    if ok then r == Ok(value, rest) else r == Fail
  }

  class IStream {
    const buf: array<byte>
    var state: nat      // where the next byte comes from
    var bytesLeft: nat

    ghost predicate Valid()
      reads this
    {
      state + bytesLeft <= buf.Length
    }

    /** Where the bytes of this stream end. */
    ghost function End(): nat
      reads this
    {
      state + bytesLeft
    }

    ghost function Rest(): bytes
      requires Valid()
      reads this, buf
    {
      buf[state..End()]
    }

    /** The end has stayed where it was, or, after a failure, may have come closer. */
    twostate predicate Conserved(ok: bool)
      reads this
    {
      if ok then End() == old(End()) else End() <= old(End())
    }

    constructor FromBuffer(buf: array<byte>, size: nat)
      requires size <= buf.Length
      ensures Valid() && this.buf == buf && state == 0 && bytesLeft == size
    {
      this.buf, this.state, this.bytesLeft := buf, 0, size;
    }

    constructor Copy(s: IStream)
      requires s.Valid()
      ensures Valid() && buf == s.buf && state == s.state && bytesLeft == s.bytesLeft
    {
      this.buf, this.state, this.bytesLeft := s.buf, s.state, s.bytesLeft;
    }

    method Read(n: nat) returns (ok: bool, b: bytes)
      requires Valid()
      modifies this
      ensures Valid() && End() == old(End()) && bytesLeft <= old(bytesLeft)
      ensures Reads(ok, b, Rest(), Take(n, old(Rest())))
      ensures !ok ==> bytesLeft == old(bytesLeft)
    {
      if n == 0 {
        assert Rest()[..0] == [] && Rest()[0..] == Rest();
        return true, [];
      }
      if bytesLeft < n {
        return false, [];
      }
      b := buf[state..state + n];
      assert b == Rest()[..n] && buf[state + n..End()] == Rest()[n..];
      state := state + n;
      bytesLeft := bytesLeft - n;
      return true, b;
    }

    method ReadByte() returns (ok: bool, b: byte)
      requires Valid()
      modifies this
      ensures Valid() && End() == old(End())
      ensures ok <==> old(Rest()) != []
      ensures ok ==> old(Rest()) == [b] + Rest() && bytesLeft == old(bytesLeft) - 1
      ensures !ok ==> bytesLeft == old(bytesLeft) == 0
    {
      if bytesLeft == 0 {
        return false, 0;
      }
      b := buf[state];
      state := state + 1;
      bytesLeft := bytesLeft - 1;
      return true, b;
    }
  }

  // ------------------------------------------------------------------ varints

  /** `value | (uint64_t)bits << k`, above the bits that the value has. */
  method Append64(value: nat, bits: nat, k: nat) returns (r: nat)
    requires value < Pow2(k)
    ensures r == (value + Shl(bits, k)) % TWO_64
  {
    OrAtDisjoint(value, bits, k);
    r := OrAt(value, bits, k) % TWO_64;
  }

  lemma Accumulate(value: nat, bits: nat, k: nat)
    requires value < Pow2(k) && bits < 128
    ensures value + Shl(bits, k) < Pow2(k + 7)
    ensures k + 7 <= 64 ==> value + Shl(bits, k) < TWO_64
  {
    ShlAdds(bits, 0, k);
    if k + 7 <= 64 {
      Pow2Monotone(k + 7, 64);
      Powers();
    }
  }

  /** The varint loop at bit position k, with the bits of the bytes before it in `result`. */
  function VarintLoop(s: bytes, result: nat, k: nat): (r: Parsed<nat>)
    decreases s
  {
    if k >= 64 || s == [] then Fail
    else if s[0] < 128 then Ok((result + Shl(s[0], k)) % TWO_64, s[1..])
    else VarintLoop(s[1..], (result + Shl(s[0] - 128, k)) % TWO_64, k + 7)
  }

  /** It adds up the bits of all bytes, and refuses the eleventh. */
  lemma {:induction false} VarintLoopValue(s: bytes, result: nat, i: nat)
    requires i <= 10 && (i < 10 ==> result < Pow2(7 * i))
    ensures VarintLoop(s, result, 7 * i) ==
            match RawVarint(s)
            case Fail => Fail
            case Ok(v, rest) =>
              if i + |s| - |rest| <= 10 then Ok((result + Shl(v, 7 * i)) % TWO_64, rest) else Fail
    decreases s
  {
    if i < 10 && s != [] && s[0] >= 128 {
      var bits, rest := s[0] - 128, s[1..];
      Accumulate(result, bits, 7 * i);
      VarintLoopValue(rest, (result + Shl(bits, 7 * i)) % TWO_64, i + 1);
      if RawVarint(rest).Ok? {
        AppendedBits(result, bits, RawVarint(rest).value, 7 * i);
      }
    }
  }

  lemma AppendedBits(result: nat, bits: nat, v: nat, k: nat)
    ensures ((result + Shl(bits, k)) % TWO_64 + Shl(v, k + 7)) % TWO_64 == (result + Shl(bits + 128 * v, k)) % TWO_64
  {
    ShlAdds(bits, 128 * v, k);
    ShlAdds(bits, v, k);
    ModAbsorbs(result + Shl(bits, k), Shl(v, k + 7));
  }

  lemma ModAbsorbs(x: nat, y: nat)
    ensures (x % TWO_64 + y) % TWO_64 == (x + y) % TWO_64
  {
    var z := x % TWO_64 + y;
    DivModUnique(x + y, x / TWO_64 + z / TWO_64, z % TWO_64, TWO_64);
  }

  lemma VarintLoopStart(s: bytes)
    ensures VarintLoop(s, 0, 0) == DecVarint(s)
  {
    VarintLoopValue(s, 0, 0);
    ShlIsProduct(0, 0);
  }

  method ReadVarint(s: IStream) returns (ok: bool, value: nat)
    requires s.Valid()
    modifies s
    ensures s.Valid() && s.Conserved(true)
    ensures Reads(ok, value, s.Rest(), VarintLoop(old(s.Rest()), 0, 0))
  {
    value := 0;
    var bitpos: nat := 0;
    while true
      invariant s.Valid() && s.Conserved(true)
      invariant bitpos < 64 ==> value < Pow2(bitpos)
      invariant VarintLoop(old(s.Rest()), 0, 0) == VarintLoop(s.Rest(), value, bitpos)
      decreases s.bytesLeft
    {
      if bitpos >= 64 {
        return false, 0;
      }
      ghost var before := s.Rest();
      var more, b := s.ReadByte();
      if !more {
        return false, 0;
      }
      assert before[0] == b && before[1..] == s.Rest();
      var bits := b % 128;
      assert bits == if b < 128 then b else b - 128;
      Accumulate(value, bits, bitpos);
      value := Append64(value, bits, bitpos);
      bitpos := bitpos + 7;
      if b < 128 {
        return true, value;
      }
    }
  }

  method DecodeVarint(s: IStream) returns (ok: bool, value: nat)
    requires s.Valid()
    modifies s
    ensures s.Valid() && s.Conserved(true)
    ensures Reads(ok, value, s.Rest(), DecVarint(old(s.Rest())))
  {
    VarintLoopStart(s.Rest());
    ok, value := ReadVarint(s);
  }

  method DecodeVarint32(s: IStream) returns (ok: bool, value: nat)
    requires s.Valid()
    modifies s
    ensures s.Valid() && s.Conserved(true)
    ensures Reads(ok, value, s.Rest(), DecVarint32(old(s.Rest())))
  {
    ghost var s0 := s.Rest();
    var more, b := s.ReadByte();
    if !more {
      return false, 0;
    }
    assert s0[1..] == s.Rest();
    if b < 128 {
      return true, b;
    }
    var bitpos: nat := 7;
    value := b - 128;
    while true
      invariant s.Valid() && s.Conserved(true)
      invariant value < TWO_32 && bitpos < 256
      invariant DecVarint32(s0) == DecVarint32From(s.Rest(), value, bitpos)
      decreases s.bytesLeft
    {
      ghost var before := s.Rest();
      more, b := s.ReadByte();
      if !more {
        return false, 0;
      }
      assert before[0] == b && before[1..] == s.Rest();
      if bitpos >= 32 {
        var signExtension := if bitpos < 63 then 0xFF else 0x01;
        if b % 128 != 0 && (value / TWO_31 == 0 || b != signExtension) {
          return false, 0;
        }
      } else {
        value := Merge32(value, b % 128, bitpos);
      }
      bitpos := (bitpos + 7) % 256;
      if b < 128 {
        if bitpos == 35 && b / 16 % 8 != 0 {
          return false, 0;
        }
        return true, value;
      }
    }
  }

  // ------------------------------------------------------------------ tags, skipping, substreams

  /** A tag of zero ends the message: the call fails with `eof` set. */
  method DecodeTag(s: IStream) returns (ok: bool, wireType: nat, number: nat, eof: bool)
    requires s.Valid()
    modifies s
    ensures s.Valid() && s.Conserved(true)
    ensures var r := DecVarint32(old(s.Rest()));
            match r
            case Fail => !ok && (eof <==> old(s.bytesLeft) == 0)
            case Ok(tag, rest) =>
              && s.Rest() == rest
              && (if tag == 0 then !ok && eof else ok && !eof && number == tag / 8 && wireType == tag % 8)
  {
    eof, wireType, number := s.bytesLeft == 0, 0, 0;
    var temp;
    ok, temp := DecodeVarint32(s);
    if !ok {
      return;
    }
    if temp == 0 {
      return false, 0, 0, true;
    }
    number, wireType := temp / 8, temp % 8;
  }

  method SkipVarint(s: IStream) returns (ok: bool)
    requires s.Valid()
    modifies s
    ensures s.Valid() && s.Conserved(true)
    ensures Reads(ok, (), s.Rest(), Skip(WT_VARINT, old(s.Rest())))
  {
    ghost var s0 := s.Rest();
    while true
      invariant s.Valid() && s.Conserved(true)
      invariant Skip(WT_VARINT, s0) == Skip(WT_VARINT, s.Rest())
      decreases s.bytesLeft
    {
      ghost var before := s.Rest();
      var b;
      ok, b := s.Read(1);
      if !ok {
        return;
      }
      assert before[0] == b[0] && before[1..] == s.Rest();
      if b[0] < 128 {
        return;
      }
    }
  }

  method SkipString(s: IStream) returns (ok: bool)
    requires s.Valid()
    modifies s
    ensures s.Valid() && s.Conserved(true)
    ensures Reads(ok, (), s.Rest(), Skip(WT_STRING, old(s.Rest())))
  {
    var length, skipped;
    ok, length := DecodeVarint32(s);
    if ok {
      ok, skipped := s.Read(length);
    }
  }

  method SkipField(s: IStream, wireType: nat) returns (ok: bool)
    requires s.Valid()
    modifies s
    ensures s.Valid() && s.Conserved(true)
    ensures Reads(ok, (), s.Rest(), Skip(wireType, old(s.Rest())))
  {
    var skipped;
    if wireType == WT_VARINT {
      ok := SkipVarint(s);
    } else if wireType == WT_64BIT {
      ok, skipped := s.Read(8);
    } else if wireType == WT_STRING {
      ok := SkipString(s);
    } else if wireType == WT_32BIT {
      ok, skipped := s.Read(4);
    } else {
      ok := false;
    }
  }

  /**
   A substream over a length-delimited value. Its bytes are taken off the parent, whose position stays at their
   beginning until the substream is closed.
   */
  method MakeSubstream(s: IStream) returns (ok: bool, sub: IStream)
    requires s.Valid()
    modifies s
    ensures s.Valid() && s.End() <= old(s.End())
    ensures fresh(sub) && sub.buf == s.buf && sub.Valid()
    ensures ok <==> DecString(old(s.Rest())).Ok?
    ensures ok ==>
              var r := DecString(old(s.Rest()));
              && sub.Rest() == r.value && sub.state == s.state && sub.bytesLeft < old(s.bytesLeft)
              && sub.End() + s.bytesLeft == old(s.End())
              && s.buf[sub.End()..old(s.End())] == r.rest
  {
    var size;
    ok, size := DecodeVarint32(s);
    sub := new IStream.Copy(s);
    if !ok {
      return;
    }
    if sub.bytesLeft < size {
      return false, sub;
    }
    ghost var rest := s.Rest();
    sub.bytesLeft := size;
    s.bytesLeft := s.bytesLeft - size;
    assert sub.Rest() == rest[..size] && s.buf[sub.End()..old(s.End())] == rest[size..];
  }

  /** What is left of the substream is skipped, and the parent goes on behind it. */
  method CloseSubstream(s: IStream, sub: IStream) returns (ok: bool)
    requires sub.Valid() && s != sub && s.buf == sub.buf && sub.End() + s.bytesLeft <= s.buf.Length
    modifies s, sub
    ensures ok && s.Valid() && s.state == old(sub.End()) && s.bytesLeft == old(s.bytesLeft)
  {
    if sub.bytesLeft > 0 {
      var skipped;
      ok, skipped := sub.Read(sub.bytesLeft);
      if !ok {
        return;
      }
    }
    s.state := sub.state;
    ok := true;
  }
}
