/**
 The encoder of negative numbers for platforms without 64-bit integers. It writes the varint of the 64-bit
 sign extension from a 32-bit register, which is a window that moves over the 64-bit value: the ones that the
 register has no room for come in at the top as bytes leave at the bottom.
 */
module NegativeVarint {
  import opened Bits
  import opened Wire
  import opened Scalars
  import opened Output

  const TOP: nat := 0x200_0000   // 2^25, the lowest of the seven highest bits

  /** Operands that share no bit: `^` is the sum. */
  lemma {:induction false} XorDisjoint(a: nat, b: nat, k: nat)
    requires a < Pow2(k)
    ensures Xor(a, Shl(b, k)) == a + Shl(b, k)
  {
    if k == 0 {
      OrZero(b);
    } else {
      XorDisjoint(a / 2, b, k - 1);
    }
  }

  /** The 64-bit value that is left: the register, and above it the ones that are still to come. */
  function Wide(v: nat, compensation: nat): (w: nat)
    ensures w >= v
  {
    v + (Pow2(compensation) - 1) * TWO_32
  }

  lemma WideStart(v: nat)
    requires v < TWO_32
    ensures Wide(v, 32) == v + (TWO_32 - 1) * TWO_32
  {
    Powers();
  }

  /** The bits that come in, at their place in the register. */
  function Incoming(bits: nat): nat
    requires bits <= 8
  {
    Shl(0xFF / Pow2(8 - bits), 25)
  }

  lemma IncomingBits()
    ensures Incoming(7) == 127 * TOP && Incoming(4) == 15 * TOP && Pow2(25) == TOP && Pow2(4) == 16
  {
    assert Pow2(1) == 2;
    Powers();
    Pow2Plus16(9);
    Pow2Adds(7, 2);
    ShlIsProduct(127, 25);
    ShlIsProduct(15, 25);
  }

  /** The steps of the compensation: 32, 25, 18, 11, 4, 0. */
  predicate Remaining(compensation: nat)
  {
    compensation == 32 || compensation == 25 || compensation == 18 || compensation == 11 || compensation == 4 || compensation == 0
  }

  method Shift(value: nat, compensation: nat) returns (v: nat, c: nat)
    requires value < TWO_32 && Remaining(compensation)
    ensures v < TWO_32 && Remaining(c) && c <= compensation && (compensation > 0 ==> v > 0)
    ensures Wide(value, compensation) % 128 == value % 128 && Wide(value, compensation) / 128 == Wide(v, c)
  {
    v, c := value / 128, compensation;
    if c != 0 {
      var bits := if c > 7 then 7 else c;
      IncomingBits();
      XorDisjoint(v, 0xFF / Pow2(8 - bits), 25);
      v := Xor(v, Incoming(bits));
      c := c - bits;
    }
    WindowMoves(value, compensation);
  }

  lemma WindowMoves(value: nat, compensation: nat)
    requires value < TWO_32 && Remaining(compensation)
    ensures Wide(value, compensation) % 128 == value % 128
    ensures Wide(value, compensation) / 128 ==
            if compensation == 0 then Wide(value / 128, 0)
            else if compensation == 4 then Wide(value / 128 + 15 * TOP, 0)
            else Wide(value / 128 + 127 * TOP, compensation - 7)
  {
    var q, r := value / 128, value % 128;
    Powers();
    IncomingBits();
    if compensation == 0 {
    } else if compensation == 4 {
      DivModUnique(Wide(value, 4), q + 15 * TOP, r, 128);
    } else {
      var p := Pow2(compensation - 7);
      Pow2Adds(7, compensation - 7);
      assert Pow2(compensation) == 128 * p;
      DivModUnique(Wide(value, compensation), Wide(q + 127 * TOP, compensation - 7), r, 128);
    }
  }

  lemma ContinuedStep(w: nat)
    requires w > 0
    ensures Continued(w) == [w % 128 + 128] + Continued(w / 128)
  {}

  /** The low seven bits go to the buffer, and the register moves on. */
  method StoreByte(buffer: array<byte>, n: nat, v: nat, compensation: nat, ghost all: bytes) returns (v': nat, c: nat)
    requires 0 < v < TWO_32 && Remaining(compensation) && n <= buffer.Length == 10 && |all| <= 10
    requires all == buffer[..n] + Continued(Wide(v, compensation))
    modifies buffer
    ensures v' < TWO_32 && Remaining(c) && (c > 0 ==> v' > 0)
    ensures n < 10 && all == buffer[..n + 1] + Continued(Wide(v', c))
  {
    ghost var done, w := buffer[..n], Wide(v, compensation);
    ContinuedStep(w);
    assert |all| == n + |Continued(w)|;
    buffer[n] := v % 128 + 128;
    assert buffer[..n + 1] == done + [v % 128 + 128];
    v', c := Shift(v, compensation);
    ConcatAssociates(done, [v % 128 + 128], Continued(w / 128));
  }

  method FillNegative(value: nat) returns (buffer: array<byte>, n: nat)
    requires TWO_31 <= value < TWO_32 && |Continued(Wide(value, 32))| <= 10
    ensures fresh(buffer) && n <= buffer.Length == 10 && buffer[..n] == Continued(Wide(value, 32))
  {
    buffer := new byte[10];
    n := 0;
    var v: nat, compensation: nat := value, 32;
    while v != 0
      invariant n <= 10 && v < TWO_32 && Remaining(compensation) && (compensation > 0 ==> v > 0)
      invariant Continued(Wide(value, 32)) == buffer[..n] + Continued(Wide(v, compensation))
      decreases 10 - n
    {
      v, compensation := StoreByte(buffer, n, v, compensation, Continued(Wide(value, 32)));
      n := n + 1;
    }
    assert Wide(0, 0) == 0;
  }

  /** For every negative number this writes the ten bytes of its 64-bit sign extension. */
  method EncodeNegativeVarint(s: OStream, value: nat) returns (ok: bool)
    requires s.Valid() && TWO_31 <= value < TWO_32
    modifies s, s.buf
    ensures s.Valid() && s.Framed()
    ensures Outcome(ok, s.sizing, s.maxSize, old(s.Contents), s.Contents, EncVarint(ToUint64(value - TWO_32)), true)
    ensures |EncVarint(ToUint64(value - TWO_32))| == 10
  {
    ghost var w := ToUint64(value - TWO_32);
    WideStart(value);
    TenBytes(w);
    ContinuedIsVarint(w);
    var buffer, i := FillNegative(value);
    buffer[i - 1] := buffer[i - 1] % 128;
    ok := s.Write(buffer[..i]);
  }

  lemma TenBytes(w: nat)
    requires TWO_63 <= w < TWO_64
    ensures |EncVarint(w)| == 10
  {
    Powers();
    assert Pow2(64) == 2 * Pow2(63);
    VarintLength(w, 9);
    VarintFitsBuffer(w);
  }
}
