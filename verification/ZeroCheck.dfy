/**
 The zero check on a pointer. It compares as many bytes at the place of the pointer with zero as one entry of the
 field has, and not the pointer itself.
 */
module ZeroCheck {
  import opened Bits
  import opened Wire
  import opened Scalars
  import opened Descriptors

  predicate ZeroBytes(memory: bytes, n: nat)
    requires n <= |memory|
  {
    forall i :: 0 <= i < n ==> memory[i] == 0
  }

  /** The byte loop. */
  method AllZero(memory: bytes, n: nat) returns (zero: bool)
    requires n <= |memory|
    ensures zero == ZeroBytes(memory, n)
  {
    for i := 0 to n
      invariant ZeroBytes(memory, i)
    {
      if memory[i] != 0 {
        return false;
      }
    }
    return true;
  }

  /** A struct from the place of a pointer on: the address that it holds, and what lies behind it. */
  function Place(address: nat, beyond: bytes): (memory: bytes)
    ensures |memory| == POINTER_SIZE + |beyond|
  {
    EncFixed(POINTER_SIZE, address) + beyond
  }

  /** In this memory the pointer is NULL or not, and the check on n bytes answers `zero`. */
  predicate Shows(n: nat, isNull: bool, zero: bool, address: nat, beyond: bytes)
  {
    && address < TWO_64 && (address == 0 <==> isNull)
    && n <= POINTER_SIZE + |beyond| && (ZeroBytes(Place(address, beyond), n) <==> zero)
  }

  /** The check on n bytes tells NULL from every other address, wherever the struct lies. */
  ghost predicate TellsNull(n: nat)
  {
    forall address: nat, beyond: bytes :: address < TWO_64 && n <= POINTER_SIZE + |beyond| ==>
      (ZeroBytes(Place(address, beyond), n) <==> address == 0)
  }

  lemma {:induction false} FixedZero(n: nat)
    ensures forall i :: 0 <= i < n ==> EncFixed(n, 0)[i] == 0
  {
    if n > 0 {
      FixedZero(n - 1);
    }
  }

  lemma {:induction false} ZeroFixed(n: nat, v: nat)
    requires ZeroBytes(EncFixed(n, v), n)
    ensures FixedValue(EncFixed(n, v)) == 0
  {
    if n > 0 {
      var s := EncFixed(n, v);
      assert s[0] == 0 && s[1..] == EncFixed(n - 1, v / 256);
      assert forall i :: 0 <= i < n - 1 ==> s[1..][i] == s[i + 1];
      ZeroFixed(n - 1, v / 256);
    }
  }

  lemma PointerSized(address: nat, beyond: bytes)
    requires address < TWO_64
    ensures ZeroBytes(Place(address, beyond), POINTER_SIZE) <==> address == 0
  {
    var s := EncFixed(POINTER_SIZE, address);
    assert forall i :: 0 <= i < POINTER_SIZE ==> Place(address, beyond)[i] == s[i];
    FixedZero(POINTER_SIZE);
    if ZeroBytes(Place(address, beyond), POINTER_SIZE) {
      ZeroFixed(POINTER_SIZE, address);
      Powers();
      FixedInverse(POINTER_SIZE, address);
    }
  }

  lemma ByteShift(k: nat)
    ensures Pow2(8 * (k + 1)) == Pow2(8 * k) * 256
  {
    assert Pow2(8) == 256;
    Pow2Adds(8 * k, 8);
  }

  lemma ZeroFirst(n: nat, v: nat)
    requires n > 0
    ensures EncFixed(n, v * 256) == [0] + EncFixed(n - 1, v)
  {}

  /** The address 256^k is not NULL, and its k lowest bytes are zero. */
  lemma {:induction false} HighAddress(n: nat, k: nat)
    requires k <= n
    ensures ZeroBytes(EncFixed(n, Pow2(8 * k)), k)
  {
    if k > 0 {
      ByteShift(k - 1);
      ZeroFirst(n, Pow2(8 * (k - 1)));
      HighAddress(n - 1, k - 1);
      var s := EncFixed(n - 1, Pow2(8 * (k - 1)));
      assert forall i :: 1 <= i < k ==> ([0] + s)[i] == s[i - 1];
    }
  }

  /** A memory for each answer that the check can give. */
  function Example(n: nat, isNull: bool, zero: bool): (place: (nat, bytes))
  {
    (if isNull then 0 else if zero then Pow2(8 * 7) else 1, seq(n, _ => if zero then 0 else 1))
  }

  lemma PlaceBytes(address: nat, beyond: bytes, i: nat)
    requires i < POINTER_SIZE + |beyond|
    ensures Place(address, beyond)[i] ==
            if i < POINTER_SIZE then EncFixed(POINTER_SIZE, address)[i] else beyond[i - POINTER_SIZE]
  {}

  lemma NullShows(n: nat, b: byte)
    requires b == 0 || n > POINTER_SIZE
    ensures ZeroBytes(Place(0, seq(n, _ => b)), n) <==> b == 0
  {
    var beyond := seq(n, _ => b);
    FixedZero(POINTER_SIZE);
    forall i | 0 <= i < n
      ensures Place(0, beyond)[i] == if i < POINTER_SIZE then 0 else b
    {
      PlaceBytes(0, beyond, i);
    }
    if n > POINTER_SIZE {
      assert Place(0, beyond)[POINTER_SIZE] == b;
    }
  }

  /** An address whose lower bytes are zero. */
  lemma HighShows(n: nat, beyond: bytes)
    requires n < POINTER_SIZE
    ensures ZeroBytes(Place(Pow2(8 * 7), beyond), n)
  {
    HighAddress(POINTER_SIZE, 7);
    forall i | 0 <= i < n ensures Place(Pow2(8 * 7), beyond)[i] == 0 {
      PlaceBytes(Pow2(8 * 7), beyond, i);
    }
  }

  lemma HighInRange()
    ensures 0 < Pow2(8 * 7) < TWO_64
  {
    Powers();
    Pow2Monotone(8 * 7 + 1, 64);
  }

  lemma ExampleShows(n: nat, isNull: bool, zero: bool)
    requires n > 0 && (zero != isNull ==> CanMisread(n, isNull))
    ensures var (address, beyond) := Example(n, isNull, zero); Shows(n, isNull, zero, address, beyond)
  {
    var (address, beyond) := Example(n, isNull, zero);
    if isNull {
      NullShows(n, if zero then 0 else 1);
    } else if zero {
      HighShows(n, beyond);
      HighInRange();
    } else {
      PlaceBytes(1, beyond, 0);
      assert EncFixed(POINTER_SIZE, 1)[0] == 1;
      assert Place(address, beyond)[0] == 1;
    }
  }

  /**
   The check answers wrongly in some memory exactly if it reads fewer bytes than a set pointer has or more than a
   NULL pointer has; it answers rightly in some memory for every size.
   */
  lemma MisreadExactly(n: nat, isNull: bool, zero: bool)
    requires n > 0
    ensures (exists address: nat, beyond: bytes :: Shows(n, isNull, zero, address, beyond)) <==>
            (zero != isNull ==> if isNull then n > 8 else n < 8)
  {
    if zero != isNull ==> CanMisread(n, isNull) {
      ExampleShows(n, isNull, zero);
    } else {
      forall address: nat, beyond: bytes ensures !Shows(n, isNull, zero, address, beyond) {
        if address < TWO_64 {
          PointerSized(address, beyond);
        }
      }
    }
  }

  /** The check is exact if and only if an entry of the field is as large as a pointer. */
  lemma ExactlyPointerSize(n: nat)
    ensures TellsNull(n) <==> n == 8
  {
    if n == POINTER_SIZE {
      forall address: nat, beyond: bytes | address < TWO_64
        ensures ZeroBytes(Place(address, beyond), n) <==> address == 0
      {
        PointerSized(address, beyond);
      }
    } else if n < POINTER_SIZE {
      HighInRange();
      HighShows(n, []);
    } else {
      NullShows(n, 1);
    }
  }

  /** A string that lies at address 0x100: its entries are characters, so one byte is compared. */
  lemma MisreadPointer(beyond: bytes)
    ensures ZeroBytes(Place(0x100, beyond), 1)
  {
    assert EncFixed(POINTER_SIZE, 0x100)[0] == 0;
  }
}
