/**
 The bitmap of required fields: two words of 32 bits for the first 64 of them, tested word by word.
 */
module Bitmap {
  import opened Bits
  import opened Descriptors

  const ALL_BITS: nat := TWO_32 - 1

  /** The set of numbers that two words stand for. */
  predicate Marks(words: seq<nat>, seen: set<nat>)
  {
    && |words| == 2 && words[0] < TWO_32 && words[1] < TWO_32
    && (forall k :: k in seen ==> k < 64)
    && forall j, k :: 0 <= j < 2 && 0 <= k < 32 ==> (Bit(words[j], k) <==> j * 32 + k in seen)
  }

  lemma NoMarks()
    ensures Marks([0, 0], {})
  {
    forall k | 0 <= k < 32 ensures !Bit(0, k) {
      ZeroBits(k);
    }
  }

  lemma MarkBit(w: nat, j: nat)
    requires w < TWO_32 && j < 32
    ensures Or(w, Pow2(j)) < TWO_32
    ensures forall k :: 0 <= k < 32 ==> (Bit(Or(w, Pow2(j)), k) <==> Bit(w, k) || k == j)
  {
    Powers();
    Pow2Monotone(j + 1, 32);
    OrBounded(w, Pow2(j), 32);
    forall k | 0 <= k < 32 ensures Bit(Or(w, Pow2(j)), k) <==> Bit(w, k) || k == j {
      OrBits(w, Pow2(j), k);
      Pow2Bits(j, k);
    }
  }

  method Mark(words: array<nat>, k: nat, ghost seen: set<nat>)
    requires k < MAX_REQUIRED_FIELDS && words.Length == 2 && Marks(words[..], seen)
    modifies words
    ensures Marks(words[..], seen + {k})
  {
    var tmp := Pow2(k % 32);
    MarkBit(words[k / 32], k % 32);
    words[k / 32] := Or(words[k / 32], tmp);
  }

  /** A word with bits set below n only is the word of n ones exactly when all of them are set. */
  lemma LowWord(w: nat, n: nat)
    requires w < TWO_32 && n <= 32
    requires forall k :: n <= k < 32 ==> !Bit(w, k)
    ensures w == Pow2(n) - 1 <==> BitsBelow(w, n)
  {
    HighBitsClear(w, n, 32);
    AllOnes(w, n);
  }

  lemma {:induction false} HighBitsClear(w: nat, n: nat, m: nat)
    requires n <= m <= 32 && w < TWO_32
    requires forall k :: n <= k < 32 ==> !Bit(w, k)
    requires m == 32 || w < Pow2(m)
    ensures w < Pow2(n)
    decreases m
  {
    Powers();
    if n < m {
      TopBitClear(w, m - 1);
      HighBitsClear(w, n, m - 1);
    }
  }

  lemma {:induction false} TopBitClear(w: nat, k: nat)
    requires w < Pow2(k + 1) && !Bit(w, k)
    ensures w < Pow2(k)
  {
    if k > 0 {
      TopBitClear(w / 2, k - 1);
    }
  }

  /** `allbits >> (32 - n)` is the word of n ones. */
  lemma ShiftedOnes(n: nat)
    requires 0 < n < 32
    ensures ALL_BITS / Pow2(32 - n) == Pow2(n) - 1
  {
    Powers();
    Pow2Adds(n, 32 - n);
    LessOne(Pow2(n), Pow2(32 - n));
  }

  lemma LessOne(a: nat, p: nat)
    requires a > 0 && p > 0
    ensures (a * p - 1) / p == a - 1
  {
    assert a * p - 1 == (a - 1) * p + (p - 1);
    MulBound(a, p);
    DivModUnique(a * p - 1, a - 1, p - 1, p);
  }

  /**
   The whole words are compared with all ones, and the rest of the last one with as many ones. This finds out
   whether every number below `count` is in the set, for every count up to 64.
   */
  method Complete(words: array<nat>, count: nat, ghost seen: set<nat>) returns (ok: bool)
    requires count <= MAX_REQUIRED_FIELDS && words.Length == 2 && Marks(words[..], seen)
    requires forall k :: k in seen ==> k < count
    ensures ok <==> forall k :: 0 <= k < count ==> k in seen
  {
    Powers();
    for i := 0 to count / 32
      invariant forall k :: 0 <= k < 32 * i ==> k in seen
    {
      ok := WholeWord(words[i], i, words[..], seen);
      if !ok {
        return;
      }
    }
    var rest := count % 32;
    if rest != 0 {
      ShiftedOnes(rest);
      var i := count / 32;
      LowWordSeen(words[..], i, rest, seen);
      if words[i] != ALL_BITS / Pow2(32 - rest) {
        return false;
      }
    }
    ok := true;
  }

  method WholeWord(word: nat, i: nat, ghost words: seq<nat>, ghost seen: set<nat>) returns (ok: bool)
    requires i < 2 && Marks(words, seen) && word == words[i]
    ensures ok <==> forall k :: 32 * i <= k < 32 * i + 32 ==> k in seen
  {
    LowWordSeen(words, i, 32, seen);
    Powers();
    ok := word == ALL_BITS;
  }

  lemma LowWordSeen(words: seq<nat>, i: nat, n: nat, seen: set<nat>)
    requires i < 2 && n <= 32 && Marks(words, seen)
    requires n == 32 || forall k :: k in seen ==> k < 32 * i + n
    ensures words[i] == Pow2(n) - 1 <==> forall k :: 32 * i <= k < 32 * i + n ==> k in seen
  {
    LowWord(words[i], n);
    if BitsBelow(words[i], n) {
      forall k | 32 * i <= k < 32 * i + n ensures k in seen {
        assert Bit(words[i], k - 32 * i);
      }
    }
  }
}
