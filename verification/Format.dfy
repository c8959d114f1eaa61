/**
 The wire format in numbers: which bytes each value is, and which bytes are passed over. Every statement gives the
 bytes by arithmetic of its own, so that it does not depend on how the encoder and the decoder name or compute them.
 */
module Format {
  import opened Bits
  import opened Wire
  import opened Descriptors
  import opened Encoding

  // ------------------------------------------------------------------ varints

  lemma Divided(q: nat, b: nat) returns (x: nat, y: nat)
    requires b > 0
    ensures x == q / b && y < b && q == x * b + y
  {
    x, y := q / b, q % b;
  }

  lemma Scaled(x: nat, b: nat, c: nat)
    ensures x * (c * b) == c * (x * b)
  {}

  /** Dividing by a group of seven or eight bits, and then by what is left of a power of two. */
  lemma DivTwice(v: nat, c: nat, b: nat)
    requires (c == 128 || c == 256) && b > 0
    ensures v / (c * b) == v / c / b
  {
    var x, y := Divided(v / c, b);
    Scaled(x, b, c);
    var r := v % c;
    assert v == c * (v / c) + r;
    DivModUnique(v, x, c * y + r, c * b);
  }

  lemma NextGroup(v: nat, k: nat)
    ensures v / Pow2(7 * (k + 1)) == v / 128 / Pow2(7 * k)
  {
    Powers();
    Pow2Adds(7, 7 * k);
    DivTwice(v, 128, Pow2(7 * k));
  }

  lemma VarintNext(v: nat, k: nat)
    requires v >= 128 && k < |EncVarint(v / 128)|
    ensures |EncVarint(v)| == 1 + |EncVarint(v / 128)| && EncVarint(v)[k + 1] == EncVarint(v / 128)[k]
  {}

  /** Byte k of a varint holds bits 7k to 7k + 6 of the value; its top bit is set unless it is the last byte. */
  lemma {:induction false} VarintByte(v: nat, k: nat)
    requires k < |EncVarint(v)|
    ensures EncVarint(v)[k] == v / Pow2(7 * k) % 128 + if k == |EncVarint(v)| - 1 then 0 else 128
  {
    if k > 0 {
      VarintByte(v / 128, k - 1);
      VarintNext(v, k - 1);
      NextGroup(v, k - 1);
    }
  }

  /** The first n bytes are those of one number: the last of them is the first without a top bit. */
  predicate EndsAt(s: bytes, n: nat)
  {
    0 < n <= |s| && s[n - 1] < 128 && forall j :: 0 <= j < n - 1 ==> s[j] >= 128
  }

  /** The low seven bits of each of these bytes, least significant group first. */
  function Groups(s: bytes, n: nat): nat
    requires n <= |s|
  {
    if n == 0 then 0 else Groups(s, n - 1) + s[n - 1] % 128 * Pow2(7 * (n - 1))
  }

  lemma {:induction false} GroupsFirst(s: bytes, n: nat)
    requires 0 < n <= |s|
    ensures Groups(s, n) == s[0] % 128 + 128 * Groups(s[1..], n - 1)
  {
    if n > 1 {
      GroupsFirst(s, n - 1);
      Powers();
      Pow2Adds(7, 7 * (n - 2));
      var g, p: nat := s[n - 1] % 128, Pow2(7 * (n - 2));
      MulAssociates(g, 128, p);
      MulAssociates(128, g, p);
      assert s[1..][n - 2] == s[n - 1];
    }
  }

  lemma {:induction false} RawVarintExactly(s: bytes, n: nat)
    requires EndsAt(s, n)
    ensures RawVarint(s) == Ok(Groups(s, n), s[n..])
  {
    GroupsFirst(s, n);
    if n > 1 {
      assert EndsAt(s[1..], n - 1);
      RawVarintExactly(s[1..], n - 1);
      assert s[1..][n - 1..] == s[n..];
    }
  }

  lemma {:induction false} RawVarintUnended(s: bytes)
    requires forall j :: 0 <= j < |s| ==> s[j] >= 128
    ensures RawVarint(s) == Fail
  {
    if s != [] {
      RawVarintUnended(s[1..]);
    }
  }

  /** Any byte string as a 64-bit varint: at most ten bytes, and bits past the 64th are dropped. */
  lemma DecVarintExactly(s: bytes, n: nat)
    ensures EndsAt(s, n) ==>
              DecVarint(s) == if n <= 10 then Ok(Groups(s, n) % 0x1_0000_0000_0000_0000, s[n..]) else Fail
    ensures (forall j :: 0 <= j < |s| ==> s[j] >= 128) ==> DecVarint(s) == Fail
  {
    if EndsAt(s, n) {
      RawVarintExactly(s, n);
    }
    if forall j :: 0 <= j < |s| ==> s[j] >= 128 {
      RawVarintUnended(s);
    }
  }

  // ------------------------------------------------------------------ signed integers

  /** Two's complement on 64 bits. */
  lemma TwosComplement(i: int)
    requires -0x8000_0000_0000_0000 <= i < 0x8000_0000_0000_0000
    ensures ToUint64(i) == i % 0x1_0000_0000_0000_0000
    ensures ToUint64(-1) == 0xFFFF_FFFF_FFFF_FFFF
  {}

  lemma {:induction false} XorOnes(x: nat, n: nat)
    requires x < Pow2(n)
    ensures Xor(x, Pow2(n) - 1) == Pow2(n) - 1 - x
  {
    if n > 0 {
      XorOnes(x / 2, n - 1);
      assert (Pow2(n) - 1) / 2 == Pow2(n - 1) - 1 && (Pow2(n) - 1) % 2 == 1;
    }
  }

  lemma {:induction false} XorNothing(x: nat)
    ensures Xor(x, 0) == x
  {
    if x > 0 {
      XorNothing(x / 2);
    }
  }

  /** Zero is 0, and a code grows with the magnitude, the negative number of each magnitude coming first. */
  lemma ZigZagOrder(i: int, j: int)
    ensures ZigZag(0) == 0 && UnZigZag(0) == 0
    ensures i > 0 ==> ZigZag(-i) + 1 == ZigZag(i) && UnZigZag(ZigZag(i) - 1) == -i
    ensures (if i < 0 then -i else i) < (if j < 0 then -j else j) ==> ZigZag(i) < ZigZag(j)
  {}

  lemma WrapOnce(a: int, w: int)
    requires w > 0 && -w <= a < w
    ensures a % w == if a < 0 then a + w else a
  {
    var d := a / w + if a < 0 then 1 else 0;
    assert d * w == (if a < 0 then a + w else a) - a % w by {
      assert a / w * w == a - a % w;
    }
    MulBound(d, w);
  }

  lemma ZigZagXor(i: int, n: nat, w: int)
    requires w == 2 * Pow2(n) && -w <= 2 * i < w
    ensures ZigZag(i) == Xor(2 * i % w, if i < 0 then w - 1 else 0)
  {
    WrapOnce(2 * i, w);
    if i < 0 {
      XorOnes(2 * i + w, n + 1);
    } else {
      XorNothing(2 * i);
    }
  }

  /** The formula of the format: `(n << 1) ^ (n >> 63)` on 64 bits. */
  lemma ZigZagFormula(i: int)
    requires -0x8000_0000_0000_0000 <= i < 0x8000_0000_0000_0000
    ensures ZigZag(i) == Xor(2 * i % 0x1_0000_0000_0000_0000, if i < 0 then 0xFFFF_FFFF_FFFF_FFFF else 0)
  {
    var n := Halved(64);
    ZigZagXor(i, n, 0x1_0000_0000_0000_0000);
  }

  lemma Halved(k: nat) returns (n: nat)
    requires k == 64
    ensures 0x1_0000_0000_0000_0000 == 2 * Pow2(n)
  {
    n := k - 1;
    Powers();
    assert Pow2(k) == 2 * Pow2(n);
  }

  // ------------------------------------------------------------------ fixed-size integers

  /** Byte k of a fixed-size integer holds bits 8k to 8k + 7. */
  lemma {:induction false} FixedByte(n: nat, v: nat, k: nat)
    requires k < n
    ensures EncFixed(n, v)[k] == v / Pow2(8 * k) % 256
  {
    if k > 0 {
      FixedByte(n - 1, v / 256, k - 1);
      Powers();
      Pow2Adds(8, 8 * (k - 1));
      DivTwice(v, 256, Pow2(8 * (k - 1)));
    }
  }

  /** These bytes, each of which counts 256 times as much as the one before. */
  function LittleEndian(s: bytes, n: nat): nat
    requires n <= |s|
  {
    if n == 0 then 0 else LittleEndian(s, n - 1) + s[n - 1] * Pow2(8 * (n - 1))
  }

  lemma {:induction false} LittleEndianFirst(s: bytes, n: nat)
    requires 0 < n <= |s|
    ensures LittleEndian(s, n) == s[0] + 256 * LittleEndian(s[1..], n - 1)
  {
    if n > 1 {
      LittleEndianFirst(s, n - 1);
      Powers();
      Pow2Adds(8, 8 * (n - 2));
      var b, p: nat := s[n - 1], Pow2(8 * (n - 2));
      MulAssociates(b, 256, p);
      MulAssociates(256, b, p);
      assert s[1..][n - 2] == s[n - 1];
    }
  }

  lemma {:induction false} FixedValueExactly(s: bytes)
    ensures FixedValue(s) == LittleEndian(s, |s|)
  {
    if s != [] {
      LittleEndianFirst(s, |s|);
      FixedValueExactly(s[1..]);
    }
  }

  // ------------------------------------------------------------------ values

  /** What each type is written as; 32 and 64 bits are given by `FixedByte`. */
  lemma ValueBytes(schema: Schema, f: Field, v: Val)
    requires TypedVal(schema, f, v) && WfSize(f)
    ensures f.ltype.Bool? || f.ltype.UVarint? ==> EncVal(schema, f, v) == EncVarint(v.i)
    ensures f.ltype.Varint? ==> EncVal(schema, f, v) == EncVarint(v.i % 0x1_0000_0000_0000_0000)
    ensures f.ltype.SVarint? ==> EncVal(schema, f, v) == EncVarint(ZigZag(v.i))
    ensures f.ltype.Fixed32? ==> EncVal(schema, f, v) == EncFixed(4, v.i)
    ensures f.ltype.Fixed64? ==> EncVal(schema, f, v) == EncFixed(8, v.i)
    ensures f.ltype.Bytes? || f.ltype.String? || f.ltype.FixedLengthBytes? ==>
              EncVal(schema, f, v) == EncVarint(|v.b|) + v.b
    ensures f.ltype.Submessage? ==> EncVal(schema, f, v) == EncVarint(|EncMsg(schema, v.m)|) + EncMsg(schema, v.m)
  {
    if f.ltype.Varint? {
      TwosComplement(v.i);
    }
  }

  // ------------------------------------------------------------------ tags

  /** The wire type of a single value of each type. */
  function TypeNumber(t: LType): nat
  {
    match t
    case Bool => 0
    case Varint => 0
    case UVarint => 0
    case SVarint => 0
    case Fixed64 => 1
    case Bytes => 2
    case String => 2
    case Submessage => 2
    case FixedLengthBytes => 2
    case Fixed32 => 5
  }

  /** A value is written behind the number of its field, times eight, and the number of its wire type. */
  lemma TaggedBytes(schema: Schema, f: Field, v: Val)
    requires TypedVal(schema, f, v)
    ensures EncTagged(schema, f, v) == EncVarint(8 * f.tag + TypeNumber(f.ltype)) + EncVal(schema, f, v)
  {}

  /** One behind the other. */
  function Concat(parts: seq<bytes>): bytes
  {
    if parts == [] then [] else Concat(parts[..|parts| - 1]) + parts[|parts| - 1]
  }

  lemma ConcatLast(parts: seq<bytes>, last: bytes)
    ensures Concat(parts + [last]) == Concat(parts) + last
  {
    var all := parts + [last];
    assert all[..|all| - 1] == parts && all[|all| - 1] == last;
  }

  /** The bare values of these entries. */
  function Values(schema: Schema, f: Field, items: seq<Val>): (parts: seq<bytes>)
    requires TypedItems(schema, f, items)
    ensures |parts| == |items| && forall k :: 0 <= k < |items| ==> parts[k] == EncVal(schema, f, items[k])
  {
    seq(|items|, k requires 0 <= k < |items| => EncVal(schema, f, items[k]))
  }

  /** These entries, each behind the number of the field and wire type 2. */
  function TaggedValues(schema: Schema, f: Field, items: seq<Val>): (parts: seq<bytes>)
    requires TypedItems(schema, f, items)
    ensures |parts| == |items|
    ensures forall k :: 0 <= k < |items| ==> parts[k] == EncVarint(8 * f.tag + 2) + EncVal(schema, f, items[k])
  {
    seq(|items|, k requires 0 <= k < |items| => EncVarint(8 * f.tag + 2) + EncVal(schema, f, items[k]))
  }

  lemma LastValue(schema: Schema, f: Field, items: seq<Val>)
    requires TypedItems(schema, f, items) && items != []
    ensures var n := |items| - 1; Values(schema, f, items) == Values(schema, f, items[..n]) + [EncVal(schema, f, items[n])]
  {}

  lemma {:induction false} PackedEntries(schema: Schema, f: Field, items: seq<Val>)
    requires TypedItems(schema, f, items)
    ensures EncPacked(schema, f, items) == Concat(Values(schema, f, items))
  {
    if items != [] {
      var n := |items| - 1;
      PackedEntries(schema, f, items[..n]);
      LastValue(schema, f, items);
      ConcatLast(Values(schema, f, items[..n]), EncVal(schema, f, items[n]));
    }
  }

  lemma PackedArray(schema: Schema, f: Field, items: seq<Val>)
    requires TypedItems(schema, f, items) && items != [] && f.Packable()
    ensures EncArray(schema, f, items) == EncTag(2, f.tag) + EncString(EncPacked(schema, f, items))
  {}

  /** Integers and booleans in arrays are packed: one tag with wire type 2, their length, and the bare values. */
  lemma PackedBytes(schema: Schema, f: Field, items: seq<Val>)
    requires TypedItems(schema, f, items) && items != []
    requires f.ltype.Bool? || f.ltype.Varint? || f.ltype.UVarint? || f.ltype.SVarint? || f.ltype.Fixed32? || f.ltype.Fixed64?
    ensures var p := Concat(Values(schema, f, items));
            EncArray(schema, f, items) == EncVarint(8 * f.tag + 2) + (EncVarint(|p|) + p)
  {
    var p := EncPacked(schema, f, items);
    PackedArray(schema, f, items);
    PackedEntries(schema, f, items);
    assert EncTag(2, f.tag) == EncVarint(8 * f.tag + 2) && EncString(p) == EncVarint(|p|) + p;
  }

  /** Strings, byte arrays and structs in arrays are written one by one, each with its tag. */
  lemma UnpackedBytes(schema: Schema, f: Field, items: seq<Val>)
    requires TypedItems(schema, f, items)
    requires f.ltype.Bytes? || f.ltype.String? || f.ltype.Submessage? || f.ltype.FixedLengthBytes?
    ensures EncArray(schema, f, items) == Concat(TaggedValues(schema, f, items))
  {
    UnpackedEntries(schema, f, items);
  }

  lemma LastTagged(schema: Schema, f: Field, items: seq<Val>)
    requires TypedItems(schema, f, items) && items != []
    requires f.ltype.Bytes? || f.ltype.String? || f.ltype.Submessage? || f.ltype.FixedLengthBytes?
    ensures var n := |items| - 1;
            TaggedValues(schema, f, items) == TaggedValues(schema, f, items[..n]) + [EncTagged(schema, f, items[n])]
  {
    TaggedBytes(schema, f, items[|items| - 1]);
  }

  lemma {:induction false} UnpackedEntries(schema: Schema, f: Field, items: seq<Val>)
    requires TypedItems(schema, f, items)
    requires f.ltype.Bytes? || f.ltype.String? || f.ltype.Submessage? || f.ltype.FixedLengthBytes?
    ensures EncUnpacked(schema, f, items) == Concat(TaggedValues(schema, f, items))
  {
    if items != [] {
      var n := |items| - 1;
      UnpackedEntries(schema, f, items[..n]);
      LastTagged(schema, f, items);
      ConcatLast(TaggedValues(schema, f, items[..n]), EncTagged(schema, f, items[n]));
    }
  }

  /** What each of the first n fields is written as. */
  function FieldParts(schema: Schema, m: Msg, n: nat): (parts: seq<bytes>)
    requires TypedMsg(schema, m) && n <= |m.slots|
    ensures |parts| == n && forall i :: 0 <= i < n ==> parts[i] == EncField(schema, m, i)
  {
    seq(n, i requires 0 <= i < n => EncField(schema, m, i))
  }

  /** The fields of a struct, in the order of the descriptor. */
  lemma MessageBytes(schema: Schema, m: Msg)
    requires TypedMsg(schema, m)
    ensures EncMsg(schema, m) == Concat(FieldParts(schema, m, |m.slots|))
  {
    FirstFields(schema, m, |m.slots|);
  }

  lemma LastField(schema: Schema, m: Msg, n: nat)
    requires TypedMsg(schema, m) && n < |m.slots|
    ensures FieldParts(schema, m, n + 1) == FieldParts(schema, m, n) + [EncField(schema, m, n)]
  {}

  lemma {:induction false} FirstFields(schema: Schema, m: Msg, n: nat)
    requires TypedMsg(schema, m) && n <= |m.slots|
    ensures EncFields(schema, m, n) == Concat(FieldParts(schema, m, n))
  {
    if n > 0 {
      FirstFields(schema, m, n - 1);
      LastField(schema, m, n - 1);
      ConcatLast(FieldParts(schema, m, n - 1), EncField(schema, m, n - 1));
    }
  }

  // ------------------------------------------------------------------ passing over a field

  /** A number, eight bytes, a length and its bytes, or four bytes; any other wire type is an error. */
  lemma SkipBytes(w: nat, s: bytes, n: nat)
    ensures EndsAt(s, n) ==> Skip(0, s) == Ok((), s[n..])
    ensures (forall j :: 0 <= j < |s| ==> s[j] >= 128) ==> Skip(0, s) == Fail
    ensures Skip(1, s) == if |s| >= 8 then Ok((), s[8..]) else Fail
    ensures var r := DecVarint32(s);
            Skip(2, s) == if r.Ok? && r.value <= |r.rest| then Ok((), r.rest[r.value..]) else Fail
    ensures Skip(5, s) == if |s| >= 4 then Ok((), s[4..]) else Fail
    ensures w != 0 && w != 1 && w != 2 && w != 5 ==> Skip(w, s) == Fail
  {
    if EndsAt(s, n) {
      RawVarintExactly(s, n);
    }
    if forall j :: 0 <= j < |s| ==> s[j] >= 128 {
      RawVarintUnended(s);
    }
  }
}
