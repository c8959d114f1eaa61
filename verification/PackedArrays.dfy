/**
 Decoding of packed arrays: into a static array, whose size is fixed, and into a block that grows.
 */
module PackedArrays {
  import opened Wire
  import opened Descriptors
  import opened Decoding
  import opened Input
  import opened Memory
  import opened Allocation
  import opened ScalarDecoders

  /** A packed array behind its length, added to the items that there were. */
  function DecPackedField(f: Field, s: bytes, items: seq<Val>): (r: Parsed<seq<Val>>)
    requires f.Packable() && WfSize(f)
    ensures r.Ok? ==> |r.rest| < |s|
  {
    var (p, rest) :- DecString(s);
    var (items', _) :- DecPacked(f, p, items, Capacity(f));
    Ok(items', rest)
  }

  /** A block of `n` entries that begins with those of the old one. */
  method Resize(old': array<Val>, n: nat) returns (a: array<Val>)
    requires old'.Length <= n
    ensures fresh(a) && a.Length == n && a[..old'.Length] == old'[..]
  {
    a := new Val[n](i => VNone);
    for i := 0 to old'.Length
      invariant a[..i] == old'[..i]
    {
      a[i] := old'[i];
    }
  }

  method ArrayOf(items: seq<Val>) returns (a: array<Val>)
    ensures fresh(a) && a[..] == items
  {
    a := new Val[|items|](i requires 0 <= i < |items| => items[i]);
  }

  /** The next entry is decoded into its place in the array. */
  method StoreNext(sub: IStream, f: Field, storage: array<Val>, size: nat, cap: nat) returns (ok: bool)
    requires sub.Valid() && WfSize(f) && f.Packable() && size < storage.Length && sub.bytesLeft > 0 && size < cap
    modifies sub, storage
    ensures sub.Valid() && sub.Conserved(true) && (ok ==> sub.bytesLeft < old(sub.bytesLeft))
    ensures var r := DecPacked(f, old(sub.Rest()), old(storage[..size]), cap);
            if ok then r == DecPacked(f, sub.Rest(), storage[..size + 1], cap)
            else r == Fail && storage[..size] == old(storage[..size])
  {
    ghost var before := storage[..size];
    var v;
    ok, v := DecodeNumber(sub, f);
    if ok {
      storage[size] := v;
      assert storage[..size + 1] == before + [v];
    }
  }

  /**
   Entries are stored while there are bytes and the array has room, all of them within its declared size. The
   entries that were good are returned in any case.
   */
  method FillStatic(sub: IStream, f: Field, items: seq<Val>) returns (status: bool, items': seq<Val>)
    requires sub.Valid() && WfSize(f) && f.Packable() && f.atype.Static?
    modifies sub
    ensures sub.Valid() && sub.Conserved(true)
    ensures |items| <= |items'| && (|items| <= f.arraySize ==> |items'| <= f.arraySize)
    ensures var r := DecPacked(f, old(sub.Rest()), items, Capacity(f));
            if status && sub.bytesLeft == 0 then r == Ok(items', []) else r == Fail
  {
    status, items' := true, items;
    if |items| > f.arraySize {
      return;
    }
    var entries := ArrayOf(items);
    var storage := Resize(entries, f.arraySize);
    var size := |items|;
    assert storage[..size] == items;
    ghost var r := DecPacked(f, sub.Rest(), items, f.arraySize);
    while sub.bytesLeft > 0 && size < f.arraySize
      invariant sub.Valid() && sub.Conserved(true)
      invariant |items| <= size <= storage.Length == f.arraySize && fresh(storage)
      invariant status && r == DecPacked(f, sub.Rest(), storage[..size], f.arraySize)
      decreases sub.bytesLeft
    {
      status := StoreNext(sub, f, storage, size, f.arraySize);
      if !status {
        break;
      }
      size := size + 1;
    }
    items' := storage[..size];
  }

  method DecodePackedStatic(s: IStream, f: Field, items: seq<Val>) returns (ok: bool, items': seq<Val>)
    requires s.Valid() && WfSize(f) && f.Packable() && f.atype.Static?
    modifies s
    ensures s.Valid() && s.Conserved(ok)
    ensures |items| <= |items'|
    ensures Reads(ok, items', s.Rest(), DecPackedField(f, old(s.Rest()), items))
  {
    var sub, status;
    ok, sub := MakeSubstream(s);
    if !ok {
      return false, items;
    }
    status, items' := FillStatic(sub, f, items);
    if sub.bytesLeft != 0 {
      return false, items';
    }
    ok := CloseSubstream(s, sub);
    ok := ok && status;
  }

  // ------------------------------------------------------------------ growing arrays

  /** The next size of a block: a guess at how many entries are still to come. */
  function NextCapacity(bytesLeft: nat, dataSize: nat, capacity: nat): (n: nat)
    requires bytesLeft > 0 && dataSize > 0 && capacity < SIZE_MAX
    ensures capacity < n <= SIZE_MAX
  {
    var remain := (bytesLeft - 1) / dataSize + 1;
    if remain < SIZE_MAX - capacity then capacity + remain else capacity + 1
  }

  /** Room for one more entry: the block is enlarged if it is full. */
  method Reserve(sub: IStream, heap: Heap, f: Field, storage: array<Val>, size: nat, p: nat, ghost frame: multiset<nat>)
    returns (ok: bool, storage': array<Val>, q: nat)
    requires heap.Valid() && heap.live == frame + BlockOf(p) && WfSize(f) && f.atype.Pointer?
    requires sub.bytesLeft > 0 && size <= storage.Length <= SIZE_MAX && size < SIZE_MAX
    modifies heap
    ensures heap.Valid() && heap.live == frame + BlockOf(q) && heap.lost == old(heap.lost)
    ensures heap.failures == old(heap.failures) + if ok then 0 else 1
    ensures if ok then (storage.Length > 0 ==> p != 0) ==> q != 0 else q == p
    ensures ok ==> storage' == storage || fresh(storage')
    ensures ok ==> size < storage'.Length <= SIZE_MAX && storage'[..size] == storage[..size]
    ensures ok ==> (storage' == storage && q == p) || Sized(heap, f, q, storage'.Length)
  {
    ok, storage', q := true, storage, p;
    if size + 1 > storage.Length {
      var capacity := NextCapacity(sub.bytesLeft, f.dataSize, storage.Length);
      ok, q := AllocateEntries(heap, f, capacity, p, frame);
      if ok {
        storage' := Resize(storage, capacity);
      }
    }
  }

  /** The entries that the array holds. */
  ghost predicate Holds(storage: array<Val>, items: seq<Val>)
    reads storage
  {
    |items| <= storage.Length && forall k :: 0 <= k < |items| ==> storage[k] == items[k]
  }

  /** One turn of the growth loop: the entry is stored inside the block, which may have been enlarged for it. */
  method AppendNext(sub: IStream, heap: Heap, f: Field, storage: array<Val>, size: nat, p: nat,
                    ghost items: seq<Val>, ghost frame: multiset<nat>)
    returns (ok: bool, storage': array<Val>, q: nat, ghost items': seq<Val>)
    requires sub.Valid() && sub.bytesLeft > 0 && size <= storage.Length <= SIZE_MAX
    requires WfSize(f) && f.Packable() && f.atype.Pointer? && heap.Valid() && heap.live == frame + BlockOf(p)
    requires size == |items| && Holds(storage, items)
    modifies sub, heap, storage
    ensures sub.Valid() && sub.Conserved(true) && (ok ==> sub.bytesLeft < old(sub.bytesLeft))
    ensures storage' == storage || fresh(storage')
    ensures size <= storage'.Length <= SIZE_MAX && (ok ==> size < storage'.Length)
    ensures (storage.Length > 0 ==> p != 0) ==> storage'.Length > 0 ==> q != 0
    ensures Holds(storage', items') && |items'| == if ok then size + 1 else size
    ensures var r := DecPacked(f, old(sub.Rest()), items, SIZE_MAX);
            if ok then r == DecPacked(f, sub.Rest(), items', SIZE_MAX) else r == Fail || heap.failures > old(heap.failures)
    ensures heap.Valid() && heap.live == frame + BlockOf(q) && heap.lost == old(heap.lost)
    ensures heap.failures >= old(heap.failures)
  {
    items' := items;
    assert storage[..size] == items;
    if size == SIZE_MAX {
      return false, storage, p, items;
    }
    var room;
    ok, room, q := Reserve(sub, heap, f, storage, size, p, frame);
    if !ok {
      return false, storage, q, items;
    }
    storage' := room;
    assert room[..size] == items;
    ok := StoreNext(sub, f, room, size, SIZE_MAX);
    items' := if ok then room[..size + 1] else items;
  }

  /** The number of entries stays within the block, whose size stays below 2^32. */
  method FillFrom(sub: IStream, heap: Heap, f: Field, block: array<Val>, used: nat, p: nat,
                  ghost before: seq<Val>, ghost frame: multiset<nat>)
    returns (status: bool, storage: array<Val>, size: nat, q: nat, ghost items: seq<Val>)
    requires sub.Valid() && WfSize(f) && f.Packable() && f.atype.Pointer? && used <= block.Length <= SIZE_MAX
    requires heap.Valid() && heap.live == frame + BlockOf(p) && (block.Length > 0 ==> p != 0)
    requires used == |before| && Holds(block, before)
    modifies sub, heap, block
    ensures sub.Valid() && sub.Conserved(true) && used <= size <= storage.Length && (storage.Length > 0 ==> q != 0)
    ensures size == |items| && Holds(storage, items)
    ensures var r := DecPacked(f, old(sub.Rest()), before, SIZE_MAX);
            if status then sub.bytesLeft == 0 && r == Ok(items, []) else r == Fail || heap.failures > old(heap.failures)
    ensures heap.Valid() && heap.live == frame + BlockOf(q) && heap.lost == old(heap.lost)
    ensures heap.failures >= old(heap.failures)
  {
    storage, size, status, q := block, used, true, p;
    items := before;
    ghost var rest := sub.Rest();
    ghost var r := DecPacked(f, rest, items, SIZE_MAX);
    while sub.bytesLeft > 0
      invariant sub.Valid() && sub.Conserved(true)
      invariant used <= size <= storage.Length <= SIZE_MAX && (storage == block || fresh(storage))
      invariant heap.Valid() && heap.live == frame + BlockOf(q) && heap.lost == old(heap.lost)
      invariant heap.failures >= old(heap.failures) && (storage.Length > 0 ==> q != 0)
      invariant rest == sub.Rest() && size == |items| && Holds(storage, items)
      invariant status && r == DecPacked(f, rest, items, SIZE_MAX)
      decreases sub.bytesLeft
    {
      status, storage, q, items := AppendNext(sub, heap, f, storage, size, q, items, frame);
      if !status {
        return;
      }
      size := size + 1;
      rest := sub.Rest();
    }
  }

  method FillGrowing(sub: IStream, heap: Heap, f: Field, items: seq<Val>, p: nat, ghost frame: multiset<nat>)
    returns (status: bool, items': seq<Val>, q: nat)
    requires sub.Valid() && WfSize(f) && f.Packable() && f.atype.Pointer? && |items| <= SIZE_MAX && (items != [] ==> p != 0)
    requires heap.Valid() && heap.live == frame + BlockOf(p)
    modifies sub, heap
    ensures sub.Valid() && sub.Conserved(true)
    ensures var r := DecPacked(f, old(sub.Rest()), items, Capacity(f));
            if status then sub.bytesLeft == 0 && r == Ok(items', []) else r == Fail || heap.failures > old(heap.failures)
    ensures |items| <= |items'| && (items' != [] ==> q != 0)
    ensures heap.Valid() && heap.live == frame + BlockOf(q) && heap.lost == old(heap.lost)
    ensures heap.failures >= old(heap.failures)
  {
    var block := ArrayOf(items);
    assert block[..|items|] == items;
    var storage, size;
    ghost var all;
    status, storage, size, q, all := FillFrom(sub, heap, f, block, |items|, p, items, frame);
    assert storage[..size] == all;
    items' := storage[..size];
  }

  method DecodePackedPointer(s: IStream, heap: Heap, f: Field, items: seq<Val>, p: nat, ghost frame: multiset<nat>)
    returns (ok: bool, items': seq<Val>, q: nat)
    requires s.Valid() && WfSize(f) && f.Packable() && f.atype.Pointer? && |items| <= SIZE_MAX && (items != [] ==> p != 0)
    requires heap.Valid() && heap.live == frame + BlockOf(p)
    modifies s, heap
    ensures s.Valid() && s.Conserved(ok)
    ensures Gives(ok, items', s.Rest(), DecPackedField(f, old(s.Rest()), items), heap.failures > old(heap.failures))
    ensures |items| <= |items'| && (items' != [] ==> q != 0)
    ensures heap.Valid() && heap.live == frame + BlockOf(q) && heap.lost == old(heap.lost)
    ensures heap.failures >= old(heap.failures)
  {
    var sub, status;
    ok, sub := MakeSubstream(s);
    if !ok {
      return false, items, p;
    }
    status, items', q := FillGrowing(sub, heap, f, items, p, frame);
    ok := CloseSubstream(s, sub);
    ok := ok && status;
  }
}
