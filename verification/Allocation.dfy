/**
 The heap: allocation for pointer fields, and release. A block can only be freed while it is live, so none is freed
 twice. `frame` stands for all live blocks that the struct at hand does not hold.
 */
module Allocation {
  import opened Bits
  import opened Descriptors
  import opened Iteration
  import opened Memory

  const SIZE_T_MAX: nat := TWO_64 - 1
  const CHECK_LIMIT: nat := TWO_32

  // ------------------------------------------------------------------ the heap

  lemma BlockReplacedBy(live: multiset<nat>, p: nat, q: nat, others: multiset<nat>)
    requires forall b :: b in live ==> b < q && live[b] == 1
    requires others == live - BlockOf(p)
    ensures forall b :: b in others + multiset{q} ==> (others + multiset{q})[b] == 1 && (b == q || (b in live && b < q))
  {}

  class Heap {
    ghost var live: multiset<nat>     // blocks that are allocated and that some pointer refers to
    var next: nat                     // addresses are not used again
    ghost var lost: multiset<nat>     // blocks that are allocated, after their last pointer was overwritten
    ghost var failures: nat           // how many allocations have failed
    ghost var sizes: map<nat, nat>    // of all blocks that have been allocated

    ghost predicate Valid()
      reads this
    {
      && next > 0 && live[0] == 0 && forall b :: b in live ==> b < next && live[b] == 1 && b in sizes
    }

    constructor ()
      ensures Valid() && live == multiset{} && lost == multiset{} && failures == 0
    {
      live, next, lost, failures, sizes := multiset{}, 1, multiset{}, 0, map[];
    }

    /** `pb_realloc`, which may fail at any time. */
    method Realloc(p: nat, size: nat) returns (q: nat)
      requires Valid() && (p == 0 || p in live) && size > 0
      modifies this`live, this`next, this`failures, this`sizes
      ensures Valid()
      ensures q == 0 ==> failures == old(failures) + 1 && sizes == old(sizes)
      ensures live == if q == 0 then old(live) else old(live) - BlockOf(p) + multiset{q}
      ensures q != 0 ==> failures == old(failures) && q !in old(live) && sizes == old(sizes)[q := size]
    {
      var exhausted: bool := *;
      if exhausted {
        failures := failures + 1;
        return 0;
      }
      q := next;
      ghost var others := live - BlockOf(p);
      BlockReplacedBy(live, p, q, others);
      next, live, sizes := next + 1, others + multiset{q}, sizes[q := size];
    }

    method Free(p: nat)
      requires Valid() && (p == 0 || p in live)
      modifies this`live
      ensures Valid() && live == old(live) - BlockOf(p)
    {
      live := live - BlockOf(p);
    }

    /** A pointer is overwritten without a call of `pb_free`. */
    ghost method Lose(blocks: multiset<nat>, frame: multiset<nat>)
      requires Valid() && live == frame + blocks
      modifies this`live, this`lost
      ensures Valid() && live == frame && lost == old(lost) + blocks
    {
      assert forall b :: b in frame ==> b in live;
      live, lost := frame, lost + blocks;
    }
  }

  // ------------------------------------------------------------------ allocation

  lemma QuotientTooSmall(a: nat, d: nat)
    requires a > 0
    ensures SIZE_T_MAX / a < d <==> a * d > SIZE_T_MAX
  {
    var q := SIZE_T_MAX / a;
    if q < d {
      MulMonotone(q + 1, d, a);
    } else {
      MulMonotone(d, q, a);
    }
  }

  lemma SmallProduct(a: nat, d: nat)
    requires a < CHECK_LIMIT && d < CHECK_LIMIT
    ensures a * d <= SIZE_T_MAX
  {
    MulMonotone(a, CHECK_LIMIT - 1, d);
    MulMonotone(d, CHECK_LIMIT - 1, CHECK_LIMIT - 1);
  }

  /**
   Is a request of `arraySize` entries refused? The division is left out if both factors are small; the answer
   is exactly whether the product would overflow.
   */
  method TooLarge(dataSize: nat, arraySize: nat) returns (refused: bool)
    requires dataSize > 0 && arraySize > 0
    ensures refused <==> arraySize * dataSize >= 0x1_0000_0000_0000_0000
  {
    if dataSize >= CHECK_LIMIT || arraySize >= CHECK_LIMIT {
      QuotientTooSmall(arraySize, dataSize);
      return SIZE_T_MAX / arraySize < dataSize;
    }
    SmallProduct(arraySize, dataSize);
    return false;
  }

  /** On failure the old pointer stays in the struct. */
  method AllocateField(heap: Heap, p: nat, dataSize: nat, arraySize: nat, ghost frame: multiset<nat>)
    returns (ok: bool, q: nat)
    requires heap.Valid() && heap.live == frame + BlockOf(p)
    modifies heap
    ensures heap.Valid() && heap.lost == old(heap.lost) && heap.live == frame + BlockOf(q)
    ensures if ok then q != 0 && heap.failures == old(heap.failures) else q == p
    ensures heap.sizes == if ok then old(heap.sizes)[q := arraySize * dataSize] else old(heap.sizes)
    ensures dataSize == 0 || arraySize == 0 || arraySize * dataSize >= 0x1_0000_0000_0000_0000 ==>
              !ok && heap.failures == old(heap.failures)
    ensures 0 < dataSize && 0 < arraySize && arraySize * dataSize < 0x1_0000_0000_0000_0000 && !ok ==>
              heap.failures == old(heap.failures) + 1
  {
    if dataSize == 0 || arraySize == 0 {
      return false, p;
    }
    var refused := TooLarge(dataSize, arraySize);
    if refused {
      return false, p;
    }
    MulMonotone(1, arraySize, dataSize);
    q := heap.Realloc(p, arraySize * dataSize);
    if q == 0 {
      return false, p;
    }
    ok := true;
  }

  /** The size of n entries. */
  function EntryBytes(n: nat, dataSize: nat): nat
  {
    if n == 0 then 0 else EntryBytes(n - 1, dataSize) + dataSize
  }

  lemma {:induction false} EntryBytesIsProduct(n: nat, dataSize: nat)
    ensures EntryBytes(n, dataSize) == n * dataSize
  {
    if n > 0 {
      EntryBytesIsProduct(n - 1, dataSize);
    }
  }

  /** A block was allocated for exactly n entries of the field. */
  ghost predicate Sized(heap: Heap, f: Field, q: nat, n: nat)
    reads heap
  {
    q in heap.sizes && heap.sizes[q] == EntryBytes(n, f.dataSize)
  }

  /** A block for `n` entries of a pointer field; that is never too large. */
  method AllocateEntries(heap: Heap, f: Field, n: nat, p: nat, ghost frame: multiset<nat>) returns (ok: bool, q: nat)
    requires 0 < n <= SIZE_MAX && WfSize(f) && f.atype.Pointer? && heap.Valid() && heap.live == frame + BlockOf(p)
    modifies heap
    ensures heap.Valid() && heap.lost == old(heap.lost) && heap.live == frame + BlockOf(q)
    ensures heap.failures == old(heap.failures) + if ok then 0 else 1
    ensures if ok then q != 0 else q == p
    ensures ok ==> Sized(heap, f, q, n)
  {
    SmallProduct(n, f.dataSize);
    EntryBytesIsProduct(n, f.dataSize);
    ok, q := AllocateField(heap, p, f.dataSize, n, frame);
  }

  // ------------------------------------------------------------------ release

  lemma NextString(strings: seq<nat>, i: nat, frame: multiset<nat>)
    requires i < |strings|
    ensures var b, rest := BlockOf(strings[i]), frame + StringBlocks(strings[i + 1..]);
            frame + StringBlocks(strings[i..]) == rest + b && rest + b - b == rest
  {
    StringsFirst(strings[i..]);
    assert strings[i..][1..] == strings[i + 1..];
  }

  lemma NoStrings(strings: seq<nat>, frame: multiset<nat>)
    ensures frame + StringBlocks(strings[|strings|..]) == frame
    ensures strings[0..] == strings
  {}

  method FreeStrings(heap: Heap, strings: seq<nat>, count: nat, ghost frame: multiset<nat>)
    requires heap.Valid() && heap.live == frame + StringBlocks(strings) && count == |strings|
    modifies heap`live
    ensures heap.Valid() && heap.live == frame
  {
    NoStrings(strings, frame);
    for i := 0 to count
      invariant heap.Valid() && heap.live == frame + StringBlocks(strings[i..])
    {
      NextString(strings, i, frame);
      heap.Free(strings[i]);
    }
  }

  /** One struct in the storage of a field. */
  method ReleaseEntry(heap: Heap, schema: Schema, d: nat, nodes: seq<Node>, i: nat, ghost top: seq<Node>,
                      ghost frame: multiset<nat>, ghost tidy: bool)
    returns (nodes': seq<Node>)
    requires heap.Valid() && WalkableNodes(schema, d, nodes, tidy) && i < |nodes| == |top| && nodes[i] == top[i]
    requires heap.live == frame + NodesBlocks(nodes)
    modifies heap`live
    ensures heap.Valid() && |nodes'| == |nodes| && heap.live == frame + NodesBlocks(nodes')
    ensures nodes' == nodes[i := nodes'[i]] && Blocks(nodes'[i]) == multiset{} && WalkableNodes(schema, d, nodes', tidy)
    decreases top, 5
  {
    ghost var siblings := Siblings(nodes, i);
    NodesSplit(nodes, i);
    Regroup(frame, siblings, Blocks(nodes[i]));
    var n := Release(heap, schema, nodes[i], frame + siblings, tidy);
    NodesUpdate(nodes, i, n);
    nodes' := nodes[i := n];
  }

  /** The first `count` structs in the storage of a field, which are all that are in use, each released in turn. */
  method ReleaseNodes(heap: Heap, schema: Schema, d: nat, nodes: seq<Node>, count: nat, ghost frame: multiset<nat>,
                      ghost tidy: bool)
    returns (nodes': seq<Node>)
    requires heap.Valid() && WalkableNodes(schema, d, nodes, tidy) && heap.live == frame + NodesBlocks(nodes)
    requires count == |nodes|
    modifies heap`live
    ensures heap.Valid() && heap.live == frame
    ensures |nodes'| == |nodes| && WalkableNodes(schema, d, nodes', tidy)
    ensures forall k :: 0 <= k < |nodes'| ==> Blocks(nodes'[k]) == multiset{}
    decreases nodes, 6
  {
    nodes' := nodes;
    for i := 0 to count
      invariant heap.Valid() && heap.live == frame + NodesBlocks(nodes')
      invariant |nodes'| == |nodes| && WalkableNodes(schema, d, nodes', tidy)
      invariant nodes'[i..] == nodes[i..]
      invariant forall k :: 0 <= k < i ==> Blocks(nodes'[k]) == multiset{}
    {
      assert nodes'[i] == nodes'[i..][0] == nodes[i];
      nodes' := ReleaseEntry(heap, schema, d, nodes', i, nodes, frame, tidy);
    }
    NoNodeBlocks(nodes');
  }

  predicate Active(f: Field, c: Cell)
  {
    f.htype.Oneof? ==> c.which == f.tag
  }

  predicate Releasable(schema: Schema, f: Field, c: Cell, tidy: bool)
  {
    if f.htype.Oneof? then
      f.atype.Static? && c.block == 0 && c.strings == [] && c.spare == [] && WalkableMember(schema, f, c, tidy)
    else WalkableField(schema, f, c, tidy)
  }

  /** The recursion goes down `top`, which is the cell itself unless there is nothing to do. */
  method ReleaseSingleField(heap: Heap, schema: Schema, f: Field, c: Cell, ghost frame: multiset<nat>, ghost top: Cell,
                            ghost tidy: bool)
    returns (c': Cell)
    requires Active(f, c) ==> c == top
    requires heap.Valid() && heap.live == frame + CellBlocks(c)
    requires Active(f, c) ==> Releasable(schema, f, c, tidy)
    modifies heap`live
    ensures heap.Valid() && heap.live == frame + CellBlocks(c')
    ensures c'.which == c.which
    ensures if Active(f, c) then Releasable(schema, f, c', tidy) && CellBlocks(c') == multiset{} else c' == c
    ensures Active(f, c) && f.atype.Pointer? ==> c'.block == 0 && (f.htype.Repeated? ==> c'.count == 0)
    decreases top, 2
  {
    c' := c;
    if f.htype.Oneof? && c.which != f.tag {
      return;
    }
    ghost var rest := BlockOf(c.block) + StringBlocks(c.strings);
    Regroup(frame, rest, NodesBlocks(c.nodes));
    if f.ltype.Submessage? {
      InUseFacts(schema, f, c, tidy);
      var nodes := ReleaseNodes(heap, schema, f.sub, c.nodes, InUse(f, c), frame + rest, tidy);
      c' := c'.(nodes := nodes);
    }
    ReleasedShape(schema, f, c, c'.nodes, tidy);
    assert heap.live == frame + rest && NodesBlocks(c'.nodes) == multiset{};
    if f.atype.Pointer? {
      ReleasePointer(heap, f, c, frame);
      c' := Cell(c.which, if f.htype.Repeated? then 0 else c.count, 0, [], [], []);
    }
  }

  lemma InUseFacts(schema: Schema, f: Field, c: Cell, tidy: bool)
    requires f.ltype.Submessage? && Releasable(schema, f, c, tidy)
    ensures InUse(f, c) == |c.nodes| && WalkableNodes(schema, f.sub, c.nodes, tidy)
  {}

  lemma ReleasedShape(schema: Schema, f: Field, c: Cell, nodes: seq<Node>, tidy: bool)
    requires Releasable(schema, f, c, tidy) && |nodes| == |c.nodes|
    requires if f.ltype.Submessage? then
               WalkableNodes(schema, f.sub, nodes, tidy) && forall k :: 0 <= k < |nodes| ==> Blocks(nodes[k]) == multiset{}
             else nodes == c.nodes
    ensures Releasable(schema, f, c.(nodes := nodes), tidy) && NodesBlocks(nodes) == multiset{}
    ensures f.atype.Pointer? ==>
              Releasable(schema, f, Cell(c.which, if f.htype.Repeated? then 0 else c.count, 0, [], [], []), tidy)
    ensures f.atype.Static? ==> c.block == 0 && c.strings == []
    ensures if OwnsStrings(f) then |c.strings| == c.count else c.strings == []
  {
    NoNodeBlocks(nodes);
  }

  /** The strings of an array and the block of the field itself. */
  method ReleasePointer(heap: Heap, f: Field, c: Cell, ghost frame: multiset<nat>)
    requires heap.Valid() && heap.live == frame + (BlockOf(c.block) + StringBlocks(c.strings))
    requires if OwnsStrings(f) then |c.strings| == c.count else c.strings == []
    modifies heap`live
    ensures heap.Valid() && heap.live == frame
  {
    Regroup(frame, BlockOf(c.block), StringBlocks(c.strings));
    if OwnsStrings(f) {
      FreeStrings(heap, c.strings, c.count, frame + BlockOf(c.block));
    }
    heap.Free(c.block);
  }

  /** Some field before field k has released the storage that starts at field l. */
  predicate Touched(fields: Desc, cells: seq<Cell>, l: nat, k: nat)
    requires l < |fields| == |cells| && k <= |fields|
  {
    exists j :: 0 <= j < k && Leader(fields, j) == l && Active(fields[j], cells[l])
  }

  predicate Released(fields: Desc, cells: seq<Cell>, j: nat)
    requires j < |fields| == |cells|
  {
    var c := cells[Leader(fields, j)];
    CellBlocks(c) == multiset{} || (fields[j].htype.Oneof? && c.which != fields[j].tag)
  }

  predicate Releasing(fields: Desc, old': seq<Cell>, cells: seq<Cell>, k: nat)
    requires |old'| == |cells| == |fields| && k <= |fields|
  {
    && (forall j :: 0 <= j < k ==> Released(fields, cells, j))
    && forall l :: 0 <= l < |cells| ==>
                     cells[l].which == old'[l].which && (cells[l] == old'[l] || Touched(fields, cells, l, k))
  }

  /** Field i of a struct `n`, which is `m` after the fields before it have been released. */
  method ReleaseNth(heap: Heap, schema: Schema, ghost n: Node, m: Node, i: nat, ghost frame: multiset<nat>, ghost tidy: bool)
    returns (m': Node)
    requires heap.Valid() && Walkable(schema, m, tidy) && i < |m.cells| == |n.cells| && heap.live == frame + Blocks(m)
    requires Releasing(schema[m.desc], n.cells, m.cells, i)
    modifies heap`live
    ensures heap.Valid() && Walkable(schema, m', tidy) && m'.desc == m.desc && heap.live == frame + Blocks(m')
    ensures Releasing(schema[m.desc], n.cells, m'.cells, i + 1)
    decreases n, 3
  {
    var fields := schema[m.desc];
    var l := Leader(fields, i);
    var c := m.cells[l];
    ReleaseFacts(schema, m, i, tidy);
    NotTouched(fields, m.cells, i);
    Regroup(frame, Others(m.cells, l), CellBlocks(c));
    var c' := ReleaseSingleField(heap, schema, fields[i], c, frame + Others(m.cells, l), n.cells[l], tidy);
    m' := m.(cells := m.cells[l := c']);
    ReplaceReleased(schema, m, i, c', tidy);
    Regroup(frame, Others(m.cells, l), CellBlocks(c'));
    ReleaseStep(fields, n.cells, m.cells, i, c');
  }

  lemma ReleaseFacts(schema: Schema, m: Node, i: nat, tidy: bool)
    requires Walkable(schema, m, tidy) && i < |m.cells|
    ensures var fields := schema[m.desc];
            var l := Leader(fields, i);
            && UniqueTags(fields)
            && (Active(fields[i], m.cells[l]) ==> Releasable(schema, fields[i], m.cells[l], tidy))
            && Blocks(m) == Others(m.cells, l) + CellBlocks(m.cells[l])
  {
    var fields := schema[m.desc];
    var l := Leader(fields, i);
    StorageFacts(schema, m, i, tidy);
    CellsSplit(m.cells, l);
    if fields[i].htype.Oneof? {
      ActiveMember(schema, fields, i, m.cells[l], tidy);
    }
  }

  lemma ReplaceReleased(schema: Schema, m: Node, i: nat, c': Cell, tidy: bool)
    requires Walkable(schema, m, tidy) && i < |m.cells|
    requires var f := schema[m.desc][i];
             var c := m.cells[Leader(schema[m.desc], i)];
             && c'.which == c.which
             && if Active(f, c) then Releasable(schema, f, c', tidy) else c' == c
    ensures var l := Leader(schema[m.desc], i);
            var m' := m.(cells := m.cells[l := c']);
            Walkable(schema, m', tidy) && Blocks(m') == Others(m.cells, l) + CellBlocks(c')
  {
    var fields := schema[m.desc];
    var l := Leader(fields, i);
    StorageFacts(schema, m, i, tidy);
    CellsUpdate(m.cells, l, c');
    if fields[i].htype.Oneof? {
      ActiveMember(schema, fields, i, c', tidy);
    }
    StorageReplaced(schema, m, i, c', tidy);
  }

  /** The storage of an active field is released once. */
  lemma NotTouched(fields: Desc, cells: seq<Cell>, i: nat)
    requires UniqueTags(fields) && i < |fields| == |cells|
    ensures var l := Leader(fields, i); Active(fields[i], cells[l]) ==> !Touched(fields, cells, l, i)
  {}

  lemma ReleaseStep(fields: Desc, old': seq<Cell>, cells: seq<Cell>, i: nat, c': Cell)
    requires |old'| == |cells| == |fields| && i < |fields| && Releasing(fields, old', cells, i)
    requires var c := cells[Leader(fields, i)];
             && c'.which == c.which
             && if Active(fields[i], c) then CellBlocks(c') == multiset{} else c' == c
    ensures Releasing(fields, old', cells[Leader(fields, i) := c'], i + 1)
  {
    var l := Leader(fields, i);
    var cells' := cells[l := c'];
    forall j | 0 <= j < i + 1 ensures Released(fields, cells', j) {
      if j < i {
        assert Released(fields, cells, j);
      }
    }
    forall k | 0 <= k < |cells|
      ensures cells'[k].which == old'[k].which && (cells'[k] == old'[k] || Touched(fields, cells', k, i + 1))
    {
      TouchedGrows(fields, cells, cells', k, i);
      if k == l && Active(fields[i], cells[l]) {
        assert Active(fields[i], cells'[l]);
      }
    }
  }

  lemma TouchedGrows(fields: Desc, cells: seq<Cell>, cells': seq<Cell>, l: nat, k: nat)
    requires l < |fields| == |cells| == |cells'| && k < |fields| && cells'[l].which == cells[l].which
    ensures Touched(fields, cells, l, k) ==> Touched(fields, cells', l, k + 1)
  {
    if Touched(fields, cells, l, k) {
      var j :| 0 <= j < k && Leader(fields, j) == l && Active(fields[j], cells[l]);
      assert Active(fields[j], cells'[l]);
    }
  }

  /** `pb_release`: every block that the struct holds is freed, once, and its pointers are NULL. */
  method Release(heap: Heap, schema: Schema, n: Node, ghost frame: multiset<nat>, ghost tidy: bool) returns (n': Node)
    requires heap.Valid() && Walkable(schema, n, tidy) && heap.live == frame + Blocks(n)
    modifies heap`live
    ensures heap.Valid() && heap.live == frame
    ensures Walkable(schema, n', tidy) && n'.desc == n.desc && Blocks(n') == multiset{}
    decreases n, 4
  {
    n' := n;
    assert WfDesc(schema, n.desc);
    var iter := new FieldIter(schema[n.desc]);
    var more := iter.fields != [];
    ghost var k := 0;
    while more
      invariant iter.Valid() && iter.fields == schema[n.desc] && fresh(iter)
      invariant 0 <= k <= |iter.fields| && (if more then k == iter.pos < |iter.fields| else k == |iter.fields|)
      invariant heap.Valid() && Walkable(schema, n', tidy) && n'.desc == n.desc && heap.live == frame + Blocks(n')
      invariant Releasing(schema[n.desc], n.cells, n'.cells, k)
      decreases |iter.fields| - k
    {
      n' := ReleaseNth(heap, schema, n, n', iter.pos, frame, tidy);
      k := k + 1;
      more := iter.Next();
    }
    AllReleased(schema, n', tidy);
  }

  lemma AllReleased(schema: Schema, n: Node, tidy: bool)
    requires Walkable(schema, n, tidy)
    requires forall j :: 0 <= j < |n.cells| ==> Released(schema[n.desc], n.cells, j)
    ensures Blocks(n) == multiset{}
  {
    var fields := schema[n.desc];
    forall i | 0 <= i < |n.cells| ensures CellBlocks(n.cells[i]) == multiset{} {
      var c := n.cells[i];
      assert WalkableCell(schema, fields, n.cells, i, tidy) && Released(fields, n.cells, i);
      if fields[i].htype.Oneof? && Leader(fields, i) == i {
        assert WalkableUnion(schema, fields, i, c, tidy);
        if c.nodes == [] {
          BareCell(c);
        } else {
          var j := MemberOf(fields, i, c.which);
          assert Released(fields, n.cells, j);
        }
      }
    }
    NoBlocks(n.cells);
  }
}
