/**
 Structs in unions. When the member that a union holds occurs again, its storage is cleared and not released, so the
 blocks that the struct owns are lost. When this happens exactly, and an input on which it does.
 */
module UnionMemory {
  import opened Wire
  import opened Descriptors
  import opened Encoding
  import opened Decoding
  import opened Merging
  import opened RoundTrip
  import opened Memory
  import opened Agreement
  import opened Storage
  import opened Allocation
  import opened Iteration
  import opened Input
  import opened FieldSteps
  import opened Decoder

  // ------------------------------------------------------------------ what is lost

  /** Pointer field j of the struct in the union of field i, which is not repeated, is set. */
  predicate PointerSet(schema: Schema, m: Msg, i: nat, j: nat)
    requires TypedMsg(schema, m) && i < |m.slots|
  {
    var g, slot := schema[m.desc][i], m.slots[Leader(schema[m.desc], i)];
    && g.htype.Oneof? && g.ltype.Submessage? && slot.Union? && slot.which == g.tag
    && slot.v.VMsg? && slot.v.m.desc < |schema| && j < |slot.v.m.slots| == |schema[slot.v.m.desc]|
    && var f := schema[slot.v.m.desc][j];
       f.atype.Pointer? && !f.htype.Repeated? && !f.htype.Oneof? && slot.v.m.slots[j].Ptr?
  }

  /** Then it points to a block that the struct in the union holds. */
  lemma UnionHoldsBlock(schema: Schema, m: Msg, n: Node, i: nat, j: nat) returns (p: nat)
    requires TypedMsg(schema, m) && Agrees(schema, m, n) && i < |m.slots| && PointerSet(schema, m, i, j)
    ensures p in Overwritten(schema[m.desc], n, i)
  {
    var l := Leader(schema[m.desc], i);
    var c, v := n.cells[l], m.slots[l].v;
    AgreesFacts(schema, m, n, i);
    assert AgreesEntry(schema, v, c.nodes[0]);
    AgreesFacts(schema, v.m, c.nodes[0], j);
    p := c.nodes[0].cells[j].block;
    assert p != 0;
    SumContains(CellList(c.nodes[0].cells), j);
    SumContains(NodeList(c.nodes), 0);
    assert BlockOf(p)[p] <= CellBlocks(c.nodes[0].cells[j])[p] <= Blocks(c.nodes[0])[p] <= NodesBlocks(c.nodes)[p];
    assert p in CellBlocks(c);
  }

  lemma LossExactly(before: multiset<nat>, blocks: multiset<nat>)
    ensures before + blocks == before <==> blocks == multiset{}
  {
    if blocks != multiset{} {
      var b :| b in blocks;
      assert (before + blocks)[b] == before[b] + blocks[b];
    }
  }

  lemma LossOf(before: multiset<nat>, after: multiset<nat>, blocks: multiset<nat>, p: nat)
    requires before + blocks <= after && p in blocks
    ensures after[p] > before[p]
  {
    assert after[p] >= (before + blocks)[p];
  }

  twostate predicate LosesSome(heap: Heap)
    reads heap
  {
    exists p :: heap.lost[p] > old(heap.lost)[p]
  }

  /**
   The field at the iterator is read. When the types of the structs that it may contain hold no such unions, blocks
   are lost exactly if the field is in a union that holds the same member and that member holds a block. They are lost,
   whatever the types, if its pointer field j is set.
   */
  method ReadField(s: IStream, heap: Heap, schema: Schema, m: Msg, node: Node, iter: FieldIter, wireType: nat,
                   ghost j: nat, ghost frame: multiset<nat>, ghost tidy: bool)
    returns (ok: bool, m': Msg, node': Node, stale: bool)
    requires s.Valid() && TypedMsg(schema, m) && Walkable(schema, node, tidy) && Agrees(schema, m, node)
    requires iter.Valid() && iter.fields == schema[m.desc] && iter.pos < |iter.fields|
    requires heap.Valid() && heap.live == frame + Blocks(node)
    modifies s, heap, iter
    ensures s.Valid() && s.Conserved(ok) && iter.Valid() && iter.pos == old(iter.pos)
    ensures FieldRead(schema, m, iter.pos, wireType, old(s.Rest()), ok, m', s.Rest(), node', heap.failures > old(heap.failures))
    ensures stale ==> !ok && !tidy
    ensures !stale ==> Walkable(schema, node', tidy) && node'.desc == m.desc
    ensures Kept(heap, frame + Blocks(node'), false, stale)
    ensures PlainVal(schema, iter.fields[iter.pos]) ==>
              (heap.lost == old(heap.lost) <==> Overwritten(iter.fields, node, iter.pos) == multiset{})
    ensures PointerSet(schema, m, iter.pos, j) ==> LosesSome(heap)
  {
    ok, m', node', stale := DecodeField(s, heap, schema, m, node, iter, wireType, frame, tidy);
    ghost var blocks := Overwritten(iter.fields, node, iter.pos);
    if PlainVal(schema, iter.fields[iter.pos]) {
      LossExactly(old(heap.lost), blocks);
    }
    if PointerSet(schema, m, iter.pos, j) {
      var p := UnionHoldsBlock(schema, m, node, iter.pos, j);
      LossOf(old(heap.lost), heap.lost, blocks, p);
    }
  }

  // ------------------------------------------------------------------ an example

  function Table(): seq<Desc>
  {
    [[Field(1, UVarint, Optional, Pointer, 0, 0, 4, 0, 0, VNone)], [Field(1, Submessage, Oneof, Static, 8, -8, 8, 0, 0, VNone)]]
  }

  /** A union that holds a struct, whose pointer field is set to 5. */
  function Holder(): Msg
  {
    Msg(1, [Union(1, VMsg(Held()))])
  }

  function Held(): Msg
  {
    Msg(0, [Ptr(false, VInt(5))])
  }

  lemma TableFacts()
    ensures WfTable(Table())
  {
    var t := Table();
    assert WfField(t, 0, t[0][0]) && WfField(t, 1, t[1][0]);
    assert WfDesc(t, 0) && WfDesc(t, 1);
  }

  lemma HeldValid(schema: Schema)
    requires schema == Table()
    ensures TypedMsg(schema, Held()) && EncodableMsg(schema, Held()) && EncMsg(schema, Held()) == [8, 5]
  {
    var m := Held();
    assert TypedField(schema, schema[0], m.slots, 0);
    assert EncodableField(schema, m, 0);
    assert EncodableFields(schema, m, 0);
    assert EncField(schema, m, 0) == [8, 5];
    assert EncFields(schema, m, 0) == [];
    assert EncFields(schema, m, 1) == [] + [8, 5];
  }

  lemma HolderValid(schema: Schema)
    requires schema == Table()
    ensures Valid(schema, Holder()) && EncMsg(schema, Holder()) == [10, 2, 8, 5]
  {
    var m := Holder();
    HeldValid(schema);
    assert TypedVal(schema, schema[1][0], m.slots[0].v);
    assert TypedField(schema, schema[1], m.slots, 0);
    assert EncodableField(schema, m, 0);
    assert EncodableFields(schema, m, 0);
    assert EncString([8, 5]) == [2, 8, 5];
    assert EncField(schema, m, 0) == [10] + [2, 8, 5];
    assert EncFields(schema, m, 0) == [];
    assert EncFields(schema, m, 1) == [] + [10, 2, 8, 5];
  }

  /** The struct is what is read back, and merging it into itself changes nothing. */
  lemma HolderNormal(schema: Schema)
    requires schema == Table()
    ensures TypedMsg(schema, Holder()) && Rebuilt(schema, Holder()) == Holder()
    ensures FitsMsg(schema, Holder(), Holder()) && MergeMsg(schema, Holder(), Holder()) == Holder()
  {
    var m := Holder();
    HolderValid(schema);
    HeldValid(schema);
    DefaultsTyped(schema, 0);
    DefaultsTyped(schema, 1);
    assert MergeField(schema, Defaults(schema, 0), Held(), 0) == Ptr(false, VInt(5));
    assert Rebuilt(schema, Held()) == Held();
    assert RebuiltVal(schema, schema[1][0], VMsg(Held())) == VMsg(Held());
    assert MergeField(schema, Defaults(schema, 1), m, 0) == m.slots[0];
    assert MergeField(schema, m, m, 0) == m.slots[0];
    assert FitsAt(schema, m, m, 0);
    assert FitsTo(schema, m, m, 0);
  }

  lemma NotPlain(schema: Schema)
    requires schema == Table()
    ensures !PlainBelow(schema, 1) && PlainVal(schema, schema[1][0])
  {
    assert OwningField(schema, 0, 0);
    assert OwningField(schema, 1, 0);
    if PlainBelow(schema, 1) {
      PlainStep(schema, 1, 0);
    }
    assert PlainMember(schema, {0}, 0, 0);
    assert PlainTypes(schema, {0});
  }

  lemma HolderDecodes(schema: Schema, once: bytes)
    requires schema == Table() && once == [10, 2, 8, 5]
    ensures Decode(schema, 1, once) == Ok(Holder(), []) && Decode(schema, 1, once + once) == Ok(Holder(), [])
  {
    HolderValid(schema);
    HolderNormal(schema);
    RoundTripMsg(schema, Holder());
    LastOneWins(schema, Holder(), Holder());
  }

  /** One occurrence of the member, in a union that holds another struct or none. */
  lemma MemberDecodes(schema: Schema, a: Slot, t: bytes)
    requires schema == Table() && TypedSlot(schema, schema[1][0], a)
    ensures DecSlot(schema, schema[1][0], WT_STRING, [2, 8, 5] + t, a) == Ok(Union(1, VMsg(Held())), t)
  {
    var f, slot := schema[1][0], Holder().slots[0];
    HeldValid(schema);
    HolderNormal(schema);
    assert EncVal(schema, f, slot.v) == EncString([8, 5]) == [2, 8, 5];
    assert WfDesc(schema, 1) && WfField(schema, 1, f);
    SlotRun(schema, 1, f, a, slot, t);
  }

  /** One occurrence is read, in the struct that the field loop has. */
  method ReadMember(s: IStream, heap: Heap, schema: Schema, m: Msg, node: Node, iter: FieldIter,
                    ghost t: bytes, ghost frame: multiset<nat>)
    returns (ok: bool, m': Msg, node': Node)
    requires schema == Table() && m.desc == 1
    requires s.Valid() && TypedMsg(schema, m) && Walkable(schema, node, true) && Agrees(schema, m, node)
    requires iter.Valid() && iter.fields == schema[1] && s.Rest() == [10, 2, 8, 5] + t
    requires heap.Valid() && heap.live == frame + Blocks(node)
    modifies s, heap, iter
    ensures s.Valid() && iter.Valid() && (ok ==> s.Rest() == t)
    ensures if ok then m' == Holder() && Agrees(schema, m', node') else heap.failures > old(heap.failures)
    ensures Walkable(schema, node', true) && Kept(heap, frame + Blocks(node'), false, false)
    ensures m == Holder() ==> LosesSome(heap)
  {
    var stale;
    assert WfDesc(schema, 1);
    assert EncTag(WT_STRING, 1) == [10];
    assert s.Rest() == EncTag(WT_STRING, iter.fields[0].tag) + ([2, 8, 5] + t);
    var wireType := ReadTag(s, iter, WT_STRING, 0, [2, 8, 5] + t);
    FieldFacts(schema, m, 0);
    MemberDecodes(schema, m.slots[0], t);
    assert m == Holder() ==> PointerSet(schema, m, 0, 0);
    ok, m', node', stale := ReadField(s, heap, schema, m, node, iter, wireType, 0, frame, true);
    assert ok ==> m'.slots == [Union(1, VMsg(Held()))];
  }

  /**
   The member occurs twice. Both occurrences are decoded, the second into a fresh struct, and the block that the
   first one owns is lost unless an allocation fails.
   */
  method SameMemberTwice(heap: Heap, schema: Schema, once: bytes) returns (ok: bool, m: Msg, node: Node)
    requires schema == Table() && once == [10, 2, 8, 5] && heap.Valid()
    modifies heap
    ensures !PlainBelow(schema, 1) && Decode(schema, 1, once + once) == Ok(Holder(), [])
    ensures if ok then m == Holder() && LosesSome(heap) else heap.failures > old(heap.failures)
  {
    HolderDecodes(schema, once);
    NotPlain(schema);
    ok, m, node := ReadTwice(heap, schema, once);
  }

  method ReadTwice(heap: Heap, schema: Schema, once: bytes) returns (ok: bool, m: Msg, node: Node)
    requires schema == Table() && once == [10, 2, 8, 5] && heap.Valid()
    modifies heap
    ensures if ok then m == Holder() && LosesSome(heap) else heap.failures > old(heap.failures)
  {
    var s := StreamOf(once);
    assert WfDesc(schema, 1);
    var iter := new FieldIter(schema[1]);
    m, node := SetToDefaults(schema, ZeroNode(schema, 1));
    DefaultsTyped(schema, 1);
    assert node == FreshNode(schema, 1);
    NothingMore(heap.live, node);
    ok, m, node := ReadBoth(s, heap, schema, m, node, iter, once, heap.live);
  }

  method StreamOf(once: bytes) returns (s: IStream)
    ensures fresh(s) && s.Valid() && s.Rest() == once + once
  {
    var n := |once|;
    var buf := new byte[2 * n](i requires 0 <= i < 2 * n => if i < n then once[i] else once[i - n]);
    s := new IStream.FromBuffer(buf, 2 * n);
  }

  lemma LossKept(a: multiset<nat>, b: multiset<nat>, c: multiset<nat>)
    requires a <= b && exists p :: c[p] > b[p]
    ensures exists p :: c[p] > a[p]
  {
    var p :| c[p] > b[p];
    assert c[p] > a[p];
  }

  method ReadBoth(s: IStream, heap: Heap, schema: Schema, m0: Msg, node0: Node, iter: FieldIter, once: bytes,
                  ghost frame: multiset<nat>)
    returns (ok: bool, m: Msg, node: Node)
    requires schema == Table() && once == [10, 2, 8, 5] && m0.desc == 1
    requires s.Valid() && TypedMsg(schema, m0) && Walkable(schema, node0, true) && Agrees(schema, m0, node0)
    requires s.Rest() == once + once && iter.Valid() && iter.fields == schema[1]
    requires heap.Valid() && heap.live == frame + Blocks(node0)
    modifies s, heap, iter
    ensures if ok then m == Holder() && LosesSome(heap) else heap.failures > old(heap.failures)
  {
    ok, m, node := ReadMember(s, heap, schema, m0, node0, iter, once, frame);
    if ok {
      ghost var lost := heap.lost;
      assert once == once + [];
      HolderValid(schema);
      ok, m, node := ReadMember(s, heap, schema, m, node, iter, [], frame);
      if ok {
        LossKept(old(heap.lost), lost, heap.lost);
      }
    }
  }
}
