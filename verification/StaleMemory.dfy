/**
 Decoding into memory that is not clean. The entries of a static array are not initialized before the length of one
 of them has been read; if it cannot be read, release walks over whatever the memory held.
 */
module StaleMemory {
  import opened Bits
  import opened Wire
  import opened Descriptors
  import opened Decoding
  import opened Composition
  import opened Memory
  import opened Agreement
  import opened Storage
  import opened Allocation
  import opened Iteration
  import opened Input
  import opened FieldSteps
  import opened Decoder

  // ------------------------------------------------------------------ the tables

  predicate OwningMember(schema: Schema, d: nat, l: nat, i: nat)
    requires d < |schema| && i < |schema[d]|
  {
    && Leader(schema[d], i) == l && schema[d][i].htype.Oneof? && schema[d][i].ltype.Submessage?
    && OwningField(schema, d, i)
  }

  /** The first member of a union, from field i on, that is a struct with pointers, or the number of fields. */
  function FirstOwning(schema: Schema, d: nat, l: nat, i: nat): (j: nat)
    requires d < |schema| && i <= |schema[d]|
    ensures i <= j <= |schema[d]| && (j < |schema[d]| ==> OwningMember(schema, d, l, j))
    ensures forall k :: i <= k < j ==> !OwningMember(schema, d, l, k)
    decreases |schema[d]| - i
  {
    if i == |schema[d]| || OwningMember(schema, d, l, i) then i else FirstOwning(schema, d, l, i + 1)
  }

  /** Memory in which every pointer holds the address p. */
  function StaleNode(schema: Schema, d: nat, p: nat): (n: Node)
    requires d < |schema|
    ensures n.desc == d && |n.cells| == |schema[d]|
    decreases d, 1
  {
    Node(d, seq(|schema[d]|, i requires 0 <= i < |schema[d]| => StaleCell(schema, d, i, p)))
  }

  function StaleCell(schema: Schema, d: nat, i: nat, p: nat): Cell
    requires d < |schema| && i < |schema[d]|
    decreases d, 0
  {
    var f := schema[d][i];
    assert WfDesc(schema, d) && WfField(schema, d, f);
    if f.atype.Pointer? then Cell(0, 0, p, [], [], [])
    else if StaticArray(f) then
      var entry := StaleNode(schema, f.sub, p);
      Cell(0, f.arraySize, 0, [], seq(f.arraySize, _ => entry), [])
    else if InPlace(f) then EMPTY.(nodes := [StaleNode(schema, f.sub, p)])
    else
      var j := FirstOwning(schema, d, i, 0);
      if j == |schema[d]| then EMPTY
      else
        assert WfField(schema, d, schema[d][j]);
        Cell(schema[d][j].tag, 0, 0, [], [StaleNode(schema, schema[d][j].sub, p)], [])
  }

  lemma {:induction false} StaleLaidOut(schema: Schema, d: nat, p: nat)
    requires d < |schema|
    ensures LaidOut(schema, StaleNode(schema, d, p))
    decreases d, 1
  {
    var n := StaleNode(schema, d, p);
    forall i | 0 <= i < |n.cells| ensures LaidOutCell(schema, schema[d], n.cells, i) {
      StaleCellLaidOut(schema, d, i, p);
    }
    assert LaidOut(schema, n);
  }

  lemma {:induction false} StaleCellLaidOut(schema: Schema, d: nat, i: nat, p: nat)
    requires d < |schema| && i < |schema[d]|
    ensures LaidOutCell(schema, schema[d], StaleNode(schema, d, p).cells, i)
    decreases d, 0
  {
    var fields := schema[d];
    var f, c := fields[i], StaleCell(schema, d, i, p);
    assert StaleNode(schema, d, p).cells[i] == c;
    assert WfDesc(schema, d);
    assert forall j :: 0 <= j < |fields| ==> WfField(schema, d, fields[j]);
    if f.htype.Oneof? {
      var j := FirstOwning(schema, d, i, 0);
      if j < |fields| {
        StaleLaidOut(schema, fields[j].sub, p);
        StaleUnion(schema, d, i, j, StaleNode(schema, fields[j].sub, p));
      } else {
        assert LaidOutUnion(schema, fields, i, EMPTY);
      }
    } else {
      if StaticArray(f) || InPlace(f) {
        StaleLaidOut(schema, f.sub, p);
        assert LaidOutNodes(schema, f.sub, c.nodes) && LaidOutNodes(schema, f.sub, c.spare);
      }
      assert LaidOutField(schema, f, c);
    }
  }

  lemma StaleUnion(schema: Schema, d: nat, l: nat, j: nat, n: Node)
    requires d < |schema| && l < |schema[d]| && j < |schema[d]| && OwningMember(schema, d, l, j)
    requires LaidOut(schema, n) && n.desc == schema[d][j].sub
    ensures LaidOutUnion(schema, schema[d], l, Cell(schema[d][j].tag, 0, 0, [], [n], []))
  {
    var fields, c := schema[d], Cell(schema[d][j].tag, 0, 0, [], [n], []);
    assert WfDesc(schema, d);
    assert LaidOutNodes(schema, fields[j].sub, c.nodes);
    assert HoldsMember(fields, l, c.which);
    assert LaidOutMember(schema, fields[j], c);
  }

  lemma CellHolds(n: Node, i: nat, p: nat)
    requires i < |n.cells| && p != 0
    requires n.cells[i].block == p || (n.cells[i].nodes != [] && p in Blocks(n.cells[i].nodes[0]))
    ensures p in Blocks(n)
  {
    var c := n.cells[i];
    SumContains(CellList(n.cells), i);
    if c.block != p {
      SumContains(NodeList(c.nodes), 0);
    }
    assert p in CellBlocks(c);
  }

  lemma {:induction false} StaleOwns(schema: Schema, d: nat, p: nat)
    requires d < |schema| && Owns(schema, d) && p != 0
    ensures p in Blocks(StaleNode(schema, d, p))
    decreases d
  {
    var fields, n := schema[d], StaleNode(schema, d, p);
    var i :| 0 <= i < |fields| && OwningField(schema, d, i);
    var f, l := fields[i], Leader(fields, i);
    assert WfDesc(schema, d) && WfField(schema, d, f);
    assert n.cells[i] == StaleCell(schema, d, i, p) && n.cells[l] == StaleCell(schema, d, l, p);
    if f.atype.Pointer? {
      CellHolds(n, i, p);
    } else if f.htype.Oneof? {
      var j := FirstOwning(schema, d, l, 0);
      assert OwningMember(schema, d, l, i);
      assert WfField(schema, d, fields[l]) && WfField(schema, d, fields[j]);
      StaleOwns(schema, fields[j].sub, p);
      CellHolds(n, l, p);
    } else {
      StaleOwns(schema, f.sub, p);
      CellHolds(n, i, p);
    }
  }

  lemma {:induction false} StaleUnclean(schema: Schema, d: nat, p: nat)
    requires d < |schema| && OwningArrays(schema, d) && p != 0
    ensures LaidOut(schema, StaleNode(schema, d, p)) && !Clean(schema, StaleNode(schema, d, p))
    decreases d
  {
    var n := StaleNode(schema, d, p);
    StaleLaidOut(schema, d, p);
    var i :| 0 <= i < |schema[d]| && OwningArray(schema, d, i);
    var f := schema[d][i];
    assert WfDesc(schema, d) && WfField(schema, d, f);
    assert n.cells[i] == StaleCell(schema, d, i, p);
    if StaticArray(f) {
      StaleOwns(schema, f.sub, p);
      assert !Vacant(schema, (n.cells[i].nodes + n.cells[i].spare)[0], true);
    } else {
      StaleUnclean(schema, f.sub, p);
    }
    assert !CleanCell(schema, n, i);
  }

  /** Memory that has been set to zero is clean. */
  lemma ZeroClean(schema: Schema, d: nat)
    requires d < |schema|
    ensures LaidOut(schema, ZeroNode(schema, d)) && Clean(schema, ZeroNode(schema, d))
  {
    ZeroQuiet(schema, d);
    QuietClean(schema, ZeroNode(schema, d));
  }

  /**
   Memory for a struct is clean whatever is in it if and only if no static array in it has entries that own
   pointers.
   */
  lemma CleanExactly(schema: Schema, d: nat)
    requires d < |schema|
    ensures (forall n :: LaidOut(schema, n) && n.desc == d ==> Clean(schema, n)) <==> !OwningArrays(schema, d)
  {
    if OwningArrays(schema, d) {
      StaleUnclean(schema, d, 1);
    } else {
      forall n | LaidOut(schema, n) && n.desc == d ensures Clean(schema, n) {
        AlwaysClean(schema, n);
      }
    }
  }

  // ------------------------------------------------------------------ the failure

  /** The first field, from field i on, that is such an array or a struct in place with one. */
  function FirstArray(schema: Schema, d: nat, i: nat): (j: nat)
    requires d < |schema| && i <= |schema[d]|
    ensures i <= j <= |schema[d]| && (j < |schema[d]| ==> OwningArray(schema, d, j))
    ensures forall k :: i <= k < j ==> !OwningArray(schema, d, k)
    decreases |schema[d]| - i
  {
    if i == |schema[d]| || OwningArray(schema, d, i) then i else FirstArray(schema, d, i + 1)
  }

  function OwningIndex(schema: Schema, d: nat): (i: nat)
    requires d < |schema| && OwningArrays(schema, d)
    ensures i < |schema[d]| && OwningArray(schema, d, i) && WfField(schema, d, schema[d][i])
  {
    FirstArrayFound(schema, d);
    assert WfDesc(schema, d);
    FirstArray(schema, d, 0)
  }

  lemma FirstArrayFound(schema: Schema, d: nat)
    requires d < |schema| && OwningArrays(schema, d)
    ensures FirstArray(schema, d, 0) < |schema[d]|
  {
    var i :| 0 <= i < |schema[d]| && OwningArray(schema, d, i);
    assert FirstArray(schema, d, 0) <= i;
  }

  /** The tag of the array, inside the structs that lead to it, and nothing behind it. */
  function StaleInput(schema: Schema, d: nat): bytes
    requires d < |schema| && OwningArrays(schema, d)
    decreases d
  {
    var f := schema[d][OwningIndex(schema, d)];
    EncTag(WT_STRING, f.tag) + if StaticArray(f) then [] else EncString(StaleInput(schema, f.sub))
  }

  /** The first entry of the array. */
  function FirstEntry(schema: Schema, n: Node): Node
    requires LaidOut(schema, n) && OwningArrays(schema, n.desc)
    decreases n
  {
    var i := OwningIndex(schema, n.desc);
    LaidOutFacts(schema, n, i);
    if StaticArray(schema[n.desc][i]) then (n.cells[i].nodes + n.cells[i].spare)[0]
    else FirstEntry(schema, n.cells[i].nodes[0])
  }

  /** Release walks over this struct, as an entry of the array. */
  predicate Exposes(schema: Schema, n: Node, entry: Node)
    requires n.desc < |schema| && OwningArrays(schema, n.desc)
    decreases n
  {
    var i := OwningIndex(schema, n.desc);
    var f := schema[n.desc][i];
    && i < |n.cells| && n.cells[i].nodes != []
    && if StaticArray(f) then InUse(f, n.cells[i]) > 0 && n.cells[i].nodes[0] == entry
       else n.cells[i].nodes[0].desc == f.sub && Exposes(schema, n.cells[i].nodes[0], entry)
  }

  lemma UnreadableLength(schema: Schema, d: nat, i: nat, m: Msg)
    requires d < |schema| && i < |schema[d]| && TypedMsg(schema, m) && m.desc == d
    requires StaticArray(schema[d][i])
    ensures DecMsg(schema, EncTag(WT_STRING, schema[d][i].tag), m) == Fail
  {
    var f := schema[d][i];
    FieldFacts(schema, m, i);
    StepField(schema, i, WT_STRING, [], m, {});
    assert EncTag(WT_STRING, f.tag) + [] == EncTag(WT_STRING, f.tag);
    assert DecString([]) == Fail;
    assert DecSlot(schema, f, WT_STRING, [], m.slots[i]) == Fail;
  }

  lemma {:induction false} StaleFails(schema: Schema, m: Msg)
    requires TypedMsg(schema, m) && OwningArrays(schema, m.desc) && |StaleInput(schema, m.desc)| < TWO_32
    ensures DecMsg(schema, StaleInput(schema, m.desc), m) == Fail
    decreases m.desc
  {
    var i := OwningIndex(schema, m.desc);
    var f := schema[m.desc][i];
    FieldFacts(schema, m, i);
    if StaticArray(f) {
      UnreadableLength(schema, m.desc, i, m);
      assert EncTag(WT_STRING, f.tag) + [] == EncTag(WT_STRING, f.tag);
    } else {
      var s := StaleInput(schema, f.sub);
      StaleFails(schema, m.slots[i].v.m);
      StepField(schema, i, WT_STRING, EncString(s), m, {});
      DecStringInverse(s, []);
      assert EncString(s) + [] == EncString(s);
      SlotOfValue(schema, f, WT_STRING, EncString(s), m.slots[i]);
    }
  }

  lemma ArrayAt(schema: Schema, n: Node, i: nat)
    requires LaidOut(schema, n) && i < |n.cells| && StaticArray(schema[n.desc][i]) && schema[n.desc][i].arraySize > 0
    requires Walkable(schema, Initialized(schema, n), false)
    ensures var f, c, c' := schema[n.desc][i], n.cells[i], Initialized(schema, n).cells[i];
            && c' == EMPTY.(spare := c.nodes + c.spare) && c'.spare != []
            && WalkableField(schema, f, c', false) && AgreesItems(schema, f, [], c')
  {
    LaidOutFacts(schema, n, i);
    assert Initialized(schema, n).cells[i] == InitializedCell(schema, n, i);
    assert WalkableCell(schema, schema[n.desc], Initialized(schema, n).cells, i, false);
  }

  /** The last call: the array of field i is reached at the end of the stream. */
  method ReadEntry(s: IStream, heap: Heap, schema: Schema, ghost n: Node, node: Node, i: nat, ghost frame: multiset<nat>)
    returns (ok: bool, node': Node, stale: bool)
    requires s.Valid() && s.Rest() == [] && LaidOut(schema, n) && node == Initialized(schema, n)
    requires i < |n.cells| && StaticArray(schema[n.desc][i]) && schema[n.desc][i].arraySize > 0
    requires heap.Valid() && heap.live == frame
    modifies s, heap
    ensures var c := n.cells[i];
            && !ok && c.nodes + c.spare != [] && |node'.cells| == |n.cells| && node'.cells[i].nodes == [(c.nodes + c.spare)[0]]
            && node'.desc == n.desc && node'.cells[i].count == 1 && node'.cells[i].block == 0
            && stale == !Quiet(schema, (c.nodes + c.spare)[0], false)
  {
    ghost var f := schema[n.desc][i];
    InitializedFacts(schema, n, false);
    ArrayAt(schema, n, i);
    BareCell(node.cells[i]);
    assert WfDesc(schema, n.desc) && WfField(schema, n.desc, schema[n.desc][i]);
    assert DecString([]) == Fail;
    var v, c;
    ok, v, c, stale := DecodeStaticStruct(s, heap, schema, schema[node.desc][i], [], node.cells[i], frame, false);
    node' := node.(cells := node.cells[i := c]);
  }

  lemma StepsIn(schema: Schema, n: Node)
    requires LaidOut(schema, n) && OwningArrays(schema, n.desc)
    ensures var i := OwningIndex(schema, n.desc);
            var f := schema[n.desc][i];
            && WfField(schema, n.desc, f) && i < |n.cells|
            && (StaticArray(f) ==>
                  var entries := n.cells[i].nodes + n.cells[i].spare; entries != [] && FirstEntry(schema, n) == entries[0])
            && (!StaticArray(f) ==>
                  && |n.cells[i].nodes| == 1 && LaidOut(schema, n.cells[i].nodes[0]) && n.cells[i].nodes[0].desc == f.sub
                  && FirstEntry(schema, n) == FirstEntry(schema, n.cells[i].nodes[0])
                  && Initialized(schema, n).cells[i] == EMPTY.(nodes := [Initialized(schema, n.cells[i].nodes[0])]))
  {
    var i := OwningIndex(schema, n.desc);
    LaidOutFacts(schema, n, i);
    assert Initialized(schema, n).cells[i] == InitializedCell(schema, n, i);
  }

  /**
   The calls that the decoder makes on that input, in any memory: the first entry of the array is counted and holds
   what it held, so release walks over it. The call is stale if there are pointers in it.
   */
  method FailStale(s: IStream, heap: Heap, schema: Schema, ghost n: Node, node: Node, ghost frame: multiset<nat>)
    returns (node': Node, stale: bool)
    requires s.Valid() && LaidOut(schema, n) && OwningArrays(schema, n.desc) && node == Initialized(schema, n)
    requires s.Rest() == StaleInput(schema, n.desc) && |s.Rest()| < TWO_32
    requires heap.Valid() && heap.live == frame
    modifies s, heap
    ensures node'.desc == n.desc && Exposes(schema, node', FirstEntry(schema, n))
    ensures stale == !Quiet(schema, FirstEntry(schema, n), false)
    decreases node.desc
  {
    ghost var k := OwningIndex(schema, n.desc);
    ghost var f := schema[n.desc][k];
    ghost var inside := if StaticArray(f) then [] else EncString(StaleInput(schema, f.sub));
    StepsIn(schema, n);
    assert WfDesc(schema, node.desc);
    var ok;
    var iter := new FieldIter(schema[node.desc]);
    var wireType := ReadTag(s, iter, WT_STRING, k, inside);
    var i := iter.pos;
    if StaticArray(schema[node.desc][i]) {
      ok, node', stale := ReadEntry(s, heap, schema, n, node, i, frame);
    } else {
      var sub, inner;
      DecStringInverse(StaleInput(schema, f.sub), []);
      assert inside + [] == inside;
      ok, sub := MakeSubstream(s);
      inner, stale := FailStale(sub, heap, schema, n.cells[i].nodes[0], node.cells[i].nodes[0], frame);
      node' := node.(cells := node.cells[i := node.cells[i].(nodes := [inner])]);
    }
  }

  lemma {:induction false} StaleFirst(schema: Schema, d: nat, p: nat)
    requires d < |schema| && OwningArrays(schema, d) && p != 0
    ensures LaidOut(schema, StaleNode(schema, d, p)) && p in Blocks(FirstEntry(schema, StaleNode(schema, d, p)))
    decreases d
  {
    var n, i := StaleNode(schema, d, p), OwningIndex(schema, d);
    var f := schema[d][i];
    StaleLaidOut(schema, d, p);
    StepsIn(schema, n);
    assert n.cells[i] == StaleCell(schema, d, i, p);
    if StaticArray(f) {
      StaleOwns(schema, f.sub, p);
    } else {
      StaleFirst(schema, f.sub, p);
    }
  }

  /**
   If a static array in a struct has entries that own pointers, there are memory and an input, on which the call
   fails when release has any given address p to pass to `pb_free`.
   */
  method StaleReleased(heap: Heap, schema: Schema, d: nat, p: nat) returns (node: Node, stale: bool)
    requires d < |schema| && OwningArrays(schema, d) && |StaleInput(schema, d)| < TWO_32 && p != 0 && heap.Valid()
    modifies heap
    ensures Decode(schema, d, StaleInput(schema, d)) == Fail
    ensures LaidOut(schema, StaleNode(schema, d, p)) && node.desc == d && stale
    ensures var entry := FirstEntry(schema, StaleNode(schema, d, p)); Exposes(schema, node, entry) && p in Blocks(entry)
  {
    var input := StaleInput(schema, d);
    var buf := new byte[|input|](i requires 0 <= i < |input| => input[i]);
    assert buf[..] == input;
    var s := new IStream.FromBuffer(buf, |input|);
    DefaultsTyped(schema, d);
    StaleFails(schema, Defaults(schema, d));
    StaleFirst(schema, d, p);
    var m;
    m, node := SetToDefaults(schema, StaleNode(schema, d, p));
    node, stale := FailStale(s, heap, schema, StaleNode(schema, d, p), node, heap.live);
  }
}
