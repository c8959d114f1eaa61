/**
 The message decoder on streams. A struct is held in two halves, its data, a `Msg`, and its pointers, a `Node`, which
 agree after every successful call. Each method returns what `Decoding` says, or fails when that fails or when an
 allocation does; and it accounts for every block: `frame` stands for the blocks that are not part of the struct at
 hand.
 */
module Decoder {
  import opened Bits
  import opened Wire
  import opened Descriptors
  import opened Decoding
  import opened Initial
  import opened Iteration
  import opened Input
  import opened Memory
  import opened Agreement
  import opened Storage
  import opened Allocation
  import opened ScalarDecoders
  import opened PackedArrays
  import opened Bitmap

  // ------------------------------------------------------------------ what becomes of blocks

  predicate PlainMember(schema: Schema, types: set<nat>, d: nat, i: nat)
    requires d < |schema| && i < |schema[d]|
  {
    var f := schema[d][i];
    (f.htype.Oneof? ==> !OwningField(schema, d, i)) && (f.ltype.Submessage? ==> f.sub in types)
  }

  /** In these types, which with a type contain those of its structs, no struct in a union owns pointers. */
  predicate PlainTypes(schema: Schema, types: set<nat>)
  {
    forall d :: d in types ==> d < |schema| && forall i :: 0 <= i < |schema[d]| ==> PlainMember(schema, types, d, i)
  }

  /** No struct that a struct of type d may contain or point to, directly or not, has such a union. */
  ghost predicate PlainBelow(schema: Schema, d: nat)
  {
    exists types: set<nat> :: d in types && PlainTypes(schema, types)
  }

  ghost predicate PlainVal(schema: Schema, f: Field)
  {
    f.ltype.Submessage? ==> PlainBelow(schema, f.sub)
  }

  lemma PlainStep(schema: Schema, d: nat, i: nat)
    requires PlainBelow(schema, d) && d < |schema| && i < |schema[d]|
    ensures (schema[d][i].htype.Oneof? ==> !OwningField(schema, d, i)) && PlainVal(schema, schema[d][i])
  {
    var types: set<nat> :| d in types && PlainTypes(schema, types);
    assert PlainMember(schema, types, d, i);
  }

  /** What is cleared when the field is read: the storage of a union. */
  function Cleared(f: Field, c: Cell): multiset<nat>
  {
    if f.htype.Oneof? then CellBlocks(c) else multiset{}
  }

  /** The blocks that are still in the way when field i is read: those of a union that holds the same member. */
  function Overwritten(fields: Desc, node: Node, i: nat): multiset<nat>
    requires i < |fields| == |node.cells|
  {
    var c := node.cells[Leader(fields, i)];
    if fields[i].htype.Oneof? && c.which == fields[i].tag then CellBlocks(c) else multiset{}
  }

  /** Then nothing is. */
  lemma NothingOverwritten(schema: Schema, node: Node, i: nat, tidy: bool)
    requires Walkable(schema, node, tidy) && i < |node.cells| && PlainBelow(schema, node.desc)
    ensures Overwritten(schema[node.desc], node, i) == multiset{} && PlainVal(schema, schema[node.desc][i])
  {
    var fields := schema[node.desc];
    var f, c := fields[i], node.cells[Leader(fields, i)];
    PlainStep(schema, node.desc, i);
    StorageFacts(schema, node, i, tidy);
    if f.htype.Oneof? && c.which == f.tag {
      ActiveMember(schema, fields, i, c, tidy);
      assert WalkableMember(schema, f, c, tidy);
      if c.nodes == [] {
        BareCell(c);
      } else {
        OwnsNothingNodes(schema, f.sub, c, tidy);
      }
    }
  }

  /**
   After the call the live blocks are these, and none were lost if `plain`. A call that has failed and left stale
   pointers behind says nothing about the live blocks.
   */
  twostate predicate Kept(heap: Heap, live: multiset<nat>, plain: bool, stale: bool)
    reads heap
  {
    && heap.Valid() && (stale || heap.live == live)
    && heap.failures >= old(heap.failures) && old(heap.lost) <= heap.lost
    && (plain ==> heap.lost == old(heap.lost))
  }

  /** An allocation of the call failed. A stale call fails for another reason, which is the input. */
  twostate predicate OutOfMemory(heap: Heap, stale: bool)
    reads heap
  {
    !stale && heap.failures > old(heap.failures)
  }

  /** These blocks were lost, and no others if `plain`. */
  twostate predicate Lost(heap: Heap, blocks: multiset<nat>, plain: bool)
    reads heap
  {
    old(heap.lost) + blocks <= heap.lost && (plain ==> heap.lost == old(heap.lost) + blocks)
  }

  // ------------------------------------------------------------------ initialization

  /** The initial value of a field. Counts and which_ are set to 0 and the contents of arrays left alone. */
  method FieldDefault(schema: Schema, iter: FieldIter, storage: Node) returns (slot: Slot, c: Cell)
    requires LaidOut(schema, storage) && iter.Valid() && iter.fields == schema[storage.desc] && iter.pos < |iter.fields|
    ensures slot == DefaultSlot(schema, storage.desc, iter.pos) && c == InitializedCell(schema, storage, iter.pos)
    decreases storage, 0
  {
    var f, old' := iter.fields[iter.pos], storage.cells[iter.pos];
    assert WfDesc(schema, storage.desc) && WfField(schema, storage.desc, f);
    if !f.htype.Oneof? {
      LaidOutFacts(schema, storage, iter.pos);
    }
    if f.atype.Static? {
      if f.htype.Repeated? {
        return Rep([]), if StaticArray(f) then EMPTY.(spare := old'.nodes + old'.spare) else EMPTY;
      } else if f.htype.Oneof? {
        return if JoinsUnion(iter.fields, iter.pos) then Joined else Union(0, VNone), EMPTY;
      }
      var v := f.default;
      c := EMPTY;
      if f.ltype.Submessage? {
        var m, n := SetToDefaults(schema, old'.nodes[0]);
        v, c := VMsg(m), EMPTY.(nodes := [n]);
      }
      slot := if f.htype.Optional? && f.sizeOffset != 0 then Opt(false, v) else One(v);
    } else {
      return if f.htype.Repeated? then Rep([]) else Null(false), EMPTY;
    }
  }

  method SetToDefaults(schema: Schema, storage: Node) returns (m: Msg, n: Node)
    requires LaidOut(schema, storage)
    ensures m == Defaults(schema, storage.desc) && n == Initialized(schema, storage)
    ensures InitialMsg(schema, m) && m.desc == storage.desc
    decreases storage, 2
  {
    DefaultsInitial(schema, storage.desc);
    var slots, cells := SetFields(schema, storage);
    m, n := Msg(storage.desc, slots), Node(storage.desc, cells);
  }

  /** The first fields, as many as there are slots, have been set. */
  predicate FieldsSet(schema: Schema, storage: Node, slots: seq<Slot>, cells: seq<Cell>)
    requires LaidOut(schema, storage)
  {
    && |slots| == |cells| <= |schema[storage.desc]|
    && slots == Defaults(schema, storage.desc).slots[..|slots|]
    && cells == Initialized(schema, storage).cells[..|cells|]
  }

  lemma OneMoreSet(schema: Schema, storage: Node, slots: seq<Slot>, cells: seq<Cell>)
    requires LaidOut(schema, storage) && FieldsSet(schema, storage, slots, cells) && |slots| < |schema[storage.desc]|
    ensures var n := |slots|;
            FieldsSet(schema, storage, slots + [DefaultSlot(schema, storage.desc, n)],
                      cells + [InitializedCell(schema, storage, n)])
  {
    var n := |slots|;
    var m, r := Defaults(schema, storage.desc).slots, Initialized(schema, storage).cells;
    assert m[..n + 1] == m[..n] + [m[n]];
    assert r[..n + 1] == r[..n] + [r[n]];
  }

  /** All fields, in the order of the descriptor. */
  method SetFields(schema: Schema, storage: Node) returns (slots: seq<Slot>, cells: seq<Cell>)
    requires LaidOut(schema, storage)
    ensures |slots| == |schema[storage.desc]| && FieldsSet(schema, storage, slots, cells)
    decreases storage, 1
  {
    assert WfDesc(schema, storage.desc);
    var iter := new FieldIter(schema[storage.desc]);
    slots, cells := [], [];
    var more := iter.fields != [];
    while more
      invariant iter.Valid() && iter.fields == schema[storage.desc] && FieldsSet(schema, storage, slots, cells)
      invariant if more then iter.pos == |slots| < |iter.fields| else |slots| == |iter.fields|
      decreases |iter.fields| - |slots|
    {
      var slot, c := FieldDefault(schema, iter, storage);
      OneMoreSet(schema, storage, slots, cells);
      slots, cells := slots + [slot], cells + [c];
      more := iter.Next();
    }
  }

  // ------------------------------------------------------------------ values

  /** The nodes in storage for one value of a field. */
  predicate NodesFor(schema: Schema, f: Field, nodes: seq<Node>, tidy: bool)
  {
    if f.ltype.Submessage? then |nodes| == 1 && WalkableNodes(schema, f.sub, nodes, tidy) else nodes == []
  }

  function FreshNodes(schema: Schema, f: Field): (nodes: seq<Node>)
    requires f.ltype.Submessage? ==> f.sub < |schema|
    ensures NodesFor(schema, f, nodes, true) && NodesBlocks(nodes) == multiset{}
    ensures AgreesVal(schema, f, FreshVal(schema, f), nodes)
  {
    if f.ltype.Submessage? then
      OneNode(FreshNode(schema, f.sub));
      [FreshNode(schema, f.sub)]
    else []
  }

  lemma UntidyFor(schema: Schema, f: Field, nodes: seq<Node>, tidy: bool)
    requires NodesFor(schema, f, nodes, true)
    ensures NodesFor(schema, f, nodes, tidy)
  {
    if f.ltype.Submessage? {
      UntidyNodes(schema, f.sub, nodes, tidy);
    }
  }

  lemma VacantFacts(schema: Schema, n: Node, tidy: bool)
    requires Vacant(schema, n, tidy)
    ensures LaidOut(schema, n) && (tidy ==> Clean(schema, n) && Quiet(schema, n, false))
    ensures Quiet(schema, n, false) ==> Quiet(schema, n, tidy)
  {
    if tidy {
      QuietClean(schema, n);
      Untidy(schema, n, false);
    }
  }

  /** The memory that a struct is read into: that of an array entry is initialized first, other structs have been. */
  ghost predicate ReadyFor(schema: Schema, f: Field, old': Val, node: Node,
                           live: multiset<nat>, frame: multiset<nat>, tidy: bool)
    requires f.sub < |schema|
  {
    && f.ltype.Submessage? && TypedVal(schema, f, old') && node.desc == f.sub
    && if f.htype.Repeated? then old' == FreshVal(schema, f) && Vacant(schema, node, tidy) && live == frame
       else Agrees(schema, old'.m, node) && Walkable(schema, node, tidy) && live == frame + Blocks(node)
  }

  /** The contents of a struct, in a stream of their own. */
  method DecodeContents(s: IStream, heap: Heap, schema: Schema, f: Field, old': Val, node: Node,
                        ghost frame: multiset<nat>, ghost tidy: bool)
    returns (ok: bool, m: Msg, node': Node, stale: bool)
    requires s.Valid() && heap.Valid() && f.sub < |schema| && ReadyFor(schema, f, old', node, heap.live, frame, tidy)
    modifies s, heap
    ensures s.Valid() && s.Conserved(ok)
    ensures Gives(ok, m, s.Rest(), DecMsg(schema, old(s.Rest()), old'.m), OutOfMemory(heap, stale))
    ensures stale ==> !ok && !tidy
    ensures !stale ==> Walkable(schema, node', tidy) && node'.desc == f.sub
    ensures Kept(heap, frame + Blocks(node'), PlainBelow(schema, f.sub), stale)
    ensures ok ==> Agrees(schema, m, node')
    decreases s.bytesLeft, 18
  {
    if f.htype.Repeated? {
      VacantFacts(schema, node, tidy);
      ok, m, node', stale := DecodeMessage(s, heap, schema, node, frame);
      if !stale && Clean(schema, node) {
        Untidy(schema, node', tidy);
      }
    } else {
      ok, m, node', stale := DecodeNoInit(s, heap, schema, old'.m, node, frame, tidy);
    }
  }

  /** If the length cannot be read, an array entry holds whatever the memory held, which release may walk over or not. */
  lemma Unread(schema: Schema, f: Field, old': Val, node: Node, live: multiset<nat>, frame: multiset<nat>, tidy: bool)
    returns (stale: bool)
    requires f.sub < |schema| && ReadyFor(schema, f, old', node, live, frame, tidy)
    ensures stale == (f.htype.Repeated? && !Quiet(schema, node, false))
    ensures stale ==> !tidy
    ensures !stale ==> Walkable(schema, node, tidy) && live == frame + Blocks(node)
  {
    stale := f.htype.Repeated? && !Quiet(schema, node, false);
    if f.htype.Repeated? {
      VacantFacts(schema, node, tidy);
      if !stale {
        NothingMore(frame, node);
      }
    }
  }

  /**
   A struct behind its length. An array entry is initialized, but not before the length has been read; until then it
   holds whatever the memory held, which is `stale` if release would find pointers in it.
   */
  method DecodeSubmessage(s: IStream, heap: Heap, schema: Schema, f: Field, old': Val, node: Node,
                          ghost frame: multiset<nat>, ghost tidy: bool)
    returns (ok: bool, v: Val, node': Node, stale: bool)
    requires s.Valid() && heap.Valid() && WfSize(f) && f.sub < |schema|
    requires ReadyFor(schema, f, old', node, heap.live, frame, tidy)
    modifies s, heap
    ensures s.Valid() && s.Conserved(ok)
    ensures Gives(ok, v, s.Rest(), DecVal(schema, f, old(s.Rest()), old'), OutOfMemory(heap, stale))
    ensures stale ==> !ok && !tidy
    ensures !stale ==> Walkable(schema, node', tidy) && node'.desc == f.sub
    ensures Kept(heap, frame + Blocks(node'), PlainVal(schema, f), stale)
    ensures ok ==> AgreesEntry(schema, v, node')
    ensures DecString(old(s.Rest())) == Fail ==>
              node' == node && stale == (f.htype.Repeated? && !Quiet(schema, node, false))
    decreases s.bytesLeft, 1
  {
    v, node', stale := old', node, f.htype.Repeated? && !Quiet(schema, node, false);
    var sub, status, m;
    ok, sub := MakeSubstream(s);
    if !ok {
      ghost var unread := Unread(schema, f, old', node, heap.live, frame, tidy);
      return;
    }
    status, m, node', stale := DecodeContents(sub, heap, schema, f, old', node, frame, tidy);
    ok := CloseSubstream(s, sub);
    ok, v := ok && status, VMsg(m);
  }

  lemma OnlyNode(nodes: seq<Node>, frame: multiset<nat>)
    requires |nodes| == 1
    ensures nodes == [nodes[0]] && frame + NodesBlocks(nodes) == frame + Blocks(nodes[0])
  {
    OneNode(nodes[0]);
    assert nodes == [nodes[0]];
  }

  /** A struct in storage that agrees with `old'`. */
  method DecodeStruct(s: IStream, heap: Heap, schema: Schema, f: Field, old': Val, nodes: seq<Node>,
                      ghost frame: multiset<nat>, ghost tidy: bool)
    returns (ok: bool, v: Val, nodes': seq<Node>, stale: bool)
    requires s.Valid() && WfSize(f) && f.ltype.Submessage? && !f.htype.Repeated?
    requires f.sub < |schema| && TypedVal(schema, f, old') && AgreesVal(schema, f, old', nodes)
    requires NodesFor(schema, f, nodes, tidy) && heap.Valid() && heap.live == frame + NodesBlocks(nodes)
    modifies s, heap
    ensures s.Valid() && s.Conserved(ok)
    ensures Gives(ok, v, s.Rest(), DecVal(schema, f, old(s.Rest()), old'), OutOfMemory(heap, stale))
    ensures stale ==> !ok && !tidy
    ensures !stale ==> NodesFor(schema, f, nodes', tidy)
    ensures Kept(heap, frame + NodesBlocks(nodes'), PlainVal(schema, f), stale)
    ensures ok ==> AgreesVal(schema, f, v, nodes')
    decreases s.bytesLeft, 2, 0
  {
    var node;
    OnlyNode(nodes, frame);
    ok, v, node, stale := DecodeSubmessage(s, heap, schema, f, old', nodes[0], frame, tidy);
    nodes' := [node];
    OnlyNode(nodes', frame);
  }

  /** The value of a field that is not repeated, in storage that agrees with `old'`. */
  method DecodeValue(s: IStream, heap: Heap, schema: Schema, f: Field, old': Val, nodes: seq<Node>,
                     ghost frame: multiset<nat>, ghost tidy: bool)
    returns (ok: bool, v: Val, nodes': seq<Node>, stale: bool)
    requires s.Valid() && WfSize(f) && !Allocated(f) && !f.htype.Repeated?
    requires (f.ltype.Submessage? ==> f.sub < |schema| && TypedVal(schema, f, old')) && AgreesVal(schema, f, old', nodes)
    requires NodesFor(schema, f, nodes, tidy) && heap.Valid() && heap.live == frame + NodesBlocks(nodes)
    modifies s, heap
    ensures s.Valid() && s.Conserved(ok)
    ensures Gives(ok, v, s.Rest(), DecVal(schema, f, old(s.Rest()), old'), OutOfMemory(heap, stale))
    ensures stale ==> !ok && !tidy
    ensures !stale ==> NodesFor(schema, f, nodes', tidy)
    ensures Kept(heap, frame + NodesBlocks(nodes'), PlainVal(schema, f), stale)
    ensures ok ==> AgreesVal(schema, f, v, nodes')
    decreases s.bytesLeft, 2, 1
  {
    if f.ltype.Submessage? {
      ok, v, nodes', stale := DecodeStruct(s, heap, schema, f, old', nodes, frame, tidy);
    } else {
      var q;
      nodes', stale := [], false;
      ok, v, q := DecodeScalar(s, heap, f, 0, frame);
    }
  }

  /** One field of an array: its entries so far with those that were read. */
  function DecItems(schema: Schema, f: Field, wireType: nat, s: bytes, items: seq<Val>): Parsed<seq<Val>>
    requires WfSize(f) && f.htype.Repeated? && (f.ltype.Submessage? ==> f.sub < |schema|)
  {
    if wireType == WT_STRING && f.Packable() then DecPackedField(f, s, items)
    else DecEntry(schema, f, s, items)
  }

  function DecEntry(schema: Schema, f: Field, s: bytes, items: seq<Val>): Parsed<seq<Val>>
    requires WfSize(f) && f.htype.Repeated? && (f.ltype.Submessage? ==> f.sub < |schema|)
  {
    if |items| >= Capacity(f) then Fail
    else
      var (v, rest) :- DecVal(schema, f, s, FreshVal(schema, f));
      Ok(items + [v], rest)
  }

  lemma EntryOfValue(schema: Schema, f: Field, s: bytes, items: seq<Val>)
    requires WfSize(f) && f.htype.Repeated? && (f.ltype.Submessage? ==> f.sub < |schema|) && |items| < Capacity(f)
    ensures DecEntry(schema, f, s, items) ==
            match DecVal(schema, f, s, FreshVal(schema, f))
            case Fail => Fail
            case Ok(v, rest) => Ok(items + [v], rest)
  {}

  lemma SlotOfItems(schema: Schema, f: Field, wireType: nat, s: bytes, slot: Slot)
    requires WfSize(f) && f.htype.Repeated? && (f.ltype.Submessage? ==> f.sub < |schema|) && TypedSlot(schema, f, slot)
    ensures DecSlot(schema, f, wireType, s, slot) ==
            match DecItems(schema, f, wireType, s, slot.items)
            case Fail => Fail
            case Ok(items, rest) => Ok(Rep(items), rest)
  {}

  // ------------------------------------------------------------------ static fields

  lemma StaticCell(c: Cell)
    requires c.block == 0 && c.strings == []
    ensures CellBlocks(c) == NodesBlocks(c.nodes)
  {}

  /** The single value of a required or optional field, in the storage of the field. */
  method DecodeInPlace(s: IStream, heap: Heap, schema: Schema, f: Field, old': Val, c: Cell,
                       ghost frame: multiset<nat>, ghost tidy: bool)
    returns (ok: bool, v: Val, c': Cell, stale: bool)
    requires s.Valid() && WfSize(f) && f.atype.Static? && (f.htype.Required? || f.htype.Optional?)
    requires (f.ltype.Submessage? ==> f.sub < |schema|) && TypedVal(schema, f, old') && AgreesVal(schema, f, old', c.nodes)
    requires WalkableField(schema, f, c, tidy) && heap.Valid() && heap.live == frame + CellBlocks(c)
    modifies s, heap
    ensures s.Valid() && s.Conserved(ok)
    ensures Gives(ok, v, s.Rest(), DecVal(schema, f, old(s.Rest()), old'), OutOfMemory(heap, stale))
    ensures stale ==> !ok && !tidy
    ensures !stale ==> WalkableField(schema, f, c', tidy)
    ensures Kept(heap, frame + CellBlocks(c'), PlainVal(schema, f), stale)
    ensures ok ==> AgreesVal(schema, f, v, c'.nodes)
    decreases s.bytesLeft, 3
  {
    var nodes;
    StaticCell(c);
    ok, v, nodes, stale := DecodeValue(s, heap, schema, f, old', c.nodes, frame, tidy);
    c' := c.(nodes := nodes);
    StaticCell(c');
  }

  /** `(*size)++`: the count covers one more entry, if there is one. */
  function Counted(c: Cell): Cell
  {
    if c.spare == [] then c.(count := (c.count + 1) % TWO_32)
    else c.(count := c.count + 1, nodes := c.nodes + [c.spare[0]], spare := c.spare[1..])
  }

  lemma CountedShape(schema: Schema, f: Field, c: Cell, n: Node, tidy: bool)
    requires StaticArray(f) && WalkableField(schema, f, c, tidy) && c.count < f.arraySize
    requires Walkable(schema, n, tidy) && n.desc == f.sub
    ensures c.spare != [] && WalkableField(schema, f, Counted(c).(nodes := c.nodes + [n]), tidy)
  {
    var c' := Counted(c).(nodes := c.nodes + [n]);
    assert VacantNodes(schema, f.sub, c.spare, tidy) && WalkableNodes(schema, f.sub, c.nodes, tidy);
    assert c'.spare == c.spare[1..];
    assert VacantNodes(schema, f.sub, c'.spare, tidy) && WalkableNodes(schema, f.sub, c'.nodes, tidy);
  }

  lemma CountedBlocks(c: Cell, n: Node, frame: multiset<nat>)
    requires c.spare != []
    ensures frame + CellBlocks(Counted(c).(nodes := c.nodes + [n])) == frame + CellBlocks(c) + Blocks(n)
  {
    NodesAppend(c.nodes, n);
  }

  /**
   One more struct in a static array. It is counted before it is read: if its length cannot be read, the count covers
   whatever the memory holds there.
   */
  method DecodeStaticStruct(s: IStream, heap: Heap, schema: Schema, f: Field, items: seq<Val>, c: Cell,
                            ghost frame: multiset<nat>, ghost tidy: bool)
    returns (ok: bool, v: Val, c': Cell, stale: bool)
    requires s.Valid() && WfSize(f) && StaticArray(f) && f.sub < |schema| && c.count < f.arraySize
    requires AgreesItems(schema, f, items, c) && WalkableField(schema, f, c, tidy)
    requires heap.Valid() && heap.live == frame + CellBlocks(c)
    modifies s, heap
    ensures s.Valid() && s.Conserved(ok)
    ensures Gives(ok, v, s.Rest(), DecVal(schema, f, old(s.Rest()), FreshVal(schema, f)), OutOfMemory(heap, stale))
    ensures stale ==> !ok && !tidy
    ensures !stale ==> WalkableField(schema, f, c', tidy)
    ensures Kept(heap, frame + CellBlocks(c'), PlainVal(schema, f), stale)
    ensures ok ==> AgreesItems(schema, f, items + [v], c')
    ensures DecString(old(s.Rest())) == Fail ==>
              c.spare != [] && c' == Counted(c) && stale == !Quiet(schema, c.spare[0], false)
    decreases s.bytesLeft, 3
  {
    assert VacantNodes(schema, f.sub, c.spare, tidy);
    var c1 := Counted(c);
    var node;
    ok, v, node, stale := DecodeSubmessage(s, heap, schema, f, FreshVal(schema, f), c.spare[0], frame + CellBlocks(c), tidy);
    c' := c1.(nodes := c.nodes + [node]);
    CountedBlocks(c, node, frame);
    if !stale {
      CountedShape(schema, f, c, node, tidy);
    }
    if ok {
      AgreesMore(schema, f, items, v, c, c');
    }
  }

  /** One more entry of a static array that has room for it. */
  method DecodeStaticNext(s: IStream, heap: Heap, schema: Schema, f: Field, items: seq<Val>, c: Cell,
                          ghost frame: multiset<nat>, ghost tidy: bool)
    returns (ok: bool, v: Val, c': Cell, stale: bool)
    requires s.Valid() && WfSize(f) && f.atype.Static? && f.htype.Repeated? && (f.ltype.Submessage? ==> f.sub < |schema|)
    requires AgreesItems(schema, f, items, c) && WalkableField(schema, f, c, tidy) && c.count < f.arraySize
    requires heap.Valid() && heap.live == frame + CellBlocks(c)
    modifies s, heap
    ensures s.Valid() && s.Conserved(ok)
    ensures Gives(ok, v, s.Rest(), DecVal(schema, f, old(s.Rest()), FreshVal(schema, f)), OutOfMemory(heap, stale))
    ensures stale ==> !ok && !tidy
    ensures !stale ==> WalkableField(schema, f, c', tidy)
    ensures Kept(heap, frame + CellBlocks(c'), PlainVal(schema, f), stale)
    ensures ok ==> AgreesItems(schema, f, items + [v], c')
    decreases s.bytesLeft, 4
  {
    if f.ltype.Submessage? {
      ok, v, c', stale := DecodeStaticStruct(s, heap, schema, f, items, c, frame, tidy);
    } else {
      ok, v, c' := DecodeStaticScalar(s, heap, schema, f, items, c, frame, tidy);
      stale := false;
    }
  }

  /** One more entry of a static array. */
  method DecodeStaticEntry(s: IStream, heap: Heap, schema: Schema, f: Field, items: seq<Val>, c: Cell,
                           ghost frame: multiset<nat>, ghost tidy: bool)
    returns (ok: bool, items': seq<Val>, c': Cell, stale: bool)
    requires s.Valid() && WfSize(f) && f.atype.Static? && f.htype.Repeated? && (f.ltype.Submessage? ==> f.sub < |schema|)
    requires AgreesItems(schema, f, items, c) && WalkableField(schema, f, c, tidy)
    requires heap.Valid() && heap.live == frame + CellBlocks(c)
    modifies s, heap
    ensures s.Valid() && s.Conserved(ok)
    ensures Gives(ok, items', s.Rest(), DecEntry(schema, f, old(s.Rest()), items), OutOfMemory(heap, stale))
    ensures stale ==> !ok && !tidy
    ensures !stale ==> WalkableField(schema, f, c', tidy)
    ensures Kept(heap, frame + CellBlocks(c'), PlainVal(schema, f), stale)
    ensures ok ==> AgreesItems(schema, f, items', c')
    decreases s.bytesLeft, 5
  {
    if c.count >= f.arraySize {
      CountedFull(schema, f, s.Rest(), items, c, tidy);
      return false, items, Counted(c), false;
    }
    var v;
    EntryOfValue(schema, f, s.Rest(), items);
    ok, v, c', stale := DecodeStaticNext(s, heap, schema, f, items, c, frame, tidy);
    items' := items + [v];
  }

  method DecodeStaticScalar(s: IStream, heap: Heap, schema: Schema, f: Field, items: seq<Val>, c: Cell,
                            ghost frame: multiset<nat>, ghost tidy: bool)
    returns (ok: bool, v: Val, c': Cell)
    requires s.Valid() && WfSize(f) && f.atype.Static? && f.htype.Repeated? && !f.ltype.Submessage? && c.count < f.arraySize
    requires AgreesItems(schema, f, items, c) && WalkableField(schema, f, c, tidy)
    requires heap.Valid() && heap.live == frame + CellBlocks(c)
    modifies s, heap
    ensures s.Valid() && s.Conserved(ok)
    ensures Gives(ok, v, s.Rest(), DecVal(schema, f, old(s.Rest()), VNone), heap.failures > old(heap.failures))
    ensures WalkableField(schema, f, c', tidy) && Kept(heap, frame + CellBlocks(c'), PlainVal(schema, f), false)
    ensures ok ==> AgreesItems(schema, f, items + [v], c')
  {
    var q;
    c' := c.(count := c.count + 1);
    StaticCell(c);
    StaticCell(c');
    ok, v, q := DecodeScalar(s, heap, f, 0, frame);
  }

  lemma CountedFull(schema: Schema, f: Field, s: bytes, items: seq<Val>, c: Cell, tidy: bool)
    requires f.atype.Static? && f.htype.Repeated? && WfSize(f) && (f.ltype.Submessage? ==> f.sub < |schema|)
    requires WalkableField(schema, f, c, tidy) && AgreesItems(schema, f, items, c) && c.count >= f.arraySize
    ensures DecEntry(schema, f, s, items) == Fail
    ensures WalkableField(schema, f, Counted(c), tidy)
    ensures CellBlocks(Counted(c)) == CellBlocks(c)
  {}

  method DecodePackedInPlace(s: IStream, heap: Heap, schema: Schema, f: Field, items: seq<Val>, c: Cell,
                             ghost frame: multiset<nat>, ghost tidy: bool)
    returns (ok: bool, items': seq<Val>, c': Cell)
    requires s.Valid() && WfSize(f) && f.Packable() && f.atype.Static? && f.htype.Repeated?
    requires AgreesItems(schema, f, items, c) && WalkableField(schema, f, c, tidy)
    requires heap.Valid() && heap.live == frame + CellBlocks(c)
    modifies s
    ensures s.Valid() && s.Conserved(ok)
    ensures Gives(ok, items', s.Rest(), DecPackedField(f, old(s.Rest()), items), false)
    ensures WalkableField(schema, f, c', tidy) && heap.live == frame + CellBlocks(c')
    ensures ok ==> AgreesItems(schema, f, items', c')
  {
    ok, items' := DecodePackedStatic(s, f, items);
    c' := c.(count := |items'|);
    StaticCell(c);
    StaticCell(c');
  }

  method DecodeStaticRepeated(s: IStream, heap: Heap, schema: Schema, f: Field, wireType: nat, items: seq<Val>, c: Cell,
                              ghost frame: multiset<nat>, ghost tidy: bool)
    returns (ok: bool, items': seq<Val>, c': Cell, stale: bool)
    requires s.Valid() && WfSize(f) && f.atype.Static? && f.htype.Repeated? && (f.ltype.Submessage? ==> f.sub < |schema|)
    requires AgreesItems(schema, f, items, c) && WalkableField(schema, f, c, tidy)
    requires heap.Valid() && heap.live == frame + CellBlocks(c)
    modifies s, heap
    ensures s.Valid() && s.Conserved(ok)
    ensures Gives(ok, items', s.Rest(), DecItems(schema, f, wireType, old(s.Rest()), items), OutOfMemory(heap, stale))
    ensures stale ==> !ok && !tidy
    ensures !stale ==> WalkableField(schema, f, c', tidy)
    ensures Kept(heap, frame + CellBlocks(c'), PlainVal(schema, f), stale)
    ensures ok ==> AgreesItems(schema, f, items', c')
    decreases s.bytesLeft, 6
  {
    if wireType == WT_STRING && f.Packable() {
      stale := false;
      ok, items', c' := DecodePackedInPlace(s, heap, schema, f, items, c, frame, tidy);
    } else {
      ok, items', c', stale := DecodeStaticEntry(s, heap, schema, f, items, c, frame, tidy);
    }
  }

  /** The storage of the union is cleared before a struct is read into it, whatever it held. */
  method DecodeUnion(s: IStream, heap: Heap, schema: Schema, d: nat, i: nat, c: Cell,
                     ghost frame: multiset<nat>, ghost tidy: bool)
    returns (ok: bool, v: Val, c': Cell)
    requires s.Valid() && d < |schema| && i < |schema[d]| && schema[d][i].htype.Oneof?
    requires UniqueTags(schema[d]) && WfField(schema, d, schema[d][i])
    requires WalkableUnion(schema, schema[d], Leader(schema[d], i), c, tidy)
    requires heap.Valid() && heap.live == frame + CellBlocks(c)
    modifies s, heap
    ensures s.Valid() && s.Conserved(ok)
    ensures Gives(ok, v, s.Rest(), DecVal(schema, schema[d][i], old(s.Rest()), FreshVal(schema, schema[d][i])),
                  heap.failures > old(heap.failures))
    ensures WalkableUnion(schema, schema[d], Leader(schema[d], i), c', tidy)
    ensures Kept(heap, frame + CellBlocks(c'), false, false)
    ensures c'.which == schema[d][i].tag && (ok ==> AgreesVal(schema, schema[d][i], v, c'.nodes))
    ensures Lost(heap, CellBlocks(c), PlainVal(schema, schema[d][i]))
    decreases s.bytesLeft, 4
  {
    heap.Lose(CellBlocks(c), frame);
    ok, v, c' := DecodeMember(s, heap, schema, d, i, frame, tidy);
  }

  /** The member becomes the active one. */
  method DecodeMember(s: IStream, heap: Heap, schema: Schema, d: nat, i: nat, ghost frame: multiset<nat>, ghost tidy: bool)
    returns (ok: bool, v: Val, c': Cell)
    requires s.Valid() && d < |schema| && i < |schema[d]| && schema[d][i].htype.Oneof?
    requires UniqueTags(schema[d]) && WfField(schema, d, schema[d][i]) && heap.Valid() && heap.live == frame
    modifies s, heap
    ensures s.Valid() && s.Conserved(ok)
    ensures Gives(ok, v, s.Rest(), DecVal(schema, schema[d][i], old(s.Rest()), FreshVal(schema, schema[d][i])),
                  heap.failures > old(heap.failures))
    ensures WalkableUnion(schema, schema[d], Leader(schema[d], i), c', tidy)
    ensures Kept(heap, frame + CellBlocks(c'), PlainVal(schema, schema[d][i]), false)
    ensures c'.which == schema[d][i].tag && (ok ==> AgreesVal(schema, schema[d][i], v, c'.nodes))
    decreases s.bytesLeft, 3
  {
    var f := schema[d][i];
    var nodes;
    ghost var stale;
    ok, v, nodes, stale := DecodeValue(s, heap, schema, f, FreshVal(schema, f), FreshNodes(schema, f), frame, true);
    UntidyFor(schema, f, nodes, tidy);
    c' := Cell(f.tag, 0, 0, [], nodes, []);
    StaticCell(c');
    MemberShape(schema, schema[d], i, c', tidy);
  }

  lemma MemberShape(schema: Schema, fields: Desc, i: nat, c: Cell, tidy: bool)
    requires UniqueTags(fields) && i < |fields| && fields[i].htype.Oneof?
    requires c == Cell(fields[i].tag, 0, 0, [], c.nodes, []) && NodesFor(schema, fields[i], c.nodes, tidy)
    ensures WalkableUnion(schema, fields, Leader(fields, i), c, tidy)
  {
    ActiveMember(schema, fields, i, c, tidy);
  }

  // ------------------------------------------------------------------ pointer fields

  lemma ReleasedPointer(schema: Schema, f: Field, c: Cell, tidy: bool)
    requires f.atype.Pointer? && !f.htype.Oneof? && Releasable(schema, f, c, tidy) && c.block == 0
    ensures c.nodes == [] && c.strings == []
  {}

  /** A struct that the field points to is released and not merged with. */
  method DecodePointerSingle(s: IStream, heap: Heap, schema: Schema, f: Field, c: Cell,
                             ghost frame: multiset<nat>, ghost tidy: bool)
    returns (ok: bool, v: Val, c': Cell)
    requires s.Valid() && WfSize(f) && f.atype.Pointer? && (f.htype.Required? || f.htype.Optional?)
    requires (f.ltype.Submessage? ==> f.sub < |schema|)
    requires WalkableField(schema, f, c, tidy) && heap.Valid() && heap.live == frame + CellBlocks(c)
    modifies s, heap
    ensures s.Valid() && s.Conserved(ok)
    ensures Gives(ok, v, s.Rest(), DecVal(schema, f, old(s.Rest()), FreshVal(schema, f)), heap.failures > old(heap.failures))
    ensures WalkableField(schema, f, c', tidy) && Kept(heap, frame + CellBlocks(c'), PlainVal(schema, f), false)
    ensures ok ==> AgreesSlot(schema, f, Ptr(false, v), c')
    decreases s.bytesLeft, 4
  {
    var p := ReleaseOld(heap, schema, f, c, frame, tidy);
    ok, v, c' := DecodeIntoBlock(s, heap, schema, f, p, frame, tidy);
  }

  method ReleaseOld(heap: Heap, schema: Schema, f: Field, c: Cell,
                    ghost frame: multiset<nat>, ghost tidy: bool)
    returns (p: nat)
    requires f.atype.Pointer? && (f.htype.Required? || f.htype.Optional?) && WalkableField(schema, f, c, tidy)
    requires heap.Valid() && heap.live == frame + CellBlocks(c)
    modifies heap`live
    ensures heap.Valid() && heap.live == frame + BlockOf(p) && (f.ltype.Submessage? ==> p == 0)
  {
    if f.ltype.Submessage? && c.block != 0 {
      var c' := ReleaseSingleField(heap, schema, f, c, frame, c, tidy);
      ReleasedPointer(schema, f, c', tidy);
      return c'.block;
    }
    BareBlock(c, frame);
    return c.block;
  }

  lemma BareBlock(c: Cell, frame: multiset<nat>)
    requires c.strings == []
    ensures frame + CellBlocks(c) == frame + BlockOf(c.block) + NodesBlocks(c.nodes)
    ensures c.nodes == [] ==> frame + CellBlocks(c) == frame + BlockOf(c.block)
  {}

  /** The value of a pointer field, in a block that is enlarged or allocated for it. */
  method DecodeIntoBlock(s: IStream, heap: Heap, schema: Schema, f: Field, p: nat,
                         ghost frame: multiset<nat>, ghost tidy: bool)
    returns (ok: bool, v: Val, c: Cell)
    requires s.Valid() && WfSize(f) && f.atype.Pointer? && (f.htype.Required? || f.htype.Optional?)
    requires (f.ltype.Submessage? ==> f.sub < |schema| && p == 0) && heap.Valid() && heap.live == frame + BlockOf(p)
    modifies s, heap
    ensures s.Valid() && s.Conserved(ok)
    ensures Gives(ok, v, s.Rest(), DecVal(schema, f, old(s.Rest()), FreshVal(schema, f)), heap.failures > old(heap.failures))
    ensures WalkableField(schema, f, c, tidy) && Kept(heap, frame + CellBlocks(c), PlainVal(schema, f), false)
    ensures ok ==> AgreesSlot(schema, f, Ptr(false, v), c)
    decreases s.bytesLeft, 3
  {
    if Allocated(f) {
      ok, v, c := DecodeBlockString(s, heap, schema, f, p, frame, tidy);
    } else {
      ok, v, c := DecodeInNewBlock(s, heap, schema, f, p, frame, tidy);
    }
  }

  method DecodeInNewBlock(s: IStream, heap: Heap, schema: Schema, f: Field, p: nat,
                          ghost frame: multiset<nat>, ghost tidy: bool)
    returns (ok: bool, v: Val, c: Cell)
    requires s.Valid() && WfSize(f) && f.atype.Pointer? && !Allocated(f) && (f.htype.Required? || f.htype.Optional?)
    requires (f.ltype.Submessage? ==> f.sub < |schema| && p == 0) && heap.Valid() && heap.live == frame + BlockOf(p)
    modifies s, heap
    ensures s.Valid() && s.Conserved(ok)
    ensures Gives(ok, v, s.Rest(), DecVal(schema, f, old(s.Rest()), FreshVal(schema, f)), heap.failures > old(heap.failures))
    ensures WalkableField(schema, f, c, tidy) && Kept(heap, frame + CellBlocks(c), PlainVal(schema, f), false)
    ensures ok ==> AgreesSlot(schema, f, Ptr(false, v), c)
    decreases s.bytesLeft, 2, 3
  {
    var q;
    ok, q := AllocateEntries(heap, f, 1, p, frame);
    v, c := VNone, Cell(0, 0, q, [], [], []);
    BlockOnly(schema, f, c, frame, tidy);
    if ok {
      ok, v, c := DecodeFresh(s, heap, schema, f, q, frame, tidy);
    }
  }

  lemma BlockOnly(schema: Schema, f: Field, c: Cell, frame: multiset<nat>, tidy: bool)
    requires f.atype.Pointer? && (f.htype.Required? || f.htype.Optional?) && c == Cell(0, 0, c.block, [], [], [])
    ensures (f.ltype.Submessage? ==> c.block == 0) ==> WalkableField(schema, f, c, tidy)
    ensures frame + CellBlocks(c) == frame + BlockOf(c.block)
  {}

  method DecodeBlockString(s: IStream, heap: Heap, schema: Schema, f: Field, p: nat,
                           ghost frame: multiset<nat>, ghost tidy: bool)
    returns (ok: bool, v: Val, c: Cell)
    requires s.Valid() && WfSize(f) && Allocated(f) && (f.htype.Required? || f.htype.Optional?)
    requires heap.Valid() && heap.live == frame + BlockOf(p)
    modifies s, heap
    ensures s.Valid() && s.Conserved(ok)
    ensures Gives(ok, v, s.Rest(), DecVal(schema, f, old(s.Rest()), VNone), heap.failures > old(heap.failures))
    ensures WalkableField(schema, f, c, tidy) && Kept(heap, frame + CellBlocks(c), PlainVal(schema, f), false)
    ensures ok ==> AgreesSlot(schema, f, Ptr(false, v), c)
  {
    var q;
    ok, v, q := DecodeScalar(s, heap, f, p, frame);
    c := Cell(0, 0, q, [], [], []);
    BareBlock(c, frame);
  }

  /** The first value in a block, which is set to zero and initialized if it is a struct. */
  method DecodeFresh(s: IStream, heap: Heap, schema: Schema, f: Field, p: nat, ghost frame: multiset<nat>, ghost tidy: bool)
    returns (ok: bool, v: Val, c: Cell)
    requires s.Valid() && WfSize(f) && f.atype.Pointer? && !Allocated(f) && (f.htype.Required? || f.htype.Optional?)
    requires p != 0 && (f.ltype.Submessage? ==> f.sub < |schema|) && heap.Valid() && heap.live == frame + BlockOf(p)
    modifies s, heap
    ensures s.Valid() && s.Conserved(ok)
    ensures Gives(ok, v, s.Rest(), DecVal(schema, f, old(s.Rest()), FreshVal(schema, f)), heap.failures > old(heap.failures))
    ensures WalkableField(schema, f, c, tidy) && Kept(heap, frame + CellBlocks(c), PlainVal(schema, f), false)
    ensures ok ==> AgreesSlot(schema, f, Ptr(false, v), c)
    decreases s.bytesLeft, 2, 2
  {
    var nodes;
    ghost var stale;
    ok, v, nodes, stale :=
      DecodeValue(s, heap, schema, f, FreshVal(schema, f), FreshNodes(schema, f), frame + BlockOf(p), true);
    UntidyFor(schema, f, nodes, tidy);
    c := Cell(0, 0, p, [], nodes, []);
    BareBlock(c, frame);
  }

  lemma BlockReplaced(c: Cell, q: nat, frame: multiset<nat>)
    ensures frame + CellBlocks(c.(block := q)) == frame + (StringBlocks(c.strings) + NodesBlocks(c.nodes)) + BlockOf(q)
  {}

  /** The block of an array is enlarged by one entry. */
  method GrowArray(heap: Heap, schema: Schema, f: Field, items: seq<Val>, c: Cell,
                   ghost frame: multiset<nat>, ghost tidy: bool)
    returns (ok: bool, c': Cell)
    requires WfSize(f) && f.atype.Pointer? && f.htype.Repeated? && (f.ltype.Submessage? ==> f.sub < |schema|)
    requires WalkableField(schema, f, c, tidy) && AgreesItems(schema, f, items, c) && c.count < SIZE_MAX
    requires heap.Valid() && heap.live == frame + CellBlocks(c)
    modifies heap
    ensures heap.Valid() && heap.live == frame + CellBlocks(c') && heap.lost == old(heap.lost)
    ensures heap.failures == old(heap.failures) + if ok then 0 else 1
    ensures WalkableField(schema, f, c', tidy) && AgreesItems(schema, f, items, c')
    ensures if ok then c'.block != 0 && c' == c.(block := c'.block) else c' == c
    ensures ok ==> Sized(heap, f, c'.block, c.count + 1)
  {
    ghost var others := StringBlocks(c.strings) + NodesBlocks(c.nodes);
    BlockReplaced(c, c.block, frame);
    assert c.(block := c.block) == c;
    var q;
    ok, q := AllocateEntries(heap, f, c.count + 1, c.block, frame + others);
    c' := c;
    if ok {
      BlockReplaced(c, q, frame);
      c' := c.(block := q);
    }
  }

  lemma StructAdded(schema: Schema, f: Field, c: Cell, n: Node, frame: multiset<nat>, tidy: bool)
    requires f.atype.Pointer? && f.htype.Repeated? && f.ltype.Submessage? && c.block != 0
    requires WalkableField(schema, f, c, tidy) && Walkable(schema, n, true) && n.desc == f.sub
    ensures var c' := c.(count := c.count + 1, nodes := c.nodes + [n]);
            WalkableField(schema, f, c', tidy) && frame + CellBlocks(c') == frame + CellBlocks(c) + Blocks(n)
  {
    Untidy(schema, n, tidy);
    NodesAppend(c.nodes, n);
    assert WalkableNodes(schema, f.sub, c.nodes + [n], tidy);
  }

  /** One more struct, when there is room for it, in memory that is set to zero. */
  method DecodeGrownStruct(s: IStream, heap: Heap, schema: Schema, f: Field, items: seq<Val>, c: Cell,
                           ghost frame: multiset<nat>, ghost tidy: bool)
    returns (ok: bool, v: Val, c': Cell)
    requires s.Valid() && WfSize(f) && f.atype.Pointer? && f.htype.Repeated? && f.ltype.Submessage? && f.sub < |schema|
    requires AgreesItems(schema, f, items, c) && WalkableField(schema, f, c, tidy) && c.block != 0
    requires heap.Valid() && heap.live == frame + CellBlocks(c)
    modifies s, heap
    ensures s.Valid() && s.Conserved(ok)
    ensures Gives(ok, v, s.Rest(), DecVal(schema, f, old(s.Rest()), FreshVal(schema, f)), heap.failures > old(heap.failures))
    ensures WalkableField(schema, f, c', tidy) && Kept(heap, frame + CellBlocks(c'), PlainVal(schema, f), false)
    ensures ok ==> AgreesItems(schema, f, items + [v], c')
    decreases s.bytesLeft, 3
  {
    var node := FreshNode(schema, f.sub);
    ghost var stale;
    NothingMore(frame + CellBlocks(c), node);
    ok, v, node, stale := DecodeSubmessage(s, heap, schema, f, FreshVal(schema, f), node, frame + CellBlocks(c), true);
    c' := c.(count := c.count + 1, nodes := c.nodes + [node]);
    StructAdded(schema, f, c, node, frame, tidy);
    if ok {
      AgreesMore(schema, f, items, v, c, c');
    }
  }

  lemma NothingMore(live: multiset<nat>, n: Node)
    requires Blocks(n) == multiset{}
    ensures live + Blocks(n) == live
  {}

  /** One more entry that is not a struct. The string of an entry is allocated for it. */
  method DecodeGrownScalar(s: IStream, heap: Heap, schema: Schema, f: Field, items: seq<Val>, c: Cell,
                           ghost frame: multiset<nat>, ghost tidy: bool)
    returns (ok: bool, v: Val, c': Cell)
    requires s.Valid() && WfSize(f) && f.atype.Pointer? && f.htype.Repeated? && !f.ltype.Submessage?
    requires AgreesItems(schema, f, items, c) && WalkableField(schema, f, c, tidy) && c.block != 0
    requires heap.Valid() && heap.live == frame + CellBlocks(c)
    modifies s, heap
    ensures s.Valid() && s.Conserved(ok)
    ensures Gives(ok, v, s.Rest(), DecVal(schema, f, old(s.Rest()), VNone), heap.failures > old(heap.failures))
    ensures WalkableField(schema, f, c', tidy) && Kept(heap, frame + CellBlocks(c'), PlainVal(schema, f), false)
    ensures ok ==> AgreesItems(schema, f, items + [v], c')
    decreases s.bytesLeft, 3
  {
    var p;
    ok, v, p := DecodeScalar(s, heap, f, 0, frame + CellBlocks(c));
    c' := c.(count := c.count + 1, strings := if OwnsStrings(f) then c.strings + [p] else c.strings);
    if OwnsStrings(f) {
      StringAdded(c, c', p, frame);
    }
    if ok {
      AgreesMore(schema, f, items, v, c, c');
    }
  }

  lemma StringAdded(c: Cell, c': Cell, p: nat, frame: multiset<nat>)
    requires c' == c.(count := c.count + 1, strings := c.strings + [p])
    ensures frame + CellBlocks(c') == frame + CellBlocks(c) + BlockOf(p)
  {
    assert StringBlocks(c.strings + [p]) == StringBlocks(c.strings) + BlockOf(p);
  }

  /** One more entry of an array on the heap, which is counted before it is read. */
  method DecodePointerEntry(s: IStream, heap: Heap, schema: Schema, f: Field, items: seq<Val>, c: Cell,
                            ghost frame: multiset<nat>, ghost tidy: bool)
    returns (ok: bool, v: Val, c': Cell)
    requires s.Valid() && WfSize(f) && f.atype.Pointer? && f.htype.Repeated? && (f.ltype.Submessage? ==> f.sub < |schema|)
    requires AgreesItems(schema, f, items, c) && WalkableField(schema, f, c, tidy) && c.count < SIZE_MAX
    requires heap.Valid() && heap.live == frame + CellBlocks(c)
    modifies s, heap
    ensures s.Valid() && s.Conserved(ok)
    ensures Gives(ok, v, s.Rest(), DecVal(schema, f, old(s.Rest()), FreshVal(schema, f)), heap.failures > old(heap.failures))
    ensures WalkableField(schema, f, c', tidy) && Kept(heap, frame + CellBlocks(c'), PlainVal(schema, f), false)
    ensures ok ==> AgreesItems(schema, f, items + [v], c')
    decreases s.bytesLeft, 4
  {
    v := VNone;
    ok, c' := GrowArray(heap, schema, f, items, c, frame, tidy);
    if ok {
      if f.ltype.Submessage? {
        ok, v, c' := DecodeGrownStruct(s, heap, schema, f, items, c', frame, tidy);
      } else {
        ok, v, c' := DecodeGrownScalar(s, heap, schema, f, items, c', frame, tidy);
      }
    }
  }

  method DecodeGrownEntry(s: IStream, heap: Heap, schema: Schema, f: Field, items: seq<Val>, c: Cell,
                          ghost frame: multiset<nat>, ghost tidy: bool)
    returns (ok: bool, items': seq<Val>, c': Cell)
    requires s.Valid() && WfSize(f) && f.atype.Pointer? && f.htype.Repeated? && (f.ltype.Submessage? ==> f.sub < |schema|)
    requires AgreesItems(schema, f, items, c) && WalkableField(schema, f, c, tidy) && |items| <= SIZE_MAX
    requires heap.Valid() && heap.live == frame + CellBlocks(c)
    modifies s, heap
    ensures s.Valid() && s.Conserved(ok)
    ensures Gives(ok, items', s.Rest(), DecEntry(schema, f, old(s.Rest()), items), heap.failures > old(heap.failures))
    ensures WalkableField(schema, f, c', tidy) && Kept(heap, frame + CellBlocks(c'), PlainVal(schema, f), false)
    ensures ok ==> AgreesItems(schema, f, items', c')
    decreases s.bytesLeft, 5
  {
    ghost var entry := DecEntry(schema, f, s.Rest(), items);
    if c.count == SIZE_MAX {
      assert entry == Fail;
      return false, items, c;
    }
    var v;
    EntryOfValue(schema, f, s.Rest(), items);
    ok, v, c' := DecodePointerEntry(s, heap, schema, f, items, c, frame, tidy);
    items' := items + [v];
  }

  method DecodePackedBlock(s: IStream, heap: Heap, schema: Schema, f: Field, items: seq<Val>, c: Cell,
                           ghost frame: multiset<nat>, ghost tidy: bool)
    returns (ok: bool, items': seq<Val>, c': Cell)
    requires s.Valid() && WfSize(f) && f.Packable() && f.atype.Pointer? && f.htype.Repeated? && |items| <= SIZE_MAX
    requires AgreesItems(schema, f, items, c) && WalkableField(schema, f, c, tidy)
    requires heap.Valid() && heap.live == frame + CellBlocks(c)
    modifies s, heap
    ensures s.Valid() && s.Conserved(ok)
    ensures Gives(ok, items', s.Rest(), DecPackedField(f, old(s.Rest()), items), heap.failures > old(heap.failures))
    ensures WalkableField(schema, f, c', tidy) && Kept(heap, frame + CellBlocks(c'), PlainVal(schema, f), false)
    ensures ok ==> AgreesItems(schema, f, items', c')
  {
    BareBlock(c, frame);
    var q;
    ok, items', q := DecodePackedPointer(s, heap, f, items, c.block, frame);
    c' := Cell(c.which, |items'|, q, [], [], []);
    BareBlock(c', frame);
    PackedShape(schema, f, items', c', tidy);
  }

  lemma PackedShape(schema: Schema, f: Field, items: seq<Val>, c: Cell, tidy: bool)
    requires f.Packable() && f.atype.Pointer? && f.htype.Repeated? && (items != [] ==> c.block != 0)
    requires c == Cell(c.which, |items|, c.block, [], [], [])
    ensures WalkableField(schema, f, c, tidy) && AgreesItems(schema, f, items, c)
  {}

  method DecodePointerRepeated(s: IStream, heap: Heap, schema: Schema, f: Field, wireType: nat, items: seq<Val>, c: Cell,
                               ghost frame: multiset<nat>, ghost tidy: bool)
    returns (ok: bool, items': seq<Val>, c': Cell)
    requires s.Valid() && WfSize(f) && f.atype.Pointer? && f.htype.Repeated? && (f.ltype.Submessage? ==> f.sub < |schema|)
    requires AgreesItems(schema, f, items, c) && WalkableField(schema, f, c, tidy) && |items| <= SIZE_MAX
    requires heap.Valid() && heap.live == frame + CellBlocks(c)
    modifies s, heap
    ensures s.Valid() && s.Conserved(ok)
    ensures Gives(ok, items', s.Rest(), DecItems(schema, f, wireType, old(s.Rest()), items), heap.failures > old(heap.failures))
    ensures WalkableField(schema, f, c', tidy) && Kept(heap, frame + CellBlocks(c'), PlainVal(schema, f), false)
    ensures ok ==> AgreesItems(schema, f, items', c')
    decreases s.bytesLeft, 6
  {
    if wireType == WT_STRING && f.Packable() {
      ok, items', c' := DecodePackedBlock(s, heap, schema, f, items, c, frame, tidy);
    } else {
      ok, items', c' := DecodeGrownEntry(s, heap, schema, f, items, c, frame, tidy);
    }
  }

  // ------------------------------------------------------------------ fields

  /** If a union holds another member than the one to be read, that is released first. */
  method ReleaseUnionField(heap: Heap, schema: Schema, m: Msg, node: Node, iter: FieldIter,
                           ghost frame: multiset<nat>, ghost tidy: bool)
    returns (ok: bool, node': Node)
    requires TypedMsg(schema, m) && Walkable(schema, node, tidy) && Agrees(schema, m, node)
    requires iter.Valid() && iter.fields == schema[node.desc] && iter.pos < |iter.fields|
    requires iter.fields[iter.pos].htype.Oneof? && heap.Valid() && heap.live == frame + Blocks(node)
    modifies iter, heap`live
    ensures ok && iter.Valid() && iter.pos == old(iter.pos)
    ensures Walkable(schema, node', tidy) && node'.desc == node.desc && heap.Valid() && heap.live == frame + Blocks(node')
    ensures AgreesElsewhere(schema, m, node', Leader(iter.fields, iter.pos))
    ensures CellBlocks(node'.cells[Leader(iter.fields, iter.pos)]) == Overwritten(iter.fields, node, iter.pos)
  {
    node' := node;
    var fields := iter.fields;
    var l := Leader(fields, iter.pos);
    var oldTag, newTag := node.cells[l].which, fields[iter.pos].tag;
    ghost var start := iter.pos;
    UnionFacts(schema, m, node, start, tidy);
    if oldTag == 0 || oldTag == newTag {
      return true, node;
    }
    ok := iter.Find(oldTag);
    if !ok {
      return;
    }
    node' := ReleaseHeld(heap, schema, node, iter.pos, l, frame, tidy);
    ElsewhereKept(schema, m, node, l, node'.cells[l]);
    ok := iter.Find(newTag);
    assert fields[start].tag == newTag;
  }

  lemma UnionFacts(schema: Schema, m: Msg, node: Node, i: nat, tidy: bool)
    requires TypedMsg(schema, m) && Walkable(schema, node, tidy) && Agrees(schema, m, node)
    requires i < |node.cells| && schema[node.desc][i].htype.Oneof?
    ensures var fields := schema[node.desc];
            var l := Leader(fields, i);
            && UniqueTags(fields) && AgreesElsewhere(schema, m, node, l)
            && (if node.cells[l].which != 0 then HoldsMember(fields, l, node.cells[l].which)
                else CellBlocks(node.cells[l]) == multiset{})
  {
    AgreesFacts(schema, m, node, i);
    FieldFacts(schema, m, i);
    FieldFacts(schema, m, Leader(schema[node.desc], i));
    var c := node.cells[Leader(schema[node.desc], i)];
    StorageFacts(schema, node, i, tidy);
    if c.which == 0 {
      if c.nodes != [] {
        var j := MemberOf(schema[node.desc], Leader(schema[node.desc], i), c.which);
        FieldFacts(schema, m, j);
        assert false;
      }
      BareCell(c);
    }
  }

  method ReleaseHeld(heap: Heap, schema: Schema, node: Node, i: nat, l: nat,
                     ghost frame: multiset<nat>, ghost tidy: bool)
    returns (node': Node)
    requires Walkable(schema, node, tidy) && i < |node.cells| && l < |node.cells| && schema[node.desc][l].htype.Oneof?
    requires HoldsMember(schema[node.desc], l, node.cells[l].which) && schema[node.desc][i].tag == node.cells[l].which
    requires heap.Valid() && heap.live == frame + Blocks(node)
    modifies heap`live
    ensures Walkable(schema, node', tidy) && heap.Valid() && heap.live == frame + Blocks(node')
    ensures l < |node'.cells| && node' == node.(cells := node.cells[l := node'.cells[l]])
    ensures CellBlocks(node'.cells[l]) == multiset{}
  {
    var f := schema[node.desc][i];
    ReleaseFacts(schema, node, i, tidy);
    assert Leader(schema[node.desc], i) == l by {
      var j := MemberOf(schema[node.desc], l, node.cells[l].which);
    }
    Regroup(frame, Others(node.cells, l), CellBlocks(node.cells[l]));
    var c := ReleaseSingleField(heap, schema, f, node.cells[l], frame + Others(node.cells, l), node.cells[l], tidy);
    node' := node.(cells := node.cells[l := c]);
    ReplaceReleased(schema, node, i, c, tidy);
    Regroup(frame, Others(node.cells, l), CellBlocks(c));
  }

  /** A field that is not repeated and not in a union, by the kind of its storage. */
  method DecodeOwn(s: IStream, heap: Heap, schema: Schema, f: Field, slot: Slot, c: Cell,
                   ghost frame: multiset<nat>, ghost tidy: bool)
    returns (ok: bool, v: Val, c': Cell, stale: bool)
    requires s.Valid() && WfSize(f) && (f.htype.Required? || f.htype.Optional?) && (f.ltype.Submessage? ==> f.sub < |schema|)
    requires TypedSlot(schema, f, slot) && AgreesSlot(schema, f, slot, c)
    requires WalkableField(schema, f, c, tidy) && heap.Valid() && heap.live == frame + CellBlocks(c)
    modifies s, heap
    ensures s.Valid() && s.Conserved(ok)
    ensures Gives(ok, v, s.Rest(), DecVal(schema, f, old(s.Rest()), Target(schema, f, slot)), OutOfMemory(heap, stale))
    ensures stale ==> !ok && !tidy
    ensures !stale ==> WalkableField(schema, f, c', tidy)
    ensures Kept(heap, frame + CellBlocks(c'), PlainVal(schema, f), stale)
    ensures ok ==> AgreesSlot(schema, f, SlotWith(f, v), c')
    decreases s.bytesLeft, 7
  {
    if f.atype.Pointer? {
      ok, v, c' := DecodePointerSingle(s, heap, schema, f, c, frame, tidy);
      stale := false;
    } else {
      ok, v, c', stale := DecodeInPlace(s, heap, schema, f, slot.v, c, frame, tidy);
    }
  }

  /** A field that is not repeated. */
  method DecodeSingle(s: IStream, heap: Heap, schema: Schema, d: nat, i: nat, slot: Slot, c: Cell,
                      ghost frame: multiset<nat>, ghost tidy: bool)
    returns (ok: bool, v: Val, c': Cell, stale: bool)
    requires s.Valid() && d < |schema| && i < |schema[d]| && !schema[d][i].htype.Repeated?
    requires UniqueTags(schema[d]) && WfField(schema, d, schema[d][i]) && TypedSlot(schema, schema[d][i], slot)
    requires WalkableStorage(schema, schema[d], i, c, tidy) && heap.Valid() && heap.live == frame + CellBlocks(c)
    requires !schema[d][i].htype.Oneof? ==> AgreesSlot(schema, schema[d][i], slot, c)
    modifies s, heap
    ensures s.Valid() && s.Conserved(ok)
    ensures var f := schema[d][i];
            Gives(ok, v, s.Rest(), DecVal(schema, f, old(s.Rest()), Target(schema, f, slot)), OutOfMemory(heap, stale))
    ensures stale ==> !ok && !tidy
    ensures !stale ==> WalkableStorage(schema, schema[d], i, c', tidy)
    ensures Kept(heap, frame + CellBlocks(c'), false, stale)
    ensures ok ==> AgreesSlot(schema, schema[d][i], SlotWith(schema[d][i], v), c')
    ensures Lost(heap, Cleared(schema[d][i], c), PlainVal(schema, schema[d][i]))
    decreases s.bytesLeft, 8
  {
    if schema[d][i].htype.Oneof? {
      ok, v, c' := DecodeUnion(s, heap, schema, d, i, c, frame, tidy);
      stale := false;
    } else {
      ok, v, c', stale := DecodeOwn(s, heap, schema, schema[d][i], slot, c, frame, tidy);
    }
  }

  method DecodeRepeated(s: IStream, heap: Heap, schema: Schema, f: Field, wireType: nat, items: seq<Val>, c: Cell,
                        ghost frame: multiset<nat>, ghost tidy: bool)
    returns (ok: bool, items': seq<Val>, c': Cell, stale: bool)
    requires s.Valid() && WfSize(f) && f.htype.Repeated? && (f.ltype.Submessage? ==> f.sub < |schema|) && |items| <= SIZE_MAX
    requires AgreesItems(schema, f, items, c) && WalkableField(schema, f, c, tidy)
    requires heap.Valid() && heap.live == frame + CellBlocks(c)
    modifies s, heap
    ensures s.Valid() && s.Conserved(ok)
    ensures Gives(ok, items', s.Rest(), DecItems(schema, f, wireType, old(s.Rest()), items), OutOfMemory(heap, stale))
    ensures stale ==> !ok && !tidy
    ensures !stale ==> WalkableField(schema, f, c', tidy)
    ensures Kept(heap, frame + CellBlocks(c'), PlainVal(schema, f), stale)
    ensures ok ==> AgreesItems(schema, f, items', c')
    decreases s.bytesLeft, 7
  {
    stale := false;
    if f.atype.Static? {
      ok, items', c', stale := DecodeStaticRepeated(s, heap, schema, f, wireType, items, c, frame, tidy);
    } else {
      ok, items', c' := DecodePointerRepeated(s, heap, schema, f, wireType, items, c, frame, tidy);
    }
  }

  method DecodeStorage(s: IStream, heap: Heap, schema: Schema, d: nat, i: nat, wireType: nat, slot: Slot, c: Cell,
                       ghost frame: multiset<nat>, ghost tidy: bool)
    returns (ok: bool, slot': Slot, c': Cell, stale: bool)
    requires s.Valid() && d < |schema| && i < |schema[d]|
    requires UniqueTags(schema[d]) && WfField(schema, d, schema[d][i]) && TypedSlot(schema, schema[d][i], slot)
    requires WalkableStorage(schema, schema[d], i, c, tidy) && heap.Valid() && heap.live == frame + CellBlocks(c)
    requires !schema[d][i].htype.Oneof? ==> AgreesSlot(schema, schema[d][i], slot, c)
    modifies s, heap
    ensures s.Valid() && s.Conserved(ok)
    ensures Gives(ok, slot', s.Rest(), DecSlot(schema, schema[d][i], wireType, old(s.Rest()), slot),
                  OutOfMemory(heap, stale))
    ensures stale ==> !ok && !tidy
    ensures !stale ==> WalkableStorage(schema, schema[d], i, c', tidy)
    ensures Kept(heap, frame + CellBlocks(c'), false, stale)
    ensures ok ==> AgreesSlot(schema, schema[d][i], slot', c')
    ensures Lost(heap, Cleared(schema[d][i], c), PlainVal(schema, schema[d][i]))
    decreases s.bytesLeft, 9
  {
    if schema[d][i].htype.Repeated? {
      var items;
      SlotOfItems(schema, schema[d][i], wireType, s.Rest(), slot);
      ok, items, c', stale := DecodeRepeated(s, heap, schema, schema[d][i], wireType, slot.items, c, frame, tidy);
      slot' := Rep(items);
    } else {
      var v;
      SlotOfValue(schema, schema[d][i], wireType, s.Rest(), slot);
      ok, v, c', stale := DecodeSingle(s, heap, schema, d, i, slot, c, frame, tidy);
      slot' := SlotWith(schema[d][i], v);
    }
  }

  /** The struct with the storage of field i replaced. */
  function Store(fields: Desc, node: Node, i: nat, c: Cell): (node': Node)
    requires i < |fields| == |node.cells|
  {
    node.(cells := node.cells[Leader(fields, i) := c])
  }

  lemma StoreFacts(schema: Schema, node: Node, i: nat, c: Cell, tidy: bool)
    requires Walkable(schema, node, tidy) && i < |node.cells|
    ensures var node' := Store(schema[node.desc], node, i, c);
            && Blocks(node') == Others(node.cells, Leader(schema[node.desc], i)) + CellBlocks(c)
            && (WalkableStorage(schema, schema[node.desc], i, c, tidy) ==> Walkable(schema, node', tidy))
  {
    CellsUpdate(node.cells, Leader(schema[node.desc], i), c);
    if WalkableStorage(schema, schema[node.desc], i, c, tidy) {
      StorageReplaced(schema, node, i, c, tidy);
    }
  }

  /** The result of reading field i: both halves of the struct have it. */
  ghost predicate FieldRead(schema: Schema, m: Msg, i: nat, wireType: nat, s: bytes,
                            ok: bool, m': Msg, rest: bytes, node': Node, outOfMemory: bool)
    requires TypedMsg(schema, m) && i < |m.slots|
  {
    FieldFacts(schema, m, i);
    var f, l := schema[m.desc][i], Leader(schema[m.desc], i);
    var r := DecSlot(schema, f, wireType, s, m.slots[l]);
    if ok then r.Ok? && m' == Update(schema, m, i, r.value) && rest == r.rest && Agrees(schema, m', node')
    else r == Fail || outOfMemory
  }

  method DecodeAt(s: IStream, heap: Heap, schema: Schema, m: Msg, node: Node, i: nat, wireType: nat,
                  ghost frame: multiset<nat>, ghost tidy: bool)
    returns (ok: bool, m': Msg, node': Node, stale: bool)
    requires s.Valid() && TypedMsg(schema, m) && Walkable(schema, node, tidy) && node.desc == m.desc && i < |m.slots|
    requires AgreesElsewhere(schema, m, node, Leader(schema[m.desc], i))
    requires !schema[m.desc][i].htype.Oneof? ==> Agrees(schema, m, node)
    requires heap.Valid() && heap.live == frame + Blocks(node)
    modifies s, heap
    ensures s.Valid() && s.Conserved(ok)
    ensures FieldRead(schema, m, i, wireType, old(s.Rest()), ok, m', s.Rest(), node', OutOfMemory(heap, stale))
    ensures stale ==> !ok && !tidy
    ensures !stale ==> Walkable(schema, node', tidy) && node'.desc == m.desc
    ensures Kept(heap, frame + Blocks(node'), false, stale)
    ensures var f, l := schema[m.desc][i], Leader(schema[m.desc], i);
            Lost(heap, Cleared(f, node.cells[l]), PlainVal(schema, f))
    decreases s.bytesLeft, 10
  {
    var l := Leader(schema[m.desc], i);
    ghost var others := Others(node.cells, l);
    FieldFacts(schema, m, i);
    if !schema[m.desc][i].htype.Oneof? {
      AgreesFacts(schema, m, node, i);
    }
    StorageFacts(schema, node, i, tidy);
    CellsSplit(node.cells, l);
    Regroup(frame, others, CellBlocks(node.cells[l]));
    var slot, c;
    ok, slot, c, stale := DecodeStorage(s, heap, schema, m.desc, i, wireType, m.slots[l], node.cells[l], frame + others, tidy);
    node' := Store(schema[m.desc], node, i, c);
    StoreFacts(schema, node, i, c, tidy);
    Regroup(frame, others, CellBlocks(c));
    m' := m;
    if ok {
      m' := Update(schema, m, i, slot);
      AgreesReplaced(schema, m, node, i, slot, c);
    }
  }

  /** The field at the iterator, which is back at the field afterwards. */
  method DecodeField(s: IStream, heap: Heap, schema: Schema, m: Msg, node: Node, iter: FieldIter, wireType: nat,
                     ghost frame: multiset<nat>, ghost tidy: bool)
    returns (ok: bool, m': Msg, node': Node, stale: bool)
    requires s.Valid() && TypedMsg(schema, m) && Walkable(schema, node, tidy) && Agrees(schema, m, node)
    requires iter.Valid() && iter.fields == schema[m.desc] && iter.pos < |iter.fields|
    requires heap.Valid() && heap.live == frame + Blocks(node)
    modifies s, heap, iter
    ensures s.Valid() && s.Conserved(ok) && iter.Valid() && iter.pos == old(iter.pos)
    ensures FieldRead(schema, m, iter.pos, wireType, old(s.Rest()), ok, m', s.Rest(), node', OutOfMemory(heap, stale))
    ensures stale ==> !ok && !tidy
    ensures !stale ==> Walkable(schema, node', tidy) && node'.desc == m.desc
    ensures Kept(heap, frame + Blocks(node'), false, stale)
    ensures Lost(heap, Overwritten(iter.fields, node, iter.pos), PlainVal(schema, iter.fields[iter.pos]))
    decreases s.bytesLeft, 11
  {
    m', node', stale := m, node, false;
    AgreesFacts(schema, m, node, iter.pos);
    if iter.fields[iter.pos].htype.Oneof? {
      ok, node' := ReleaseUnionField(heap, schema, m, node, iter, frame, tidy);
      if !ok {
        return;
      }
    }
    ok, m', node', stale := DecodeAt(s, heap, schema, m, node', iter.pos, wireType, frame, tidy);
  }

  // ------------------------------------------------------------------ messages

  /** The bitmap of a message that has fields, and the numbers of the required fields that were seen. */
  ghost predicate Tracks(fields: Desc, words: array<nat>, seen: set<nat>)
    reads words
  {
    && words.Length == 2
    && (fields != [] ==> Marks(words[..], seen) && forall k :: k in seen ==> k < CountRequired(fields, |fields|))
  }

  /** The end marker of a message without fields has the type code of a required field. */
  method MarkSeen(iter: FieldIter, words: array<nat>, ghost seen: set<nat>) returns (ghost seen': set<nat>)
    requires iter.Valid() && Tracks(iter.fields, words, seen)
    modifies words
    ensures Tracks(iter.fields, words, seen')
    ensures seen' == if iter.fields == [] then seen else See(iter.fields, seen, iter.pos)
  {
    seen' := seen;
    if iter.fields == [] {
      words[0] := Or(words[0], 1);
    } else if iter.fields[iter.pos].htype.Required? && iter.requiredIndex < MAX_REQUIRED_FIELDS {
      CountRequiredMonotone(iter.fields, iter.pos, |iter.fields|);
      Mark(words, iter.requiredIndex, seen);
      seen' := seen + {iter.requiredIndex};
    }
  }

  /** A field behind its tag: it is passed over, or read if the message has it. */
  method DecodeTagged(s: IStream, heap: Heap, schema: Schema, m: Msg, node: Node, iter: FieldIter, words: array<nat>,
                      number: nat, wireType: nat, ghost seen: set<nat>, ghost frame: multiset<nat>, ghost tidy: bool)
    returns (ok: bool, m': Msg, node': Node, ghost seen': set<nat>, stale: bool)
    requires s.Valid() && TypedMsg(schema, m) && Walkable(schema, node, tidy) && Agrees(schema, m, node)
    requires iter.Valid() && iter.fields == schema[m.desc] && Tracks(iter.fields, words, seen)
    requires heap.Valid() && heap.live == frame + Blocks(node)
    modifies s, heap, iter, words
    ensures s.Valid() && s.Conserved(ok) && iter.Valid() && Tracks(iter.fields, words, seen')
    ensures TypedMsg(schema, m') && m'.desc == m.desc
    ensures TagOutcome(schema, number, wireType, old(s.Rest()), m, seen, ok, s.Rest(), m', seen',
                       OutOfMemory(heap, stale))
    ensures stale ==> !ok && !tidy
    ensures !stale ==> Walkable(schema, node', tidy) && node'.desc == m.desc
    ensures Kept(heap, frame + Blocks(node'), PlainBelow(schema, m.desc), stale)
    ensures ok ==> Agrees(schema, m', node')
    decreases s.bytesLeft, 13
  {
    m', node', seen', stale := m, node, seen, false;
    assert WfDesc(schema, m.desc);
    var found := iter.Find(number);
    if !found {
      ok := SkipField(s, wireType);
    } else if iter.pos == |iter.fields| {
      var ignored;
      seen' := MarkSeen(iter, words, seen);
      ok, ignored := DecodeBool(s);
    } else {
      FindUnique(iter.fields, iter.pos);
      ok, m', node', seen', stale := DecodeKnown(s, heap, schema, m, node, iter, words, wireType, seen, frame, tidy);
    }
  }

  /** The field at the iterator, which is marked as seen. */
  method DecodeKnown(s: IStream, heap: Heap, schema: Schema, m: Msg, node: Node, iter: FieldIter, words: array<nat>,
                     wireType: nat, ghost seen: set<nat>, ghost frame: multiset<nat>, ghost tidy: bool)
    returns (ok: bool, m': Msg, node': Node, ghost seen': set<nat>, stale: bool)
    requires s.Valid() && TypedMsg(schema, m) && Walkable(schema, node, tidy) && Agrees(schema, m, node)
    requires iter.Valid() && iter.fields == schema[m.desc] && iter.pos < |iter.fields| && Tracks(iter.fields, words, seen)
    requires heap.Valid() && heap.live == frame + Blocks(node)
    modifies s, heap, iter, words
    ensures s.Valid() && s.Conserved(ok) && iter.Valid() && iter.pos == old(iter.pos) && Tracks(iter.fields, words, seen')
    ensures seen' == See(iter.fields, seen, iter.pos) && TypedMsg(schema, m') && m'.desc == m.desc
    ensures FieldRead(schema, m, iter.pos, wireType, old(s.Rest()), ok, m', s.Rest(), node', OutOfMemory(heap, stale))
    ensures stale ==> !ok && !tidy
    ensures !stale ==> Walkable(schema, node', tidy) && node'.desc == m.desc
    ensures Kept(heap, frame + Blocks(node'), PlainBelow(schema, m.desc), stale)
    decreases s.bytesLeft, 12
  {
    FieldFacts(schema, m, iter.pos);
    if PlainBelow(schema, m.desc) {
      NothingOverwritten(schema, node, iter.pos, tidy);
    }
    seen' := MarkSeen(iter, words, seen);
    ok, m', node', stale := DecodeField(s, heap, schema, m, node, iter, wireType, frame, tidy);
    if ok {
      UpdatedFacts(schema, m, iter.pos, wireType, old(s.Rest()));
    } else {
      m' := m;
    }
  }

  lemma UpdatedFacts(schema: Schema, m: Msg, i: nat, wireType: nat, s: bytes)
    requires TypedMsg(schema, m) && i < |m.slots|
    requires TypedField(schema, schema[m.desc], m.slots, i) && WfField(schema, m.desc, schema[m.desc][i])
    ensures var f := schema[m.desc][i];
            var r := DecSlot(schema, f, wireType, s, m.slots[Leader(schema[m.desc], i)]);
            r.Ok? ==> TypedMsg(schema, Update(schema, m, i, r.value))
  {
    var f := schema[m.desc][i];
    var r := DecSlot(schema, f, wireType, s, m.slots[Leader(schema[m.desc], i)]);
    if r.Ok? {
      UpdateTyped(schema, m, i, r.value);
    }
  }

  /** What a step of the field loop makes of a tag and of the bytes behind it. */
  ghost predicate TagOutcome(schema: Schema, number: nat, wireType: nat, s: bytes, m: Msg, seen: set<nat>,
                             ok: bool, rest: bytes, m': Msg, seen': set<nat>, outOfMemory: bool)
    requires TypedMsg(schema, m)
  {
    var fields := schema[m.desc];
    var i := Find(fields, number);
    if i == |fields| then
      if ok then SkipUnknown(fields, number, wireType, s) == Ok((), rest) && m' == m && seen' == seen
      else SkipUnknown(fields, number, wireType, s) == Fail
    else
      FieldFacts(schema, m, i);
      var r := DecSlot(schema, fields[i], wireType, s, m.slots[Leader(fields, i)]);
      if ok then r.Ok? && rest == r.rest && m' == Update(schema, m, i, r.value) && seen' == See(fields, seen, i)
      else r == Fail || outOfMemory
  }

  lemma RunStep(schema: Schema, s: bytes, m: Msg, seen: set<nat>,
                ok: bool, rest: bytes, m': Msg, seen': set<nat>, outOfMemory: bool)
    requires TypedMsg(schema, m) && TypedMsg(schema, m') && s != []
    requires DecVarint32(s).Ok? && DecVarint32(s).value != 0
    requires var (tag, body) := DecVarint32(s).Extract();
             TagOutcome(schema, tag / 8, tag % 8, body, m, seen, ok, rest, m', seen', outOfMemory)
    ensures var run := DecRun(schema, s, m, seen);
            if ok then run == DecRun(schema, rest, m', seen') else run == Failed || outOfMemory
  {}

  /** The run ends at a tag that cannot be read, and at a zero tag. */
  lemma RunEnds(schema: Schema, s: bytes, m: Msg, seen: set<nat>)
    requires TypedMsg(schema, m) && s != []
    ensures DecVarint32(s) == Fail ==> DecRun(schema, s, m, seen) == Failed
    ensures var r := DecVarint32(s); r.Ok? && r.value == 0 ==> DecRun(schema, s, m, seen) == Done(m, seen, r.rest, true)
  {}

  /** One turn of the field loop. */
  method DecodeNext(s: IStream, heap: Heap, schema: Schema, m: Msg, node: Node, iter: FieldIter, words: array<nat>,
                    ghost seen: set<nat>, ghost frame: multiset<nat>, ghost tidy: bool)
    returns (ok: bool, more: bool, m': Msg, node': Node, ghost seen': set<nat>, stale: bool)
    requires s.Valid() && s.bytesLeft > 0 && TypedMsg(schema, m) && Walkable(schema, node, tidy) && Agrees(schema, m, node)
    requires iter.Valid() && iter.fields == schema[m.desc] && Tracks(iter.fields, words, seen)
    requires heap.Valid() && heap.live == frame + Blocks(node)
    modifies s, heap, iter, words
    ensures s.Valid() && s.Conserved(ok) && iter.Valid() && Tracks(iter.fields, words, seen')
    ensures TypedMsg(schema, m') && m'.desc == m.desc
    ensures var r := DecRun(schema, old(s.Rest()), m, seen);
            if !ok then r == Failed || OutOfMemory(heap, stale)
            else if more then r == DecRun(schema, s.Rest(), m', seen') && s.bytesLeft < old(s.bytesLeft)
            else r == Done(m', seen', s.Rest(), true)
    ensures stale ==> !ok && !tidy
    ensures !stale ==> Walkable(schema, node', tidy) && node'.desc == m.desc
    ensures Kept(heap, frame + Blocks(node'), PlainBelow(schema, m.desc), stale)
    ensures ok ==> Agrees(schema, m', node')
    decreases s.bytesLeft, 14
  {
    m', node', seen', more, stale := m, node, seen, false, false;
    ghost var s0 := s.Rest();
    var wireType, number, eof;
    ok, wireType, number, eof := DecodeTag(s);
    if !ok {
      RunEnds(schema, s0, m, seen);
      ok := eof;
      return;
    }
    more := true;
    ok, m', node', seen', stale := DecodeTagged(s, heap, schema, m, node, iter, words, number, wireType, seen, frame, tidy);
    RunStep(schema, s0, m, seen, ok, s.Rest(), m', seen', OutOfMemory(heap, stale));
  }

  /** The number of required fields is found by walking to the end of the descriptor. */
  method CountFields(iter: FieldIter) returns (count: nat)
    requires iter.Valid()
    modifies iter
    ensures iter.Valid() && count == CountRequired(iter.fields, |iter.fields|)
  {
    var lastRequired := true;
    count := 0;
    var more := true;
    ghost var last := iter.pos;
    while more
      invariant iter.Valid()
      invariant more ==> iter.pos < |iter.fields| || iter.fields == []
      invariant !more ==> iter.pos == 0 && (iter.fields != [] ==> last == |iter.fields| - 1)
      invariant !more && iter.fields != [] ==> count == CountRequired(iter.fields, last)
      invariant !more && iter.fields != [] ==> lastRequired == iter.fields[last].htype.Required?
      invariant !more && iter.fields == [] ==> count == 0
      decreases more, |iter.fields| - iter.pos
    {
      last := iter.pos;
      count := iter.requiredIndex;
      lastRequired := iter.pos == |iter.fields| || iter.fields[iter.pos].htype.Required?;
      more := iter.Next();
    }
    if lastRequired && iter.TagAt(iter.pos) != 0 {
      count := count + 1;
    }
  }

  method RequiredSeen(iter: FieldIter, words: array<nat>, ghost seen: set<nat>) returns (ok: bool)
    requires iter.Valid() && Tracks(iter.fields, words, seen)
    modifies iter
    ensures ok <==> AllSeen(iter.fields, seen)
  {
    var count := CountFields(iter);
    if count > MAX_REQUIRED_FIELDS {
      count := MAX_REQUIRED_FIELDS;
    }
    ok := true;
    if count > 0 {
      ok := Complete(words, count, seen);
    }
  }

  /** The field loop, which ends with the stream or at a tag of zero. */
  method DecodeLoop(s: IStream, heap: Heap, schema: Schema, m0: Msg, node: Node, iter: FieldIter, words: array<nat>,
                    ghost frame: multiset<nat>, ghost tidy: bool)
    returns (ok: bool, m: Msg, node': Node, ghost seen: set<nat>, ghost stopped: bool, stale: bool)
    requires s.Valid() && TypedMsg(schema, m0) && Walkable(schema, node, tidy) && Agrees(schema, m0, node)
    requires iter.Valid() && iter.fields == schema[m0.desc] && Tracks(iter.fields, words, {})
    requires heap.Valid() && heap.live == frame + Blocks(node)
    modifies s, heap, iter, words
    ensures s.Valid() && s.Conserved(ok) && iter.Valid() && Tracks(iter.fields, words, seen)
    ensures var run := DecRun(schema, old(s.Rest()), m0, {});
            if ok then run == Done(m, seen, s.Rest(), stopped) else run == Failed || OutOfMemory(heap, stale)
    ensures stale ==> !ok && !tidy
    ensures !stale ==> Walkable(schema, node', tidy) && node'.desc == m0.desc
    ensures Kept(heap, frame + Blocks(node'), PlainBelow(schema, m0.desc), stale)
    ensures ok ==> Agrees(schema, m, node')
    decreases s.bytesLeft, 15
  {
    m, node', seen, stopped, stale := m0, node, {}, false, false;
    ghost var run := DecRun(schema, s.Rest(), m0, {});
    var more := true;
    while more && s.bytesLeft > 0
      invariant s.Valid() && s.Conserved(true)
      invariant iter.Valid() && Tracks(iter.fields, words, seen)
      invariant TypedMsg(schema, m) && m.desc == m0.desc
      invariant !stale && Walkable(schema, node', tidy) && Agrees(schema, m, node')
      invariant Kept(heap, frame + Blocks(node'), PlainBelow(schema, m0.desc), stale)
      invariant if more then run == DecRun(schema, s.Rest(), m, seen) else run == Done(m, seen, s.Rest(), true)
      decreases more, s.bytesLeft
    {
      ok, more, m, node', seen, stale := DecodeNext(s, heap, schema, m, node', iter, words, seen, frame, tidy);
      if !ok {
        return;
      }
    }
    ok, stopped := true, !more;
  }

  /** `pb_decode_noinit` */
  method DecodeNoInit(s: IStream, heap: Heap, schema: Schema, m0: Msg, node: Node,
                      ghost frame: multiset<nat>, ghost tidy: bool)
    returns (ok: bool, m: Msg, node': Node, stale: bool)
    requires s.Valid() && TypedMsg(schema, m0) && Walkable(schema, node, tidy) && Agrees(schema, m0, node)
    requires heap.Valid() && heap.live == frame + Blocks(node)
    modifies s, heap
    ensures s.Valid() && s.Conserved(ok)
    ensures Gives(ok, m, s.Rest(), DecMsg(schema, old(s.Rest()), m0), OutOfMemory(heap, stale))
    ensures stale ==> !ok && !tidy
    ensures !stale ==> Walkable(schema, node', tidy) && node'.desc == m0.desc
    ensures Kept(heap, frame + Blocks(node'), PlainBelow(schema, m0.desc), stale)
    ensures ok ==> Agrees(schema, m, node')
    decreases s.bytesLeft, 16
  {
    assert WfDesc(schema, m0.desc);
    var iter := new FieldIter(schema[m0.desc]);
    var words := new nat[2] [0, 0];
    NoMarks();
    assert words[..] == [0, 0];
    ghost var seen, stopped;
    ok, m, node', seen, stopped, stale := DecodeLoop(s, heap, schema, m0, node, iter, words, frame, tidy);
    if ok {
      ok := RequiredSeen(iter, words, seen);
    }
  }

  // ------------------------------------------------------------------ entry points

  /**
   `pb_decode`, into any memory. After a success the two halves of the struct agree. After a failure no block of the
   struct is allocated any more and its pointers are NULL, unless the call is `stale`: then release has a struct with
   stale pointers to walk over, and what it does is not defined. That takes memory with pointers in the entries of
   static arrays.
   */
  method DecodeMessage(s: IStream, heap: Heap, schema: Schema, storage: Node, ghost frame: multiset<nat>)
    returns (ok: bool, m: Msg, node: Node, stale: bool)
    requires s.Valid() && LaidOut(schema, storage) && heap.Valid() && heap.live == frame
    modifies s, heap
    ensures s.Valid() && s.Conserved(ok)
    ensures Gives(ok, m, s.Rest(), Decode(schema, storage.desc, old(s.Rest())), OutOfMemory(heap, stale))
    ensures stale ==> !ok && !Clean(schema, storage)
    ensures !stale ==> Walkable(schema, node, Clean(schema, storage)) && node.desc == storage.desc
    ensures Kept(heap, frame + Blocks(node), PlainBelow(schema, storage.desc), stale)
    ensures if ok then Agrees(schema, m, node) else stale || Blocks(node) == multiset{}
    decreases s.bytesLeft, 17
  {
    ghost var tidy := Clean(schema, storage);
    m, node := SetToDefaults(schema, storage);
    DefaultsTyped(schema, storage.desc);
    InitializedFacts(schema, storage, tidy);
    ok, m, node, stale := DecodeNoInit(s, heap, schema, m, node, frame, tidy);
    if !ok && !stale {
      node := Release(heap, schema, node, frame, tidy);
    }
  }

  /** If the length cannot be read, the struct is not touched. */
  method DecodeDelimited(s: IStream, heap: Heap, schema: Schema, m0: Msg, storage: Node, ghost frame: multiset<nat>)
    returns (ok: bool, m: Msg, node: Node, stale: bool)
    requires s.Valid() && LaidOut(schema, storage) && heap.Valid() && heap.live == frame
    modifies s, heap
    ensures s.Valid() && s.Conserved(ok)
    ensures Gives(ok, m, s.Rest(), DecDelimited(schema, storage.desc, old(s.Rest())), OutOfMemory(heap, stale))
    ensures DecString(old(s.Rest())) == Fail ==>
              !ok && !stale && m == m0 && node == storage && heap.live == frame && heap.lost == old(heap.lost)
    ensures stale ==> !ok && !Clean(schema, storage)
    ensures DecString(old(s.Rest())).Ok? ==>
              && (!stale ==> Walkable(schema, node, Clean(schema, storage)) && node.desc == storage.desc)
              && Kept(heap, frame + Blocks(node), PlainBelow(schema, storage.desc), stale)
              && if ok then Agrees(schema, m, node) else stale || Blocks(node) == multiset{}
  {
    var sub, status;
    ok, sub := MakeSubstream(s);
    if !ok {
      return false, m0, storage, false;
    }
    status, m, node, stale := DecodeMessage(sub, heap, schema, storage, frame);
    ok := CloseSubstream(s, sub);
    ok := ok && status;
  }

  /** A message that ends in a zero byte: the field loop stops there by itself. */
  method DecodeNullTerminated(s: IStream, heap: Heap, schema: Schema, storage: Node, ghost frame: multiset<nat>)
    returns (ok: bool, m: Msg, node: Node, stale: bool)
    requires s.Valid() && LaidOut(schema, storage) && heap.Valid() && heap.live == frame
    modifies s, heap
    ensures s.Valid() && s.Conserved(ok)
    ensures Gives(ok, m, s.Rest(), Decode(schema, storage.desc, old(s.Rest())), OutOfMemory(heap, stale))
    ensures stale ==> !ok && !Clean(schema, storage)
    ensures !stale ==> Walkable(schema, node, Clean(schema, storage)) && node.desc == storage.desc
    ensures Kept(heap, frame + Blocks(node), PlainBelow(schema, storage.desc), stale)
    ensures if ok then Agrees(schema, m, node) else stale || Blocks(node) == multiset{}
  {
    ok, m, node, stale := DecodeMessage(s, heap, schema, storage, frame);
  }
}
