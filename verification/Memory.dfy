/**
 The heap, and the pointers of a struct. A struct is held in two parts: its data, a `Msg`, and its pointers, a
 `Node`, with the counts and which_ fields that tell which pointers are in use. Blocks can only be freed while they
 are live.
 */
module Memory {
  import opened Descriptors

  // ------------------------------------------------------------------ the pointers of a struct

  /**
   The storage of one field: the which_ field of a union or the count of an array, the field's own pointer (0 is
   NULL), the pointers of an array of strings, and the structs in it. Of a static array, `nodes` are the entries that
   the count covers and `spare` are the others, whatever is in them.
   */
  datatype Cell = Cell(which: nat, count: nat, block: nat, strings: seq<nat>, nodes: seq<Node>, spare: seq<Node>)

  datatype Node = Node(desc: nat, cells: seq<Cell>)

  const EMPTY: Cell := Cell(0, 0, 0, [], [], [])

  function Sum(list: seq<multiset<nat>>): multiset<nat>
  {
    if list == [] then multiset{} else Sum(list[..|list| - 1]) + list[|list| - 1]
  }

  lemma {:induction false} SumUpdate(list: seq<multiset<nat>>, i: nat, m: multiset<nat>)
    requires i < |list|
    ensures Sum(list[i := m]) == Sum(list[i := multiset{}]) + m
  {
    var n := |list| - 1;
    var a, b := list[i := m], list[i := multiset{}];
    if i < n {
      SumUpdate(list[..n], i, m);
      assert a[..n] == list[..n][i := m] && b[..n] == list[..n][i := multiset{}];
    } else {
      assert a[..n] == b[..n];
    }
  }

  lemma {:induction false} SumEmpty(list: seq<multiset<nat>>)
    requires forall i :: 0 <= i < |list| ==> list[i] == multiset{}
    ensures Sum(list) == multiset{}
  {
    if list != [] {
      SumEmpty(list[..|list| - 1]);
    }
  }

  lemma {:induction false} SumContains(list: seq<multiset<nat>>, i: nat)
    requires i < |list|
    ensures list[i] <= Sum(list)
  {
    if i < |list| - 1 {
      SumContains(list[..|list| - 1], i);
    }
  }

  function BlockOf(p: nat): multiset<nat>
  {
    if p == 0 then multiset{} else multiset{p}
  }

  function StringBlocks(strings: seq<nat>): multiset<nat>
  {
    multiset(strings)[0 := 0]
  }

  function CellBlocks(c: Cell): multiset<nat>
    decreases c, 0
  {
    BlockOf(c.block) + StringBlocks(c.strings) + NodesBlocks(c.nodes)
  }

  function NodeList(nodes: seq<Node>): (list: seq<multiset<nat>>)
    ensures |list| == |nodes|
    decreases nodes, 1
  {
    seq(|nodes|, k requires 0 <= k < |nodes| => Blocks(nodes[k]))
  }

  function NodesBlocks(nodes: seq<Node>): multiset<nat>
    decreases nodes, 2
  {
    Sum(NodeList(nodes))
  }

  function CellList(cells: seq<Cell>): (list: seq<multiset<nat>>)
    ensures |list| == |cells|
    decreases cells, 1
  {
    seq(|cells|, i requires 0 <= i < |cells| => CellBlocks(cells[i]))
  }

  function CellsBlocks(cells: seq<Cell>): multiset<nat>
    decreases cells, 2
  {
    Sum(CellList(cells))
  }

  /** All blocks that a struct holds a pointer to, where the counts say that there is one. */
  function Blocks(n: Node): multiset<nat>
    decreases n, 3
  {
    CellsBlocks(n.cells)
  }

  /** The blocks of all fields but field i. */
  function Others(cells: seq<Cell>, i: nat): multiset<nat>
    requires i < |cells|
  {
    Sum(CellList(cells)[i := multiset{}])
  }

  /** The blocks of all structs but number k. */
  function Siblings(nodes: seq<Node>, k: nat): multiset<nat>
    requires k < |nodes|
  {
    Sum(NodeList(nodes)[k := multiset{}])
  }

  lemma CellsUpdate(cells: seq<Cell>, i: nat, c: Cell)
    requires i < |cells|
    ensures CellsBlocks(cells[i := c]) == Others(cells, i) + CellBlocks(c)
  {
    assert CellList(cells[i := c]) == CellList(cells)[i := CellBlocks(c)];
    SumUpdate(CellList(cells), i, CellBlocks(c));
  }

  lemma CellsSplit(cells: seq<Cell>, i: nat)
    requires i < |cells|
    ensures CellsBlocks(cells) == Others(cells, i) + CellBlocks(cells[i])
  {
    CellsUpdate(cells, i, cells[i]);
    assert cells[i := cells[i]] == cells;
  }

  lemma NodesUpdate(nodes: seq<Node>, k: nat, n: Node)
    requires k < |nodes|
    ensures NodesBlocks(nodes[k := n]) == Siblings(nodes, k) + Blocks(n)
  {
    assert NodeList(nodes[k := n]) == NodeList(nodes)[k := Blocks(n)];
    SumUpdate(NodeList(nodes), k, Blocks(n));
  }

  lemma NodesSplit(nodes: seq<Node>, k: nat)
    requires k < |nodes|
    ensures NodesBlocks(nodes) == Siblings(nodes, k) + Blocks(nodes[k])
  {
    NodesUpdate(nodes, k, nodes[k]);
    assert nodes[k := nodes[k]] == nodes;
  }

  lemma BareCell(c: Cell)
    requires c.block == 0 && c.strings == [] && c.nodes == []
    ensures CellBlocks(c) == multiset{}
  {}

  lemma Regroup(a: multiset<nat>, b: multiset<nat>, c: multiset<nat>)
    ensures a + (b + c) == a + b + c
  {}

  lemma NoBlocks(cells: seq<Cell>)
    requires forall i :: 0 <= i < |cells| ==> CellBlocks(cells[i]) == multiset{}
    ensures CellsBlocks(cells) == multiset{}
  {
    SumEmpty(CellList(cells));
  }

  lemma NoNodeBlocks(nodes: seq<Node>)
    requires forall k :: 0 <= k < |nodes| ==> Blocks(nodes[k]) == multiset{}
    ensures NodesBlocks(nodes) == multiset{}
  {
    SumEmpty(NodeList(nodes));
  }

  /** A struct without blocks has none in any of its parts. */
  lemma PartsWithout(n: Node, i: nat)
    requires Blocks(n) == multiset{} && i < |n.cells|
    ensures CellBlocks(n.cells[i]) == multiset{} && n.cells[i].block == 0
    ensures forall k :: 0 <= k < |n.cells[i].nodes| ==> Blocks(n.cells[i].nodes[k]) == multiset{}
    ensures forall k :: 0 <= k < |n.cells[i].strings| ==> n.cells[i].strings[k] == 0
  {
    var c := n.cells[i];
    SumContains(CellList(n.cells), i);
    assert CellBlocks(c) <= multiset{};
    assert BlockOf(c.block)[c.block] <= CellBlocks(c)[c.block];
    forall k | 0 <= k < |c.nodes| ensures Blocks(c.nodes[k]) == multiset{} {
      SumContains(NodeList(c.nodes), k);
      assert Blocks(c.nodes[k]) <= NodesBlocks(c.nodes) <= CellBlocks(c);
    }
    forall k | 0 <= k < |c.strings| ensures c.strings[k] == 0 {
      assert c.strings[k] in multiset(c.strings);
      assert StringBlocks(c.strings)[c.strings[k]] <= CellBlocks(c)[c.strings[k]];
    }
  }

  lemma NodesAppend(nodes: seq<Node>, n: Node)
    ensures NodesBlocks(nodes + [n]) == NodesBlocks(nodes) + Blocks(n)
  {
    var list := NodeList(nodes + [n]);
    assert list[..|nodes|] == NodeList(nodes);
  }

  lemma OneNode(n: Node)
    ensures NodesBlocks([n]) == Blocks(n)
  {
    NodesAppend([], n);
    assert [] + [n] == [n];
  }

  lemma StringsFirst(strings: seq<nat>)
    requires strings != []
    ensures StringBlocks(strings) == BlockOf(strings[0]) + StringBlocks(strings[1..])
  {
    assert strings == [strings[0]] + strings[1..];
  }

  // ------------------------------------------------------------------ the memory of a struct

  predicate OwnsStrings(f: Field)
  {
    f.htype.Repeated? && f.atype.Pointer? && (f.ltype.String? || f.ltype.Bytes?)
  }

  predicate InPlace(f: Field)
  {
    f.ltype.Submessage? && f.atype.Static? && (f.htype.Required? || f.htype.Optional?)
  }

  predicate StaticArray(f: Field)
  {
    f.ltype.Submessage? && f.atype.Static? && f.htype.Repeated?
  }

  /** How many structs release walks over: one, or as many as the count says, cut to the size of a static array. */
  function InUse(f: Field, c: Cell): (n: nat)
  {
    if f.atype.Pointer? && c.block == 0 then 0
    else if !f.htype.Repeated? then 1
    else if f.atype.Static? && c.count > f.arraySize then f.arraySize
    else c.count
  }

  predicate LaidOutNodes(schema: Schema, d: nat, nodes: seq<Node>)
    decreases nodes, 1
  {
    forall k :: 0 <= k < |nodes| ==> nodes[k].desc == d && LaidOut(schema, nodes[k])
  }

  predicate LaidOutField(schema: Schema, f: Field, c: Cell)
    decreases c, 2
  {
    f.atype.Static? ==>
      && c.block == 0 && c.strings == []
      && (if f.ltype.Submessage? then LaidOutNodes(schema, f.sub, c.nodes) else c.nodes == [])
      && (if StaticArray(f) then LaidOutNodes(schema, f.sub, c.spare) && |c.nodes| + |c.spare| == f.arraySize
          else c.spare == [])
      && (StaticArray(f) || InPlace(f) ==> |c.nodes| == InUse(f, c))
  }

  predicate LaidOutMember(schema: Schema, f: Field, c: Cell)
    decreases c, 2
  {
    if f.ltype.Submessage? then LaidOutNodes(schema, f.sub, c.nodes) && |c.nodes| == 1 else c.nodes == []
  }

  predicate HoldsMember(fields: Desc, l: nat, which: nat)
  {
    exists i :: 0 <= i < |fields| && Leader(fields, i) == l && fields[i].tag == which
  }

  predicate LaidOutUnion(schema: Schema, fields: Desc, l: nat, c: Cell)
    decreases c, 3
  {
    && c.block == 0 && c.strings == [] && c.spare == []
    && (c.nodes != [] ==> HoldsMember(fields, l, c.which))
    && forall i :: 0 <= i < |fields| && Leader(fields, i) == l && fields[i].tag == c.which ==>
                     LaidOutMember(schema, fields[i], c)
  }

  predicate LaidOutCell(schema: Schema, fields: Desc, cells: seq<Cell>, i: nat)
    requires i < |fields| == |cells|
    decreases cells, 4
  {
    if Leader(fields, i) != i then cells[i] == EMPTY
    else if fields[i].htype.Oneof? then LaidOutUnion(schema, fields, i, cells[i])
    else LaidOutField(schema, fields[i], cells[i])
  }

  /** Memory that has room for a struct of this type, whatever is in it. */
  predicate LaidOut(schema: Schema, n: Node)
    decreases n, 5
  {
    && n.desc < |schema|
    && |n.cells| == |schema[n.desc]|
    && forall i :: 0 <= i < |n.cells| ==> LaidOutCell(schema, schema[n.desc], n.cells, i)
  }

  // ------------------------------------------------------------------ what release can walk over

  predicate WalkableNodes(schema: Schema, d: nat, nodes: seq<Node>, tidy: bool)
    decreases nodes, 1
  {
    forall k :: 0 <= k < |nodes| ==> nodes[k].desc == d && Walkable(schema, nodes[k], tidy)
  }

  /** An entry of a static array that is not in use: memory for a struct, without pointers if `tidy`. */
  predicate Vacant(schema: Schema, n: Node, tidy: bool)
    decreases n, 6
  {
    if tidy then Walkable(schema, n, true) && Blocks(n) == multiset{} else LaidOut(schema, n)
  }

  predicate VacantNodes(schema: Schema, d: nat, nodes: seq<Node>, tidy: bool)
    decreases nodes, 1
  {
    forall k :: 0 <= k < |nodes| ==> nodes[k].desc == d && Vacant(schema, nodes[k], tidy)
  }

  /** Counts match what there is to walk over. */
  predicate WalkableField(schema: Schema, f: Field, c: Cell, tidy: bool)
    decreases c, 2
  {
    && (if f.ltype.Submessage? then |c.nodes| == InUse(f, c) && WalkableNodes(schema, f.sub, c.nodes, tidy)
        else c.nodes == [])
    && (if OwnsStrings(f) then |c.strings| == c.count else c.strings == [])
    && (f.atype.Static? ==> c.block == 0)
    && (f.atype.Pointer? && c.block == 0 ==> c.nodes == [] && c.strings == [])
    && (if StaticArray(f) then |c.nodes| + |c.spare| == f.arraySize && VacantNodes(schema, f.sub, c.spare, tidy)
        else c.spare == [])
  }

  /** The struct in a union, if its active member is one. */
  predicate WalkableMember(schema: Schema, f: Field, c: Cell, tidy: bool)
    decreases c, 2
  {
    if f.ltype.Submessage? then WalkableNodes(schema, f.sub, c.nodes, tidy) && |c.nodes| == 1 else c.nodes == []
  }

  predicate WalkableUnion(schema: Schema, fields: Desc, l: nat, c: Cell, tidy: bool)
    decreases c, 3
  {
    && c.block == 0 && c.strings == [] && c.spare == []
    && (c.nodes != [] ==> HoldsMember(fields, l, c.which))
    && forall i :: 0 <= i < |fields| && Leader(fields, i) == l && fields[i].tag == c.which ==>
                     WalkableMember(schema, fields[i], c, tidy)
  }

  predicate WalkableCell(schema: Schema, fields: Desc, cells: seq<Cell>, i: nat, tidy: bool)
    requires i < |fields| == |cells|
    decreases cells, 4
  {
    if Leader(fields, i) != i then cells[i] == EMPTY
    else if fields[i].htype.Oneof? then WalkableUnion(schema, fields, i, cells[i], tidy)
    else WalkableField(schema, fields[i], cells[i], tidy)
  }

  predicate Walkable(schema: Schema, n: Node, tidy: bool)
    decreases n, 5
  {
    && n.desc < |schema|
    && |n.cells| == |schema[n.desc]|
    && forall i :: 0 <= i < |n.cells| ==> WalkableCell(schema, schema[n.desc], n.cells, i, tidy)
  }

  /** The storage that field i uses, as it is and after it has been replaced. */
  predicate WalkableStorage(schema: Schema, fields: Desc, i: nat, c: Cell, tidy: bool)
    requires i < |fields|
  {
    if fields[i].htype.Oneof? then WalkableUnion(schema, fields, Leader(fields, i), c, tidy)
    else WalkableField(schema, fields[i], c, tidy)
  }

  lemma StorageFacts(schema: Schema, n: Node, i: nat, tidy: bool)
    requires Walkable(schema, n, tidy) && i < |n.cells|
    ensures UniqueTags(schema[n.desc]) && WfField(schema, n.desc, schema[n.desc][i])
    ensures WalkableStorage(schema, schema[n.desc], i, n.cells[Leader(schema[n.desc], i)], tidy)
  {
    assert WfDesc(schema, n.desc);
    assert WalkableCell(schema, schema[n.desc], n.cells, Leader(schema[n.desc], i), tidy);
  }

  lemma StorageReplaced(schema: Schema, n: Node, i: nat, c: Cell, tidy: bool)
    requires Walkable(schema, n, tidy) && i < |n.cells| && WalkableStorage(schema, schema[n.desc], i, c, tidy)
    ensures Walkable(schema, n.(cells := n.cells[Leader(schema[n.desc], i) := c]), tidy)
  {
    var fields := schema[n.desc];
    var l := Leader(fields, i);
    var n' := n.(cells := n.cells[l := c]);
    forall j | 0 <= j < |fields| ensures WalkableCell(schema, fields, n'.cells, j, tidy) {
      assert WalkableCell(schema, fields, n.cells, j, tidy);
      assert j != l ==> n'.cells[j] == n.cells[j];
    }
    assert Walkable(schema, n', tidy);
  }

  lemma ActiveMember(schema: Schema, fields: Desc, i: nat, c: Cell, tidy: bool)
    requires UniqueTags(fields) && i < |fields| && fields[i].htype.Oneof?
    ensures WalkableUnion(schema, fields, Leader(fields, i), c, tidy) && c.which == fields[i].tag ==>
              c.block == 0 && c.strings == [] && c.spare == [] && WalkableMember(schema, fields[i], c, tidy)
    ensures && c.which == fields[i].tag && c.block == 0 && c.strings == [] && c.spare == []
            && WalkableMember(schema, fields[i], c, tidy) ==>
              WalkableUnion(schema, fields, Leader(fields, i), c, tidy)
  {}

  // ------------------------------------------------------------------ types that own no pointers

  /** Some field is a pointer, in the struct or in one that it stores. */
  predicate Owns(schema: Schema, d: nat)
    requires d < |schema|
    decreases d, 1
  {
    exists i :: 0 <= i < |schema[d]| && OwningField(schema, d, i)
  }

  predicate OwningField(schema: Schema, d: nat, i: nat)
    requires d < |schema| && i < |schema[d]|
    decreases d, 0
  {
    var f := schema[d][i];
    assert WfDesc(schema, d) && WfField(schema, d, f);
    f.atype.Pointer? || (f.ltype.Submessage? && (f.htype.Repeated? ==> f.arraySize > 0) && Owns(schema, f.sub))
  }

  lemma NotOwning(schema: Schema, d: nat, i: nat)
    requires d < |schema| && i < |schema[d]| && !Owns(schema, d)
    ensures var f := schema[d][i];
            && WfField(schema, d, f) && f.atype.Static?
            && (f.ltype.Submessage? && (f.htype.Repeated? ==> f.arraySize > 0) ==> !Owns(schema, f.sub))
  {
    assert WfDesc(schema, d);
    assert !OwningField(schema, d, i);
  }

  lemma {:induction false} OwnsNothing(schema: Schema, n: Node, tidy: bool)
    requires Walkable(schema, n, tidy) && !Owns(schema, n.desc)
    ensures Blocks(n) == multiset{}
    decreases n, 2
  {
    var fields := schema[n.desc];
    forall i | 0 <= i < |n.cells| ensures CellBlocks(n.cells[i]) == multiset{} {
      OwnsNothingIn(schema, n, i, tidy);
    }
    NoBlocks(n.cells);
  }

  lemma {:induction false} OwnsNothingIn(schema: Schema, n: Node, i: nat, tidy: bool)
    requires Walkable(schema, n, tidy) && !Owns(schema, n.desc) && i < |n.cells|
    ensures CellBlocks(n.cells[i]) == multiset{}
    decreases n, 1
  {
    var fields, c := schema[n.desc], n.cells[i];
    assert WalkableCell(schema, fields, n.cells, i, tidy);
    NotOwning(schema, n.desc, i);
    if Leader(fields, i) != i {
      BareCell(c);
    } else if fields[i].htype.Oneof? {
      assert WalkableUnion(schema, fields, i, c, tidy);
      if c.nodes == [] {
        BareCell(c);
      } else {
        var j := MemberOf(fields, i, c.which);
        NotOwning(schema, n.desc, j);
        assert WalkableMember(schema, fields[j], c, tidy);
        OwnsNothingNodes(schema, fields[j].sub, c, tidy);
      }
    } else {
      assert WalkableField(schema, fields[i], c, tidy);
      if c.nodes == [] {
        BareCell(c);
      } else {
        OwnsNothingNodes(schema, fields[i].sub, c, tidy);
      }
    }
  }

  lemma MemberOf(fields: Desc, l: nat, which: nat) returns (i: nat)
    requires HoldsMember(fields, l, which)
    ensures i < |fields| && Leader(fields, i) == l && fields[i].tag == which
    ensures l < |fields| && fields[l].htype.Oneof? ==> fields[i].htype.Oneof?
  {
    i :| 0 <= i < |fields| && Leader(fields, i) == l && fields[i].tag == which;
  }

  lemma {:induction false} OwnsNothingNodes(schema: Schema, d: nat, c: Cell, tidy: bool)
    requires d < |schema| && !Owns(schema, d) && WalkableNodes(schema, d, c.nodes, tidy) && c.block == 0 && c.strings == []
    ensures CellBlocks(c) == multiset{}
    decreases c, 0
  {
    forall k | 0 <= k < |c.nodes| ensures Blocks(c.nodes[k]) == multiset{} {
      OwnsNothing(schema, c.nodes[k], tidy);
    }
    NoNodeBlocks(c.nodes);
  }
}
