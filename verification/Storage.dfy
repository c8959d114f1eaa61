/**
 The memory that a struct is decoded into. Initialization sets the pointers of the struct to NULL, and those of the
 structs that it stores one by one, but leaves the entries of static arrays as they were.
 */
module Storage {
  import opened Descriptors
  import opened Memory
  import opened Agreement

  // ------------------------------------------------------------------ memory of a struct

  lemma LaidOutFacts(schema: Schema, n: Node, i: nat)
    requires LaidOut(schema, n) && i < |n.cells| && !schema[n.desc][i].htype.Oneof?
    ensures LaidOutField(schema, schema[n.desc][i], n.cells[i])
    ensures var f, c := schema[n.desc][i], n.cells[i];
            && (StaticArray(f) ==>
                  && |c.nodes| == InUse(f, c) && |c.nodes + c.spare| == f.arraySize
                  && LaidOutNodes(schema, f.sub, c.nodes + c.spare))
            && (InPlace(f) ==> |c.nodes| == 1 && c.nodes[0].desc == f.sub && LaidOut(schema, c.nodes[0]))
  {
    var f, c := schema[n.desc][i], n.cells[i];
    assert LaidOutCell(schema, schema[n.desc], n.cells, i);
    assert LaidOutField(schema, f, c);
    assert f.ltype.Submessage? && f.atype.Static? ==> LaidOutNodes(schema, f.sub, c.nodes);
    assert InPlace(f) ==> c.nodes[0].desc == f.sub;
    if StaticArray(f) {
      assert LaidOutNodes(schema, f.sub, c.spare);
    }
  }

  /** Release finds no pointer in it. */
  predicate Quiet(schema: Schema, n: Node, tidy: bool)
  {
    Walkable(schema, n, tidy) && Blocks(n) == multiset{}
  }

  predicate CleanCell(schema: Schema, n: Node, i: nat)
    requires LaidOut(schema, n) && i < |n.cells|
    decreases n, 0
  {
    var f, c := schema[n.desc][i], n.cells[i];
    if StaticArray(f) then VacantNodes(schema, f.sub, c.nodes + c.spare, true)
    else if InPlace(f) then
      LaidOutFacts(schema, n, i);
      Clean(schema, c.nodes[0])
    else true
  }

  /** No entry of a static array holds a pointer, in the struct and in those that it stores. */
  predicate Clean(schema: Schema, n: Node)
    requires LaidOut(schema, n)
    decreases n, 1
  {
    forall i :: 0 <= i < |n.cells| ==> CleanCell(schema, n, i)
  }

  // ------------------------------------------------------------------ initialization

  function InitializedCell(schema: Schema, n: Node, i: nat): Cell
    requires LaidOut(schema, n) && i < |n.cells|
    decreases n, 0
  {
    var f, c := schema[n.desc][i], n.cells[i];
    if StaticArray(f) then EMPTY.(spare := c.nodes + c.spare)
    else if InPlace(f) then
      LaidOutFacts(schema, n, i);
      EMPTY.(nodes := [Initialized(schema, c.nodes[0])])
    else EMPTY
  }

  function Initialized(schema: Schema, n: Node): (r: Node)
    requires LaidOut(schema, n)
    ensures r.desc == n.desc && |r.cells| == |n.cells|
    decreases n, 1
  {
    Node(n.desc, seq(|n.cells|, i requires 0 <= i < |n.cells| => InitializedCell(schema, n, i)))
  }

  lemma QuietArray(schema: Schema, f: Field, spare: seq<Node>, tidy: bool)
    requires StaticArray(f) && VacantNodes(schema, f.sub, spare, tidy) && |spare| == f.arraySize
    ensures WalkableField(schema, f, EMPTY.(spare := spare), tidy) && CellBlocks(EMPTY.(spare := spare)) == multiset{}
    ensures AgreesItems(schema, f, [], EMPTY.(spare := spare))
  {
    BareCell(EMPTY.(spare := spare));
  }

  lemma QuietStruct(schema: Schema, f: Field, n: Node, tidy: bool)
    requires InPlace(f) && Quiet(schema, n, tidy) && n.desc == f.sub
    ensures WalkableField(schema, f, EMPTY.(nodes := [n]), tidy) && CellBlocks(EMPTY.(nodes := [n])) == multiset{}
  {
    OneNode(n);
    assert WalkableNodes(schema, f.sub, [n], tidy);
  }

  /** What initialization makes of any memory: no pointers in use, and what the initial data call for. */
  lemma {:induction false} InitializedFacts(schema: Schema, n: Node, tidy: bool)
    requires LaidOut(schema, n) && (tidy ==> Clean(schema, n))
    ensures Quiet(schema, Initialized(schema, n), tidy)
    ensures Agrees(schema, Defaults(schema, n.desc), Initialized(schema, n))
    decreases n, 2
  {
    InitializedQuiet(schema, n, tidy);
    var fields, r, m := schema[n.desc], Initialized(schema, n), Defaults(schema, n.desc);
    assert SameShape(schema, m, r);
    forall i | 0 <= i < |fields| ensures AgreesAt(schema, m, r, i) {
      InitializedAgrees(schema, n, Leader(fields, i), i, tidy);
    }
  }

  lemma {:induction false} InitializedQuiet(schema: Schema, n: Node, tidy: bool)
    requires LaidOut(schema, n) && (tidy ==> Clean(schema, n))
    ensures Quiet(schema, Initialized(schema, n), tidy)
    decreases n, 1
  {
    var fields, r := schema[n.desc], Initialized(schema, n);
    forall i | 0 <= i < |fields|
      ensures WalkableCell(schema, fields, r.cells, i, tidy) && CellBlocks(r.cells[i]) == multiset{}
    {
      InitializedCellFacts(schema, n, i, tidy);
    }
    NoBlocks(r.cells);
    assert Walkable(schema, r, tidy);
  }

  lemma {:induction false} InitializedCellFacts(schema: Schema, n: Node, i: nat, tidy: bool)
    requires LaidOut(schema, n) && (tidy ==> Clean(schema, n)) && i < |n.cells|
    ensures WalkableCell(schema, schema[n.desc], Initialized(schema, n).cells, i, tidy)
    ensures CellBlocks(Initialized(schema, n).cells[i]) == multiset{}
    decreases n, 0
  {
    var f, c := schema[n.desc][i], n.cells[i];
    assert Initialized(schema, n).cells[i] == InitializedCell(schema, n, i);
    assert tidy ==> CleanCell(schema, n, i);
    if StaticArray(f) {
      LaidOutFacts(schema, n, i);
      assert VacantNodes(schema, f.sub, c.nodes + c.spare, tidy);
      QuietArray(schema, f, c.nodes + c.spare, tidy);
    } else if InPlace(f) {
      LaidOutFacts(schema, n, i);
      InitializedFacts(schema, c.nodes[0], tidy);
      QuietStruct(schema, f, Initialized(schema, c.nodes[0]), tidy);
    } else {
      BareCell(EMPTY);
      EmptyWalkable(schema, n.desc, Initialized(schema, n).cells, i, tidy);
    }
  }

  lemma EmptyWalkable(schema: Schema, d: nat, cells: seq<Cell>, i: nat, tidy: bool)
    requires d < |schema| && i < |cells| == |schema[d]| && cells[i] == EMPTY
    requires !StaticArray(schema[d][i]) && !InPlace(schema[d][i])
    ensures WalkableCell(schema, schema[d], cells, i, tidy)
  {
    var fields := schema[d];
    assert WfDesc(schema, d);
    assert forall j :: 0 <= j < |fields| ==> WfField(schema, d, fields[j]);
    if Leader(fields, i) == i {
      if fields[i].htype.Oneof? {
        assert WalkableUnion(schema, fields, i, EMPTY, tidy);
      } else {
        assert WalkableField(schema, fields[i], EMPTY, tidy);
      }
    }
  }

  lemma EmptyAgrees(schema: Schema, d: nat, l: nat, i: nat)
    requires d < |schema| && i < |schema[d]| && l == Leader(schema[d], i)
    requires !StaticArray(schema[d][i]) && !InPlace(schema[d][i])
    ensures AgreesSlot(schema, schema[d][i], DefaultSlot(schema, d, l), EMPTY)
  {
    var f := schema[d][i];
    assert WfDesc(schema, d) && WfField(schema, d, f) && WfField(schema, d, schema[d][l]);
    if f.htype.Oneof? {
      assert DefaultSlot(schema, d, l) == Union(0, VNone);
    } else {
      assert l == i;
    }
  }

  /** Field i, whose storage begins at field l. */
  lemma {:induction false} InitializedAgrees(schema: Schema, n: Node, l: nat, i: nat, tidy: bool)
    requires LaidOut(schema, n) && (tidy ==> Clean(schema, n)) && i < |n.cells| && l == Leader(schema[n.desc], i)
    ensures AgreesSlot(schema, schema[n.desc][i], Defaults(schema, n.desc).slots[l], Initialized(schema, n).cells[l])
    decreases n, 0
  {
    var f, c := schema[n.desc][i], n.cells[l];
    assert Initialized(schema, n).cells[l] == InitializedCell(schema, n, l);
    assert Defaults(schema, n.desc).slots[l] == DefaultSlot(schema, n.desc, l);
    if StaticArray(f) {
      assert l == i && (tidy ==> CleanCell(schema, n, i));
      LaidOutFacts(schema, n, i);
      assert VacantNodes(schema, f.sub, c.nodes + c.spare, tidy);
      QuietArray(schema, f, c.nodes + c.spare, tidy);
    } else if InPlace(f) {
      assert l == i && (tidy ==> CleanCell(schema, n, i));
      LaidOutFacts(schema, n, i);
      InitializedFacts(schema, c.nodes[0], tidy);
      assert AgreesEntry(schema, DefaultVal(schema, f), Initialized(schema, c.nodes[0]));
    } else {
      EmptyAgrees(schema, n.desc, l, i);
    }
  }

  // ------------------------------------------------------------------ structs as memory

  lemma {:induction false} WalkableLaidOut(schema: Schema, n: Node, tidy: bool)
    requires Walkable(schema, n, tidy)
    ensures LaidOut(schema, n)
    decreases n, 3
  {
    forall i | 0 <= i < |n.cells| ensures LaidOutCell(schema, schema[n.desc], n.cells, i) {
      WalkableCellLaidOut(schema, n, i, tidy);
    }
  }

  lemma {:induction false} WalkableCellLaidOut(schema: Schema, n: Node, i: nat, tidy: bool)
    requires Walkable(schema, n, tidy) && i < |n.cells|
    ensures LaidOutCell(schema, schema[n.desc], n.cells, i)
    decreases n, 2
  {
    var fields, c := schema[n.desc], n.cells[i];
    assert WalkableCell(schema, fields, n.cells, i, tidy);
    if Leader(fields, i) == i {
      if fields[i].htype.Oneof? {
        assert WalkableUnion(schema, fields, i, c, tidy);
        forall j | 0 <= j < |fields| && Leader(fields, j) == i && fields[j].tag == c.which
          ensures LaidOutMember(schema, fields[j], c)
        {
          assert WalkableMember(schema, fields[j], c, tidy);
          if fields[j].ltype.Submessage? {
            WalkableNodesLaidOut(schema, fields[j].sub, c.nodes, tidy);
          }
        }
      } else {
        assert WalkableField(schema, fields[i], c, tidy);
        if fields[i].ltype.Submessage? {
          WalkableNodesLaidOut(schema, fields[i].sub, c.nodes, tidy);
        }
        if StaticArray(fields[i]) {
          VacantNodesLaidOut(schema, fields[i].sub, c.spare, tidy);
        }
        assert LaidOutField(schema, fields[i], c);
      }
    }
  }

  lemma {:induction false} WalkableNodesLaidOut(schema: Schema, d: nat, nodes: seq<Node>, tidy: bool)
    requires WalkableNodes(schema, d, nodes, tidy)
    ensures LaidOutNodes(schema, d, nodes)
    decreases nodes, 0
  {
    forall k | 0 <= k < |nodes| ensures LaidOut(schema, nodes[k]) {
      WalkableLaidOut(schema, nodes[k], tidy);
    }
  }

  lemma {:induction false} VacantNodesLaidOut(schema: Schema, d: nat, nodes: seq<Node>, tidy: bool)
    requires VacantNodes(schema, d, nodes, tidy)
    ensures LaidOutNodes(schema, d, nodes)
    decreases nodes, 0
  {
    forall k | 0 <= k < |nodes| ensures LaidOut(schema, nodes[k]) {
      assert Vacant(schema, nodes[k], tidy);
      if tidy {
        WalkableLaidOut(schema, nodes[k], true);
      }
    }
  }

  /** A struct without pointers is clean memory. */
  lemma {:induction false} QuietClean(schema: Schema, n: Node)
    requires Quiet(schema, n, true)
    ensures LaidOut(schema, n) && Clean(schema, n)
    decreases n
  {
    WalkableLaidOut(schema, n, true);
    forall i | 0 <= i < |n.cells| ensures CleanCell(schema, n, i) {
      var f, c := schema[n.desc][i], n.cells[i];
      PartsWithout(n, i);
      assert WalkableCell(schema, schema[n.desc], n.cells, i, true);
      if StaticArray(f) {
        assert WalkableField(schema, f, c, true);
        QuietEntries(schema, f, c);
      } else if InPlace(f) {
        LaidOutFacts(schema, n, i);
        assert WalkableField(schema, f, c, true);
        assert WalkableNodes(schema, f.sub, c.nodes, true);
        QuietClean(schema, c.nodes[0]);
      }
    }
  }

  lemma QuietEntries(schema: Schema, f: Field, c: Cell)
    requires StaticArray(f) && WalkableField(schema, f, c, true)
    requires forall k :: 0 <= k < |c.nodes| ==> Blocks(c.nodes[k]) == multiset{}
    ensures VacantNodes(schema, f.sub, c.nodes + c.spare, true)
  {
    assert WalkableNodes(schema, f.sub, c.nodes, true);
    assert VacantNodes(schema, f.sub, c.spare, true);
    forall k | 0 <= k < |c.nodes| ensures Vacant(schema, c.nodes[k], true) {
      assert Walkable(schema, c.nodes[k], true);
    }
  }

  lemma {:induction false} Untidy(schema: Schema, n: Node, tidy: bool)
    requires Walkable(schema, n, true)
    ensures Walkable(schema, n, tidy)
    decreases n, 2
  {
    forall i | 0 <= i < |n.cells| ensures WalkableCell(schema, schema[n.desc], n.cells, i, tidy) {
      UntidyCell(schema, n, i, tidy);
    }
    assert Walkable(schema, n, tidy);
  }

  lemma {:induction false} UntidyCell(schema: Schema, n: Node, i: nat, tidy: bool)
    requires Walkable(schema, n, true) && i < |n.cells|
    ensures WalkableCell(schema, schema[n.desc], n.cells, i, tidy)
    decreases n, 1
  {
    var fields, c := schema[n.desc], n.cells[i];
    assert WalkableCell(schema, fields, n.cells, i, true);
    if Leader(fields, i) == i {
      if fields[i].htype.Oneof? {
        assert WalkableUnion(schema, fields, i, c, true);
        forall j | 0 <= j < |fields| && Leader(fields, j) == i && fields[j].tag == c.which
          ensures WalkableMember(schema, fields[j], c, tidy)
        {
          assert WalkableMember(schema, fields[j], c, true);
          if fields[j].ltype.Submessage? {
            UntidyNodes(schema, fields[j].sub, c.nodes, tidy);
          }
        }
        assert WalkableUnion(schema, fields, i, c, tidy);
      } else {
        assert WalkableField(schema, fields[i], c, true);
        if fields[i].ltype.Submessage? {
          UntidyNodes(schema, fields[i].sub, c.nodes, tidy);
        }
        if StaticArray(fields[i]) && !tidy {
          VacantNodesLaidOut(schema, fields[i].sub, c.spare, true);
          assert VacantNodes(schema, fields[i].sub, c.spare, tidy);
        }
      }
    }
  }

  lemma {:induction false} UntidyNodes(schema: Schema, d: nat, nodes: seq<Node>, tidy: bool)
    requires WalkableNodes(schema, d, nodes, true)
    ensures WalkableNodes(schema, d, nodes, tidy)
    decreases nodes, 0
  {
    forall k | 0 <= k < |nodes| ensures Walkable(schema, nodes[k], tidy) {
      Untidy(schema, nodes[k], tidy);
    }
  }

  // ------------------------------------------------------------------ zeroed memory

  function ZeroNode(schema: Schema, d: nat): (n: Node)
    requires d < |schema|
    ensures n.desc == d && |n.cells| == |schema[d]|
    decreases d, 1
  {
    Node(d, seq(|schema[d]|, i requires 0 <= i < |schema[d]| => ZeroCell(schema, d, i)))
  }

  function ZeroCell(schema: Schema, d: nat, i: nat): Cell
    requires d < |schema| && i < |schema[d]|
    decreases d, 0
  {
    var f := schema[d][i];
    assert WfDesc(schema, d) && WfField(schema, d, f);
    if StaticArray(f) then
      var entry := ZeroNode(schema, f.sub);
      EMPTY.(spare := seq(f.arraySize, _ => entry))
    else if InPlace(f) then EMPTY.(nodes := [ZeroNode(schema, f.sub)])
    else EMPTY
  }

  lemma {:induction false} ZeroQuiet(schema: Schema, d: nat)
    requires d < |schema|
    ensures Quiet(schema, ZeroNode(schema, d), true)
    decreases d, 1
  {
    var n := ZeroNode(schema, d);
    forall i | 0 <= i < |n.cells|
      ensures WalkableCell(schema, schema[d], n.cells, i, true) && CellBlocks(n.cells[i]) == multiset{}
    {
      ZeroCellQuiet(schema, d, i);
    }
    NoBlocks(n.cells);
    assert Walkable(schema, n, true);
  }

  lemma {:induction false} ZeroCellQuiet(schema: Schema, d: nat, i: nat)
    requires d < |schema| && i < |schema[d]|
    ensures WalkableCell(schema, schema[d], ZeroNode(schema, d).cells, i, true)
    ensures CellBlocks(ZeroNode(schema, d).cells[i]) == multiset{}
    decreases d, 0
  {
    var f, c := schema[d][i], ZeroCell(schema, d, i);
    assert ZeroNode(schema, d).cells[i] == c;
    assert WfDesc(schema, d) && WfField(schema, d, f);
    if StaticArray(f) {
      ZeroQuiet(schema, f.sub);
      QuietArray(schema, f, c.spare, true);
    } else if InPlace(f) {
      ZeroQuiet(schema, f.sub);
      QuietStruct(schema, f, ZeroNode(schema, f.sub), true);
    } else {
      BareCell(EMPTY);
      EmptyWalkable(schema, d, ZeroNode(schema, d).cells, i, true);
    }
  }

  /** Memory that has been set to zero and then initialized. */
  function FreshNode(schema: Schema, d: nat): (n: Node)
    requires d < |schema|
    ensures n.desc == d && Quiet(schema, n, true) && Agrees(schema, Defaults(schema, d), n)
  {
    ZeroQuiet(schema, d);
    QuietClean(schema, ZeroNode(schema, d));
    InitializedFacts(schema, ZeroNode(schema, d), true);
    Initialized(schema, ZeroNode(schema, d))
  }

  // ------------------------------------------------------------------ memory that is clean whatever is in it

  /** Some static array, in the struct or in one that it stores, has entries that own pointers. */
  predicate OwningArrays(schema: Schema, d: nat)
    requires d < |schema|
    decreases d, 1
  {
    exists i :: 0 <= i < |schema[d]| && OwningArray(schema, d, i)
  }

  predicate OwningArray(schema: Schema, d: nat, i: nat)
    requires d < |schema| && i < |schema[d]|
    decreases d, 0
  {
    var f := schema[d][i];
    assert WfDesc(schema, d) && WfField(schema, d, f);
    if StaticArray(f) then f.arraySize > 0 && Owns(schema, f.sub) else InPlace(f) && OwningArrays(schema, f.sub)
  }

  /** Memory for a type that owns no pointers is quiet. */
  lemma {:induction false} AnyQuiet(schema: Schema, n: Node)
    requires LaidOut(schema, n) && !Owns(schema, n.desc)
    ensures Quiet(schema, n, true)
    decreases n, 2
  {
    forall i | 0 <= i < |n.cells| ensures WalkableCell(schema, schema[n.desc], n.cells, i, true) {
      AnyWalkable(schema, n, i);
    }
    assert Walkable(schema, n, true);
    OwnsNothing(schema, n, true);
  }

  lemma {:induction false} AnyWalkable(schema: Schema, n: Node, i: nat)
    requires LaidOut(schema, n) && !Owns(schema, n.desc) && i < |n.cells|
    ensures WalkableCell(schema, schema[n.desc], n.cells, i, true)
    decreases n, 1
  {
    var fields, c := schema[n.desc], n.cells[i];
    assert LaidOutCell(schema, fields, n.cells, i);
    NotOwning(schema, n.desc, i);
    if Leader(fields, i) == i {
      if fields[i].htype.Oneof? {
        assert LaidOutUnion(schema, fields, i, c);
        forall j | 0 <= j < |fields| && Leader(fields, j) == i && fields[j].tag == c.which
          ensures WalkableMember(schema, fields[j], c, true)
        {
          NotOwning(schema, n.desc, j);
          assert LaidOutMember(schema, fields[j], c);
          if fields[j].ltype.Submessage? {
            AnyQuietNodes(schema, fields[j].sub, c.nodes);
          }
        }
        assert WalkableUnion(schema, fields, i, c, true);
      } else {
        assert LaidOutField(schema, fields[i], c);
        if fields[i].ltype.Submessage? && c.nodes != [] {
          AnyQuietNodes(schema, fields[i].sub, c.nodes);
        }
        if StaticArray(fields[i]) && c.spare != [] {
          AnyQuietNodes(schema, fields[i].sub, c.spare);
        }
      }
    }
  }

  lemma {:induction false} AnyQuietNodes(schema: Schema, d: nat, nodes: seq<Node>)
    requires d < |schema| && LaidOutNodes(schema, d, nodes) && !Owns(schema, d)
    ensures WalkableNodes(schema, d, nodes, true) && VacantNodes(schema, d, nodes, true)
    decreases nodes, 0
  {
    forall k | 0 <= k < |nodes| ensures Quiet(schema, nodes[k], true) {
      AnyQuiet(schema, nodes[k]);
    }
  }

  lemma {:induction false} AlwaysClean(schema: Schema, n: Node)
    requires LaidOut(schema, n) && !OwningArrays(schema, n.desc)
    ensures Clean(schema, n)
    decreases n
  {
    forall i | 0 <= i < |n.cells| ensures CleanCell(schema, n, i) {
      var f, c := schema[n.desc][i], n.cells[i];
      assert WfDesc(schema, n.desc) && WfField(schema, n.desc, f);
      assert !OwningArray(schema, n.desc, i);
      if StaticArray(f) && f.arraySize > 0 {
        LaidOutFacts(schema, n, i);
        AnyQuietNodes(schema, f.sub, c.nodes + c.spare);
      } else if StaticArray(f) || InPlace(f) {
        LaidOutFacts(schema, n, i);
        if InPlace(f) {
          AlwaysClean(schema, c.nodes[0]);
        }
      }
    }
  }
}
