/**
 The two halves of a struct: its counts, which_ fields and pointers are those of its data.
 */
module Agreement {
  import opened Descriptors
  import opened Decoding
  import opened Memory

  predicate AgreesVal(schema: Schema, f: Field, v: Val, nodes: seq<Node>)
    decreases v, 1
  {
    f.ltype.Submessage? ==> |nodes| == 1 && AgreesEntry(schema, v, nodes[0])
  }

  predicate AgreesEntry(schema: Schema, v: Val, n: Node)
    decreases v, 0
  {
    v.VMsg? && Agrees(schema, v.m, n)
  }

  /** The count is the number of entries, and an array on the heap that has entries has a block, as its strings have. */
  predicate AgreesItems(schema: Schema, f: Field, items: seq<Val>, c: Cell)
    decreases items, 2
  {
    && c.count == |items|
    && (f.ltype.Submessage? ==>
          |c.nodes| == |items| && forall k :: 0 <= k < |items| ==> AgreesEntry(schema, items[k], c.nodes[k]))
    && (f.atype.Pointer? && items != [] ==> c.block != 0)
    && (OwnsStrings(f) ==> |c.strings| == |items| && 0 !in c.strings)
  }

  predicate AgreesSlot(schema: Schema, f: Field, slot: Slot, c: Cell)
    decreases slot, 3
  {
    if f.htype.Repeated? then slot.Rep? && AgreesItems(schema, f, slot.items, c)
    else if f.htype.Oneof? then
      slot.Union? && c.which == slot.which && (slot.which == f.tag ==> AgreesVal(schema, f, slot.v, c.nodes))
    else if f.atype.Pointer? then
      if slot.Ptr? then c.block != 0 && AgreesVal(schema, f, slot.v, c.nodes) else slot.Null? && c.block == 0
    else (slot.One? || slot.Opt?) && AgreesVal(schema, f, slot.v, c.nodes)
  }

  predicate SameShape(schema: Schema, m: Msg, n: Node)
  {
    m.desc == n.desc && m.desc < |schema| && |m.slots| == |n.cells| == |schema[m.desc]|
  }

  predicate AgreesAt(schema: Schema, m: Msg, n: Node, i: nat)
    requires SameShape(schema, m, n) && i < |m.slots|
    decreases m, 4
  {
    var l := Leader(schema[m.desc], i);
    AgreesSlot(schema, schema[m.desc][i], m.slots[l], n.cells[l])
  }

  predicate Agrees(schema: Schema, m: Msg, n: Node)
    decreases m, 5
  {
    SameShape(schema, m, n) && forall i :: 0 <= i < |m.slots| ==> AgreesAt(schema, m, n, i)
  }

  /** The halves agree on all fields but those that share storage `l`. */
  predicate AgreesElsewhere(schema: Schema, m: Msg, n: Node, l: nat)
  {
    && SameShape(schema, m, n)
    && forall i :: 0 <= i < |m.slots| && Leader(schema[m.desc], i) != l ==> AgreesAt(schema, m, n, i)
  }

  lemma AgreesFacts(schema: Schema, m: Msg, n: Node, i: nat)
    requires Agrees(schema, m, n) && i < |m.slots|
    ensures var f, l := schema[m.desc][i], Leader(schema[m.desc], i);
            AgreesElsewhere(schema, m, n, l) && AgreesSlot(schema, f, m.slots[l], n.cells[l])
  {
    assert AgreesAt(schema, m, n, i);
  }

  /** Another cell at `l` leaves the agreement elsewhere alone. */
  lemma ElsewhereKept(schema: Schema, m: Msg, n: Node, l: nat, c: Cell)
    requires AgreesElsewhere(schema, m, n, l) && l < |n.cells|
    ensures AgreesElsewhere(schema, m, n.(cells := n.cells[l := c]), l)
  {
    var n' := n.(cells := n.cells[l := c]);
    forall i | 0 <= i < |m.slots| && Leader(schema[m.desc], i) != l ensures AgreesAt(schema, m, n', i) {
      assert AgreesAt(schema, m, n, i);
    }
  }

  /** Both halves of a field are replaced. */
  lemma AgreesReplaced(schema: Schema, m: Msg, n: Node, i: nat, slot: Slot, c: Cell)
    requires TypedMsg(schema, m) && i < |m.slots| && AgreesElsewhere(schema, m, n, Leader(schema[m.desc], i))
    requires AgreesSlot(schema, schema[m.desc][i], slot, c)
    requires schema[m.desc][i].htype.Oneof? ==> slot.which == schema[m.desc][i].tag
    ensures Agrees(schema, Update(schema, m, i, slot), n.(cells := n.cells[Leader(schema[m.desc], i) := c]))
  {
    var fields := schema[m.desc];
    var l := Leader(fields, i);
    var m', n' := Update(schema, m, i, slot), n.(cells := n.cells[l := c]);
    assert WfDesc(schema, m.desc);
    forall j | 0 <= j < |m.slots| ensures AgreesAt(schema, m', n', j) {
      if Leader(fields, j) != l {
        assert AgreesAt(schema, m, n, j);
      } else if j != i {
        assert fields[j].tag != fields[i].tag;
      }
    }
    assert SameShape(schema, m', n');
    assert Agrees(schema, m', n');
  }

  /** The next entry is in place. */
  lemma AgreesMore(schema: Schema, f: Field, items: seq<Val>, v: Val, c: Cell, c': Cell)
    requires AgreesItems(schema, f, items, c) && c'.count == |items| + 1
    requires f.ltype.Submessage? ==>
               && |c'.nodes| == |items| + 1 && c'.nodes[..|items|] == c.nodes
               && AgreesEntry(schema, v, c'.nodes[|items|])
    requires f.atype.Pointer? ==> c'.block != 0
    requires OwnsStrings(f) ==> |c'.strings| == |items| + 1 && c'.strings[..|items|] == c.strings && c'.strings[|items|] != 0
    ensures AgreesItems(schema, f, items + [v], c')
  {
    var items' := items + [v];
    if f.ltype.Submessage? {
      forall k | 0 <= k < |items'| ensures AgreesEntry(schema, items'[k], c'.nodes[k]) {
        if k < |items| {
          assert c'.nodes[k] == c'.nodes[..|items|][k];
        }
      }
    }
    if OwnsStrings(f) {
      assert c'.strings == c.strings + [c'.strings[|items|]];
    }
  }
}
