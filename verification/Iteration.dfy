/**
 The field iterator, and the struct layout that its relative offsets stand for.
 */
module Iteration {
  import opened Descriptors

  // ------------------------------------------------------------------ where a field is stored

  /** How much of the struct a field takes up. */
  function StoredSize(f: Field): nat
  {
    if f.atype.Static? && f.htype.Repeated? then f.dataSize * f.arraySize
    else if f.atype.Pointer? then POINTER_SIZE
    else f.dataSize
  }

  function DataOffset(fields: Desc, i: nat): nat
    requires i < |fields|
  {
    if i == 0 then fields[0].dataOffset
    else if JoinsUnion(fields, i) then DataOffset(fields, i - 1)
    else DataOffset(fields, i - 1) + StoredSize(fields[i - 1]) + fields[i].dataOffset
  }

  predicate Tagged(fields: Desc)
  {
    forall i :: 0 <= i < |fields| ==> fields[i].tag != 0
  }

  /** The position walks over the fields in a circle. It is at the end marker only if there are no fields. */
  class FieldIter {
    const fields: Desc
    var pos: nat
    var requiredIndex: nat  // how many required fields come before the position
    var pData: int          // offset of the data in the struct
    var pSize: int          // offset of the count, flag or which_ field

    ghost predicate Valid()
      reads this
    {
      && Tagged(fields)
      && (if fields == [] then pos == 0 && requiredIndex == 0
          else
            && pos < |fields|
            && requiredIndex == CountRequired(fields, pos)
            && pData == DataOffset(fields, pos)
            && pSize == pData + fields[Leader(fields, pos)].sizeOffset)
    }

    constructor (fields: Desc)
      requires Tagged(fields)
      ensures Valid() && this.fields == fields && pos == 0
    {
      this.fields := fields;
      this.pos, this.requiredIndex := 0, 0;
      this.pData := if fields == [] then 0 else fields[0].dataOffset;
      this.pSize := if fields == [] then 0 else fields[0].dataOffset + fields[0].sizeOffset;
    }

    method Begin() returns (nonempty: bool)
      requires Tagged(fields)
      modifies this
      ensures Valid() && pos == 0 && (nonempty <==> fields != [])
    {
      pos, requiredIndex := 0, 0;
      if fields == [] {
        pData, pSize := 0, 0;
        return false;
      }
      pData := fields[0].dataOffset;
      pSize := pData + fields[0].sizeOffset;
      return true;
    }

    method Next() returns (more: bool)
      requires Valid()
      modifies this
      ensures Valid()
      ensures more <==> old(pos) + 1 < |fields|
      ensures pos == if more then old(pos) + 1 else 0
    {
      if pos == |fields| {
        return false;
      }
      var prev := fields[pos];
      pos := pos + 1;
      if pos == |fields| {
        var _ := Begin();
        return false;
      }
      var prevSize := prev.dataSize;
      if prev.htype.Oneof? && fields[pos].htype.Oneof? && fields[pos].dataOffset == UNION_OFFSET {
        return true;
      } else if prev.atype.Static? && prev.htype.Repeated? {
        prevSize := prevSize * prev.arraySize;
      } else if prev.atype.Pointer? {
        prevSize := POINTER_SIZE;
      }
      if prev.htype.Required? {
        requiredIndex := requiredIndex + 1;
      }
      pData := pData + prevSize + fields[pos].dataOffset;
      pSize := pData + fields[pos].sizeOffset;
      return true;
    }

    function TagAt(i: nat): nat
    {
      if i < |fields| then fields[i].tag else 0
    }

    /** How many steps lead from `from` to `to`. */
    ghost function Steps(from: nat, to: nat): int
    {
      if from <= to then to - from else to - from + |fields|
    }

    /**
     A search from any position: it finds the tag exactly when some field has it, at the first such field in
     the circle, and comes back to where it began otherwise. The end marker of an empty message has tag 0.
     */
    method Find(tag: nat) returns (found: bool)
      requires Valid()
      modifies this
      ensures Valid()
      ensures found <==> (tag == 0 && fields == []) || exists i :: 0 <= i < |fields| && fields[i].tag == tag
      ensures found ==> TagAt(pos) == tag
      ensures found ==> forall i :: 0 <= i < |fields| && fields[i].tag == tag ==>
                          Steps(old(pos), pos) <= Steps(old(pos), i)
      ensures !found ==> pos == old(pos)
    {
      var start := pos;
      ghost var k := 0;
      while true
        invariant Valid() && 0 <= k && (fields != [] ==> k < |fields|)
        invariant fields == [] ==> k == 0
        invariant k == Steps(start, pos)
        invariant forall i :: 0 <= i < |fields| && Steps(start, i) < k ==> fields[i].tag != tag
        decreases |fields| - k
      {
        if TagAt(pos) == tag {
          return true;
        }
        var _ := Next();
        if pos == start {
          return false;
        }
        k := k + 1;
      }
    }
  }

  // ------------------------------------------------------------------ layouts

  /**
   A member of a struct, as the C compiler lays it out. Members with the same union number, other than 0,
   overlap. `sizeAt` is the offset of the count, flag or which_ field, if there is one.
   */
  datatype Member = Member(
    tag: nat, ltype: LType, htype: HType, atype: AType, sub: nat, default: Val,
    offset: nat, entrySize: nat, entries: nat, union: nat, hasSize: bool, sizeAt: nat)
  {
    function Size(): nat {
      if atype.Pointer? then POINTER_SIZE
      else if htype.Repeated? then entrySize * entries
      else entrySize
    }
  }

  predicate SameUnion(layout: seq<Member>, i: nat)
    requires i < |layout|
  {
    i > 0 && layout[i].union != 0 && layout[i - 1].union == layout[i].union
  }

  predicate WfMember(layout: seq<Member>, i: nat)
    requires i < |layout|
  {
    var m := layout[i];
    && m.tag != 0
    && (m.union != 0 <==> m.htype.Oneof?)
    && (m.htype.Oneof? ==> m.hasSize)
    && (if i == 0 then m.offset < UNION_OFFSET
        else
          var p := layout[i - 1];
          if SameUnion(layout, i) then m.offset == p.offset && m.sizeAt == p.sizeAt
          else p.offset + p.Size() <= m.offset < p.offset + p.Size() + UNION_OFFSET)
  }

  /** Members come in order, without overlap except inside a union, which has one which_ field. */
  predicate WfLayout(layout: seq<Member>)
  {
    forall i :: 0 <= i < |layout| ==> WfMember(layout, i)
  }

  /** The entry that the PB_FIELD macros build for a member, with offsets relative to the member before it. */
  function Entry(layout: seq<Member>, i: nat): Field
    requires i < |layout| && WfMember(layout, i)
  {
    var m := layout[i];
    var dataOffset :=
      if i == 0 then m.offset
      else if SameUnion(layout, i) then UNION_OFFSET
      else m.offset - layout[i - 1].offset - layout[i - 1].Size();
    var sizeOffset := if m.hasSize then m.sizeAt - m.offset else 0;
    Field(m.tag, m.ltype, m.htype, m.atype, dataOffset, sizeOffset, m.entrySize, m.entries, m.sub, m.default)
  }

  function Compile(layout: seq<Member>): (fields: Desc)
    requires WfLayout(layout)
    ensures |fields| == |layout|
  {
    seq(|layout|, i requires 0 <= i < |layout| => assert WfMember(layout, i); Entry(layout, i))
  }

  lemma CompiledMember(layout: seq<Member>, i: nat)
    requires WfLayout(layout) && i < |layout|
    ensures StoredSize(Compile(layout)[i]) == layout[i].Size()
    ensures JoinsUnion(Compile(layout), i) <==> SameUnion(layout, i)
  {
    assert WfMember(layout, i);
    if i > 0 {
      assert WfMember(layout, i - 1);
    }
  }

  lemma OffsetStep(layout: seq<Member>, i: nat)
    requires WfLayout(layout) && 0 < i < |layout|
    requires DataOffset(Compile(layout), i - 1) == layout[i - 1].offset
    ensures DataOffset(Compile(layout), i) == layout[i].offset
  {
    assert WfMember(layout, i);
    CompiledMember(layout, i);
    CompiledMember(layout, i - 1);
    var fields := Compile(layout);
    if SameUnion(layout, i) {
      assert DataOffset(fields, i) == DataOffset(fields, i - 1);
    } else {
      var size := StoredSize(fields[i - 1]);
      assert fields[i].dataOffset == layout[i].offset - layout[i - 1].offset - size;
      assert DataOffset(fields, i) == DataOffset(fields, i - 1) + size + fields[i].dataOffset;
    }
  }

  /** The offsets that the descriptor adds up to are those of the struct, through arrays, pointers and unions. */
  lemma {:induction false} OffsetRecovered(layout: seq<Member>, i: nat)
    requires WfLayout(layout) && i < |layout|
    ensures DataOffset(Compile(layout), i) == layout[i].offset
  {
    assert WfMember(layout, i);
    if i > 0 {
      OffsetRecovered(layout, i - 1);
      OffsetStep(layout, i);
    }
  }

  lemma {:induction false} SizeRecovered(layout: seq<Member>, i: nat)
    requires WfLayout(layout) && i < |layout|
    ensures var l := Leader(Compile(layout), i);
            && layout[l].offset == layout[i].offset
            && (layout[i].hasSize ==> layout[i].offset + Compile(layout)[l].sizeOffset == layout[i].sizeAt)
  {
    assert WfMember(layout, i);
    CompiledMember(layout, i);
    if JoinsUnion(Compile(layout), i) {
      assert WfMember(layout, i - 1);
      SizeRecovered(layout, i - 1);
    }
  }

  /** An iterator over the descriptor of a struct points, wherever it stands, at that member and at its count. */
  lemma PointsAtMember(layout: seq<Member>, iter: FieldIter)
    requires WfLayout(layout) && layout != []
    requires iter.Valid() && iter.fields == Compile(layout)
    ensures iter.pos < |layout| && iter.pData == layout[iter.pos].offset
    ensures layout[iter.pos].hasSize ==> iter.pSize == layout[iter.pos].sizeAt
  {
    OffsetRecovered(layout, iter.pos);
    SizeRecovered(layout, iter.pos);
  }
}
