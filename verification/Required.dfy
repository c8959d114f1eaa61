/**
 When a message is complete. The set that the decoder keeps while it runs is compared with the fields that occur
 on the wire.
 */
module Required {
  import opened Wire
  import opened Descriptors
  import opened Decoding

  /** The positions of the fields that a run reads. */
  function Occurring(schema: Schema, s: bytes, m: Msg): set<nat>
    requires TypedMsg(schema, m)
    decreases |s|
  {
    if s == [] then {}
    else
      match DecVarint32(s)
      case Fail => {}
      case Ok(tag, rest) =>
        var fields := schema[m.desc];
        var i := Find(fields, tag / 8);
        if tag == 0 then {}
        else if i == |fields| then
          var r := SkipUnknown(fields, tag / 8, tag % 8, rest);
          if r.Ok? then Occurring(schema, r.rest, m) else {}
        else
          FieldFacts(schema, m, i);
          var r := DecSlot(schema, fields[i], tag % 8, rest, m.slots[Leader(fields, i)]);
          if r.Ok? then
            UpdateTyped(schema, m, i, r.value);
            {i} + Occurring(schema, r.rest, Update(schema, m, i, r.value))
          else {i}
  }

  predicate Checked(fields: Desc, i: nat)
  {
    i < |fields| && fields[i].htype.Required? && CountRequired(fields, i) < MAX_REQUIRED_FIELDS
  }

  /** The numbers of required fields at these positions. */
  function Numbers(fields: Desc, at: set<nat>): set<nat>
  {
    set i | i in at && Checked(fields, i) :: CountRequired(fields, i)
  }

  lemma NumbersAdd(fields: Desc, i: nat, at: set<nat>, seen: set<nat>)
    requires i < |fields|
    ensures See(fields, seen, i) + Numbers(fields, at) == seen + Numbers(fields, {i} + at)
  {}

  /** The decoder has seen exactly the required fields that occur, besides those it began with. */
  lemma {:induction false} SeenIsOccurring(schema: Schema, s: bytes, m: Msg, seen: set<nat>)
    requires TypedMsg(schema, m) && DecRun(schema, s, m, seen).Done?
    ensures DecRun(schema, s, m, seen).seen == seen + Numbers(schema[m.desc], Occurring(schema, s, m))
    decreases |s|
  {
    if s != [] && DecVarint32(s).value != 0 {
      var tag, rest := DecVarint32(s).value, DecVarint32(s).rest;
      var fields := schema[m.desc];
      var i := Find(fields, tag / 8);
      if i == |fields| {
        SeenIsOccurring(schema, SkipUnknown(fields, tag / 8, tag % 8, rest).rest, m, seen);
      } else {
        FieldFacts(schema, m, i);
        var r := DecSlot(schema, fields[i], tag % 8, rest, m.slots[Leader(fields, i)]);
        UpdateTyped(schema, m, i, r.value);
        var m' := Update(schema, m, i, r.value);
        SeenIsOccurring(schema, r.rest, m', See(fields, seen, i));
        NumbersAdd(fields, i, Occurring(schema, r.rest, m'), seen);
      }
    }
  }

  /** Each number below the count of required fields belongs to one of them. */
  lemma {:induction false} NumberedField(fields: Desc, n: nat, k: nat) returns (i: nat)
    requires n <= |fields| && k < CountRequired(fields, n)
    ensures i < n && fields[i].htype.Required? && CountRequired(fields, i) == k
  {
    if k < CountRequired(fields, n - 1) {
      i := NumberedField(fields, n - 1, k);
    } else {
      i := n - 1;
    }
  }

  lemma DifferentNumbers(fields: Desc, i: nat, j: nat)
    requires i < |fields| && j < |fields| && fields[i].htype.Required? && fields[j].htype.Required?
    requires CountRequired(fields, i) == CountRequired(fields, j)
    ensures i == j
  {
    if i < j {
      CountRequiredMonotone(fields, i, j);
    } else {
      CountRequiredMonotone(fields, j, i);
    }
  }

  lemma AllNumbers(fields: Desc, at: set<nat>)
    ensures AllSeen(fields, Numbers(fields, at)) <==> forall i :: Checked(fields, i) ==> i in at
  {
    if AllSeen(fields, Numbers(fields, at)) {
      forall i | Checked(fields, i) ensures i in at {
        CountRequiredMonotone(fields, i, |fields|);
        assert CountRequired(fields, i) in Numbers(fields, at);
        var j :| j in at && Checked(fields, j) && CountRequired(fields, j) == CountRequired(fields, i);
        DifferentNumbers(fields, i, j);
      }
    }
    if forall i :: Checked(fields, i) ==> i in at {
      forall k | 0 <= k < CountRequired(fields, |fields|) && k < MAX_REQUIRED_FIELDS ensures k in Numbers(fields, at) {
        var i := NumberedField(fields, |fields|, k);
        assert Checked(fields, i);
      }
    }
  }

  function RequiredBefore(fields: Desc, n: nat): set<nat>
    requires n <= |fields|
  {
    set j | 0 <= j < n && fields[j].htype.Required?
  }

  /** A required field that fewer than 64 others precede. */
  predicate MustOccur(fields: Desc, i: nat)
  {
    i < |fields| && fields[i].htype.Required? && |RequiredBefore(fields, i)| < 64
  }

  lemma {:induction false} CountIsNumber(fields: Desc, n: nat)
    requires n <= |fields|
    ensures CountRequired(fields, n) == |RequiredBefore(fields, n)|
  {
    if n > 0 {
      CountIsNumber(fields, n - 1);
      var before := RequiredBefore(fields, n - 1);
      assert RequiredBefore(fields, n) == before + if fields[n - 1].htype.Required? then {n - 1} else {};
    } else {
      assert RequiredBefore(fields, n) == {};
    }
  }

  /**
   When every field on the wire can be read, the message is accepted if and only if each of the first 64 required
   fields occurs at least once.
   */
  lemma CompleteExactly(schema: Schema, s: bytes, m: Msg)
    requires TypedMsg(schema, m) && DecRun(schema, s, m, {}).Done?
    ensures DecMsg(schema, s, m).Ok? <==>
            forall i :: MustOccur(schema[m.desc], i) ==> i in Occurring(schema, s, m)
  {
    var fields := schema[m.desc];
    forall i | 0 <= i < |fields| ensures Checked(fields, i) <==> MustOccur(fields, i) {
      CountIsNumber(fields, i);
    }
    SeenIsOccurring(schema, s, m, {});
    assert {} + Numbers(fields, Occurring(schema, s, m)) == Numbers(fields, Occurring(schema, s, m));
    AllNumbers(fields, Occurring(schema, s, m));
  }
}
