/**
 The beginning of a turn of the field loop, for a field that the message has.
 */
module FieldSteps {
  import opened Wire
  import opened Descriptors
  import opened Composition
  import opened Iteration
  import opened Input

  /** The tag of field i is read, and the iterator found at the field. */
  method ReadTag(s: IStream, iter: FieldIter, ghost wireType: nat, ghost i: nat, ghost t: bytes) returns (readType: nat)
    requires s.Valid() && iter.Valid() && UniqueTags(iter.fields) && i < |iter.fields|
    requires wireType < 8 && 1 <= iter.fields[i].tag < TAG_LIMIT
    requires s.Rest() == EncTag(wireType, iter.fields[i].tag) + t
    modifies s, iter
    ensures s.Valid() && s.Conserved(true) && s.Rest() == t && iter.Valid() && iter.pos == i && readType == wireType
  {
    var ok, number, eof, found;
    DecTagInverse(wireType, iter.fields[i].tag, t);
    ok, readType, number, eof := DecodeTag(s);
    found := iter.Find(number);
    assert found && iter.fields[iter.pos].tag == iter.fields[i].tag;
  }
}
