/**
 Messages in a stream: behind a length, or before a zero byte.
 */
module Framing {
  import opened Wire
  import opened Descriptors
  import opened Encoding
  import opened Decoding
  import opened Composition
  import opened Merging
  import opened RoundTrip

  function EncDelimited(schema: Schema, m: Msg): bytes
    requires TypedMsg(schema, m)
  {
    EncString(EncMsg(schema, m))
  }

  /** A delimited message is read back, and nothing after it is touched. */
  lemma DelimitedInverse(schema: Schema, m: Msg, t: bytes)
    requires Valid(schema, m)
    ensures DecDelimited(schema, m.desc, EncDelimited(schema, m) + t) == Ok(Rebuilt(schema, m), t)
  {
    DecStringInverse(EncMsg(schema, m), t);
    RoundTripMsg(schema, m);
  }

  function EncStream(schema: Schema, ms: seq<Msg>): bytes
    requires forall m :: m in ms ==> TypedMsg(schema, m)
  {
    if ms == [] then [] else
      assert ms[0] in ms;
      EncDelimited(schema, ms[0]) + EncStream(schema, ms[1..])
  }

  /** Delimited messages of one type, to the end of the stream. */
  function DecStream(schema: Schema, d: nat, s: bytes): Parsed<seq<Msg>>
    requires d < |schema|
    decreases |s|
  {
    if s == [] then Ok([], [])
    else
      var (p, rest) :- DecString(s);
      var (m, _) :- Decode(schema, d, p);
      var (ms, end) :- DecStream(schema, d, rest);
      Ok([m] + ms, end)
  }

  function RebuiltAll(schema: Schema, ms: seq<Msg>): seq<Msg>
    requires forall m :: m in ms ==> TypedMsg(schema, m)
  {
    if ms == [] then [] else
      assert ms[0] in ms;
      [Rebuilt(schema, ms[0])] + RebuiltAll(schema, ms[1..])
  }

  lemma StreamStep(schema: Schema, m: Msg, t: bytes)
    requires Valid(schema, m) && DecStream(schema, m.desc, t).Ok?
    ensures DecStream(schema, m.desc, EncDelimited(schema, m) + t) ==
            Ok([Rebuilt(schema, m)] + DecStream(schema, m.desc, t).value, DecStream(schema, m.desc, t).rest)
  {
    DecStringInverse(EncMsg(schema, m), t);
    RoundTripMsg(schema, m);
  }

  /** A concatenation of delimited messages is read back as that list of messages. */
  lemma {:induction false} StreamInverse(schema: Schema, d: nat, ms: seq<Msg>)
    requires d < |schema| && forall m :: m in ms ==> Valid(schema, m) && m.desc == d
    ensures forall m :: m in ms ==> TypedMsg(schema, m)
    ensures DecStream(schema, d, EncStream(schema, ms)) == Ok(RebuiltAll(schema, ms), [])
  {
    if ms != [] {
      assert ms[0] in ms;
      StreamInverse(schema, d, ms[1..]);
      StreamStep(schema, ms[0], EncStream(schema, ms[1..]));
    }
  }

  /** A zero byte ends a message: it is read back, and what follows the zero is left unread. */
  lemma NullTerminatedInverse(schema: Schema, m: Msg, junk: bytes)
    requires Valid(schema, m)
    ensures Decode(schema, m.desc, EncMsg(schema, m) + [0] + junk) == Ok(Rebuilt(schema, m), junk)
  {
    var t := [0] + junk;
    RoundTripThen(schema, m, t);
    SeenAll(schema[m.desc], |m.slots|);
    assert t[0] == 0 && t[1..] == junk;
    ConcatAssociates(EncMsg(schema, m), [0], junk);
  }
}
