/**
 Encoder and decoder together: a struct is written to a buffer and read back from it into other memory.
 */
module Codec {
  import opened Bits
  import opened Wire
  import opened Descriptors
  import opened Encoding
  import opened Normal
  import opened Merging
  import opened RoundTrip
  import opened Encoder
  import opened Input
  import opened Memory
  import opened Agreement
  import opened Allocation
  import opened Decoder

  /** What the encoder has left in the buffer, when it succeeds. */
  lemma WrittenExactly(s: bytes, encoding: bytes)
    requires s <= encoding && |s| == |encoding|
    ensures s == encoding
  {}

  /**
   The bytes that are written to a buffer of `size` bytes are decoded into memory that may hold anything. If they
   fit and no allocation fails, the two halves of the struct that is read agree, and its data are those of the struct
   that was written, in normal form, up to submessages that the zero check took for empty.
   */
  method Transfer(buf: array<byte>, size: nat, heap: Heap, schema: Schema, m: Msg, storage: Node, ghost frame: multiset<nat>)
    returns (written: bool, read: bool, m': Msg, node: Node)
    requires size <= buf.Length && TypedMsg(schema, m) && |EncMsg(schema, m)| < TWO_64
    requires LaidOut(schema, storage) && storage.desc == m.desc && heap.Valid() && heap.live == frame
    modifies buf, heap
    ensures written <==> EncodableMsg(schema, m) && |EncMsg(schema, m)| <= size
    ensures written && |EncMsg(schema, m)| < TWO_32 && heap.failures == old(heap.failures) ==>
              && read && m' == Rebuilt(schema, m) && Agrees(schema, m', node)
              && (m' == Norm(schema, m) <==> Honest(schema, m))
              && heap.live == frame + Blocks(node)
  {
    var n;
    written, n := EncodeToBuffer(buf, size, schema, m);
    read, m', node := false, m, storage;
    if !written {
      return;
    }
    WrittenExactly(buf[..n], EncMsg(schema, m));
    var s := new IStream.FromBuffer(buf, n);
    if |EncMsg(schema, m)| < TWO_32 {
      RoundTripMsg(schema, m);
    }
    var stale;
    read, m', node, stale := DecodeMessage(s, heap, schema, storage, frame);
  }
}
