/**
 * Uses of `circular_buffer_lockfree` by a single client, stated against the
 * model: bytes come out in the order they went in, across the physical end of
 * the storage and across several calls.
 */
module BufferScenarios {
  import opened Uint32
  import opened PowerOfTwo
  import opened CircularBufferLockfree

  /** First in, first out: a `Put` of bytes that fit, followed by a `Get` of
      everything, hands back the bytes that were unread before and then the new
      ones, and leaves the buffer empty. */
  method PutThenGet(b: CircularBuffer, src: seq<bv8>, dst: array<bv8>) returns (out: seq<bv8>)
    requires b.Valid()
    requires |b.Contents| + |src| <= b.size
    requires dst.Length == |b.Contents| + |src| && dst != b.buffer
    modifies b, b.buffer, dst
    ensures b.Valid()
    ensures out == old(b.Contents) + src
    ensures b.Contents == [] && b.IsEmpty()
  {
    var put := b.Put(src, |src|);
    assert src[..put] == src;
    var got := b.Get(dst, dst.Length);
    out := dst[..got];
  }

  /** A capacity-8 buffer driven across the end of its storage: put 1..6, get 4,
      put 7..11, get 7. Of the last five bytes put, 7 and 8 land in slots 6 and 7
      and 9, 10, 11 in slots 0 to 2. */
  method WraparoundScenario() returns (first: seq<bv8>, second: seq<bv8>, storage: seq<bv8>)
    ensures first == [1, 2, 3, 4]
    ensures second == [5, 6, 7, 8, 9, 10, 11]
    ensures |storage| == 8 && storage[6..] == [7, 8] && storage[..3] == [9, 10, 11]
  {
    SmallRoundups();
    var b := new CircularBuffer(8);
    var out := new bv8[8];
    first := PutSixGetFour(b, out);
    second := PutAcrossEnd(b, out);
    storage := b.buffer[..];
  }

  /** The first half of `WraparoundScenario`: put 1..6 into a fresh buffer and get 4. */
  method PutSixGetFour(b: CircularBuffer, out: array<bv8>) returns (first: seq<bv8>)
    requires b.Valid() && b.size == 8 && b.Contents == [] && b.cursorIn == 0
    requires out.Length == 8 && out != b.buffer
    modifies b, b.buffer, out
    ensures b.Valid() && b.size == 8 && b.buffer == old(b.buffer)
    ensures b.Contents == [5, 6] && b.cursorIn == 6
    ensures first == [1, 2, 3, 4]
  {
    var n1 := b.Put([1, 2, 3, 4, 5, 6], 6);
    assert b.Contents == [1, 2, 3, 4, 5, 6];
    var g1 := b.Get(out, 4);
    assert g1 == 4;
    first := out[..4];
  }

  /** The second half of `WraparoundScenario`: with 5 and 6 unread and `_in` at 6,
      put 7..11, which wraps to slot 0 after two bytes, and get all seven. */
  method PutAcrossEnd(b: CircularBuffer, out: array<bv8>) returns (second: seq<bv8>)
    requires b.Valid() && b.size == 8 && b.Contents == [5, 6] && b.cursorIn == 6
    requires out.Length == 8 && out != b.buffer
    modifies b, b.buffer, out
    ensures b.buffer.Length == 8 && b.buffer[6..] == [7, 8] && b.buffer[..3] == [9, 10, 11]
    ensures second == [5, 6, 7, 8, 9, 10, 11]
  {
    var n2 := b.Put([7, 8, 9, 10, 11], 5);
    assert b.Contents == [5, 6, 7, 8, 9, 10, 11];
    assert Slot(6, 8) == 6;
    var g2 := b.Get(out, 7);
    second := out[..7];
  }

  lemma SmallRoundups()
    ensures RoundupPowOfTwo(3) == 4 && RoundupPowOfTwo(8) == 8
  {}

  /** A capacity-3 request gets 4 slots; a full buffer takes nothing more, and an
      empty one gives nothing. */
  method FullAndEmptyScenario() returns (accepted: u32, refused: u32, delivered: u32)
    ensures accepted == 4 && refused == 0 && delivered == 0
  {
    SmallRoundups();
    var b := new CircularBuffer(3);
    assert b.size == 4;
    accepted := b.Put([1, 2, 3, 4, 5], 5);
    refused := b.Put([6], 1);
    var out := new bv8[8];
    var got := b.Get(out, 8);
    delivered := b.Get(out, 8);
  }

  /** A `Put` into a full buffer accepts nothing and leaves the storage as it was. */
  method PutIntoFull(b: CircularBuffer, src: seq<bv8>, len: u32) returns (n: u32)
    requires b.Valid() && |b.Contents| == b.size && len <= |src|
    modifies b, b.buffer
    ensures n == 0 && b.buffer[..] == old(b.buffer[..]) && b.Contents == old(b.Contents)
  {
    n := b.Put(src, len);
    PlacedNothing(old(b.buffer[..]), src, Slot(old(b.cursorIn), b.size));
  }

  /** A `Get` from an empty buffer hands out nothing and leaves `dst` as it was. */
  method GetFromEmpty(b: CircularBuffer, dst: array<bv8>, len: u32) returns (n: u32)
    requires b.Valid() && b.Contents == [] && len <= dst.Length && dst != b.buffer
    modifies b, dst
    ensures n == 0 && dst[..] == old(dst[..]) && b.Contents == []
  {
    n := b.Get(dst, len);
  }
}
