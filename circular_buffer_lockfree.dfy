/**
 * `chrix::circular_buffer_lockfree`: a bounded byte FIFO in the style of the
 * Linux kernel's kfifo. The storage is a power-of-two array; two free-running
 * `uint32_t` cursors count the bytes ever put (`_in`) and ever got (`_out`),
 * their wrapped difference is the fill level, and logical position `p` lives in
 * slot `p & (_size - 1)`.
 *
 * The object is modelled sequentially: the atomic loads and stores, and the
 * memory orderings that let one producer and one consumer share it, are not
 * part of this model.
 */
module CircularBufferLockfree {
  import opened Uint32
  import opened PowerOfTwo

  /** The slot of logical position `p`: `p & (size - 1)`, where `size - 1` is a
      `uint32_t` subtraction, so a capacity of 0 gives the all-ones mask. */
  function Slot(p: u32, size: u32): (r: u32)
    requires size == 0 || IsPow2(size)
    ensures size == 0 ==> r == p
    ensures 0 < size ==> r == p % size
  {
    MaskFacts(p, size);
    BitAnd(p, Sub(size, 1))
  }

  lemma MaskFacts(p: u32, size: u32)
    requires size == 0 || IsPow2(size)
    ensures size == 0 ==> BitAnd(p, Sub(size, 1)) == p
    ensures 0 < size ==> BitAnd(p, Sub(size, 1)) == p % size
  {
    if size == 0 {
      assert Sub(size, 1) == Modulus - 1;
      Pow2Of32();
      MaskIsRemainder(p, 32);
      ModUnique(p, Modulus, 0, p);
    } else {
      var k :| 0 <= k < 32 && size == Pow2(k);
      assert Sub(size, 1) == Pow2(k) - 1;
      MaskIsRemainder(p, k);
    }
  }

  /** `dst` after `memcpy(dst + dstStart, src + srcStart, count)`. */
  ghost function CopyInto(dst: seq<bv8>, dstStart: nat, src: seq<bv8>, srcStart: nat, count: nat): (r: seq<bv8>)
    requires count == 0 || (dstStart + count <= |dst| && srcStart + count <= |src|)
    ensures |r| == |dst|
    ensures forall j :: dstStart <= j < dstStart + count ==> r[j] == src[srcStart + (j - dstStart)]
    ensures forall j :: 0 <= j < |r| && !(dstStart <= j < dstStart + count) ==> r[j] == dst[j]
  {
    seq(|dst|, j requires 0 <= j < |dst| =>
      if dstStart <= j < dstStart + count then src[srcStart + (j - dstStart)] else dst[j])
  }

  /** `memcpy(dst + dstStart, src + srcStart, count)`, byte by byte. */
  method MemCopy(dst: array<bv8>, dstStart: nat, src: seq<bv8>, srcStart: nat, count: nat)
    requires count == 0 || (dstStart + count <= dst.Length && srcStart + count <= |src|)
    modifies dst
    ensures dst[..] == CopyInto(old(dst[..]), dstStart, src, srcStart, count)
  {
    var k := 0;
    while k < count
      invariant 0 <= k <= count
      invariant forall j :: dstStart <= j < dstStart + k ==> dst[j] == src[srcStart + (j - dstStart)]
      invariant forall j :: 0 <= j < dst.Length && !(dstStart <= j < dstStart + k) ==> dst[j] == old(dst[j])
    {
      dst[dstStart + k] := src[srcStart + k];
      k := k + 1;
    }
    assert dst[..] == CopyInto(old(dst[..]), dstStart, src, srcStart, count);
  }

  class CircularBuffer {
    /** `_buffer`: the storage, one byte per slot. */
    var buffer: array<bv8>
    /** `_size`: the capacity, fixed at construction. */
    var size: u32
    /** `_in`: where the producer writes next. */
    var cursorIn: u32
    /** `_out`: where the consumer reads next. */
    var cursorOut: u32

    /** The unread bytes, oldest first. */
    ghost var Contents: seq<bv8>
    /** The number of bytes ever put and ever got; the cursors are these counts modulo 2^32. */
    ghost var TotalIn: nat
    ghost var TotalOut: nat

    /** The object invariant: a power-of-two capacity (or 0), at most `size` unread
        bytes, and the unread byte at logical position `p` stored in slot `p mod size`. */
    ghost predicate Valid()
      reads this, buffer
    {
      && (size == 0 || IsPow2(size))
      && buffer.Length == size
      && TotalOut <= TotalIn <= TotalOut + size
      && cursorIn == TotalIn % Modulus
      && cursorOut == TotalOut % Modulus
      && |Contents| == TotalIn - TotalOut
      && Layout(Contents, buffer[..], TotalOut, size)
    }

    /** The unread bytes sit at the slots the source computes, `(_out + i) & (_size - 1)`. */
    lemma ContentsAtSlots()
      requires Valid()
      ensures forall i :: 0 <= i < |Contents| ==> Contents[i] == buffer[Slot(Add(cursorOut, i), size)]
    {
      forall i | 0 <= i < |Contents|
        ensures Contents[i] == buffer[Slot(Add(cursorOut, i), size)]
      {
        assert Contents[i] == buffer[..][SlotAfter(TotalOut, i, size)];
        SlotOfCount(TotalOut, i, size);
      }
    }

    /** The constructor: capacity `roundup_pow_of_two(num)`, both cursors at 0.
        The destructor is not modelled (it frees the storage only when the pointer
        is null, so the storage is never released). */
    constructor (num: u32)
      ensures Valid() && fresh(buffer)
      ensures size == RoundupPowOfTwo(num as bv32) as int
      ensures cursorIn == 0 && cursorOut == 0
      ensures Contents == [] && TotalIn == 0 && TotalOut == 0
    {
      var capacity := RoundupPowOfTwo(num as bv32);
      if capacity != 0 {
        WordIsPow2(capacity);
      }
      size := capacity as int;
      buffer := new bv8[capacity as int];
      cursorIn, cursorOut := 0, 0;
      Contents, TotalIn, TotalOut := [], 0, 0;
    }

    /** `Put`: copies `min(len, free space)` bytes of `src` in behind the unread
        ones, in one or two runs split at the physical end of the storage. */
    method Put(src: seq<bv8>, len: u32) returns (n: u32)
      requires Valid()
      requires len <= |src|
      modifies this, buffer
      ensures Valid()
      ensures buffer == old(buffer) && size == old(size)
      ensures n == Min(len, size - |old(Contents)|)
      ensures Contents == old(Contents) + src[..n]
      ensures cursorIn == Add(old(cursorIn), n) && cursorOut == old(cursorOut)
      ensures TotalIn == old(TotalIn) + n && TotalOut == old(TotalOut)
      ensures buffer[..] == Placed(old(buffer[..]), src, Slot(old(cursorIn), size), n)
    {
      SubOfCounts(TotalIn, TotalOut);
      n := Min(len, Sub(size, Sub(cursorIn, cursorOut)));
      var off := Slot(cursorIn, size);
      var l := Min(n, Sub(size, off));
      ghost var before := buffer[..];
      MemCopy(buffer, off, src, 0, l);
      ghost var middle := buffer[..];
      MemCopy(buffer, 0, src, l, Sub(n, l));
      ghost var pos, filled := TotalIn, |Contents|;
      if size > 0 {
        OffsetOfCount(pos, size);
        CopiesPlace(before, middle, buffer[..], src, size, off, l, n);
        AppendKeepsLayout(Contents, src, n, before, buffer[..], TotalOut, pos, size);
      }
      cursorIn := Add(cursorIn, n);
      AddOfCount(pos, n);
      TotalIn := TotalIn + n;
      Contents := Contents + src[..n];
    }

    /** `Get`: copies `min(len, unread)` of the oldest bytes out into `dst`, in one
        or two runs split at the physical end of the storage. */
    method Get(dst: array<bv8>, len: u32) returns (n: u32)
      requires Valid()
      requires len <= dst.Length && dst != buffer
      modifies this, dst
      ensures Valid()
      ensures buffer == old(buffer) && size == old(size) && buffer[..] == old(buffer[..])
      ensures n == Min(len, |old(Contents)|)
      ensures dst[..n] == old(Contents)[..n] && Contents == old(Contents)[n..]
      ensures cursorOut == Add(old(cursorOut), n) && cursorIn == old(cursorIn)
      ensures TotalOut == old(TotalOut) + n && TotalIn == old(TotalIn)
      ensures dst[n..] == old(dst[n..])
    {
      SubOfCounts(TotalIn, TotalOut);
      n := Min(len, Sub(cursorIn, cursorOut));
      var off := Slot(cursorOut, size);
      var l := Min(n, Sub(size, off));
      ghost var before := dst[..];
      MemCopy(dst, 0, buffer[..], off, l);
      ghost var middle := dst[..];
      MemCopy(dst, l, buffer[..], 0, Sub(n, l));
      ghost var pos := TotalOut;
      if size > 0 {
        OffsetOfCount(pos, size);
        GetStep(Contents, buffer[..], before, middle, dst[..], pos, size, off, l, n);
      } else {
        assert dst[..] == before;
      }
      cursorOut := Add(cursorOut, n);
      AddOfCount(pos, n);
      TotalOut := TotalOut + n;
      Contents := Contents[n..];
    }

    /** `size()`: the capacity, which bounds the unread bytes. */
    function Size(): (r: u32)
      reads this, buffer
      requires Valid()
      ensures |Contents| <= r
      ensures r == 0 || IsPow2(r)
    {
      size
    }

    /** `length()`: `_in - _out` in `uint32_t`, which is the number of unread bytes. */
    function Length(): (r: u32)
      reads this, buffer
      requires Valid()
      ensures r == |Contents| && r <= size
    {
      SubOfCounts(TotalIn, TotalOut);
      Sub(cursorIn, cursorOut)
    }

    /** `empty()`: `_in <= _out` on the raw cursors. It is true of an empty buffer,
        and also of a non-empty one whose `_in` has wrapped past 2^32 while `_out`
        has not. */
    function Empty(): (r: bool)
      reads this, buffer
      requires Valid()
      ensures r <==> (Contents == [] || TotalOut / Modulus < TotalIn / Modulus)
    {
      EmptyOfCounts(TotalIn, TotalOut, size);
      cursorIn <= cursorOut
    }

    /** Once `_in` has wrapped past 2^32 and `_out` has not, `empty()` reports a
        buffer with unread bytes as empty. */
    lemma EmptyMisjudges()
      requires Valid() && TotalOut == Modulus - 4 && TotalIn == Modulus + 4
      ensures Empty() && |Contents| == 8
    {
      DivMod(TotalOut, Modulus);
      ModUnique(TotalIn, Modulus, 1, 4);
    }

    /** Emptiness as `_in == _out`, the test `empty()` evidently means: it holds
        exactly when nothing is unread, wrapped cursors or not. */
    function IsEmpty(): (r: bool)
      reads this, buffer
      requires Valid()
      ensures r <==> Contents == []
    {
      SubOfCounts(TotalIn, TotalOut);
      cursorIn == cursorOut
    }

    /** Every byte ever put has been got or is still unread, and the unread ones
        fit in the storage. */
    lemma Conservation()
      requires Valid()
      ensures TotalIn == TotalOut + Length() && Length() <= Size()
    {
      SubOfCounts(TotalIn, TotalOut);
    }
  }

  /** The unread bytes `contents` sit in `storage`, a ring of `size` slots, from
      the slot of logical position `outPos` on. */
  ghost predicate Layout(contents: seq<bv8>, storage: seq<bv8>, outPos: int, size: int)
  {
    && |contents| <= size == |storage|
    && forall i :: 0 <= i < |contents| ==> contents[i] == storage[SlotAfter(outPos, i, size)]
  }

  /** The storage after `Put` starting at slot `off` with `n` bytes of `src`: the slot
      `d` places after `off` around the ring holds `src[d]` when `d < n`, and every
      other slot keeps its byte. */
  ghost function Placed(before: seq<bv8>, src: seq<bv8>, off: int, n: int): (r: seq<bv8>)
    requires |before| == 0 || 0 <= off < |before|
    requires 0 <= n <= |before| && n <= |src|
    ensures |r| == |before|
  {
    seq(|before|, k requires 0 <= k < |before| =>
      var d := if off <= k then k - off else k - off + |before|;
      if d < n then src[d] else before[k])
  }

  /** Placing no bytes leaves the storage as it was. */
  lemma PlacedNothing(before: seq<bv8>, src: seq<bv8>, off: int)
    requires |before| == 0 || 0 <= off < |before|
    ensures Placed(before, src, off, 0) == before
  {
    var r := Placed(before, src, off, 0);
    forall k | 0 <= k < |before|
      ensures r[k] == before[k]
    {
    }
  }

  /** `Put` leaves `src[i]` in slot `(cursor + i) & (size - 1)` for each `i < n`, and
      every other slot as it was. */
  lemma PlacedAtSlots(before: seq<bv8>, src: seq<bv8>, cursor: u32, n: int, size: u32)
    requires size == 0 || IsPow2(size)
    requires |before| == size && 0 <= n <= size && n <= |src|
    ensures forall i :: 0 <= i < n ==>
              Placed(before, src, Slot(cursor, size), n)[Slot(Add(cursor, i), size)] == src[i]
    ensures forall i :: n <= i < size ==>
              Placed(before, src, Slot(cursor, size), n)[Slot(Add(cursor, i), size)] == before[Slot(Add(cursor, i), size)]
  {
    forall i | 0 <= i < size {
      PlacedAtSlot(before, src, cursor, n, size, i);
    }
  }

  lemma PlacedAtSlot(before: seq<bv8>, src: seq<bv8>, cursor: u32, n: int, size: u32, i: int)
    requires 0 < size && IsPow2(size)
    requires |before| == size && 0 <= n <= size && n <= |src| && 0 <= i < size
    ensures Placed(before, src, Slot(cursor, size), n)[Slot(Add(cursor, i), size)]
              == if i < n then src[i] else before[Slot(Add(cursor, i), size)]
  {
    var k :| 0 <= k < 32 && size == Pow2(k);
    AddOfCount(cursor, i);
    WrapKeepsRemainder(cursor + i, k);
    WrapOffset(cursor, i, size);
    var off, s := Slot(cursor, size), Slot(Add(cursor, i), size);
    assert s == if off + i < size then off + i else off + i - size;
  }

  /** The slot `i` positions after logical position `pos`, for a capacity `size > 0`. */
  ghost function SlotAfter(pos: int, i: int, size: int): (r: int)
    requires size > 0
  {
    (pos + i) % size
  }

  /** The two copies of `Put`, from slot `off` for `l` bytes and then from slot 0
      for the other `n - l`, leave `src[d]` in the slot `d` places after `off`
      around the ring for each `d < n`, and every other slot as it was. */
  lemma CopiesPlace(before: seq<bv8>, middle: seq<bv8>, after: seq<bv8>, src: seq<bv8>,
                    size: int, off: int, l: int, n: int)
    requires 0 < size && |before| == |middle| == |after| == size
    requires 0 <= off < size && 0 <= n <= size && n <= |src| && l == if n < size - off then n else size - off
    requires middle == CopyInto(before, off, src, 0, l)
    requires after == CopyInto(middle, 0, src, l, n - l)
    ensures after == Placed(before, src, off, n)
  {
    var r := Placed(before, src, off, n);
    forall k | 0 <= k < size
      ensures after[k] == r[k]
    {
      if off <= k < off + l {
        assert after[k] == middle[k] == src[k - off];
      } else if k < n - l {
        assert l == size - off && after[k] == src[l + k];
      } else {
        assert after[k] == middle[k] == before[k];
      }
    }
    assert after == r;
  }

  /** The slot `d` places after `pos mod size` around the ring is the slot of position `pos + d`. */
  lemma PlacedAfterCount(before: seq<bv8>, src: seq<bv8>, pos: nat, size: int, n: int)
    requires 0 < size == |before| && 0 <= n <= size && n <= |src|
    ensures forall j :: 0 <= j < n ==> Placed(before, src, pos % size, n)[SlotAfter(pos, j, size)] == src[j]
    ensures forall i :: n <= i < size ==>
              Placed(before, src, pos % size, n)[SlotAfter(pos, i, size)] == before[SlotAfter(pos, i, size)]
  {
    forall i | 0 <= i < size
      ensures SlotAfter(pos, i, size) == if pos % size + i < size then pos % size + i else pos % size + i - size
    {
      WrapOffset(pos, i, size);
    }
  }

  /** The two copies of `Get`, from slot `off = pos mod size` for `l` bytes and then
      from slot 0 for the other `n - l`, fill `dst[j]` from the slot `j` positions
      after `pos`, which holds the `j`-th unread byte; the rest of `dst` is untouched. */
  lemma GetStep(contents: seq<bv8>, storage: seq<bv8>, before: seq<bv8>, middle: seq<bv8>, after: seq<bv8>,
                pos: nat, size: int, off: int, l: int, n: int)
    requires 0 < size && |before| == |middle| == |after|
    requires 0 <= n <= |contents| && n <= |after|
    requires Layout(contents, storage, pos, size)
    requires off == pos % size && l == if n < size - off then n else size - off
    requires middle == CopyInto(before, 0, storage, off, l)
    requires after == CopyInto(middle, l, storage, 0, n - l)
    ensures after[..n] == contents[..n]
    ensures after[n..] == before[n..]
    ensures Layout(contents[n..], storage, pos + n, size)
  {
    forall j | 0 <= j < n
      ensures after[j] == contents[j]
    {
      WrapOffset(pos, j, size);
    }
    forall i | 0 <= i < |contents| - n
      ensures contents[n..][i] == storage[SlotAfter(pos + n, i, size)]
    {
      assert SlotAfter(pos + n, i, size) == SlotAfter(pos, n + i, size);
    }
  }

  /** If the unread bytes sit from position `outPos` on in `before`, and `Put` places `n`
      bytes of `src` from position `pos = outPos + |contents|` on, the unread bytes followed
      by those `n` sit from position `outPos` on in `after`. */
  lemma AppendKeepsLayout(contents: seq<bv8>, src: seq<bv8>, n: int, before: seq<bv8>, after: seq<bv8>,
                          outPos: nat, pos: nat, size: int)
    requires 0 < size == |before| && 0 <= n <= |src| && |contents| + n <= size
    requires pos == outPos + |contents|
    requires Layout(contents, before, outPos, size)
    requires after == Placed(before, src, pos % size, n)
    ensures Layout(contents + src[..n], after, outPos, size)
  {
    PlacedAfterCount(before, src, pos, size, n);
    AppendAt(contents, src[..n], before, after, outPos, pos, size);
  }

  lemma AppendAt(contents: seq<bv8>, added: seq<bv8>, before: seq<bv8>, after: seq<bv8>,
                 outPos: nat, pos: nat, size: int)
    requires 0 < size && |before| == |after| == size
    requires pos == outPos + |contents| && |contents| + |added| <= size
    requires Layout(contents, before, outPos, size)
    requires forall j :: 0 <= j < |added| ==> after[SlotAfter(pos, j, size)] == added[j]
    requires forall i :: |added| <= i < size ==> after[SlotAfter(pos, i, size)] == before[SlotAfter(pos, i, size)]
    ensures Layout(contents + added, after, outPos, size)
  {
    var filled := |contents|;
    forall i | 0 <= i < |contents + added|
      ensures (contents + added)[i] == after[SlotAfter(outPos, i, size)]
    {
      if i < filled {
        ModAddPeriod(outPos + i, size);
        assert SlotAfter(outPos, i, size) == SlotAfter(pos, size - filled + i, size);
      } else {
        assert SlotAfter(outPos, i, size) == SlotAfter(pos, i - filled, size);
      }
    }
  }

  /** The slot the source computes for the cursor is the offset of position `pos`. */
  lemma OffsetOfCount(pos: nat, size: u32)
    requires 0 < size && IsPow2(size)
    ensures Slot(pos % Modulus, size) == pos % size
  {
    SlotOfCount(pos, 0, size);
  }

  /** The cursor after `pos` bytes, advanced by `i`, is the cursor after `pos + i` bytes. */
  lemma AddOfCount(pos: nat, i: u32)
    ensures Add(pos % Modulus, i) == (pos + i) % Modulus
  {
    DivMod(pos, Modulus);
    var q, r := pos / Modulus, pos % Modulus;
    if r + i < Modulus {
      ModUnique(pos + i, Modulus, q, r + i);
    } else {
      ModUnique(pos + i, Modulus, q + 1, r + i - Modulus);
    }
  }

  /** The wrapped difference of two cursors is the true difference of the counts,
      as long as it is below 2^32. */
  lemma SubOfCounts(a: nat, b: nat)
    requires b <= a < b + Modulus
    ensures Sub(a % Modulus, b % Modulus) == a - b
  {
    DivMod(a, Modulus);
    DivMod(b, Modulus);
    var qa, qb := a / Modulus, b / Modulus;
    if qa > qb + 1 {
      assert false;
    } else if qa < qb {
      assert false;
    }
  }

  /** `_in <= _out` holds exactly when nothing is unread or `_in` alone has wrapped. */
  lemma EmptyOfCounts(a: nat, b: nat, size: int)
    requires b <= a <= b + size && (size == 0 || IsPow2(size))
    ensures a % Modulus <= b % Modulus <==> (a == b || b / Modulus < a / Modulus)
  {
    if size > 0 {
      Pow2AtMostHalfModulus(size);
    }
    DivMod(a, Modulus);
    DivMod(b, Modulus);
  }

  /** The slot of logical position `pos + i`, computed from the cursor `pos mod 2^32`. */
  lemma SlotOfCount(pos: nat, i: u32, size: u32)
    requires 0 < size && IsPow2(size)
    ensures Slot(Add(pos % Modulus, i), size) == (pos + i) % size
  {
    var k :| 0 <= k < 32 && size == Pow2(k);
    AddOfCount(pos, i);
    WrapKeepsRemainder(pos + i, k);
  }

  /** Position `pos + j` is `j` slots after position `pos`, wrapping once at the end. */
  lemma WrapOffset(pos: nat, j: int, m: int)
    requires m > 0 && 0 <= j < m
    ensures (pos + j) % m == if pos % m + j < m then pos % m + j else pos % m + j - m
  {
    DivMod(pos, m);
    var q, r := pos / m, pos % m;
    if r + j < m {
      ModUnique(pos + j, m, q, r + j);
    } else {
      MulAdd(m, q, 1);
      ModUnique(pos + j, m, q + 1, r + j - m);
    }
  }

  lemma ModAddPeriod(x: nat, m: int)
    requires m > 0
    ensures (x + m) % m == x % m
  {
    DivMod(x, m);
    MulAdd(m, x / m, 1);
    ModUnique(x + m, m, x / m + 1, x % m);
  }
}
