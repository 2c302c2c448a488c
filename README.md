# circular_buffer_lockfree in Dafny

A model of `chrix::circular_buffer_lockfree` (`circular_buffer_lockfree.hpp`), a
bounded byte FIFO in the style of the Linux kernel's `kfifo`.

The buffer owns a storage array whose capacity is the requested size rounded up
to a power of two. Two free-running `uint32_t` cursors track it:

- `_in` counts the bytes ever put.
- `_out` counts the bytes ever got.

Their wrapped difference `_in - _out` is the fill level. Logical position `p`
lives in slot `p & (_size - 1)`. `Put` copies `min(len, free space)` bytes in, and
`Get` copies `min(len, unread)` bytes out. Each copy is done as one or two
`memcpy` runs, split where the range crosses the physical end of the storage.

The project has four modules:

- `Uint32` (`uint32.dfy`): `uint32_t` arithmetic over integers.
  - `Sub` and `Add` wrap modulo 2^32.
  - `Min` is `std::min`.
  - `BitAnd` is `&` on naturals.
  - Lemmas show that masking with `2^k - 1` is reduction modulo `2^k`, and that
    this survives the 2^32 wrap of the cursors.
- `PowerOfTwo` (`power_of_two.dfy`): the capacity normaliser on 32-bit words,
  exactly as the C++ computes it: `is_power_of_2`, `hightest_one_bit` and
  `roundup_pow_of_two`.
- `CircularBufferLockfree` (`circular_buffer_lockfree.dfy`): the class.
  - The fields are `buffer`, `size`, `cursorIn` and `cursorOut`.
  - Three ghost fields hold the abstract state:
    - `Contents`: the unread bytes, oldest first.
    - `TotalIn` and `TotalOut`: unbounded counts of bytes ever put and got. The
      cursors are these counts modulo 2^32.
  - `Valid()` ties these together. The capacity is 0 or a power of two. At most
    `size` bytes are unread. The unread byte at logical position `p` sits in slot
    `p mod size`.
  - `Put` and `Get` are methods that copy with a `memcpy` loop (`MemCopy`).
    They are proved against the abstract contents and against `Placed`, a
    sequence function describing what `Put` leaves in the storage.
- `BufferScenarios` (`scenarios.dfy`): client-side uses:
  - the FIFO round trip;
  - a run across the physical end of a capacity-8 buffer;
  - full-buffer and empty-buffer behaviour.

Where the code and the buffer's intended behaviour differ, the model follows the
code:

- `roundup_pow_of_two(num)` gives the smallest power of two at or above `num`
  only for `num <= 2^31`. Above that, `(num - 1) << 1` drops the top bit, so the
  result is a power of two below `num` (for example `0x4000_0000` for
  `0xC000_0000`), except for `0x8000_0001` alone, which gives 0. A capacity of 0 is harmless: the mask
  `_size - 1` is then all ones, and every `Put` and `Get` moves 0 bytes.
- `empty()` is `_in <= _out` on the raw cursors. It is also true of a non-empty
  buffer whose `_in` has wrapped past 2^32 while `_out` has not (see
  "## Findings").

## Model

| member | source | states |
|---|---|---|
| Uint32.Sub | circular_buffer_lockfree.hpp:64 | `a - b` on `uint32_t`: the true difference when `b <= a`, otherwise that difference plus 2^32 |
| Uint32.Add | circular_buffer_lockfree.hpp:38 | `a + b` on `uint32_t`: the true sum below 2^32, otherwise that sum minus 2^32 |
| Uint32.AddSubInverse | circular_buffer_lockfree.hpp:38 | wrapping addition and subtraction of the same amount undo each other |
| Uint32.Min | circular_buffer_lockfree.hpp:27 | `std::min`: the result is one of the two arguments and at most both |
| Uint32.BitAnd | circular_buffer_lockfree.hpp:33-34 | `&` on naturals: the result is at most each operand, so `_in & (_size - 1)` never exceeds `_size - 1`; `MaskIsRemainder` ties it to reduction modulo `_size` |
| Uint32.MaskIsRemainder | circular_buffer_lockfree.hpp:33-34 | masking `p` with `2^k - 1` gives `p mod 2^k` |
| Uint32.WrapKeepsRemainder | circular_buffer_lockfree.hpp:33 | reducing modulo 2^32 first does not change the remainder modulo a power of two up to 2^32, so masking a wrapped cursor picks the same slot |
| Uint32.Pow2AtMostHalfModulus | circular_buffer_lockfree.hpp:86 | a power of two that fits in `uint32_t` is at most 2^31 |
| PowerOfTwo.IsPowerOfTwo | circular_buffer_lockfree.hpp:68-71 | `is_power_of_2(num)` holds exactly for the 32 single-bit words `1, 2, 4, …, 2^31`, and never for 0 |
| PowerOfTwo.IsPowerOfTwoExactly | circular_buffer_lockfree.hpp:68-71 | `is_power_of_2(num)` holds exactly when `num` is `1 << k` for some `k < 32` |
| PowerOfTwo.Smear | circular_buffer_lockfree.hpp:74-78 | the five shift-or steps give an all-ones-below word `r` (`r & (r + 1) == 0`) with `num <= r` and `r >> 1 < num` for nonzero `num` |
| PowerOfTwo.HighestOneBit | circular_buffer_lockfree.hpp:72-80 | the result is 0 for 0, and otherwise the largest power of two not above `num` |
| PowerOfTwo.RoundupPowOfTwo | circular_buffer_lockfree.hpp:81-84 | 1 for `num <= 1`; for `num <= 2^31` the smallest power of two at or above `num`; above 2^31, a power of two below `num`, or 0 exactly for `0x8000_0001` |
| PowerOfTwo.RoundupExamples | circular_buffer_lockfree.hpp:81-84 | 0 and 1 give 1, 8 gives 8, 10 gives 16, 16 gives 16, 2^31 gives 2^31, `0x8000_0001` gives 0, `0xC000_0000` gives `0x4000_0000` |
| PowerOfTwo.WordIsPow2 | circular_buffer_lockfree.hpp:15 | a word that passes `is_power_of_2`, read as an integer, is `2^k` with `k < 32`; this makes the constructor's capacity valid for the mask |
| PowerOfTwo.WordExponent | circular_buffer_lockfree.hpp:15 | the exponent `k < 32` of a power-of-two word |
| CircularBufferLockfree.Slot | circular_buffer_lockfree.hpp:33 | `p & (size - 1)` with a `uint32_t` subtraction is `p mod size` for a power-of-two `size`, and `p` itself for `size == 0` |
| CircularBufferLockfree.MemCopy | circular_buffer_lockfree.hpp:34-35 | after the copy, `dst` is `CopyInto` of its old contents: bytes `srcStart..` of `src` in `dstStart..dstStart+count`, every other byte unchanged |
| CircularBufferLockfree.CircularBuffer.constructor | circular_buffer_lockfree.hpp:13-17 | capacity `roundup_pow_of_two(num)`, fresh storage of that length, both cursors 0, nothing unread, invariant established |
| CircularBufferLockfree.CircularBuffer.Put | circular_buffer_lockfree.hpp:25-42 | returns `min(len, size - unread)`; appends exactly that prefix of `src` to the contents; advances `_in` by it with wrap-around; leaves `_out`, the size and the storage array unchanged; the storage becomes `Placed` of the old storage; the invariant is preserved |
| CircularBufferLockfree.CircularBuffer.Get | circular_buffer_lockfree.hpp:44-61 | returns `min(len, unread)`; `dst[..n]` is the oldest `n` unread bytes, the rest of `dst` is unchanged; drops those bytes from the contents; advances `_out` by `n` with wrap-around; leaves `_in` and the storage unchanged; the invariant is preserved |
| CircularBufferLockfree.CircularBuffer.ContentsAtSlots | circular_buffer_lockfree.hpp:51-52 | the `i`-th unread byte is in slot `(_out + i) & (_size - 1)`, computed with `uint32_t` arithmetic as the source does; with `Get`'s `dst[..n]` this gives `dst[i]` from that slot |
| CircularBufferLockfree.CircularBuffer.Size | circular_buffer_lockfree.hpp:63 | `size()` is 0 or a power of two and bounds the unread bytes |
| CircularBufferLockfree.CircularBuffer.Length | circular_buffer_lockfree.hpp:64 | `length()` (`_in - _out` in `uint32_t`) is the number of unread bytes and lies in `[0, size]` |
| CircularBufferLockfree.CircularBuffer.Empty | circular_buffer_lockfree.hpp:65 | `empty()` (`_in <= _out`) is true exactly when nothing is unread or the count behind `_in` has crossed more multiples of 2^32 than the count behind `_out` |
| CircularBufferLockfree.CircularBuffer.EmptyMisjudges | circular_buffer_lockfree.hpp:65 | with 2^32 - 4 bytes already passed through and 8 more put, `empty()` is true although 8 bytes are unread |
| CircularBufferLockfree.CircularBuffer.IsEmpty | circular_buffer_lockfree.hpp:65 | the test `_in == _out` holds exactly when nothing is unread |
| CircularBufferLockfree.CircularBuffer.Conservation | circular_buffer_lockfree.hpp:64 | bytes put = bytes got + `length()`, and `length() <= size()` |
| CircularBufferLockfree.PlacedAtSlots | circular_buffer_lockfree.hpp:33-35 | the storage `Put` leaves has `src[i]` in slot `(_in + i) & (_size - 1)` for each `i < n`, and every other slot as it was |
| CircularBufferLockfree.PlacedNothing | circular_buffer_lockfree.hpp:27-35 | a `Put` that accepts 0 bytes (full buffer or `len == 0`) leaves the storage unchanged |
| CircularBufferLockfree.CopiesPlace | circular_buffer_lockfree.hpp:33-35 | the first copy of `l = min(n, size - off)` bytes at slot `off` and the second of `n - l` bytes at slot 0 together give `Placed` |
| CircularBufferLockfree.GetStep | circular_buffer_lockfree.hpp:51-53 | the two copies out of the storage fill `dst[..n]` with the oldest `n` unread bytes, leave `dst[n..]` alone, and leave the remaining unread bytes laid out from position `_out + n` |
| CircularBufferLockfree.AppendKeepsLayout | circular_buffer_lockfree.hpp:33-38 | after `Put`, the old unread bytes followed by the `n` accepted bytes sit from position `_out` on |
| CircularBufferLockfree.SubOfCounts | circular_buffer_lockfree.hpp:27 | the wrapped difference of the two cursors is the true difference of the counts while that is below 2^32 |
| CircularBufferLockfree.AddOfCount | circular_buffer_lockfree.hpp:38 | `fetch_add` on a cursor keeps it equal to the advanced count modulo 2^32 |
| CircularBufferLockfree.SlotOfCount | circular_buffer_lockfree.hpp:33 | the slot computed from the wrapped cursor advanced by `i` is `(count + i) mod size` |
| CircularBufferLockfree.EmptyOfCounts | circular_buffer_lockfree.hpp:65 | `_in <= _out` on the wrapped cursors holds exactly when the counts are equal or only `_in`'s has wrapped further |
| BufferScenarios.PutThenGet | circular_buffer_lockfree.hpp:25-61 | FIFO: a `Put` of bytes that fit, then a `Get` of everything, returns the old unread bytes followed by the new ones and leaves the buffer empty |
| BufferScenarios.WraparoundScenario | circular_buffer_lockfree.hpp:25-61 | capacity 8: put 1..6, get 4 gives 1..4; put 7..11 puts 7, 8 in slots 6, 7 and 9, 10, 11 in slots 0..2; get 7 gives 5..11 |
| BufferScenarios.PutSixGetFour | circular_buffer_lockfree.hpp:25-61 | the first half of the wraparound run |
| BufferScenarios.PutAcrossEnd | circular_buffer_lockfree.hpp:25-61 | the second half of the wraparound run, including the slots the wrapped put fills |
| BufferScenarios.FullAndEmptyScenario | circular_buffer_lockfree.hpp:13-61 | a request for 3 gets capacity 4; 4 of 5 bytes are accepted; a full buffer accepts 0; an emptied buffer delivers 0 |
| BufferScenarios.PutIntoFull | circular_buffer_lockfree.hpp:27-35 | `Put` into a full buffer returns 0 and leaves storage and contents unchanged |
| BufferScenarios.GetFromEmpty | circular_buffer_lockfree.hpp:46-53 | `Get` from an empty buffer returns 0 and leaves `dst` unchanged |

## Findings

| source | as written | input that shows it | evidently intended | confidence | as-written member | corrected member |
|---|---|---|---|---|---|---|
| circular_buffer_lockfree.hpp:65 | `empty()` returns `_in <= _out` on cursors that wrap at 2^32 | capacity 16, 2^32 - 4 bytes put and got, then 8 more put: `_in = 4`, `_out = 2^32 - 4`, 8 bytes unread, `empty()` is true | true exactly when nothing is unread (`_in == _out`) | not executed | CircularBufferLockfree.CircularBuffer.EmptyMisjudges | CircularBufferLockfree.CircularBuffer.IsEmpty |

## Left out

- The atomics (`std::atomic` loads, `fetch_add`) and their memory orderings are left out. The object is modelled as one sequential owner, so the producer/consumer happens-before guarantees are not stated.
- Heap allocation failure in the constructor is left out.
- The destructor is left out. It frees the storage only when the pointer is null, so the storage is never released. Dafny's garbage-collected heap has no counterpart to this leak.
- `memcpy` is modelled as a byte loop (`MemCopy`), not as a library call.
- Only the byte (`uint8_t`) buffer exists in this source, and only it is modelled. There is no generic element type.
- The cursors and the capacity are integers in `[0, 2^32)` with explicit wrap-around. `&` is an integer `BitAnd`. The normaliser's shifts and masks are on `bv32`.
- CircularBufferLockfree.CircularBuffer.Get requires `dst != buffer`. The source would call `memcpy` on overlapping memory here, which is undefined behaviour.
- CircularBufferLockfree.CircularBuffer.Put takes its source bytes as a sequence. Reading through a pointer the caller may alias with the storage is not modelled.
- CircularBufferLockfree.CircularBuffer.Get states the slot each `dst[i]` comes from through `ContentsAtSlots`, not in its own postcondition.
