# libCircularBuffer in Dafny

A model of the byte ring buffer of `Src/CircularBuffer.c`. The buffer is a
FIFO of bytes over a storage region that the caller supplies. It keeps a
capacity `nBufferSize` and three counters: `nCount` (bytes held), `nHead`
(where the next pop reads) and `nTail` (where the next push writes). It has
four operations:

- `circularBufferInitialize`
- `circularBufferClear`
- `circularBufferPush`, which copies bytes in
- `circularBufferPop`, which copies bytes out

Each operation returns 0 or an errno code. A push or pop that crosses the
end of storage is split into two `memcpy` calls.

The model is functional. The record is an immutable `CircularBuffer` value,
and each operation is a pure function from the old record to a status and
the new record (`LibCircularBuffer`). The bytes of the storage region are a
`seq<bv8>`, and a `memcpy` is a sequence update. A C pointer is `Ptr<T>`:
either `Null`, or `Ref` of what it points at. `Valid` is the representation
invariant:

- the count is at most the capacity;
- both indices lie in `[0, cap]` (the code can leave an index equal to `cap`);
- `nTail ≡ nHead + nCount (mod cap)`.

`Contents` is the abstraction function. It returns the buffered bytes,
oldest first: `storage[(nHead + i) mod cap]` for `i < nCount`.

Module layout:

- `Ring` (ring.dfy): index arithmetic and the two wrap-aware copies.
- `LibCircularBuffer` (circular_buffer.dfy): the record, the four
  operations, and the lemmas that relate push and pop to `Contents`.
- `Fifo` (fifo.dfy): a bounded FIFO queue defined directly, without
  indices. It also shows that the buffer, seen through `Contents`, behaves
  like that queue one operation at a time and over any sequence of
  operations, and that bytes come out in the order they went in.
- `Uint32Guards` (uint32_guards.dfy): the code's 32-bit sums, where they
  agree with the unbounded model, and where they do not (see Findings).
- `Scenarios` (scenarios.dfy): the unit-test scenarios on a 100-byte
  buffer, stated for all storage contents and payloads.

Status codes follow the code. Success is 0. `EINVAL` covers a NULL pointer
or a zero length. `ENOMEM` covers a push that does not fit and a pop of more
than is held. A pop from an empty buffer gets `ENOMEM` too. The model uses
the Linux errno numbers (`EINVAL` = 22, `ENOMEM` = 12); the header takes
them from `<errno.h>`. The unit tests also use `LIBCB_SUCCESS`,
`LIBCB_BUFFEROVERFLOW` and `LIBCB_BUFFEREMPTY`, and no shown header defines
them. The model reads them as 0, `ENOMEM` and `ENOMEM`.

Three facts about the code shape the model:

- An index is not reduced to `[0, cap)`. A straight copy that ends exactly
  at the end of storage leaves its index at `cap` (Src/CircularBuffer.c:100,
  :146), and the tests check `nTail == 100` and `nHead == 100` on a 100-byte
  buffer. `Valid` therefore allows indices in `[0, cap]`.
- The tests use two distinct macros, `LIBCB_BUFFEROVERFLOW` and
  `LIBCB_BUFFEREMPTY`. The code returns `ENOMEM` for a push that does not
  fit and for a pop of more than is held, including a pop from an empty
  buffer.
- Pop has no separate check for an empty buffer: an empty buffer fails the
  `nCount < n` check (Src/CircularBuffer.c:127) like any short buffer.

## Model

| member | source | states |
|---|---|---|
| LibCircularBuffer.Initialize | Src/CircularBuffer.c:10-37 | Fails with EINVAL, leaving the record as it was, exactly when the record, the storage pointer or the size is NULL or 0. On success the buffer is valid and empty, stores `init` and the region, both indices are 0, and the mutex handle is the one the callback produced, or NULL when there is no callback. |
| LibCircularBuffer.Clear | Src/CircularBuffer.c:39-59 | Fails with EINVAL only for a NULL record. Otherwise it sets the count and both indices to 0. Storage, `init` and the mutex handle stay unchanged. |
| LibCircularBuffer.Push | Src/CircularBuffer.c:61-111 | EINVAL exactly for a NULL record, a NULL source or length 0. ENOMEM exactly when `count + n > cap`: the two capacity checks together reject precisely the pushes that do not fit. Any failure returns the record unchanged. On success the invariant holds, the count grows by `n`, the tail stays in `[0, cap]`, and head, `init` and mutex are unchanged. |
| LibCircularBuffer.Pop | Src/CircularBuffer.c:113-157 | EINVAL exactly for a NULL record, a NULL destination or length 0. ENOMEM exactly when `count < n`, which includes every pop from an empty buffer. Any failure returns the record unchanged and outputs nothing. On success the invariant holds, `n` bytes come out, the count drops by `n`, the head stays in `[0, cap]`, and storage and tail are unchanged. |
| Ring.Advance | Src/CircularBuffer.c:88-101 | The new tail (or head) after a copy of `n` bytes stays in `[0, cap]` and equals `index + n` modulo `cap`, on both the split and the straight branch. A straight copy leaves it at exactly `index + n`, so a copy that ends at the end of storage leaves it at `cap`, not 0. A split copy leaves it at a positive index. |
| Ring.WriteCells | Src/CircularBuffer.c:99 | One `memcpy` of `data` at offset `at` puts `data[k - at]` in each cell `k` of `[at, at + n)` and leaves every other cell of the region as it was. |
| LibCircularBuffer.AdvanceTail | Src/CircularBuffer.c:88-103 | The counters after a push of `n` bytes: the tail moves by `n` modulo `cap`, the count grows by `n`, the invariant holds, and head, storage, `init` and mutex are unchanged. |
| LibCircularBuffer.AdvanceHead | Src/CircularBuffer.c:134-149 | The counters after a pop of `0 < n <= count` bytes: the head moves by `n` modulo `cap`, the count drops by `n`, the invariant holds, and tail, storage, `init` and mutex are unchanged. |
| LibCircularBuffer.CommitPush | Src/CircularBuffer.c:88-103 | The effect of a push that passed its checks: the storage becomes the wrap-aware copy-in of the source at the old tail, the count grows by `n`, the invariant holds, and head, `init` and mutex are unchanged. |
| Ring.RingWrite | Src/CircularBuffer.c:88-101 | The copy-in puts `data[j]` in cell `(at + j) mod cap` for every `j < n`. Every other cell keeps its byte. Both memcpy segments stay inside the region, including the empty first segment when `at == cap`. |
| Ring.RingRead | Src/CircularBuffer.c:134-147 | The copy-out yields exactly `n` bytes, byte `j` taken from cell `(at + j) mod cap`, whether it is read as one segment or two. |
| LibCircularBuffer.PushAppends | Src/CircularBuffer.c:88-103 | A push that fits succeeds, and the new contents are the old contents followed by the source bytes, in order. |
| LibCircularBuffer.PushWritesOutsideWindow | Src/CircularBuffer.c:88-101 | A successful push changes only the `n` cells from the old tail on. None of those cells is a cell of the old contents, so no unread byte is overwritten. |
| LibCircularBuffer.PopTakesPrefix | Src/CircularBuffer.c:134-149 | A pop of `n <= count` bytes succeeds. It outputs the first `n` bytes of the contents, and the remaining suffix becomes the new contents. |
| Fifo.PushRefines | Src/CircularBuffer.c:67-105 | For every valid record and every payload, push keeps the invariant. Its status and new contents are those of pushing onto the bounded FIFO queue that the record stands for. |
| Fifo.PopRefines | Src/CircularBuffer.c:119-151 | For every valid record and length, pop keeps the invariant. Its status, the bytes it outputs and its new contents are those of popping from the bounded FIFO queue. |
| Fifo.Apply | Src/CircularBuffer.c:39-157 | Each request (push, pop, clear) keeps the invariant and the capacity. Through `Contents` it matches the reference queue's step, both in the new state and in the reply. |
| Fifo.Run | Src/CircularBuffer.c:39-157 | Any sequence of pushes, pops and clears on a valid buffer ends in a valid buffer. Its contents and its replies equal those of the reference queue run on the same requests. |
| Fifo.BufferIsFifo | Src/CircularBuffer.c:88-149 | With no clear in between, the old contents plus the bytes of all successful pushes equal the bytes of all successful pops plus the final contents. Bytes come out in the order they went in, and none is lost or duplicated. |
| Fifo.PushThenPop | Tests/UnitTest/LibCircularBuffer.cpp:252-269 | On an empty buffer, with the indices anywhere, pushing `n` bytes with `0 < n <= cap` and then popping `n` bytes returns the same bytes and leaves the buffer empty. |
| Uint32Guards.Add32 | Src/CircularBuffer.c:81 | A `uint32_t` sum equals the true sum below 2^32 and the sum minus 2^32 above it. |
| Uint32Guards.PushAdmits32 | Src/CircularBuffer.c:73-81 | The two capacity checks as written, in `uint32_t`. While `count + n` stays below 2^32 they admit exactly the pushes with `count + n <= cap`. Above that they compare the wrapped sum `count + n - 2^32` with `cap`. |
| Uint32Guards.Wraps32 | Src/CircularBuffer.c:88 | The wrap test as written, shared by push and pop (:134). Below 2^32 it is the unbounded test `index + n > cap`. Above that it compares the wrapped sum `index + n - 2^32` with `cap`. |
| Uint32Guards.GuardsAgree | Src/CircularBuffer.c:73-88 | For capacities below 2^31, the 32-bit capacity checks admit exactly the pushes with `count + n <= cap`. The 32-bit wrap test splits exactly the copies with `index + n > cap`. |
| Uint32Guards.FullBufferAdmitsPush32 | Src/CircularBuffer.c:81 | With capacity 2^32 - 1, the code's checks let a one-byte push into a full buffer through. The unbounded `Push` refuses it with ENOMEM. |
| Uint32Guards.PushWrapTest32 | Src/CircularBuffer.c:88-100 | With capacity 2^32 - 1 and the tail at `cap`, the code's wrap test chooses the straight copy to offset `cap`, past the region. `Push` stores the byte in cell 0. |
| Uint32Guards.PopWrapTest32 | Src/CircularBuffer.c:134-146 | With capacity 2^32 - 1 and the head at `cap`, the code's wrap test chooses the straight read from offset `cap`, past the region. `Pop` returns the byte in cell 0. |
| Scenarios.FillThenDrain | Tests/UnitTest/LibCircularBuffer.cpp:302-322 | On a fresh 100-byte buffer, one push of 100 bytes leaves count 100, head 0 and tail 100. One pop of 100 bytes then returns them in order and leaves count 0, head 100 and tail 100. |
| Scenarios.PushTooLarge | Tests/UnitTest/LibCircularBuffer.cpp:181-187 | A 101-byte push into a fresh 100-byte buffer fails with ENOMEM and leaves count, head and tail at 0. |
| Scenarios.PopFromEmpty | Tests/UnitTest/LibCircularBuffer.cpp:346-352 | A 100-byte pop from a fresh buffer fails with ENOMEM and leaves count, head and tail at 0. |
| Scenarios.SingleByte | Tests/UnitTest/LibCircularBuffer.cpp:212-227 | A pushed 0x55 lands in cell 0 with tail 1. Popping one byte returns 0x55 and leaves both indices at 1. |

## Left out

- Mutex callbacks: `Lock`, `Release`, `pfnMutexLock` and `pfnMutexRelease` (Src/CircularBuffer.c:79, :83, :105, :125, :129, :151, :159-203) are left out. They are foreign calls, they exist for concurrency, and the code ignores their results. The model is sequential and has no locking.
- Mutex creation: the handle that `pfnMutexInitialize` writes is the `created` parameter of `Initialize`.
- `circularBufferRead` is declared in Inc/libCircularBuffer/CircularBufferExt.h, but its body is not part of this model, so the model does not invent its checks.
- Status queries (empty, full, capacity, count): none exist in the code.
- Pointers: they are modelled only as NULL or non-NULL. The source bytes and the storage region are sequences, and no aliasing between the source, the destination and the storage is modelled.
- LibCircularBuffer.Initialize: requires the region at a non-NULL storage address to hold exactly `nBufferSize` bytes. The C code cannot check this, and a shorter region is undefined behaviour.
- LibCircularBuffer.Push: uses unbounded arithmetic, so it is the corrected definition. It agrees with the code's 32-bit sums for every capacity below 2^31 (`Uint32Guards.GuardsAgree`); see Findings for larger capacities. It also requires the record to satisfy `Valid`. Both a zero-valued record and an initialised one satisfy it; a record holding garbage is undefined behaviour in C.
- LibCircularBuffer.Pop: same arithmetic and `Valid` precondition as `Push`.

## Findings

| source | as written | input that shows it | evidently intended | confidence | as-written member | corrected member |
|---|---|---|---|---|---|---|
| Src/CircularBuffer.c:81 | `nCount + nSourceSize` is a `uint32_t` sum | capacity 2^32 - 1, buffer full, push of 1 byte: the sum wraps to 0, the check passes, and `nCount` wraps to 0 at line 103 | refuse the push with ENOMEM, as for any push that does not fit | not executed; high that the sum wraps, relevant only for regions of 2 GiB or more | Uint32Guards.PushAdmits32, Uint32Guards.FullBufferAdmitsPush32 | LibCircularBuffer.Push |
| Src/CircularBuffer.c:88 | `nTail + nSourceSize` is a `uint32_t` sum | capacity 2^32 - 1, tail at `cap` with room for one byte (fill the region, pop 1 byte, push 1 byte): the sum wraps to 0, and the straight copy writes one byte past the region | split the copy and write the byte to cell 0 | not executed; high that the sum wraps, relevant only for regions of 2 GiB or more | Uint32Guards.Wraps32, Uint32Guards.PushWrapTest32 | Ring.RingWrite |
| Src/CircularBuffer.c:134 | `nHead + nDestinationSize` is a `uint32_t` sum | capacity 2^32 - 1, head at `cap` with at least one byte held (fill the region, drain it, push 1 byte), pop of 1 byte: the sum wraps to 0, and the straight copy reads one byte past the region |  split the copy and read the byte from cell 0 | not executed; high that the sum wraps, relevant only for regions of 2 GiB or more | Uint32Guards.Wraps32, Uint32Guards.PopWrapTest32 | Ring.RingRead |
