/**
 The byte ring buffer of Src/CircularBuffer.c: the record of
 Inc/libCircularBuffer/CircularBuffer.h and the four operations on it,
 `circularBufferInitialize`, `circularBufferClear`, `circularBufferPush` and
 `circularBufferPop`, as pure functions from the old record to a status code
 and the new record.

 C pointers are `Ptr<T>`: `Null`, or `Ref` of what they point at. A pointer
 the operations never read through (the storage address, the destination
 address, the mutex handle) is a `Handle`, whose `nat` only tells pointers
 apart. The bytes of the storage region live in `storage`; `memcpy` is a
 sequence update. The mutex callbacks are invisible to the logic (their
 results are ignored), so `Lock` and `Release` are left out entirely.

 Counters are unbounded here; `Uint32Guards` shows where the code's 32-bit
 sums agree with this model and where they do not.
 */
module LibCircularBuffer {
  import opened Ring

  /** Status codes: 0 on success, otherwise an errno value (Linux numbering). */
  const SUCCESS: int := 0
  const ENOMEM: int := 12
  const EINVAL: int := 22

  datatype Ptr<T> = Null | Ref(deref: T)

  /** A pointer that is only compared with NULL or stored. */
  type Handle = Ptr<nat>

  /** Which of the three mutex callbacks the caller supplied (non-NULL). */
  datatype MutexHooks = MutexHooks(initialize: bool, lock: bool, release: bool)

  /** `CircularBufferInit`: storage address, its size, mutex callbacks. */
  datatype Init = Init(buffer: Handle, size: nat, hooks: MutexHooks)

  /** `CircularBuffer`: the stored initialisation parameters, the mutex
      handle, the bytes of the storage region and the three counters. */
  datatype CircularBuffer = CircularBuffer(
    init: Init,
    mutex: Handle,
    storage: seq<byte>,
    count: nat,
    head: nat,
    tail: nat)

  datatype Outcome = Outcome(status: int, self: Ptr<CircularBuffer>)

  /** The result of a pop: status, new record, bytes copied to the destination. */
  datatype PopOutcome = PopOutcome(status: int, self: Ptr<CircularBuffer>, data: seq<byte>)

  function Cap(b: CircularBuffer): nat
  {
    b.init.size
  }

  /** The representation invariant: the region holds `nBufferSize` bytes, the
      count never exceeds the capacity, both indices lie in `[0, cap]`, and
      the tail is `count` cells after the head. A zero-valued record (before
      initialisation) satisfies it with capacity 0. */
  predicate Valid(b: CircularBuffer)
  {
    && |b.storage| == Cap(b)
    && b.count <= Cap(b)
    && b.head <= Cap(b)
    && b.tail <= Cap(b)
    && (Cap(b) > 0 ==> Mod(b.tail, Cap(b)) == Mod(b.head + b.count, Cap(b)))
  }

  /** The abstraction function: the buffered bytes, oldest first. */
  function Contents(b: CircularBuffer): seq<byte>
    requires Valid(b)
  {
    seq(b.count, i requires 0 <= i < b.count => b.storage[Slot(b.head, i, Cap(b))])
  }

  /** `circularBufferInitialize` (Src/CircularBuffer.c:10-37). `region` is
      the current content of the `init.size` bytes at `init.buffer`;
      `created` is the handle `pfnMutexInitialize` writes, when supplied. */
  function Initialize(self: Ptr<CircularBuffer>, init: Init, region: seq<byte>, created: Handle): (r: Outcome)
    requires init.buffer.Ref? ==> |region| == init.size
    ensures r.status == SUCCESS || r.status == EINVAL
    ensures r.status == EINVAL <==> self.Null? || init.size == 0 || init.buffer.Null?
    ensures r.status == EINVAL ==> r.self == self
    ensures r.status == SUCCESS ==>
              && r.self.Ref?
              && Valid(r.self.deref)
              && Contents(r.self.deref) == []
              && r.self.deref.init == init
              && r.self.deref.storage == region
              && r.self.deref.count == 0 && r.self.deref.head == 0 && r.self.deref.tail == 0
              && r.self.deref.mutex == (if init.hooks.initialize then created else Null)
  {
    if self.Null? || init.size == 0 || init.buffer.Null? then
      Outcome(EINVAL, self)
    else
      var mutex := if init.hooks.initialize then created else Null;
      Outcome(SUCCESS, Ref(CircularBuffer(init, mutex, region, 0, 0, 0)))
  }

  /** `circularBufferClear` (Src/CircularBuffer.c:39-59): empties the buffer
      and touches nothing but the three counters. */
  function Clear(self: Ptr<CircularBuffer>): (r: Outcome)
    ensures r.status == EINVAL <==> self.Null?
    ensures self.Null? ==> r.self == self
    ensures self.Ref? ==>
              && r.status == SUCCESS
              && r.self.Ref?
              && r.self.deref.init == self.deref.init
              && r.self.deref.mutex == self.deref.mutex
              && r.self.deref.storage == self.deref.storage
              && r.self.deref.count == 0 && r.self.deref.head == 0 && r.self.deref.tail == 0
    ensures self.Ref? && |self.deref.storage| == Cap(self.deref) ==>
              Valid(r.self.deref) && Contents(r.self.deref) == []
  {
    if self.Null? then
      Outcome(EINVAL, self)
    else
      Outcome(SUCCESS, Ref(self.deref.(count := 0, head := 0, tail := 0)))
  }

  /** `circularBufferPush` (Src/CircularBuffer.c:61-111). `source` points at
      the `nSourceSize` bytes to copy in. Every check precedes every change:
      a failed push returns the record as it was. Both capacity checks
      report ENOMEM, so together they reject exactly the pushes that do not
      fit in the free space. */
  function Push(self: Ptr<CircularBuffer>, source: Ptr<seq<byte>>): (r: Outcome)
    requires self.Ref? ==> Valid(self.deref)
    ensures r.status == SUCCESS || r.status == EINVAL || r.status == ENOMEM
    ensures r.status == EINVAL <==> self.Null? || source.Null? || |source.deref| == 0
    ensures r.status == ENOMEM <==>
              && self.Ref? && source.Ref? && |source.deref| > 0
              && self.deref.count + |source.deref| > Cap(self.deref)
    ensures r.status != SUCCESS ==> r.self == self
    ensures r.status == SUCCESS ==>
              && r.self.Ref?
              && Valid(r.self.deref)
              && r.self.deref.init == self.deref.init
              && r.self.deref.mutex == self.deref.mutex
              && r.self.deref.head == self.deref.head
              && r.self.deref.count == self.deref.count + |source.deref|
              && r.self.deref.tail <= Cap(self.deref)
  {
    if self.Null? || source.Null? || |source.deref| == 0 then
      Outcome(EINVAL, self)
    else
      var b, data := self.deref, source.deref;
      if Cap(b) < |data| then
        Outcome(ENOMEM, self)
      else if Cap(b) < b.count + |data| then
        Outcome(ENOMEM, self)
      else
        Outcome(SUCCESS, Ref(CommitPush(b, data)))
  }

  /** The part of a push after its checks (Src/CircularBuffer.c:88-103): the
      copy-in at the tail, the tail advanced past it, the count increased.
      It keeps the invariant. */
  function CommitPush(b: CircularBuffer, data: seq<byte>): (r: CircularBuffer)
    requires Valid(b) && b.count + |data| <= Cap(b) && 0 < |data|
    ensures Valid(r)
    ensures r.init == b.init && r.mutex == b.mutex && r.head == b.head
    ensures r.count == b.count + |data|
    ensures r.storage == RingWrite(b.storage, b.tail, data)
  {
    var moved := AdvanceTail(b, |data|);
    var storage := RingWrite(b.storage, b.tail, data);
    ReplaceStorage(moved, storage);
    moved.(storage := storage)
  }

  /** The counters after a push of `n` bytes (Src/CircularBuffer.c:95, :100,
      :103): the tail advanced past the copy and the count increased, with
      the tail still `count` cells after the head. */
  function AdvanceTail(b: CircularBuffer, n: nat): (r: CircularBuffer)
    requires Valid(b) && b.count + n <= Cap(b) && 0 < n
    ensures Valid(r)
    ensures r.init == b.init && r.mutex == b.mutex && r.storage == b.storage && r.head == b.head
    ensures r.count == b.count + n
    ensures Mod(r.tail, Cap(b)) == Mod(b.tail + n, Cap(b))
  {
    var tail := Advance(b.tail, n, Cap(b));
    TailFollows(b.head, b.tail, b.count, n, Cap(b));
    b.(tail := tail, count := b.count + n)
  }

  /** The invariant does not look at the stored bytes, only at how many
      there are. */
  lemma ReplaceStorage(b: CircularBuffer, storage: seq<byte>)
    requires Valid(b) && |storage| == Cap(b)
    ensures Valid(b.(storage := storage))
  {
  }

  /** `circularBufferPop` (Src/CircularBuffer.c:113-157): copies `n` bytes
      out to the non-NULL `destination`. An empty buffer is not a separate
      case: it fails the `nCount < n` check like any short buffer. A failed
      pop returns the record as it was and writes nothing. */
  function Pop(self: Ptr<CircularBuffer>, destination: Handle, n: nat): (r: PopOutcome)
    requires self.Ref? ==> Valid(self.deref)
    ensures r.status == SUCCESS || r.status == EINVAL || r.status == ENOMEM
    ensures r.status == EINVAL <==> self.Null? || destination.Null? || n == 0
    ensures r.status == ENOMEM <==> self.Ref? && destination.Ref? && 0 < n && self.deref.count < n
    ensures r.status != SUCCESS ==> r.self == self && r.data == []
    ensures r.status == SUCCESS ==>
              && r.self.Ref?
              && Valid(r.self.deref)
              && |r.data| == n
              && r.self.deref.init == self.deref.init
              && r.self.deref.mutex == self.deref.mutex
              && r.self.deref.storage == self.deref.storage
              && r.self.deref.tail == self.deref.tail
              && r.self.deref.count == self.deref.count - n
              && r.self.deref.head <= Cap(self.deref)
  {
    if self.Null? || destination.Null? || n == 0 then
      PopOutcome(EINVAL, self, [])
    else
      var b := self.deref;
      if b.count < n then
        PopOutcome(ENOMEM, self, [])
      else
        PopOutcome(SUCCESS, Ref(AdvanceHead(b, n)), RingRead(b.storage, b.head, n))
  }

  /** The counters after a pop of `n` bytes (Src/CircularBuffer.c:141, :146,
      :149): the head advanced past the copy and the count decreased, with
      the tail still `count` cells after the head. */
  function AdvanceHead(b: CircularBuffer, n: nat): (r: CircularBuffer)
    requires Valid(b) && 0 < n <= b.count
    ensures Valid(r)
    ensures r.init == b.init && r.mutex == b.mutex && r.storage == b.storage && r.tail == b.tail
    ensures r.count == b.count - n
    ensures Mod(r.head, Cap(b)) == Mod(b.head + n, Cap(b))
  {
    var head := Advance(b.head, n, Cap(b));
    HeadFollows(b.head, b.tail, b.count, n, Cap(b));
    b.(head := head, count := b.count - n)
  }

  /** Advancing the tail past `n` new bytes keeps it `count + n` cells
      after the head. */
  lemma TailFollows(head: nat, tail: nat, count: nat, n: nat, cap: nat)
    requires cap > 0 && tail <= cap && n <= cap && Mod(tail, cap) == Mod(head + count, cap)
    ensures Mod(Advance(tail, n, cap), cap) == Mod(head + count + n, cap)
  {
    SlotShift(tail, head + count, n, cap);
  }

  /** Advancing the head past `n` popped bytes keeps the tail `count - n`
      cells after it. */
  lemma HeadFollows(head: nat, tail: nat, count: nat, n: nat, cap: nat)
    requires cap > 0 && head <= cap && n <= count <= cap && Mod(tail, cap) == Mod(head + count, cap)
    ensures Mod(tail, cap) == Mod(Advance(head, n, cap) + (count - n), cap)
  {
    SlotShift(Advance(head, n, cap), head + n, count - n, cap);
  }

  /** A successful push appends exactly the source bytes to the contents
      (Src/CircularBuffer.c:88-103). */
  lemma PushAppends(b: CircularBuffer, data: seq<byte>)
    requires Valid(b) && 0 < |data| && b.count + |data| <= Cap(b)
    ensures Push(Ref(b), Ref(data)).status == SUCCESS
    ensures Contents(Push(Ref(b), Ref(data)).self.deref) == Contents(b) + data
  {
    var b' := CommitPush(b, data);
    assert Push(Ref(b), Ref(data)).self.deref == b';
    AppendCells(b, b', data);
  }

  /** The contents grow by `data` when the `|data|` cells from the tail hold
      `data`, every other cell is unchanged and the count grows by `|data|`. */
  lemma AppendCells(b: CircularBuffer, b': CircularBuffer, data: seq<byte>)
    requires Valid(b) && Valid(b') && 0 < |data| && b.count + |data| <= Cap(b)
    requires Cap(b') == Cap(b) && b'.head == b.head && b'.count == b.count + |data|
    requires forall j :: 0 <= j < |data| ==> b'.storage[Slot(b.tail, j, Cap(b))] == data[j]
    requires forall j :: |data| <= j < Cap(b) ==>
               b'.storage[Slot(b.tail, j, Cap(b))] == b.storage[Slot(b.tail, j, Cap(b))]
    ensures Contents(b') == Contents(b) + data
  {
    KeepCells(b, b', |data|);
    FillCells(b, b', data);
    assert Contents(b') == Contents(b) + data;
  }

  /** The buffered bytes stay put when the cells from `count` past the head
      to the end of the cycle are unchanged. */
  lemma KeepCells(b: CircularBuffer, b': CircularBuffer, n: nat)
    requires Valid(b) && Valid(b') && b.count + n <= Cap(b)
    requires Cap(b') == Cap(b) && b'.head == b.head && b'.count == b.count + n
    requires forall j :: n <= j < Cap(b) ==>
               b'.storage[Slot(b.tail, j, Cap(b))] == b.storage[Slot(b.tail, j, Cap(b))]
    ensures forall i :: 0 <= i < b.count ==> Contents(b')[i] == Contents(b)[i]
  {
    var cap := Cap(b);
    forall i | 0 <= i < b.count
      ensures Contents(b')[i] == Contents(b)[i]
    {
      BehindTail(b.head, b.tail, b.count, i, cap);
      ContentsAt(b', i);
      ContentsAt(b, i);
    }
  }

  /** The `i`-th buffered cell is the cell `cap - count + i` from the tail:
      seen from the tail, the buffered bytes are the last `count` cells of
      the cycle. */
  lemma BehindTail(head: nat, tail: nat, count: nat, i: nat, cap: nat)
    requires cap > 0 && i < count <= cap && Mod(tail, cap) == Mod(head + count, cap)
    ensures Slot(head, i, cap) == Slot(tail, cap - count + i, cap)
  {
    SlotShift(tail, head + count, cap - count + i, cap);
    SlotCycle(head, i, cap);
  }

  /** The new bytes follow the old ones when the cells from the tail hold
      them. */
  lemma FillCells(b: CircularBuffer, b': CircularBuffer, data: seq<byte>)
    requires Valid(b) && Valid(b') && b.count + |data| <= Cap(b)
    requires Cap(b') == Cap(b) && b'.head == b.head && b'.count == b.count + |data|
    requires forall j :: 0 <= j < |data| ==> b'.storage[Slot(b.tail, j, Cap(b))] == data[j]
    ensures forall j :: 0 <= j < |data| ==> Contents(b')[b.count + j] == data[j]
  {
    var cap := Cap(b);
    forall j | 0 <= j < |data|
      ensures Contents(b')[b.count + j] == data[j]
    {
      assert Slot(b.head, b.count + j, cap) == Slot(b.tail, j, cap) by {
        SlotShift(b.tail, b.head + b.count, j, cap);
      }
      ContentsAt(b', b.count + j);
    }
  }

  lemma ContentsAt(b: CircularBuffer, i: nat)
    requires Valid(b) && i < b.count
    ensures Contents(b)[i] == b.storage[Slot(b.head, i, Cap(b))]
  {
  }

  /** A successful push writes only the `n` cells starting at the old tail,
      and none of those cells holds a buffered byte: the copy never
      overwrites unread data (Src/CircularBuffer.c:88-101). */
  lemma PushWritesOutsideWindow(b: CircularBuffer, data: seq<byte>)
    requires Valid(b) && 0 < |data| && b.count + |data| <= Cap(b)
    ensures var s' := Push(Ref(b), Ref(data)).self.deref.storage;
            forall j :: |data| <= j < Cap(b) ==> s'[Slot(b.tail, j, Cap(b))] == b.storage[Slot(b.tail, j, Cap(b))]
    ensures forall i, j :: 0 <= i < b.count && 0 <= j < |data| ==>
              Slot(b.head, i, Cap(b)) != Slot(b.tail, j, Cap(b))
  {
    var cap := Cap(b);
    SlotsFrom(b.head, cap);
    forall i, j | 0 <= i < b.count && 0 <= j < |data|
      ensures Slot(b.head, i, cap) != Slot(b.tail, j, cap)
    {
      SlotShift(b.tail, b.head + b.count, j, cap);
      assert Slot(b.tail, j, cap) == Slot(b.head, b.count + j, cap);
    }
  }

  /** A successful pop hands out the oldest `n` bytes and leaves the rest,
      in order, with the invariant kept (Src/CircularBuffer.c:134-149). */
  lemma PopTakesPrefix(b: CircularBuffer, destination: Handle, n: nat)
    requires Valid(b) && destination.Ref? && 0 < n <= b.count
    ensures Pop(Ref(b), destination, n).status == SUCCESS
    ensures Pop(Ref(b), destination, n).data == Contents(b)[..n]
    ensures Contents(Pop(Ref(b), destination, n).self.deref) == Contents(b)[n..]
  {
    var cap := Cap(b);
    var r := Pop(Ref(b), destination, n);
    var b' := r.self.deref;
    forall i | 0 <= i < b'.count
      ensures Contents(b')[i] == Contents(b)[n + i]
    {
      SlotShift(b'.head, b.head + n, i, cap);
    }
  }
}
