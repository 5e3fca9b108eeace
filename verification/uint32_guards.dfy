/**
 The width of the C arithmetic. `nCount`, `nHead`, `nTail`, `nBufferSize`
 and the length arguments are `uint32_t`, so the sums in the capacity check
 of push (Src/CircularBuffer.c:81) and in the wrap tests of push and pop
 (:88, :134) are taken modulo 2^32. The rest of the model uses unbounded
 arithmetic. This module states the guards as written, proves that they
 agree with the unbounded ones whenever the capacity is below 2^31, and
 exhibits reachable states with a larger capacity where they do not.
 */
module Uint32Guards {
  import opened Ring
  import opened LibCircularBuffer

  /** The number of `uint32_t` values. */
  const LIMIT: nat := 0x1_0000_0000

  /** The largest `uint32_t`, hence the largest capacity a caller can pass. */
  const MAX_CAP: nat := LIMIT - 1

  /** `a + b` evaluated in `uint32_t`. */
  function Add32(a: nat, b: nat): (r: nat)
    requires a < LIMIT && b < LIMIT
    ensures r < LIMIT
    ensures a + b < LIMIT ==> r == a + b
    ensures a + b >= LIMIT ==> r == a + b - LIMIT
  {
    (a + b) % LIMIT
  }

  /** The two capacity checks of push as written (Src/CircularBuffer.c:73,
      :81): true when the code goes on to copy. */
  function PushAdmits32(cap: nat, count: nat, n: nat): (admits: bool)
    requires cap < LIMIT && count < LIMIT && n < LIMIT
    ensures count + n < LIMIT ==> (admits <==> count + n <= cap)
    ensures count + n >= LIMIT ==> (admits <==> n <= cap && count + n - LIMIT <= cap)
  {
    !(cap < n) && !(cap < Add32(count, n))
  }

  /** The wrap test of push and pop as written (Src/CircularBuffer.c:88,
      :134): true when the code splits the copy. */
  function Wraps32(index: nat, n: nat, cap: nat): (wraps: bool)
    requires index < LIMIT && n < LIMIT && cap < LIMIT
    ensures index + n < LIMIT ==> (wraps <==> Wraps(index, n, cap))
    ensures index + n >= LIMIT ==> (wraps <==> index + n - LIMIT > cap)
  {
    Add32(index, n) > cap
  }

  /** Below 2^31 bytes of capacity no sum reaches 2^32: the code admits
      exactly the pushes that fit, which is the ENOMEM condition of `Push`,
      and splits exactly the copies that cross the end of storage, which is
      the test `RingWrite`, `RingRead` and `Advance` use. */
  lemma GuardsAgree(cap: nat, count: nat, index: nat, n: nat)
    requires cap < LIMIT / 2 && count <= cap && index <= cap && n < LIMIT
    ensures PushAdmits32(cap, count, n) <==> count + n <= cap
    ensures n <= cap ==> (Wraps32(index, n, cap) <==> Wraps(index, n, cap))
  {
  }

  /** With the largest capacity, a full buffer passes the checks for one
      more byte: `nCount + 1` wraps to 0. The unbounded `Push` refuses it. */
  lemma FullBufferAdmitsPush32(b: CircularBuffer, data: seq<byte>)
    requires Valid(b) && Cap(b) == MAX_CAP && b.count == MAX_CAP && |data| == 1
    ensures PushAdmits32(Cap(b), b.count, |data|)
    ensures Push(Ref(b), Ref(data)).status == ENOMEM
    ensures Push(Ref(b), Ref(data)).self == Ref(b)
  {
  }

  /** With the largest capacity, the tail at the end of storage and room
      for one byte (for instance after a push that exactly fills the region
      and a pop of one byte), a one-byte push is copied straight to offset `cap`, one past the last byte of
      the region, because `nTail + 1` wraps to 0. The unbounded `Push`
      splits the copy and stores the byte in cell 0. */
  lemma PushWrapTest32(b: CircularBuffer, data: seq<byte>)
    requires Valid(b) && Cap(b) == MAX_CAP && b.tail == MAX_CAP && b.count < MAX_CAP && |data| == 1
    ensures PushAdmits32(Cap(b), b.count, |data|)
    ensures !Wraps32(b.tail, |data|, Cap(b))
    ensures b.tail + |data| > |b.storage|
    ensures Push(Ref(b), Ref(data)).status == SUCCESS
    ensures Push(Ref(b), Ref(data)).self.deref.storage[0] == data[0]
  {
    var s' := Push(Ref(b), Ref(data)).self.deref.storage;
    assert Mod(MAX_CAP, MAX_CAP) == Mod(0, MAX_CAP);
    assert Slot(b.tail, 0, Cap(b)) == 0;
    assert s'[Slot(b.tail, 0, Cap(b))] == data[0];
  }

  /** Symmetrically, with the head at the end of storage and bytes held
      (for instance after a pop that drains a full region and a push of
      one byte), a one-byte pop is read straight from offset `cap`, past
      the region, because `nHead + 1` wraps to 0. The unbounded `Pop`
      splits the copy and reads cell 0, the oldest byte. */
  lemma PopWrapTest32(b: CircularBuffer, destination: Handle)
    requires Valid(b) && Cap(b) == MAX_CAP && b.head == MAX_CAP && 0 < b.count && destination.Ref?
    ensures !Wraps32(b.head, 1, Cap(b))
    ensures b.head + 1 > |b.storage|
    ensures Pop(Ref(b), destination, 1).status == SUCCESS
    ensures Pop(Ref(b), destination, 1).data == [b.storage[0]]
  {
    assert Mod(MAX_CAP, MAX_CAP) == Mod(0, MAX_CAP);
    assert Slot(b.head, 0, Cap(b)) == 0;
  }
}
