/**
 The scenarios of Tests/UnitTest/LibCircularBuffer.cpp on a 100-byte buffer
 with no mutex callbacks, stated for every storage address, every initial
 storage content and every payload.
 */
module Scenarios {
  import opened Ring
  import opened LibCircularBuffer

  /** The initialisation parameters every test uses: 100 bytes at a
      non-NULL address, no callbacks. */
  function TestInit(at: nat): Init
  {
    Init(Ref(at), 100, MutexHooks(false, false, false))
  }

  /** Filling the buffer in one push leaves the tail at 100, not 0; draining
      it in one pop returns the bytes in order and leaves the head at 100
      (Tests/UnitTest/LibCircularBuffer.cpp:136-141, :302-322). */
  lemma FillThenDrain(self: Ptr<CircularBuffer>, at: nat, region: seq<byte>, data: seq<byte>, destination: Handle)
    requires self.Ref? && |region| == 100 && |data| == 100 && destination.Ref?
    ensures var i := Initialize(self, TestInit(at), region, Null);
            && i.status == SUCCESS
            && i.self.deref.mutex == Null
            && var p := Push(i.self, Ref(data));
            && p.status == SUCCESS
            && p.self.deref.count == 100 && p.self.deref.head == 0 && p.self.deref.tail == 100
            && var q := Pop(p.self, destination, 100);
            && q.status == SUCCESS
            && q.data == data
            && q.self.deref.count == 0 && q.self.deref.head == 100 && q.self.deref.tail == 100
  {
    var b := Initialize(self, TestInit(at), region, Null).self.deref;
    PushAppends(b, data);
    var b' := Push(Ref(b), Ref(data)).self.deref;
    PopTakesPrefix(b', destination, 100);
  }

  /** A 101-byte push into the 100-byte buffer fails with ENOMEM and leaves
      every counter at 0 (Tests/UnitTest/LibCircularBuffer.cpp:181-187). */
  lemma PushTooLarge(self: Ptr<CircularBuffer>, at: nat, region: seq<byte>, data: seq<byte>)
    requires self.Ref? && |region| == 100 && |data| == 101
    ensures var i := Initialize(self, TestInit(at), region, Null);
            && i.status == SUCCESS
            && var p := Push(i.self, Ref(data));
            && p.status == ENOMEM
            && p.self.deref.count == 0 && p.self.deref.head == 0 && p.self.deref.tail == 0
  {
  }

  /** A pop from the fresh buffer fails with ENOMEM, the only code for an
      empty buffer, and leaves every counter at 0
      (Tests/UnitTest/LibCircularBuffer.cpp:346-352). */
  lemma PopFromEmpty(self: Ptr<CircularBuffer>, at: nat, region: seq<byte>, destination: Handle)
    requires self.Ref? && |region| == 100 && destination.Ref?
    ensures var i := Initialize(self, TestInit(at), region, Null);
            && i.status == SUCCESS
            && var q := Pop(i.self, destination, 100);
            && q.status == ENOMEM
            && q.self.deref.count == 0 && q.self.deref.head == 0 && q.self.deref.tail == 0
  {
  }

  /** One byte pushed lands in cell 0 and comes back out; both indices end
      at 1 (Tests/UnitTest/LibCircularBuffer.cpp:212-227). */
  lemma SingleByte(self: Ptr<CircularBuffer>, at: nat, region: seq<byte>, destination: Handle)
    requires self.Ref? && |region| == 100 && destination.Ref?
    ensures var i := Initialize(self, TestInit(at), region, Null);
            && i.status == SUCCESS
            && var p := Push(i.self, Ref([0x55]));
            && p.status == SUCCESS
            && p.self.deref.storage[0] == 0x55
            && p.self.deref.count == 1 && p.self.deref.head == 0 && p.self.deref.tail == 1
            && var q := Pop(p.self, destination, 1);
            && q.status == SUCCESS
            && q.data == [0x55]
            && q.self.deref.count == 0 && q.self.deref.head == 1 && q.self.deref.tail == 1
  {
    var b := Initialize(self, TestInit(at), region, Null).self.deref;
    PushAppends(b, [0x55]);
    var b' := Push(Ref(b), Ref([0x55])).self.deref;
    assert b'.storage[Slot(0, 0, 100)] == 0x55;
    PopTakesPrefix(b', destination, 1);
  }
}
