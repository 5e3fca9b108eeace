/**
 What the ring buffer is for: a bounded first-in first-out queue of bytes.
 `Queue` and `ApplySpec` define that queue directly, with no indices and no
 wrap-around; `Apply` and `Run` drive the buffer model of
 Src/CircularBuffer.c through the same requests, and their contracts say
 that, seen through `Contents`, the buffer behaves exactly like the queue.
 */
module Fifo {
  import opened Ring
  import opened LibCircularBuffer

  /** A bounded FIFO queue: the bytes held, oldest first, and the bound. */
  datatype Queue = Queue(items: seq<byte>, capacity: nat)

  /** A request on an initialised buffer, with non-NULL pointers. */
  datatype Op = PushOp(data: seq<byte>) | PopOp(n: nat) | ClearOp

  /** The status of a request and the bytes it handed out (pops only). */
  datatype Reply = Reply(status: int, data: seq<byte>)

  /** The queue a buffer record stands for. */
  function Abs(b: CircularBuffer): Queue
    requires Valid(b)
  {
    Queue(Contents(b), Cap(b))
  }

  /** The reference behaviour: an empty request is invalid, a push that does
      not fit and a pop of more than is held are refused with ENOMEM and
      change nothing, and otherwise bytes join at the back and leave from
      the front. */
  function ApplySpec(q: Queue, op: Op): (Queue, Reply)
  {
    match op
    case PushOp(data) =>
      if |data| == 0 then (q, Reply(EINVAL, []))
      else if |q.items| + |data| > q.capacity then (q, Reply(ENOMEM, []))
      else (q.(items := q.items + data), Reply(SUCCESS, []))
    case PopOp(n) =>
      if n == 0 then (q, Reply(EINVAL, []))
      else if |q.items| < n then (q, Reply(ENOMEM, []))
      else (q.(items := q.items[n..]), Reply(SUCCESS, q.items[..n]))
    case ClearOp =>
      (q.(items := []), Reply(SUCCESS, []))
  }

  function RunSpec(q: Queue, ops: seq<Op>): (Queue, seq<Reply>)
    decreases |ops|
  {
    if |ops| == 0 then (q, [])
    else
      var (q1, r1) := ApplySpec(q, ops[0]);
      var (qn, rs) := RunSpec(q1, ops[1..]);
      (qn, [r1] + rs)
  }

  /** Push refines the queue's push: same status, same new contents, and
      the invariant kept (Src/CircularBuffer.c:67-105). */
  lemma PushRefines(b: CircularBuffer, data: seq<byte>)
    requires Valid(b)
    ensures var o := Push(Ref(b), Ref(data));
            && o.self.Ref?
            && Valid(o.self.deref)
            && (Abs(o.self.deref), Reply(o.status, [])) == ApplySpec(Abs(b), PushOp(data))
  {
    var o := Push(Ref(b), Ref(data));
    if o.status == SUCCESS {
      PushAppends(b, data);
    }
  }

  /** Pop refines the queue's pop: same status, same bytes handed out, same
      remaining contents (Src/CircularBuffer.c:119-151). */
  lemma PopRefines(b: CircularBuffer, destination: Handle, n: nat)
    requires Valid(b) && destination.Ref?
    ensures var o := Pop(Ref(b), destination, n);
            && o.self.Ref?
            && Valid(o.self.deref)
            && (Abs(o.self.deref), Reply(o.status, o.data)) == ApplySpec(Abs(b), PopOp(n))
  {
    var o := Pop(Ref(b), destination, n);
    if o.status == SUCCESS {
      PopTakesPrefix(b, destination, n);
    }
  }

  /** One request on the buffer, with the destination of a pop at an
      arbitrary non-NULL address; it does what the queue does. */
  function Apply(b: CircularBuffer, op: Op): (r: (CircularBuffer, Reply))
    requires Valid(b)
    ensures Valid(r.0)
    ensures Cap(r.0) == Cap(b)
    ensures (Abs(r.0), r.1) == ApplySpec(Abs(b), op)
  {
    match op
    case PushOp(data) =>
      PushRefines(b, data);
      var o := Push(Ref(b), Ref(data));
      (o.self.deref, Reply(o.status, []))
    case PopOp(n) =>
      PopRefines(b, Ref(0), n);
      var o := Pop(Ref(b), Ref(0), n);
      (o.self.deref, Reply(o.status, o.data))
    case ClearOp =>
      var o := Clear(Ref(b));
      (o.self.deref, Reply(o.status, []))
  }

  /** A sequence of requests on the buffer: it ends in the state, and gives
      the replies, of the same requests on the queue the buffer stood for. */
  function Run(b: CircularBuffer, ops: seq<Op>): (r: (CircularBuffer, seq<Reply>))
    requires Valid(b)
    ensures Valid(r.0)
    ensures Abs(r.0) == RunSpec(Abs(b), ops).0
    ensures r.1 == RunSpec(Abs(b), ops).1
    decreases |ops|
  {
    if |ops| == 0 then (b, [])
    else
      var (b1, r1) := Apply(b, ops[0]);
      var (bn, rs) := Run(b1, ops[1..]);
      (bn, [r1] + rs)
  }

  /** The bytes a run accepted: the data of every push that succeeded. */
  function Pushed(ops: seq<Op>, replies: seq<Reply>): seq<byte>
    requires |ops| == |replies|
    decreases |ops|
  {
    if |ops| == 0 then []
    else
      var accepted := if ops[0].PushOp? && replies[0].status == SUCCESS then ops[0].data else [];
      accepted + Pushed(ops[1..], replies[1..])
  }

  /** The bytes a run handed out, in order. */
  function Popped(replies: seq<Reply>): seq<byte>
    decreases |replies|
  {
    if |replies| == 0 then [] else replies[0].data + Popped(replies[1..])
  }

  predicate NoClear(ops: seq<Op>)
  {
    forall i :: 0 <= i < |ops| ==> !ops[i].ClearOp?
  }

  lemma RunSpecLength(q: Queue, ops: seq<Op>)
    ensures |RunSpec(q, ops).1| == |ops|
    decreases |ops|
  {
    if |ops| > 0 {
      RunSpecLength(ApplySpec(q, ops[0]).0, ops[1..]);
    }
  }

  /** FIFO order for the queue: without a clear, what was held plus what was
      accepted equals what was handed out plus what is left, byte for byte
      and in order. Nothing is lost, duplicated or reordered. */
  lemma {:induction false} SpecConservation(q: Queue, ops: seq<Op>)
    requires NoClear(ops)
    ensures |RunSpec(q, ops).1| == |ops|
    ensures q.items + Pushed(ops, RunSpec(q, ops).1) == Popped(RunSpec(q, ops).1) + RunSpec(q, ops).0.items
    decreases |ops|
  {
    RunSpecLength(q, ops);
    if |ops| > 0 {
      var (q1, r1) := ApplySpec(q, ops[0]);
      assert NoClear(ops[1..]) by {
        forall i | 0 <= i < |ops[1..]| ensures !ops[1..][i].ClearOp? {
          assert ops[1..][i] == ops[i + 1];
        }
      }
      SpecConservation(q1, ops[1..]);
      var (qn, rs) := RunSpec(q1, ops[1..]);
      var accepted := if ops[0].PushOp? && r1.status == SUCCESS then ops[0].data else [];
      StepConserves(q, ops[0]);
      UnfoldRun(q, ops);
      AppendAssoc(q.items, accepted, Pushed(ops[1..], rs), r1.data, q1.items, Popped(rs), qn.items);
    }
  }

  /** One request that is not a clear moves bytes between the queue and the
      outside without losing or reordering any. */
  lemma StepConserves(q: Queue, op: Op)
    requires !op.ClearOp?
    ensures var (q1, r1) := ApplySpec(q, op);
            q.items + (if op.PushOp? && r1.status == SUCCESS then op.data else []) == r1.data + q1.items
  {
    if op.PopOp? && ApplySpec(q, op).1.status == SUCCESS {
      assert q.items == q.items[..op.n] + q.items[op.n..];
    }
  }

  lemma UnfoldRun(q: Queue, ops: seq<Op>)
    requires |ops| > 0
    ensures var (q1, r1) := ApplySpec(q, ops[0]);
            var rs := RunSpec(q1, ops[1..]).1;
            && RunSpec(q, ops).0 == RunSpec(q1, ops[1..]).0
            && RunSpec(q, ops).1 == [r1] + rs
            && |RunSpec(q, ops).1| == |ops| && |rs| == |ops| - 1
            && Pushed(ops, RunSpec(q, ops).1)
               == (if ops[0].PushOp? && r1.status == SUCCESS then ops[0].data else []) + Pushed(ops[1..], rs)
            && Popped(RunSpec(q, ops).1) == r1.data + Popped(rs)
  {
    var (q1, r1) := ApplySpec(q, ops[0]);
    RunSpecLength(q1, ops[1..]);
    RunSpecLength(q, ops);
    var rs := RunSpec(q1, ops[1..]).1;
    assert ([r1] + rs)[1..] == rs;
  }

  lemma AppendAssoc(a: seq<byte>, x: seq<byte>, p: seq<byte>, d: seq<byte>, a1: seq<byte>, o: seq<byte>, f: seq<byte>)
    requires a + x == d + a1 && a1 + p == o + f
    ensures a + (x + p) == (d + o) + f
  {
    calc {
      a + (x + p);
      (a + x) + p;
      (d + a1) + p;
      d + (a1 + p);
      d + (o + f);
      (d + o) + f;
    }
  }

  /** FIFO order for the buffer: without a clear, the buffered bytes plus the
      bytes accepted by successful pushes are exactly the bytes handed out by
      successful pops followed by the bytes still buffered. */
  lemma BufferIsFifo(b: CircularBuffer, ops: seq<Op>)
    requires Valid(b) && NoClear(ops)
    ensures |Run(b, ops).1| == |ops|
    ensures Contents(b) + Pushed(ops, Run(b, ops).1) == Popped(Run(b, ops).1) + Contents(Run(b, ops).0)
  {
    SpecConservation(Abs(b), ops);
  }

  /** Pushing bytes into an empty buffer and popping as many gives the same
      bytes back and leaves the buffer empty, wherever the indices stood
      (Tests/UnitTest/LibCircularBuffer.cpp:252-269). */
  lemma PushThenPop(b: CircularBuffer, data: seq<byte>, destination: Handle)
    requires Valid(b) && b.count == 0 && 0 < |data| <= Cap(b) && destination.Ref?
    ensures var p := Push(Ref(b), Ref(data));
            && p.status == SUCCESS
            && Valid(p.self.deref)
            && var q := Pop(p.self, destination, |data|);
            && q.status == SUCCESS
            && q.data == data
            && q.self.deref.count == 0
  {
    PushAppends(b, data);
    var p := Push(Ref(b), Ref(data));
    var b1 := p.self.deref;
    assert Contents(b1) == data by {
      assert Contents(b) == [];
    }
    PopTakesPrefix(b1, destination, |data|);
    assert Contents(b1)[..|data|] == data;
  }
}
