/**
 * The dynamically resizing circular queue monitor of simulapc.cpp.
 *
 * Every critical section (enqueue, dequeue, resize, set_producers_done) is one
 * atomic sequential step; the mutex and the two condition variables are not
 * modelled.  A wait becomes a precondition: the step is only enabled when the
 * source would not wait.  The log file becomes the sequence of capacities the
 * queue was resized to.
 */
module CircularQueue {

  datatype Option<T> = None | Some(value: T)

  // ---------------------------------------------------------------------------
  // Circular layout
  // ---------------------------------------------------------------------------

  /** The logical contents of a circular buffer: `count` slots read from `front`, wrapping at |buf|. */
  function Window(buf: seq<int>, front: nat, count: nat): seq<int>
    requires |buf| > 0
  {
    seq(count, i requires 0 <= i < count => buf[(front + i) % |buf|])
  }

  /** A position below twice the modulus wraps at most once. */
  lemma ModOnce(x: nat, n: nat)
    requires x < 2 * n
    ensures x % n == if x < n then x else x - n
  {
    if x >= n {
      assert x - n < n;
      assert x == n * 1 + (x - n);
    }
  }

  /** Fewer than n consecutive positions from a slot never wrap onto each other. */
  lemma ModDistinct(f: nat, i: nat, j: nat, n: nat)
    requires f < n && i < j < n
    ensures (f + i) % n != (f + j) % n
  {
    ModOnce(f + i, n);
    ModOnce(f + j, n);
  }

  /** Writing x at rear == (front + count) % |buf| appends x to the logical contents. */
  lemma WindowAppend(buf: seq<int>, front: nat, count: nat, x: int)
    requires front < |buf| && count < |buf|
    ensures Window(buf[(front + count) % |buf| := x], front, count + 1) == Window(buf, front, count) + [x]
  {
    var n := |buf|;
    var b := buf[(front + count) % n := x];
    forall i | 0 <= i < count
      ensures Window(b, front, count + 1)[i] == Window(buf, front, count)[i]
    {
      ModDistinct(front, i, count, n);
    }
  }

  /** Reading the slot at front and advancing front pops the head of the logical contents. */
  lemma WindowPop(buf: seq<int>, front: nat, count: nat)
    requires front < |buf| && 0 < count <= |buf|
    ensures Window(buf, front, count)[0] == buf[front]
    ensures Window(buf, front, count)[1..] == Window(buf, (front + 1) % |buf|, count - 1)
  {
    var n := |buf|;
    ModOnce(front, n);
    ModOnce(front + 1, n);
    forall i | 0 <= i < count - 1
      ensures Window(buf, front, count)[1..][i] == Window(buf, (front + 1) % n, count - 1)[i]
    {
      ModOnce(front + 1 + i, n);
      ModOnce((front + 1) % n + i, n);
    }
  }

  /** A window from slot 0 that does not wrap is a plain prefix of the buffer. */
  lemma WindowFromZero(buf: seq<int>, count: nat)
    requires count <= |buf| && |buf| > 0
    ensures Window(buf, 0, count) == buf[..count]
  {
    forall i | 0 <= i < count
      ensures Window(buf, 0, count)[i] == buf[i]
    {
      ModOnce(i, |buf|);
    }
  }

  /** Advancing rear by one slot keeps it count slots past front. */
  lemma RearAdvance(front: nat, count: nat, n: nat)
    requires front < n && count < n
    ensures ((front + count) % n + 1) % n == (front + count + 1) % n
  {
    ModOnce(front + count, n);
    ModOnce((front + count) % n + 1, n);
    ModOnce(front + count + 1, n);
  }

  /** Advancing front by one slot and dropping one item leaves rear where it was. */
  lemma FrontAdvance(front: nat, count: nat, n: nat)
    requires front < n && 0 < count <= n
    ensures ((front + 1) % n + (count - 1)) % n == (front + count) % n
  {
    ModOnce(front + 1, n);
    ModOnce(front + count, n);
    ModOnce((front + 1) % n + (count - 1), n);
  }

  // ---------------------------------------------------------------------------
  // Abstract view of the monitor and the specification of each critical section
  // ---------------------------------------------------------------------------

  /** What a client of the monitor can observe: the queued items, the capacity, the log and the flag. */
  datatype QueueView = QueueView(items: seq<int>, capacity: nat, log: seq<nat>, producersDone: bool)
  {
    /** Between operations the buffer is never full and never empty of slots. */
    predicate WellSized()
    {
      1 <= capacity && |items| < capacity
    }

    /** Every resize logged the capacity it produced, so the last log line names the current capacity. */
    predicate LogCurrent()
    {
      |log| > 0 ==> log[|log| - 1] == capacity
    }
  }

  /** enqueue(x): x goes to the back; the capacity doubles, with one log line, exactly when the insertion fills the buffer. */
  function Enqueued(v: QueueView, x: int): QueueView
  {
    var items := v.items + [x];
    if |items| == v.capacity then
      QueueView(items, v.capacity * 2, v.log + [v.capacity * 2], v.producersDone)
    else
      QueueView(items, v.capacity, v.log, v.producersDone)
  }

  /**
   * dequeue(): on an empty queue no item and no change; otherwise the head is
   * returned, and the capacity halves, with one log line, exactly when the
   * removal leaves at most a quarter of the (old) capacity occupied.
   */
  function Dequeued(v: QueueView): (Option<int>, QueueView)
  {
    if |v.items| == 0 then
      (None, v)
    else
      var items := v.items[1..];
      if v.capacity > 1 && |items| <= v.capacity / 4 then
        (Some(v.items[0]), QueueView(items, v.capacity / 2, v.log + [v.capacity / 2], v.producersDone))
      else
        (Some(v.items[0]), QueueView(items, v.capacity, v.log, v.producersDone))
  }

  /** set_producers_done(): raises the flag and nothing else. */
  function MarkedDone(v: QueueView): QueueView
  {
    v.(producersDone := true)
  }

  lemma EnqueueKeepsShape(v: QueueView, x: int)
    requires v.WellSized() && v.LogCurrent()
    ensures Enqueued(v, x).WellSized() && Enqueued(v, x).LogCurrent()
    ensures Enqueued(v, x).items == v.items + [x]
    ensures Enqueued(v, x).capacity >= v.capacity
    ensures Enqueued(v, x).capacity != v.capacity <==> |v.items| + 1 == v.capacity
    ensures Enqueued(v, x).capacity != v.capacity ==> Enqueued(v, x).capacity == 2 * v.capacity
    ensures Enqueued(v, x).log ==
              if Enqueued(v, x).capacity != v.capacity then v.log + [Enqueued(v, x).capacity] else v.log
    ensures Enqueued(v, x).producersDone == v.producersDone
  {
  }

  lemma DequeueKeepsShape(v: QueueView)
    requires v.WellSized() && v.LogCurrent()
    ensures Dequeued(v).1.WellSized() && Dequeued(v).1.LogCurrent()
    ensures Dequeued(v).1.capacity <= v.capacity
    ensures Dequeued(v).1.producersDone == v.producersDone
    ensures |v.items| == 0 ==> Dequeued(v) == (None, v)
    ensures |v.items| > 0 ==> Dequeued(v).0 == Some(v.items[0]) && Dequeued(v).1.items == v.items[1..]
    ensures Dequeued(v).1.capacity != v.capacity <==>
              |v.items| > 0 && v.capacity > 1 && |v.items| - 1 <= v.capacity / 4
    ensures Dequeued(v).1.capacity != v.capacity ==> Dequeued(v).1.capacity == v.capacity / 2
    ensures Dequeued(v).1.log ==
              if Dequeued(v).1.capacity != v.capacity then v.log + [Dequeued(v).1.capacity] else v.log
  {
  }

  // ---------------------------------------------------------------------------
  // Sequences of critical sections
  // ---------------------------------------------------------------------------

  /** One critical section, as a worker thread would invoke it. */
  datatype Op = Put(item: int) | Take | Finish

  /** The item a step hands to a consumer (none for Put, Finish and an empty dequeue) and the view after it. */
  function Step(v: QueueView, op: Op): (seq<int>, QueueView)
  {
    match op
    case Put(x) => ([], Enqueued(v, x))
    case Take =>
      var (r, w) := Dequeued(v);
      (if r.Some? then [r.value] else [], w)
    case Finish => ([], MarkedDone(v))
  }

  /** Runs the steps in order, collecting the items delivered to consumers. */
  function Run(v: QueueView, ops: seq<Op>): (seq<int>, QueueView)
    decreases |ops|
  {
    if ops == [] then ([], v)
    else
      var first := Step(v, ops[0]);
      var later := Run(first.1, ops[1..]);
      (first.0 + later.0, later.1)
  }

  /** The items the Put steps of a run hand to the queue, in order. */
  function Produced(ops: seq<Op>): seq<int>
  {
    if ops == [] then []
    else (if ops[0].Put? then [ops[0].item] else []) + Produced(ops[1..])
  }

  /** One step loses and duplicates nothing: queued plus offered equals handed out plus still queued. */
  lemma StepDelivers(v: QueueView, op: Op)
    ensures v.items + (if op.Put? then [op.item] else []) == Step(v, op).0 + Step(v, op).1.items
  {
    if op.Take? && |v.items| > 0 {
      assert v.items == [v.items[0]] + v.items[1..];
    }
  }

  /** The bookkeeping of one step of the induction below, on plain sequences. */
  lemma Regroup(queued: seq<int>, offered: seq<int>, later: seq<int>, out: seq<int>, mid: seq<int>, rest: seq<int>, last: seq<int>)
    requires queued + offered == out + mid
    requires mid + later == rest + last
    ensures queued + (offered + later) == (out + rest) + last
  {
    calc {
      queued + (offered + later);
      (queued + offered) + later;
      (out + mid) + later;
      out + (mid + later);
      out + (rest + last);
    }
  }

  /**
   * No loss, no duplication, FIFO order across every resize: what was queued
   * plus what was produced equals what was delivered plus what is still queued.
   */
  lemma {:induction false} RunDeliversInOrder(v: QueueView, ops: seq<Op>)
    ensures v.items + Produced(ops) == Run(v, ops).0 + Run(v, ops).1.items
    decreases |ops|
  {
    if ops != [] {
      var first := Step(v, ops[0]);
      var later := Run(first.1, ops[1..]);
      StepDelivers(v, ops[0]);
      RunDeliversInOrder(first.1, ops[1..]);
      Regroup(v.items, if ops[0].Put? then [ops[0].item] else [], Produced(ops[1..]),
              first.0, first.1.items, later.0, later.1.items);
    }
  }

  /** One step keeps the shape invariants, never clears producersDone, and only appends to the log. */
  lemma StepKeepsShape(v: QueueView, op: Op)
    requires v.WellSized() && v.LogCurrent()
    ensures var w := Step(v, op).1;
      w.WellSized() && w.LogCurrent() && (v.producersDone ==> w.producersDone) &&
      w.log == (if w.capacity != v.capacity then v.log + [w.capacity] else v.log)
  {
    match op {
      case Put(x) => EnqueueKeepsShape(v, x);
      case Take => DequeueKeepsShape(v);
      case Finish =>
    }
  }

  /** The monitor's shape invariants hold after any run, and producersDone never goes back to false. */
  lemma {:induction false} RunKeepsShape(v: QueueView, ops: seq<Op>)
    requires v.WellSized() && v.LogCurrent()
    ensures Run(v, ops).1.WellSized() && Run(v, ops).1.LogCurrent()
    ensures v.producersDone ==> Run(v, ops).1.producersDone
    ensures |Run(v, ops).1.log| >= |v.log| && Run(v, ops).1.log[..|v.log|] == v.log
    decreases |ops|
  {
    if ops != [] {
      var v1 := Step(v, ops[0]).1;
      StepKeepsShape(v, ops[0]);
      RunKeepsShape(v1, ops[1..]);
      var w := Run(v1, ops[1..]).1;
      assert w.log[..|v.log|] == w.log[..|v1.log|][..|v.log|];
    }
  }

  /** Filling an empty queue of capacity c with c items doubles it exactly once, on the c-th insertion. */
  lemma {:induction false} FillDoublesOnce(c: nat, log: seq<nat>, done: bool, xs: seq<int>)
    requires 1 <= c && |xs| <= c
    ensures var w := Run(QueueView([], c, log, done), Puts(xs)).1;
      w.items == xs &&
      (|xs| < c ==> w.capacity == c && w.log == log) &&
      (|xs| == c ==> w.capacity == 2 * c && w.log == log + [2 * c])
    decreases |xs|
  {
    if xs != [] {
      var pre := xs[..|xs| - 1];
      FillDoublesOnce(c, log, done, pre);
      RunPutsSnoc(QueueView([], c, log, done), pre, xs[|xs| - 1]);
      assert pre + [xs[|xs| - 1]] == xs;
    }
  }

  /** The run of producer steps that enqueue xs in order. */
  function Puts(xs: seq<int>): (ops: seq<Op>)
    ensures |ops| == |xs|
  {
    seq(|xs|, i requires 0 <= i < |xs| => Put(xs[i]))
  }

  lemma {:induction false} RunPutsSnoc(v: QueueView, xs: seq<int>, x: int)
    ensures Run(v, Puts(xs + [x])).1 == Enqueued(Run(v, Puts(xs)).1, x)
    decreases |xs|
  {
    if xs == [] {
      assert Puts([x])[1..] == [];
    } else {
      assert Puts(xs + [x])[1..] == Puts(xs[1..] + [x]);
      assert Puts(xs)[1..] == Puts(xs[1..]);
      assert xs[1..] + [x] == (xs + [x])[1..];
      RunPutsSnoc(Enqueued(v, xs[0]), xs[1..], x);
    }
  }

  // ---------------------------------------------------------------------------
  // The monitor object
  // ---------------------------------------------------------------------------

  /** CircularQueueMonitor: a circular buffer whose fields the critical sections update in place. */
  class Monitor {
    var buffer: array<int>
    var capacity: nat
    var front: nat
    var rear: nat
    var count: nat
    var producersDone: bool
    /** The log file: one entry per resize, carrying the new capacity. */
    var log: seq<nat>

    /** The circular layout, which also holds inside a critical section between the insert and the growth. */
    ghost predicate Layout()
      reads this
    {
      buffer.Length == capacity && 1 <= capacity &&
      front < capacity && rear < capacity && count <= capacity &&
      rear == (front + count) % capacity
    }

    /** The monitor invariant between critical sections: the layout, and a buffer that is never full. */
    ghost predicate Valid()
      reads this
    {
      Layout() && count < capacity
    }

    /** The logical contents: count slots read from front, wrapping at capacity. */
    ghost function Contents(): seq<int>
      reads this, buffer
      requires Layout()
    {
      Window(buffer[..], front, count)
    }

    ghost function View(): QueueView
      reads this, buffer
      requires Layout()
    {
      QueueView(Contents(), capacity, log, producersDone)
    }

    constructor (initCapacity: nat)
      requires initCapacity >= 1
      ensures Valid() && fresh(buffer)
      ensures View() == QueueView([], initCapacity, [], false)
      ensures front == 0 && rear == 0
    {
      capacity := initCapacity;
      front, rear, count := 0, 0, 0;
      buffer := new int[initCapacity];
      log := [];
      producersDone := false;
    }

    /** Re-linearises the contents into a fresh buffer of newCapacity slots starting at slot 0, and logs it. */
    method Resize(newCapacity: nat)
      requires Layout() && count <= newCapacity && 1 <= newCapacity
      modifies this
      ensures Layout() && fresh(buffer)
      ensures Contents() == old(Contents())
      ensures capacity == newCapacity && front == 0 && rear == count % newCapacity
      ensures count == old(count) && producersDone == old(producersDone)
      ensures log == old(log) + [newCapacity]
    {
      ghost var before := Contents();
      var newBuffer := new int[newCapacity];
      for i := 0 to count
        modifies newBuffer
        invariant forall j :: 0 <= j < i ==> newBuffer[j] == before[j]
      {
        newBuffer[i] := buffer[(front + i) % capacity];
      }
      WindowFromZero(newBuffer[..], count);
      assert newBuffer[..count] == before;
      buffer, capacity, front, rear := newBuffer, newCapacity, 0, count % newCapacity;
      log := log + [capacity];
    }

    /** enqueue: never has to wait, because the buffer is never full between critical sections. */
    method Enqueue(item: int)
      requires Valid()
      modifies this, buffer
      ensures Valid()
      ensures View() == Enqueued(old(View()), item)
    {
      ghost var items := Contents() + [item];
      WindowAppend(buffer[..], front, count, item);
      RearAdvance(front, count, capacity);
      buffer[rear] := item;
      rear := (rear + 1) % capacity;
      count := count + 1;
      assert Contents() == items;
      if count == capacity {
        Resize(capacity * 2);
      }
    }

    /**
     * dequeue: enabled when an item is queued or the producers are done; with
     * an empty queue the source would wait.
     */
    method Dequeue() returns (r: Option<int>)
      requires Valid()
      requires count > 0 || producersDone
      modifies this
      ensures Valid()
      ensures (r, View()) == Dequeued(old(View()))
      ensures old(count) == 0 ==> buffer == old(buffer) && front == old(front) && rear == old(rear)
    {
      if count == 0 && producersDone {
        return None;
      }
      WindowPop(buffer[..], front, count);
      FrontAdvance(front, count, capacity);
      ghost var items := Contents()[1..];
      var item := buffer[front];
      front := (front + 1) % capacity;
      count := count - 1;
      assert Contents() == items;
      if capacity > 1 && count <= capacity / 4 {
        Resize(capacity / 2);
      }
      return Some(item);
    }

    /** set_producers_done: raises the flag; the buffer, the indices and the log stay as they were. */
    method SetProducersDone()
      requires Valid()
      modifies this`producersDone
      ensures Valid()
      ensures View() == MarkedDone(old(View()))
      ensures front == old(front) && rear == old(rear)
    {
      producersDone := true;
    }
  }
}
