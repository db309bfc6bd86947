// thread/task.c: the queue of tasks, a ring that is filled and drained under a lock.

module TaskQueues {
  import opened Bits
  import opened Results
  import opened Rings

  // ---- Runs of a bounded queue

  datatype Op<T> = Put(task: T) | PutMany(tasks: seq<T>) | TakeOne

  // What a run leaves in the queue, what it accepted and what it handed out
  datatype Trace<T> = Trace(queue: seq<T>, accepted: seq<T>, taken: seq<T>)

  function Apply<T>(q: seq<T>, capacity: nat, op: Op<T>): Trace<T> {
    match op
    case Put(t) => if |q| < capacity then Trace(q + [t], [t], []) else Trace(q, [], [])
    case PutMany(ts) => if |q| + |ts| <= capacity then Trace(q + ts, ts, []) else Trace(q, [], [])
    case TakeOne => if q == [] then Trace(q, [], []) else Trace(q[1..], [], [q[0]])
  }

  function Replay<T>(q: seq<T>, capacity: nat, ops: seq<Op<T>>): Trace<T>
    decreases |ops|
  {
    if ops == [] then Trace(q, [], [])
    else
      var first := Apply(q, capacity, ops[0]);
      var rest := Replay(first.queue, capacity, ops[1..]);
      Trace(rest.queue, first.accepted + rest.accepted, first.taken + rest.taken)
  }

  class TaskQueue<T> {
    const ring: Ring<T>

    constructor (ring: Ring<T>)
      ensures this.ring == ring
    {
      this.ring := ring;
    }

    ghost predicate Valid()
      reads this, ring
    {
      ring.Valid()
    }

    ghost function Contents(): seq<T>
      requires Valid()
      reads this, ring, ring.values
    {
      ring.Contents()
    }

    // ms_task_queue_enqueue: a copy of its argument goes last, unless the ring is full.
    method Enqueue(task: T) returns (success: bool)
      requires Valid()
      modifies ring, ring.values
      ensures Valid()
      ensures success <==> |old(Contents())| < ring.capacity
      ensures Contents() == if success then old(Contents()) + [task] else old(Contents())
    {
      success := false;
      ghost var before := Contents();
      var item := ring.Enqueue();
      if item != None {
        forall i | 0 <= i < |before|
          ensures Index(ring.windex, ring.count, i, ring.capacity) != item.value
        {
          SlotsDiffer(ring.windex, ring.count, i, |before|, ring.capacity);
        }
        ghost var reserved := Contents();
        ring.values[item.value] := task;
        forall i | 0 <= i < |before| ensures Contents()[i] == reserved[i] {
        }
        assert Contents() == before + [task];
        success := true;
      }
    }

    // ms_task_queue_enqueue_many: all of them in order, or none.
    method EnqueueMany(tasks: seq<T>) returns (success: bool)
      requires Valid() && |tasks| < TWO32
      modifies ring, ring.values
      ensures Valid()
      ensures success <==> |old(Contents())| + |tasks| <= ring.capacity
      ensures Contents() == if success then old(Contents()) + tasks else old(Contents())
    {
      success := ring.capacity - ring.count >= |tasks|;
      if success {
        var i := 0;
        while i < |tasks|
          invariant 0 <= i <= |tasks| && Valid()
          invariant Contents() == old(Contents()) + tasks[..i]
        {
          var ok := Enqueue(tasks[i]);
          assert ok;
          i := i + 1;
        }
      }
    }

    // ms_task_queue_dequeue: the slot of the oldest task, which still holds it.
    method Dequeue() returns (slot: Option<nat>)
      requires Valid()
      modifies ring
      ensures Valid()
      ensures slot == None <==> old(Contents()) == []
      ensures slot == None ==> Contents() == []
      ensures slot != None ==>
                slot.value < ring.capacity && [ring.values[slot.value]] + Contents() == old(Contents())
    {
      slot := ring.Dequeue();
    }

    // Any sequence of calls. What was there and the arguments of the calls that found
    // room, in order, is what was handed out followed by what is left.
    method Serve(ops: seq<Op<T>>) returns (taken: seq<T>)
      requires Valid() && forall i :: 0 <= i < |ops| && ops[i].PutMany? ==> |ops[i].tasks| < TWO32
      modifies ring, ring.values
      ensures Valid()
      ensures old(Contents()) + Admitted(|old(Contents())|, ring.capacity, ops) == taken + Contents()
      ensures Replay(old(Contents()), ring.capacity, ops).taken == taken
    {
      taken := [];
      ghost var start, trace := Contents(), Replay(Contents(), ring.capacity, ops);
      FirstInFirstOut(start, ring.capacity, ops);
      AcceptedExactly(start, ring.capacity, ops);
      for i := 0 to |ops|
        invariant Valid()
        invariant trace.taken == taken + Replay(Contents(), ring.capacity, ops[i..]).taken
        invariant trace.queue == Replay(Contents(), ring.capacity, ops[i..]).queue
      {
        assert ops[i..][1..] == ops[i + 1..];
        var more := ServeOne(ops[i]);
        taken := taken + more;
      }
    }

    method ServeOne(op: Op<T>) returns (taken: seq<T>)
      requires Valid() && (op.PutMany? ==> |op.tasks| < TWO32)
      modifies ring, ring.values
      ensures Valid()
      ensures Contents() == Apply(old(Contents()), ring.capacity, op).queue
      ensures taken == Apply(old(Contents()), ring.capacity, op).taken
    {
      taken := [];
      match op {
        case Put(task) =>
          var ok := Enqueue(task);
        case PutMany(tasks) =>
          var ok := EnqueueMany(tasks);
        case TakeOne =>
          var slot := Dequeue();
          if slot != None {
            taken := [ring.values[slot.value]];
            assert old(Contents()) == taken + Contents();
          }
      }
    }
  }

  // The arguments, in order, of exactly the operations that find room; of the queue only
  // its length is told.
  function Admitted<T>(n: nat, capacity: nat, ops: seq<Op<T>>): seq<T>
    decreases |ops|
  {
    if ops == [] then []
    else
      match ops[0]
      case Put(task) =>
        if n < capacity then [task] + Admitted(n + 1, capacity, ops[1..]) else Admitted(n, capacity, ops[1..])
      case PutMany(tasks) =>
        if n + |tasks| <= capacity then tasks + Admitted(n + |tasks|, capacity, ops[1..])
        else Admitted(n, capacity, ops[1..])
      case TakeOne => Admitted(if n == 0 then 0 else n - 1, capacity, ops[1..])
  }

  lemma {:induction false} AcceptedExactly<T>(q: seq<T>, capacity: nat, ops: seq<Op<T>>)
    ensures Replay(q, capacity, ops).accepted == Admitted(|q|, capacity, ops)
    decreases |ops|
  {
    if ops != [] {
      AcceptedExactly(Apply(q, capacity, ops[0]).queue, capacity, ops[1..]);
    }
  }

  // First in, first out over a run of any length: what was there and what was
  // accepted, in that order, is what was taken followed by what is left, and the
  // queue never holds more than its capacity.
  lemma {:induction false} FirstInFirstOut<T>(q: seq<T>, capacity: nat, ops: seq<Op<T>>)
    requires |q| <= capacity
    ensures var r := Replay(q, capacity, ops); q + r.accepted == r.taken + r.queue && |r.queue| <= capacity
    decreases |ops|
  {
    if ops != [] {
      var first := Apply(q, capacity, ops[0]);
      var rest := Replay(first.queue, capacity, ops[1..]);
      FirstInFirstOut(first.queue, capacity, ops[1..]);
      assert q + first.accepted == first.taken + first.queue;
      Regroup(q, first.accepted, rest.accepted, first.taken, first.queue, rest.taken, rest.queue);
    }
  }

  lemma Regroup<T>(q: seq<T>, a: seq<T>, b: seq<T>, t: seq<T>, mid: seq<T>, u: seq<T>, r: seq<T>)
    requires q + a == t + mid && mid + b == u + r
    ensures q + (a + b) == (t + u) + r
  {
    assert q + (a + b) == (q + a) + b;
    assert (t + mid) + b == t + (mid + b);
    assert t + (u + r) == (t + u) + r;
  }
}
