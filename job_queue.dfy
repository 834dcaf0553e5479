/** The bounded ring-buffer job queue of src/job_queue.c.

    The C queue is a monitor: every operation runs under one mutex and waits
    on a condition variable while it cannot proceed. Here each locked critical
    section is one atomic step, and a wait is the outcome `WouldBlock`: the
    state is left as it was and the caller, which in C would sleep until
    signalled, may simply try again later.

    The first half of the module is the logical queue (capacity, the jobs
    front first, the shutdown flag) with the three operations as functions and
    the properties the callers rely on (FIFO order, the bound, the permanent
    shutdown, the draining of the backlog) proved over any sequence of
    operations. The second half is the C structure itself, a class over an
    array with `head`, `tail` and `count`, whose methods are proved to take
    exactly the logical steps. */
module JobQueue {
  import opened Common

  /** What an operation reports.  `Done` is a successful push or a finished
      destroy (C's 0), `Job` a successful pop with the job it yields, `Shutdown`
      the -1 of a push on a destroyed queue or of a pop on a destroyed and
      empty one, and `WouldBlock` an operation that C would suspend in
      `pthread_cond_wait`. */
  datatype Outcome<T> = Done | Job(job: T) | WouldBlock | Shutdown

  /** The logical queue: its capacity, the jobs it holds (front first) and the
      flag that `destroy` sets. */
  datatype State<T> = State(capacity: int, items: seq<T>, destroyed: bool)

  /** The invariant: a positive capacity, never exceeded. */
  ghost predicate Inv<T>(s: State<T>)
  {
    0 < s.capacity && |s.items| <= s.capacity
  }

  /** The state an operation leaves behind and what it reports. */
  datatype Step<T> = Step(next: State<T>, out: Outcome<T>)

  /** `job_queue_init`: -1 for a non-positive capacity, otherwise an empty,
      live queue. */
  function InitState<T>(capacity: int): (r: Option<State<T>>)
    ensures r.None? <==> capacity <= 0
    ensures r.Some? ==> Inv(r.value) && r.value.capacity == capacity
    ensures r.Some? ==> r.value.items == [] && !r.value.destroyed
  {
    if capacity <= 0 then None else Some(State(capacity, [], false))
  }

  /** `job_queue_push`: refused once destroyed, blocked while full, otherwise
      the job joins the back. */
  function PushStep<T>(s: State<T>, job: T): (r: Step<T>)
    ensures r.out == Shutdown <==> s.destroyed
    ensures r.out == WouldBlock <==> !s.destroyed && |s.items| == s.capacity
    ensures r.out == Done || r.out == WouldBlock || r.out == Shutdown
    ensures r.out == Done ==> r.next == s.(items := s.items + [job])
    ensures r.out != Done ==> r.next == s
  {
    if s.destroyed then Step(s, Shutdown)
    else if |s.items| == s.capacity then Step(s, WouldBlock)
    else Step(s.(items := s.items + [job]), Done)
  }

  /** `job_queue_pop`: the front job while there is one (destroyed or not),
      blocked on an empty live queue, -1 on an empty destroyed one. */
  function PopStep<T>(s: State<T>): (r: Step<T>)
    ensures r.out.Job? <==> s.items != []
    ensures r.out == Shutdown <==> s.items == [] && s.destroyed
    ensures r.out == WouldBlock <==> s.items == [] && !s.destroyed
    ensures r.out.Job? ==> [r.out.job] + r.next.items == s.items
    ensures r.next.capacity == s.capacity && r.next.destroyed == s.destroyed
    ensures !r.out.Job? ==> r.next == s
  {
    if |s.items| == 0 then Step(s, if s.destroyed then Shutdown else WouldBlock)
    else Step(s.(items := s.items[1..]), Job(s.items[0]))
  }

  /** `job_queue_destroy`: the flag is set at once; the call completes only
      when the queue is empty. */
  function DestroyStep<T>(s: State<T>): (r: Step<T>)
    ensures r.next.destroyed && r.next.items == s.items && r.next.capacity == s.capacity
    ensures r.out == Done <==> s.items == []
    ensures r.out == Done || r.out == WouldBlock
  {
    Step(s.(destroyed := true), if |s.items| == 0 then Done else WouldBlock)
  }

  /** One call on the queue, as a client makes it. */
  datatype Op<T> = PushOp(job: T) | PopOp | DestroyOp

  function Apply<T>(s: State<T>, op: Op<T>): Step<T>
  {
    match op
    case PushOp(job) => PushStep(s, job)
    case PopOp => PopStep(s)
    case DestroyOp => DestroyStep(s)
  }

  /** The final state and the outcome of every call, in order. */
  datatype Trace<T> = Trace(final: State<T>, outs: seq<Outcome<T>>)

  /** Runs the calls one after another: the serialisation the mutex imposes. */
  function Run<T>(s: State<T>, ops: seq<Op<T>>): (t: Trace<T>)
    ensures |t.outs| == |ops|
    ensures t.final.capacity == s.capacity
    ensures s.destroyed ==> t.final.destroyed
    ensures |t.final.items| <= |s.items| + |ops|
    decreases |ops|
  {
    if ops == [] then Trace(s, [])
    else
      var st := Apply(s, ops[0]);
      var rest := Run(st.next, ops[1..]);
      Trace(rest.final, [st.out] + rest.outs)
  }

  /** The jobs whose push succeeded, in call order. */
  function Accepted<T>(ops: seq<Op<T>>, outs: seq<Outcome<T>>): seq<T>
    requires |ops| == |outs|
  {
    if ops == [] then []
    else AcceptedBy(ops[0], outs[0]) + Accepted(ops[1..], outs[1..])
  }

  /** The jobs handed out by successful pops, in call order. */
  function Popped<T>(outs: seq<Outcome<T>>): seq<T>
  {
    if outs == [] then []
    else PoppedBy(outs[0]) + Popped(outs[1..])
  }

  /** `n` calls of pop. */
  function Pops<T>(n: nat): (ops: seq<Op<T>>)
    ensures |ops| == n && forall k :: 0 <= k < n ==> ops[k].PopOp?
  {
    seq(n, _ => PopOp)
  }

  /** Every operation keeps the capacity and its bound: push never stores
      into a full queue. */
  lemma ApplyPreservesInv<T>(s: State<T>, op: Op<T>)
    requires Inv(s)
    ensures Inv(Apply(s, op).next) && Apply(s, op).next.capacity == s.capacity
  {
  }

  lemma {:induction false} RunPreservesInv<T>(s: State<T>, ops: seq<Op<T>>)
    requires Inv(s)
    ensures Inv(Run(s, ops).final) && Run(s, ops).final.capacity == s.capacity
    decreases |ops|
  {
    if ops != [] {
      ApplyPreservesInv(s, ops[0]);
      RunPreservesInv(Apply(s, ops[0]).next, ops[1..]);
    }
  }

  /** The job a call adds at the back, if it does. */
  function AcceptedBy<T>(op: Op<T>, out: Outcome<T>): seq<T>
  {
    if op.PushOp? && out.Done? then [op.job] else []
  }

  /** The job a call takes from the front, if it does. */
  function PoppedBy<T>(out: Outcome<T>): seq<T>
  {
    if out.Job? then [out.job] else []
  }

  /** One call: what was held plus what it adds is what it takes plus what
      is left. */
  lemma StepFifo<T>(s: State<T>, op: Op<T>)
    ensures s.items + AcceptedBy(op, Apply(s, op).out) == PoppedBy(Apply(s, op).out) + Apply(s, op).next.items
  {
    var st := Apply(s, op);
    if st.out.Job? {
      assert [s.items[0]] + s.items[1..] == s.items;
    }
  }

  /** Two balanced steps compose into one. */
  lemma ComposeBalanced<T>(held: seq<T>, a: seq<T>, acc: seq<T>, p: seq<T>, mid: seq<T>, q: seq<T>, left: seq<T>)
    requires held + a == p + mid && mid + acc == q + left
    ensures held + (a + acc) == (p + q) + left
  {
    calc {
      held + (a + acc);
      (held + a) + acc;
      (p + mid) + acc;
      p + (mid + acc);
      p + (q + left);
    }
  }

  /** A consumer that has taken `done` and now takes the front of `pending`
      has taken `done` plus that job. */
  lemma TakeFront<T>(whole: seq<T>, done: seq<T>, pending: seq<T>, rest: seq<T>)
    requires whole == done + pending && pending != [] && pending == [pending[0]] + rest
    ensures whole == (done + [pending[0]]) + rest
  {
  }

  /** FIFO with nothing lost or duplicated: what the queue held, followed by
      every accepted job, is exactly every popped job followed by what the
      queue still holds. */
  lemma {:induction false} Fifo<T>(s: State<T>, ops: seq<Op<T>>)
    ensures s.items + Accepted(ops, Run(s, ops).outs) == Popped(Run(s, ops).outs) + Run(s, ops).final.items
    decreases |ops|
  {
    if ops != [] {
      var st := Apply(s, ops[0]);
      var rest := Run(st.next, ops[1..]);
      var t := Run(s, ops);
      Fifo(st.next, ops[1..]);
      StepFifo(s, ops[0]);
      assert t.outs[0] == st.out && t.outs[1..] == rest.outs;
      var a, p := AcceptedBy(ops[0], st.out), PoppedBy(st.out);
      var acc := Accepted(ops[1..], rest.outs);
      assert Accepted(ops, t.outs) == a + acc;
      assert Popped(t.outs) == p + Popped(rest.outs);
      ComposeBalanced(s.items, a, acc, p, st.next.items, Popped(rest.outs), rest.final.items);
    }
  }

  /** Successful pops return jobs in the order they were pushed: the popped
      jobs are a prefix of the initial contents followed by the accepted
      pushes. */
  lemma PopOrder<T>(s: State<T>, ops: seq<Op<T>>)
    ensures Popped(Run(s, ops).outs) <= s.items + Accepted(ops, Run(s, ops).outs)
  {
    Fifo(s, ops);
  }

  /** Once destroyed, a queue stays destroyed, rejects every push and accepts
      nothing. */
  lemma {:induction false} DestroyedRejectsPushes<T>(s: State<T>, ops: seq<Op<T>>)
    requires s.destroyed
    ensures Run(s, ops).final.destroyed
    ensures forall k :: 0 <= k < |ops| && ops[k].PushOp? ==> Run(s, ops).outs[k] == Shutdown
    ensures Accepted(ops, Run(s, ops).outs) == []
    decreases |ops|
  {
    if ops != [] {
      var st := Apply(s, ops[0]);
      DestroyedRejectsPushes(st.next, ops[1..]);
      var t := Run(s, ops);
      assert t.outs[1..] == Run(st.next, ops[1..]).outs;
      forall k | 0 < k < |ops| && ops[k].PushOp?
        ensures t.outs[k] == Shutdown
      {
        assert ops[1..][k - 1] == ops[k];
      }
    }
  }

  /** A push issued at any point after a destroy call fails, whatever else
      happened in between. */
  lemma {:induction false} PushAfterDestroyFails<T>(s: State<T>, ops: seq<Op<T>>, j: nat, k: nat)
    requires j < k < |ops| && ops[j].DestroyOp? && ops[k].PushOp?
    ensures Run(s, ops).outs[k] == Shutdown
    decreases j
  {
    var st := Apply(s, ops[0]);
    assert ops[1..][k - 1] == ops[k];
    if j == 0 {
      DestroyedRejectsPushes(st.next, ops[1..]);
    } else {
      assert ops[1..][j - 1] == ops[j];
      PushAfterDestroyFails(st.next, ops[1..], j - 1, k - 1);
    }
  }

  /** Shutdown drains: popping a destroyed queue yields its whole backlog in
      order, and only the pop after the last job reports -1. */
  lemma {:induction false} DrainAfterDestroy<T>(s: State<T>)
    requires s.destroyed
    ensures Run(s, Pops(|s.items| + 1)).final.items == []
    ensures forall i :: 0 <= i < |s.items| ==> Run(s, Pops(|s.items| + 1)).outs[i] == Job(s.items[i])
    ensures Run(s, Pops(|s.items| + 1)).outs[|s.items|] == Shutdown
    decreases |s.items|
  {
    var ops: seq<Op<T>> := Pops(|s.items| + 1);
    if s.items != [] {
      var st := PopStep(s);
      assert ops[1..] == Pops(|st.next.items| + 1);
      DrainAfterDestroy(st.next);
      var t := Run(s, ops);
      assert t.outs[1..] == Run(st.next, ops[1..]).outs;
      forall i | 0 < i < |s.items|
        ensures t.outs[i] == Job(s.items[i])
      {
        assert st.next.items[i - 1] == s.items[i];
      }
    }
  }

  /** After a destroy that completed, nothing ever succeeds again: every push
      and every pop reports -1 and the storage, which C frees at that point,
      is never read or written. */
  lemma {:induction false} DrainedQueueIsInert<T>(s: State<T>, ops: seq<Op<T>>)
    requires s.destroyed && s.items == []
    ensures Run(s, ops).final == s
    ensures forall k :: 0 <= k < |ops| && !ops[k].DestroyOp? ==> Run(s, ops).outs[k] == Shutdown
    ensures forall k :: 0 <= k < |ops| && ops[k].DestroyOp? ==> Run(s, ops).outs[k] == Done
    decreases |ops|
  {
    if ops != [] {
      DrainedQueueIsInert(s, ops[1..]);
      var t := Run(s, ops);
      assert Apply(s, ops[0]).next == s;
      assert t.outs[1..] == Run(s, ops[1..]).outs;
      forall k | 0 < k < |ops|
        ensures t.outs[k] == Run(s, ops[1..]).outs[k - 1]
      {
      }
      forall k | 0 < k < |ops|
        ensures ops[k] == ops[1..][k - 1]
      {
      }
    }
  }

  /** The slot `i` places after slot `start` in a ring of `c` slots, for `i`
      at most one lap: `(start + i) % c` without the division. */
  function RingIndex(start: int, i: int, c: int): int
  {
    if start + i < c then start + i else start + i - c
  }

  lemma Wrap(a: int, c: int)
    requires 0 < c && 0 <= a < 2 * c
    ensures a % c == RingIndex(a, 0, c)
  {
    if a >= c {
      assert a == 1 * c + (a - c);
    }
  }

  /** `struct job_queue` without its mutex and condition variables. */
  class JobQueue<T(0)> {
    var capacity: int
    var buffer: array<T>
    var count: int
    var head: int
    var tail: int
    var destroyed: bool
    /** The jobs held, front first. */
    ghost var contents: seq<T>

    /** Slot `(head + i) % capacity` holds the `i`-th job; `tail` is the first
        free slot; `count` jobs, at most `capacity`. */
    ghost predicate Valid()
      reads this, buffer
    {
      && 0 < capacity && buffer.Length == capacity
      && 0 <= count <= capacity
      && 0 <= head < capacity && 0 <= tail < capacity
      && tail == RingIndex(head, count, capacity)
      && |contents| == count
      && forall i :: 0 <= i < count ==> contents[i] == buffer[RingIndex(head, i, capacity)]
    }

    /** The layout of the C code: job `i` sits in slot `(head + i) % capacity`
        and `tail == (head + count) % capacity`. */
    lemma SlotOfJob(i: int)
      requires Valid()
      ensures 0 <= i < count ==> contents[i] == buffer[(head + i) % capacity]
      ensures tail == (head + count) % capacity
    {
      if 0 <= i < count {
        Wrap(head + i, capacity);
      }
      Wrap(head + count, capacity);
    }

    /** The logical queue this structure represents. */
    ghost function Abstract(): State<T>
      reads this
    {
      State(capacity, contents, destroyed)
    }

    constructor (capacity: int)
      requires capacity > 0
      ensures Valid() && fresh(buffer)
      ensures this.capacity == capacity && count == 0 && head == 0 && tail == 0 && !destroyed
      ensures Abstract() == State(capacity, [], false)
    {
      this.capacity := capacity;
      buffer := new T[capacity];
      count, head, tail := 0, 0, 0;
      destroyed := false;
      contents := [];
    }

    /** `job_queue_init`: fails for a non-positive capacity, otherwise
        yields an empty, live queue of that capacity. */
    static method Init(capacity: int) returns (q: Option<JobQueue<T>>)
      ensures q.None? <==> capacity <= 0
      ensures q.Some? ==> fresh(q.value) && fresh(q.value.buffer) && q.value.Valid()
      ensures q.Some? ==> q.value.count == 0 && q.value.head == 0 && q.value.tail == 0 && !q.value.destroyed
      ensures q.Some? ==> InitState(capacity) == Some(q.value.Abstract())
    {
      if capacity <= 0 {
        return None;
      }
      var jq := new JobQueue(capacity);
      return Some(jq);
    }

    /** `job_queue_push`: -1 on a destroyed queue with nothing written;
        `WouldBlock` where C waits for space; otherwise the job goes into
        slot `tail`, which advances modulo the capacity. */
    method Push(data: T) returns (r: Outcome<T>)
      requires Valid()
      modifies this, buffer
      ensures Valid() && capacity == old(capacity) && buffer == old(buffer)
      ensures Step(Abstract(), r) == PushStep(old(Abstract()), data)
      ensures r == Shutdown <==> old(destroyed)
      ensures r == Done <==> !old(destroyed) && old(count) < capacity
      ensures r == Done ==> buffer[old(tail)] == data && tail == (old(tail) + 1) % capacity
                            && count == old(count) + 1 && head == old(head)
      ensures r == Done ==> forall i :: 0 <= i < capacity && i != old(tail) ==> buffer[i] == old(buffer[i])
      ensures r != Done ==> buffer[..] == old(buffer[..]) && count == old(count)
                            && head == old(head) && tail == old(tail)
      ensures destroyed == old(destroyed)
    {
      if destroyed {
        return Shutdown;
      }
      if count == capacity {
        return WouldBlock;
      }
      buffer[tail] := data;
      Wrap(tail + 1, capacity);
      tail := (tail + 1) % capacity;
      count := count + 1;
      contents := contents + [data];
      return Done;
    }

    /** `job_queue_pop`: the job in slot `head` while any is held, even after
        destroy; `WouldBlock` where C waits for a job; -1 exactly when the
        queue is destroyed and empty. */
    method Pop() returns (r: Outcome<T>)
      requires Valid()
      modifies this
      ensures Valid() && capacity == old(capacity) && buffer == old(buffer)
      ensures Step(Abstract(), r) == PopStep(old(Abstract()))
      ensures r == Shutdown <==> old(destroyed) && old(count) == 0
      ensures r == WouldBlock <==> !old(destroyed) && old(count) == 0
      ensures r.Job? ==> r.job == buffer[old(head)] && head == (old(head) + 1) % capacity
                         && count == old(count) - 1 && tail == old(tail)
      ensures !r.Job? ==> count == old(count) && head == old(head) && tail == old(tail)
      ensures r.Job? ==> old(contents) == [r.job] + contents
      ensures !r.Job? ==> contents == old(contents) == []
      ensures destroyed == old(destroyed)
    {
      if count == 0 {
        return if destroyed then Shutdown else WouldBlock;
      }
      var data := buffer[head];
      assert data == contents[0];
      Wrap(head + 1, capacity);
      head := (head + 1) % capacity;
      count := count - 1;
      contents := contents[1..];
      return Job(data);
    }

    /** `job_queue_destroy`: sets the flag for good; completes (`Done`) only
        once the queue is empty, and otherwise reports `WouldBlock` where C
        waits for the consumers to drain it. */
    method Destroy() returns (r: Outcome<T>)
      requires Valid()
      modifies this`destroyed
      ensures Valid() && destroyed
      ensures Step(Abstract(), r) == DestroyStep(old(Abstract()))
      ensures r == Done <==> count == 0
      ensures r == Done || r == WouldBlock
    {
      destroyed := true;
      r := if count == 0 then Done else WouldBlock;
    }
  }

  /** Capacity 2: the third push waits until a pop makes room, and the jobs
      come out in the order they went in. */
  method ScenarioBackpressure()
  {
    var q := JobQueue<string>.Init(2);
    var jq := q.value;
    var r := jq.Push("a");
    assert r == Done;
    r := jq.Push("b");
    assert r == Done;
    r := jq.Push("c");
    assert r == WouldBlock;
    r := jq.Pop();
    assert r == Job("a");
    r := jq.Push("c");
    assert r == Done;
    r := jq.Pop();
    assert r == Job("b");
    r := jq.Pop();
    assert r == Job("c");
  }

  /** Destroy on an empty queue completes at once; pops then report -1, and
      a destroyed queue with a backlog still hands it out first. */
  method ScenarioShutdown()
  {
    var q := JobQueue<string>.Init(1);
    var jq := q.value;
    var r := jq.Destroy();
    assert r == Done;
    r := jq.Pop();
    assert r == Shutdown;
    r := jq.Push("late");
    assert r == Shutdown;

    q := JobQueue<string>.Init(3);
    jq := q.value;
    r := jq.Push("x");
    r := jq.Push("y");
    r := jq.Destroy();
    assert r == WouldBlock;
    r := jq.Pop();
    assert r == Job("x");
    r := jq.Pop();
    assert r == Job("y");
    r := jq.Destroy();
    assert r == Done;
    r := jq.Pop();
    assert r == Shutdown;
  }
}
