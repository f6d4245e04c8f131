/**
 * The run loop of rtic.c: a loop owns a singly linked queue of tasks, each
 * task carrying the tick it is due at.  rtic_schedule (re)links a task in due
 * order, rtic_cancel unlinks it, and rtic_step either reports when the head is
 * due or unlinks the head and hands it back for dispatch.
 *
 * The C code walks the queue through a pointer to the link it may rewrite
 * (`rtic_task** pnext`).  Here that link is named by the task holding it,
 * `prev`, with `null` standing for the loop's own `queue` field.  The ghost
 * sequence `Queue` lists the linked tasks from the head.
 */
module Scheduler {
  import opened Ticks
  import opened QueueOrder

  /** Pointers the scheduler stores and hands back without looking into them;
      0 stands for NULL. */
  type FuncPtr = nat
  type ContextPtr = nat
  type HalHandle = nat

  datatype Option<T> = None | Some(value: T)

  /** The call `func(now, task, context)` that rtic_step makes after leaving its
      critical section. */
  datatype Invocation = Invocation(task: Task, func: FuncPtr, context: ContextPtr, now: u32)

  /** struct rtic_task */
  class Task {
    var loop: Loop?
    var next: Task?
    var func: FuncPtr
    var context: ContextPtr
    var when: u32
    var flags: u32

    /** A task bound to a loop, every other field zero as in `{ .loop = &loop }`. */
    constructor (loop: Loop?)
      ensures this.loop == loop && next == null
      ensures func == 0 && context == 0 && when == 0 && flags == 0
    {
      this.loop := loop;
      next := null;
      func := 0;
      context := 0;
      when := 0;
      flags := 0;
    }

    /** The four assignments rtic_schedule makes once the task is off the
        queue: due time, callback, context and flags. */
    method Set(when: u32, func: FuncPtr, context: ContextPtr, flags: u32)
      modifies this`when, this`func, this`context, this`flags
      ensures this.when == when && this.func == func && this.context == context && this.flags == flags
    {
      this.when := when;
      this.func := func;
      this.context := context;
      this.flags := flags;
    }
  }

  /** The due times of the tasks of q, in queue order. */
  ghost function DuesOf(q: seq<Task>): (dues: seq<u32>)
    reads q`when
    ensures |dues| == |q| && forall i {:trigger dues[i]} :: 0 <= i < |q| ==> dues[i] == q[i].when
  {
    if q == [] then [] else [q[0].when] + DuesOf(q[1..])
  }

  /** The due times of a queue are its head's followed by its tail's. */
  lemma DuesOfCons(t: Task, q: seq<Task>)
    ensures DuesOf([t] + q) == [t.when] + DuesOf(q)
  {
    assert ([t] + q)[1..] == q;
  }

  /** Linking a task in at position k puts its due time at position k. */
  lemma {:induction false} DuesOfInsertAt(q: seq<Task>, k: nat, t: Task)
    requires k <= |q|
    ensures DuesOf(InsertAt(q, k, t)) == InsertAt(DuesOf(q), k, t.when)
  {
    if k == 0 {
      assert InsertAt(q, 0, t) == [t] + q;
      DuesOfCons(t, q);
    } else {
      DuesOfInsertAt(q[1..], k - 1, t);
      InsertAtCons(q, k, t);
      DuesOfCons(q[0], InsertAt(q[1..], k - 1, t));
      InsertAtCons(DuesOf(q), k, t.when);
    }
  }

  /** Unlinking the task at position i drops the due time at position i. */
  lemma DuesOfSplice(q: seq<Task>, i: nat)
    requires i < |q|
    ensures DuesOf(q[..i] + q[i + 1..]) == DuesOf(q)[..i] + DuesOf(q)[i + 1..]
  {
    var r := q[..i] + q[i + 1..];
    var d := DuesOf(r);
    var e := DuesOf(q)[..i] + DuesOf(q)[i + 1..];
    forall j | 0 <= j < |d|
      ensures d[j] == e[j]
    {
      if j < i {
        assert r[j] == q[j];
      } else {
        assert r[j] == q[j + 1];
      }
    }
  }

  /** rtic_schedule keeps a queue sorted within a horizon when the new due
      time lies in that horizon: taking the task out keeps the others in
      order, and it goes back in behind every task due no later. */
  lemma {:induction false} RescheduleKeepsSorted(base: u32, q: seq<Task>, task: Task, when: u32)
    requires Distinct(q) && SortedFrom(base, DuesOf(q)) && 0 <= TDiff(base, when)
    ensures var dues := DuesOf(Without(q, task));
            SortedFrom(base, InsertAt(dues, InsertionIndex(dues, when), when))
  {
    if j :| 0 <= j < |q| && q[j] == task {
      WithoutAt(q, j);
      DuesOfSplice(q, j);
      RemoveKeepsSorted(base, DuesOf(q), j);
    } else {
      WithoutAbsent(q, task);
    }
    InsertKeepsSorted(base, DuesOf(Without(q, task)), when);
  }

  /** Each task of q links to the one after it and the last one ends the chain. */
  ghost predicate Chained(q: seq<Task>)
    reads q
  {
    && (forall i :: 0 <= i < |q| - 1 ==> q[i].next == q[i + 1])
    && (q != [] ==> q[|q| - 1].next == null)
  }

  /** Two positions of a chain that hold the same task agree from there on. */
  lemma {:induction false} ChainShift(q: seq<Task>, i: nat, j: nat, m: nat)
    requires Chained(q) && i < j && j + m < |q|
    ensures q[i] == q[j] ==> q[i + m] == q[j + m]
  {
    if m > 0 {
      ChainShift(q, i, j, m - 1);
    }
  }

  /** A null-terminated chain has no cycle, so it visits no task twice. */
  lemma {:induction false} ChainIsDistinct(q: seq<Task>)
    requires Chained(q)
    ensures Distinct(q)
  {
    forall i, j | 0 <= i < j < |q|
      ensures q[i] != q[j]
    {
      var m := |q| - 1 - j;
      ChainShift(q, i, j, m);
      assert q[i + m].next == q[i + m + 1];
    }
  }

  /** struct rtic_loop */
  class Loop {
    var hal: HalHandle
    var queue: Task?
    ghost var Queue: seq<Task>

    /** `queue` heads a null-terminated chain through `next` that visits the
        tasks of Queue in order, and every one of them belongs to this loop. */
    ghost predicate Valid()
      reads this, Queue
    {
      && (forall i {:trigger Queue[i].loop} :: 0 <= i < |Queue| ==> Queue[i].loop == this)
      && queue == (if Queue == [] then null else Queue[0])
      && Chained(Queue)
    }

    /** `{ .hal = hal }`: a loop with an empty queue. */
    constructor (hal: HalHandle)
      ensures Valid() && this.hal == hal && Queue == []
    {
      this.hal := hal;
      queue := null;
      Queue := [];
    }
  }

  /** `*pnext = task->next`: the link held by prev (the loop's head link when
      prev is null) skips the task at position i, which leaves the queue. */
  method Unlink(loop: Loop, prev: Task?, task: Task, ghost i: nat)
    requires loop.Valid() && i < |loop.Queue| && loop.Queue[i] == task
    requires prev == if i == 0 then null else loop.Queue[i - 1]
    modifies loop`queue, loop`Queue, loop.Queue`next
    ensures loop.Valid()
    ensures loop.Queue == old(loop.Queue[..i] + loop.Queue[i + 1..])
    ensures task.next == old(task.next)
  {
    ghost var q := loop.Queue;
    ChainIsDistinct(q);
    assert task.next == if i + 1 < |q| then q[i + 1] else null;
    if prev == null {
      loop.queue := task.next;
    } else {
      prev.next := task.next;
    }
    ghost var r := q[..i] + q[i + 1..];
    loop.Queue := r;
    forall j | 0 <= j < |r|
      ensures r[j] == if j < i then q[j] else q[j + 1]
    {
    }
    assert loop.queue == if r == [] then null else r[0];
    forall j | 0 <= j < |r| - 1
      ensures r[j].next == r[j + 1]
    {
      if j + 1 < i {
        assert r[j] == q[j] != prev;
      } else if j + 1 > i {
        assert r[j] == q[j + 1] != prev;
      }
    }
    if r != [] {
      var last := |r| - 1;
      if last + 1 != i {
        assert r[last] == q[|q| - 1] != prev;
      }
    }
  }

  /** remove_unsafe: unlink the task from its loop's queue if it is there and
      report whether it was.  The task's own `next` is left as it was. */
  method RemoveUnsafe(task: Task) returns (found: bool)
    requires task.loop != null && task.loop.Valid()
    modifies task.loop`queue, task.loop`Queue, task.loop.Queue`next
    ensures task.loop.Valid()
    ensures found <==> task in old(task.loop.Queue)
    ensures task.loop.Queue == Without(old(task.loop.Queue), task)
    ensures task.next == old(task.next)
  {
    var loop := task.loop;
    ghost var q := loop.Queue;
    ChainIsDistinct(q);
    ghost var i := 0;
    var prev: Task? := null;
    var cur := loop.queue;
    while cur != null
      invariant 0 <= i <= |q|
      invariant cur == if i < |q| then q[i] else null
      invariant prev == if i == 0 then null else q[i - 1]
      invariant task !in q[..i]
      invariant loop.Valid() && loop.Queue == q
      invariant task.next == old(task.next)
      decreases |q| - i
    {
      if cur == task {
        Unlink(loop, prev, task, i);
        WithoutAt(q, i);
        return true;
      }
      assert loop.Valid();
      prev := cur;
      cur := cur.next;
      i := i + 1;
    }
    assert q[..i] == q;
    WithoutAbsent(q, task);
    return false;
  }

  /** rtic_cancel: take the task off its loop's queue; true iff it was queued.
      As in remove_unsafe, the task's own `next` is left as it was. */
  method Cancel(task: Task) returns (wasQueued: bool)
    requires task.loop != null && task.loop.Valid()
    modifies task.loop`queue, task.loop`Queue, task.loop.Queue`next
    ensures task.loop.Valid()
    ensures wasQueued <==> task in old(task.loop.Queue)
    ensures task.loop.Queue == Without(old(task.loop.Queue), task)
    ensures task.next == old(task.next)
  {
    wasQueued := RemoveUnsafe(task);
  }

  /** `task->next = *pnext; *pnext = task;`: link the task into the queue at
      position i, behind prev (at the head when prev is null). */
  method Link(loop: Loop, prev: Task?, task: Task, ghost i: nat)
    requires loop.Valid() && i <= |loop.Queue|
    requires prev == if i == 0 then null else loop.Queue[i - 1]
    requires task !in loop.Queue && task.loop == loop
    modifies loop`queue, loop`Queue, loop.Queue`next, task`next
    ensures loop.Valid()
    ensures loop.Queue == old(InsertAt(loop.Queue, i, task))
  {
    ghost var q := loop.Queue;
    ChainIsDistinct(q);
    task.next := if prev == null then loop.queue else prev.next;
    if prev == null {
      loop.queue := task;
    } else {
      prev.next := task;
    }
    ghost var r := InsertAt(q, i, task);
    loop.Queue := r;
    InsertAtElements(q, i, task);
    forall j | 0 <= j < |r| - 1
      ensures r[j].next == r[j + 1]
    {
      if j + 1 < i {
        assert r[j] == q[j] != prev;
      } else if j > i {
        assert r[j] == q[j - 1] != prev;
      }
    }
    assert r[|r| - 1].next == null by {
      if |r| - 1 > i {
        assert r[|r| - 1] == q[|q| - 1] != prev;
      }
    }
  }

  /** The search loop of rtic_schedule: the link a task due at `when` goes
      behind, found by walking from the head past every task not due strictly
      after `when`.  k is the position the task will take. */
  method FindSlot(loop: Loop, when: u32) returns (prev: Task?, ghost k: nat)
    requires loop.Valid()
    ensures k == InsertionIndex(DuesOf(loop.Queue), when)
    ensures var slot := InsertionIndex(DuesOf(loop.Queue), when);
            prev == if slot == 0 then null else loop.Queue[slot - 1]
  {
    ghost var q := loop.Queue;
    ghost var dues := DuesOf(q);
    k := 0;
    prev := null;
    var cur := loop.queue;
    while cur != null
      invariant 0 <= k <= |q|
      invariant cur == if k < |q| then q[k] else null
      invariant prev == if k == 0 then null else q[k - 1]
      invariant forall j :: 0 <= j < k ==> !Before(when, dues[j])
      decreases |q| - k
    {
      if Before(when, cur.when) {
        break;
      }
      prev := cur;
      cur := cur.next;
      k := k + 1;
    }
    InsertionIndexUnique(dues, when, k);
  }

  /** The walk and link of rtic_schedule: put a task that is not queued in
      front of the first task due strictly after its own due time, or at the
      end. */
  method Insert(loop: Loop, task: Task)
    requires loop.Valid() && task !in loop.Queue && task.loop == loop
    modifies loop`queue, loop`Queue, loop.Queue`next, task`next
    ensures loop.Valid()
    ensures loop.Queue == old(InsertAt(loop.Queue, InsertionIndex(DuesOf(loop.Queue), task.when), task))
    ensures DuesOf(loop.Queue) ==
              old(InsertAt(DuesOf(loop.Queue), InsertionIndex(DuesOf(loop.Queue), task.when), task.when))
  {
    ghost var q := loop.Queue;
    ghost var dues := DuesOf(q);
    var prev: Task?;
    ghost var k: nat;
    prev, k := FindSlot(loop, task.when);
    Link(loop, prev, task, k);
    assert DuesOf(q) == dues;
    DuesOfInsertAt(q, k, task);
  }

  /** The second half of rtic_schedule, once the task is off the queue: store
      the due time, callback, context and flags in the task, then link it in
      front of the first task due strictly after `when`, or at the end. */
  method Enqueue(task: Task, when: u32, func: FuncPtr, context: ContextPtr, flags: u32)
    requires task.loop != null && task.loop.Valid() && task !in task.loop.Queue
    modifies task.loop`queue, task.loop`Queue, task.loop.Queue`next
    modifies task`next, task`when, task`func, task`context, task`flags
    ensures task.loop.Valid()
    ensures task.when == when && task.func == func && task.context == context && task.flags == flags
    ensures task.loop.Queue ==
              old(InsertAt(task.loop.Queue, InsertionIndex(DuesOf(task.loop.Queue), when), task))
    ensures DuesOf(task.loop.Queue) ==
              old(InsertAt(DuesOf(task.loop.Queue), InsertionIndex(DuesOf(task.loop.Queue), when), when))
  {
    var loop := task.loop;
    ghost var dues := DuesOf(loop.Queue);
    task.Set(when, func, context, flags);
    assert DuesOf(loop.Queue) == dues;
    Insert(loop, task);
  }

  /** rtic_schedule: (re)schedule the task at `when` with the given callback,
      context and flags.  It is first taken off the queue as rtic_cancel does;
      it then goes in front of the first task due strictly after `when`, that
      is behind every task due no later, or at the end.  The result says
      whether it was queued before. */
  method Schedule(task: Task, when: u32, func: FuncPtr, context: ContextPtr, flags: u32)
    returns (wasQueued: bool)
    requires task.loop != null && task.loop.Valid()
    modifies task.loop`queue, task.loop`Queue, task.loop.Queue`next
    modifies task`next, task`when, task`func, task`context, task`flags
    ensures task.loop.Valid()
    ensures wasQueued <==> task in old(task.loop.Queue)
    ensures task.when == when && task.func == func && task.context == context && task.flags == flags
    ensures var rest := old(Without(task.loop.Queue, task));
            var k := InsertionIndex(old(DuesOf(Without(task.loop.Queue, task))), when);
            task.loop.Queue == InsertAt(rest, k, task)
    ensures var dues := old(DuesOf(Without(task.loop.Queue, task)));
            DuesOf(task.loop.Queue) == InsertAt(dues, InsertionIndex(dues, when), when)
  {
    var loop := task.loop;
    ghost var rest := Without(loop.Queue, task);
    ghost var dues := DuesOf(rest);
    WithoutSubset(loop.Queue, task);
    wasQueued := RemoveUnsafe(task);
    assert loop.Queue == rest;
    assert DuesOf(rest) == dues;
    Enqueue(task, when, func, context, flags);
    assert loop.Queue == InsertAt(rest, InsertionIndex(dues, when), task);
  }

  /** rtic_step: one pass of the run loop at tick `now`.  With an empty queue
      the loop may sleep for the largest positive distance, 2^31 - 1 ticks.
      When the head is due strictly after `now` nothing runs and the head's due
      time is when to look again.  Otherwise the head is unlinked, its callback
      and context are read, and it is handed back to be invoked with `now`; the
      next step should follow at once. */
  method Step(loop: Loop, now: u32) returns (next: u32, call: Option<Invocation>)
    requires loop.Valid()
    modifies loop`queue, loop`Queue, loop.Queue`next
    ensures loop.Valid()
    ensures old(loop.Queue) == [] ==>
              next == AddTicks(now, 0x7fff_ffff) && call == None && loop.Queue == []
    ensures old(loop.Queue) != [] && After(old(loop.Queue[0].when), now) ==>
              next == old(loop.Queue[0].when) && call == None && loop.Queue == old(loop.Queue)
    ensures old(loop.Queue) != [] && !After(old(loop.Queue[0].when), now) ==>
              && next == now
              && loop.Queue == old(loop.Queue[1..])
              && call == Some(Invocation(old(loop.Queue[0]), old(loop.Queue[0].func),
                                         old(loop.Queue[0].context), now))
  {
    if loop.queue != null {
      if After(loop.queue.when, now) {
        next := loop.queue.when;
        call := None;
      } else {
        var task := loop.queue;
        ChainIsDistinct(loop.Queue);
        WithoutAt(loop.Queue, 0);
        var _ := RemoveUnsafe(task);
        call := Some(Invocation(task, task.func, task.context, now));
        next := now;
      }
    } else {
      next := AddTicks(now, 0x7fff_ffff);
      call := None;
    }
  }
}
