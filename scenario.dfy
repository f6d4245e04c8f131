/**
 * The `scheduletask` regression scenario of test.c, replayed on the model:
 * four tasks scheduled out of order, cancelled from the middle, the front and
 * the back and re-added, then drained by rtic_step at increasing ticks.
 * Negative tick constants of the C test are their uint32 conversions.
 *
 * Each operation of the test is one method whose contract pins the queue
 * before and after, so that the replay below is a chain of small proofs.
 */
module Scenario {
  import opened Ticks
  import opened QueueOrder
  import opened Scheduler

  /** Stand-ins for `func1` and `&rc`. */
  const FUNC1: FuncPtr := 1
  const RC: ContextPtr := 2

  /** Four distinct tasks, all bound to the loop. */
  ghost predicate Bound(loop: Loop, t1: Task, t2: Task, t3: Task, t4: Task)
    reads t1, t2, t3, t4
  {
    && t1.loop == loop && t2.loop == loop && t3.loop == loop && t4.loop == loop
    && t1 != t2 && t1 != t3 && t1 != t4 && t2 != t3 && t2 != t4 && t3 != t4
  }

  /** The callback, context and flags every schedule of the test passes. */
  ghost predicate Filled(t: Task)
    reads t
  {
    t.func == FUNC1 && t.context == RC && t.flags == 0
  }

  /** The due times the test gives the tasks once all four are scheduled:
      10, 30, 20 and -10 (t2 moves to -20 later), each with func1 and &rc. */
  ghost predicate Dues(t1: Task, t2: Task, t3: Task, t4: Task, w2: u32)
    reads t1, t2, t3, t4
  {
    && t1.when == 10 && t2.when == w2 && t3.when == 20 && t4.when == Wrap(-10)
    && Filled(t1) && Filled(t2) && Filled(t3) && Filled(t4)
  }

  /** A four-element sequence with its element at position 0, 1 or 3 dropped. */
  lemma Drop4<T>(a: T, b: T, c: T, d: T)
    ensures [a, b, c, d][..0] + [a, b, c, d][1..] == [b, c, d]
    ensures [a, b, c, d][..1] + [a, b, c, d][2..] == [a, c, d]
    ensures [a, b, c, d][..3] + [a, b, c, d][4..] == [a, b, c]
  {
  }

  /** Inserting into short sequences at the positions the test produces. */
  lemma Insert3<T>(a: T, b: T, c: T, x: T)
    ensures InsertAt([a, b, c], 0, x) == [x, a, b, c]
    ensures InsertAt([a, b, c], 1, x) == [a, x, b, c]
  {
  }

  /** Lines 53-58: a fresh loop, four tasks bound to it, t1 scheduled at 10. */
  method Start() returns (loop: Loop, t1: Task, t2: Task, t3: Task, t4: Task)
    ensures fresh(loop) && fresh(t1) && fresh(t2) && fresh(t3) && fresh(t4)
    ensures Bound(loop, t1, t2, t3, t4) && loop.Valid() && loop.Queue == [t1]
    ensures t1.when == 10 && Filled(t1)
  {
    loop := new Loop(0);
    t1 := new Task(loop);
    t2 := new Task(loop);
    t3 := new Task(loop);
    t4 := new Task(loop);
    var queued := Schedule(t1, 10, FUNC1, RC, 0);
    assert InsertAt([], 0, t1) == [t1];
  }

  /** Lines 60-62: t2 at 30 goes behind t1. */
  method AddSecond(loop: Loop, t1: Task, t2: Task, t3: Task, t4: Task)
    requires Bound(loop, t1, t2, t3, t4) && loop.Valid() && loop.Queue == [t1]
    requires t1.when == 10 && Filled(t1)
    modifies loop, t1, t2, t3, t4
    ensures Bound(loop, t1, t2, t3, t4) && loop.Valid() && loop.Queue == [t1, t2]
    ensures t1.when == 10 && t2.when == 30 && Filled(t1) && Filled(t2)
  {
    WithoutAbsent([t1], t2);
    assert DuesOf([t1]) == [10];
    assert InsertionIndex([10], 30) == 1;
    var queued := Schedule(t2, 30, FUNC1, RC, 0);
    assert InsertAt([t1], 1, t2) == [t1, t2];
  }

  /** Lines 64-66: t3 at 20 goes between t1 and t2. */
  method AddThird(loop: Loop, t1: Task, t2: Task, t3: Task, t4: Task)
    requires Bound(loop, t1, t2, t3, t4) && loop.Valid() && loop.Queue == [t1, t2]
    requires t1.when == 10 && t2.when == 30 && Filled(t1) && Filled(t2)
    modifies loop, t1, t2, t3, t4
    ensures Bound(loop, t1, t2, t3, t4) && loop.Valid() && loop.Queue == [t1, t3, t2]
    ensures t1.when == 10 && t2.when == 30 && t3.when == 20 && Filled(t1) && Filled(t2) && Filled(t3)
  {
    WithoutAbsent([t1, t2], t3);
    assert DuesOf([t1, t2]) == [10, 30];
    assert InsertionIndex([10, 30], 20) == 1;
    var queued := Schedule(t3, 20, FUNC1, RC, 0);
    assert InsertAt([t1, t2], 1, t3) == [t1, t3, t2];
  }

  /** Lines 68-70: t4 at -10 is due before all others, across the wrap. */
  method AddFourth(loop: Loop, t1: Task, t2: Task, t3: Task, t4: Task)
    requires Bound(loop, t1, t2, t3, t4) && loop.Valid() && loop.Queue == [t1, t3, t2]
    requires t1.when == 10 && t2.when == 30 && t3.when == 20 && Filled(t1) && Filled(t2) && Filled(t3)
    modifies loop, t1, t2, t3, t4
    ensures Bound(loop, t1, t2, t3, t4) && loop.Valid() && loop.Queue == [t4, t1, t3, t2]
    ensures Dues(t1, t2, t3, t4, 30)
  {
    WithoutAbsent([t1, t3, t2], t4);
    assert DuesOf([t1, t3, t2]) == [10, 20, 30];
    assert InsertionIndex([10, 20, 30], Wrap(-10)) == 0;
    Insert3(t1, t3, t2, t4);
    var queued := Schedule(t4, Wrap(-10), FUNC1, RC, 0);
  }

  /** Lines 72-74: cancelling t1 takes it out of the middle. */
  method CancelMiddle(loop: Loop, t1: Task, t2: Task, t3: Task, t4: Task) returns (removed: bool)
    requires Bound(loop, t1, t2, t3, t4) && loop.Valid() && loop.Queue == [t4, t1, t3, t2]
    requires Dues(t1, t2, t3, t4, 30)
    modifies loop, t1, t2, t3, t4
    ensures Bound(loop, t1, t2, t3, t4) && loop.Valid() && loop.Queue == [t4, t3, t2]
    ensures Dues(t1, t2, t3, t4, 30) && removed
  {
    WithoutAt([t4, t1, t3, t2], 1);
    Drop4(t4, t1, t3, t2);
    removed := Cancel(t1);
  }

  /** Lines 76-77: t1 at 10 goes back between t4 and t3. */
  method ReAddMiddle(loop: Loop, t1: Task, t2: Task, t3: Task, t4: Task)
    requires Bound(loop, t1, t2, t3, t4) && loop.Valid() && loop.Queue == [t4, t3, t2]
    requires Dues(t1, t2, t3, t4, 30)
    modifies loop, t1, t2, t3, t4
    ensures Bound(loop, t1, t2, t3, t4) && loop.Valid() && loop.Queue == [t4, t1, t3, t2]
    ensures Dues(t1, t2, t3, t4, 30)
  {
    WithoutAbsent([t4, t3, t2], t1);
    assert DuesOf([t4, t3, t2]) == [Wrap(-10), 20, 30];
    assert InsertionIndex([Wrap(-10), 20, 30], 10) == 1;
    Insert3(t4, t3, t2, t1);
    var queued := Schedule(t1, 10, FUNC1, RC, 0);
  }

  /** Lines 79-81: cancelling t4 takes it off the front. */
  method CancelFront(loop: Loop, t1: Task, t2: Task, t3: Task, t4: Task) returns (removed: bool)
    requires Bound(loop, t1, t2, t3, t4) && loop.Valid() && loop.Queue == [t4, t1, t3, t2]
    requires Dues(t1, t2, t3, t4, 30)
    modifies loop, t1, t2, t3, t4
    ensures Bound(loop, t1, t2, t3, t4) && loop.Valid() && loop.Queue == [t1, t3, t2]
    ensures Dues(t1, t2, t3, t4, 30) && removed
  {
    WithoutAt([t4, t1, t3, t2], 0);
    Drop4(t4, t1, t3, t2);
    removed := Cancel(t4);
  }

  /** Lines 83-84: t4 at -10 goes back to the front. */
  method ReAddFront(loop: Loop, t1: Task, t2: Task, t3: Task, t4: Task)
    requires Bound(loop, t1, t2, t3, t4) && loop.Valid() && loop.Queue == [t1, t3, t2]
    requires Dues(t1, t2, t3, t4, 30)
    modifies loop, t1, t2, t3, t4
    ensures Bound(loop, t1, t2, t3, t4) && loop.Valid() && loop.Queue == [t4, t1, t3, t2]
    ensures Dues(t1, t2, t3, t4, 30)
  {
    WithoutAbsent([t1, t3, t2], t4);
    assert DuesOf([t1, t3, t2]) == [10, 20, 30];
    assert InsertionIndex([10, 20, 30], Wrap(-10)) == 0;
    Insert3(t1, t3, t2, t4);
    var queued := Schedule(t4, Wrap(-10), FUNC1, RC, 0);
  }

  /** Lines 86-88: cancelling t2 takes it off the back. */
  method CancelBack(loop: Loop, t1: Task, t2: Task, t3: Task, t4: Task) returns (removed: bool)
    requires Bound(loop, t1, t2, t3, t4) && loop.Valid() && loop.Queue == [t4, t1, t3, t2]
    requires Dues(t1, t2, t3, t4, 30)
    modifies loop, t1, t2, t3, t4
    ensures Bound(loop, t1, t2, t3, t4) && loop.Valid() && loop.Queue == [t4, t1, t3]
    ensures Dues(t1, t2, t3, t4, 30) && removed
  {
    WithoutAt([t4, t1, t3, t2], 3);
    Drop4(t4, t1, t3, t2);
    removed := Cancel(t2);
  }

  /** Lines 90-92: t2 re-used at -20 goes in front of t4. */
  method ReuseFront(loop: Loop, t1: Task, t2: Task, t3: Task, t4: Task)
    requires Bound(loop, t1, t2, t3, t4) && loop.Valid() && loop.Queue == [t4, t1, t3]
    requires Dues(t1, t2, t3, t4, 30)
    modifies loop, t1, t2, t3, t4
    ensures Bound(loop, t1, t2, t3, t4) && loop.Valid() && loop.Queue == [t2, t4, t1, t3]
    ensures Dues(t1, t2, t3, t4, Wrap(-20))
  {
    WithoutAbsent([t4, t1, t3], t2);
    assert DuesOf([t4, t1, t3]) == [Wrap(-10), 10, 20];
    assert InsertionIndex([Wrap(-10), 10, 20], Wrap(-20)) == 0;
    Insert3(t4, t1, t3, t2);
    var queued := Schedule(t2, Wrap(-20), FUNC1, RC, 0);
  }

  /** Lines 97-100: at -50 the head is due at -20, so nothing runs. */
  method StepEarly(loop: Loop, t1: Task, t2: Task, t3: Task, t4: Task)
    returns (next: u32, call: Option<Invocation>)
    requires Bound(loop, t1, t2, t3, t4) && loop.Valid() && loop.Queue == [t2, t4, t1, t3]
    requires Dues(t1, t2, t3, t4, Wrap(-20))
    modifies loop, t1, t2, t3, t4
    ensures Bound(loop, t1, t2, t3, t4) && loop.Valid() && loop.Queue == [t2, t4, t1, t3]
    ensures Dues(t1, t2, t3, t4, Wrap(-20)) && next == Wrap(-20)
    ensures call == None
  {
    next, call := Step(loop, Wrap(-50));
  }

  /** Lines 102-106: at -20 t2 is due on time and runs. */
  method StepOnTime(loop: Loop, t1: Task, t2: Task, t3: Task, t4: Task)
    returns (next: u32, call: Option<Invocation>)
    requires Bound(loop, t1, t2, t3, t4) && loop.Valid() && loop.Queue == [t2, t4, t1, t3]
    requires Dues(t1, t2, t3, t4, Wrap(-20))
    modifies loop, t1, t2, t3, t4
    ensures Bound(loop, t1, t2, t3, t4) && loop.Valid() && loop.Queue == [t4, t1, t3]
    ensures Dues(t1, t2, t3, t4, Wrap(-20)) && next == Wrap(-20)
    ensures call == Some(Invocation(t2, FUNC1, RC, Wrap(-20)))
  {
    next, call := Step(loop, Wrap(-20));
  }

  /** Lines 108-112: at -5 t4, due at -10, runs late. */
  method StepLate(loop: Loop, t1: Task, t2: Task, t3: Task, t4: Task)
    returns (next: u32, call: Option<Invocation>)
    requires Bound(loop, t1, t2, t3, t4) && loop.Valid() && loop.Queue == [t4, t1, t3]
    requires Dues(t1, t2, t3, t4, Wrap(-20))
    modifies loop, t1, t2, t3, t4
    ensures Bound(loop, t1, t2, t3, t4) && loop.Valid() && loop.Queue == [t1, t3]
    ensures Dues(t1, t2, t3, t4, Wrap(-20)) && next == Wrap(-5)
    ensures call == Some(Invocation(t4, FUNC1, RC, Wrap(-5)))
  {
    next, call := Step(loop, Wrap(-5));
  }

  /** Lines 114-118: at 50 t1 runs first of the two overdue tasks. */
  method StepLateFirst(loop: Loop, t1: Task, t2: Task, t3: Task, t4: Task)
    returns (next: u32, call: Option<Invocation>)
    requires Bound(loop, t1, t2, t3, t4) && loop.Valid() && loop.Queue == [t1, t3]
    requires Dues(t1, t2, t3, t4, Wrap(-20))
    modifies loop, t1, t2, t3, t4
    ensures Bound(loop, t1, t2, t3, t4) && loop.Valid() && loop.Queue == [t3]
    ensures Dues(t1, t2, t3, t4, Wrap(-20)) && next == 50
    ensures call == Some(Invocation(t1, FUNC1, RC, 50))
  {
    next, call := Step(loop, 50);
  }

  /** Lines 119-122: at 50 again t3 runs and the queue is empty. */
  method StepLateSecond(loop: Loop, t1: Task, t2: Task, t3: Task, t4: Task)
    returns (next: u32, call: Option<Invocation>)
    requires Bound(loop, t1, t2, t3, t4) && loop.Valid() && loop.Queue == [t3]
    requires Dues(t1, t2, t3, t4, Wrap(-20))
    modifies loop, t1, t2, t3, t4
    ensures loop.Valid() && loop.Queue == [] && next == 50
    ensures call == Some(Invocation(t3, FUNC1, RC, 50))
  {
    next, call := Step(loop, 50);
  }

  /** The whole of test.c `scheduletask` (lines 50-128): the three cancels
      find their task queued; the six steps report -20, -20, -5, 50, 50 and,
      with nothing left, 100 + 0x7fffffff; and they dispatch nothing, t2, t4,
      t1, t3 and nothing, each with func1 and &rc.  The queue orders the test
      checks in between are the contracts of the methods above. */
  method ScheduleTaskReplay()
    returns (t1: Task, t2: Task, t3: Task, t4: Task,
             removed: seq<bool>, nexts: seq<u32>, calls: seq<Option<Invocation>>)
    ensures removed == [true, true, true]
    ensures nexts == [Wrap(-20), Wrap(-20), Wrap(-5), 50, 50, 100 + 0x7fff_ffff]
    ensures calls == [None, Some(Invocation(t2, FUNC1, RC, Wrap(-20))),
                      Some(Invocation(t4, FUNC1, RC, Wrap(-5))), Some(Invocation(t1, FUNC1, RC, 50)),
                      Some(Invocation(t3, FUNC1, RC, 50)), None]
  {
    var loop;
    loop, t1, t2, t3, t4 := Start();
    AddSecond(loop, t1, t2, t3, t4);
    AddThird(loop, t1, t2, t3, t4);
    AddFourth(loop, t1, t2, t3, t4);
    var r1 := CancelMiddle(loop, t1, t2, t3, t4);
    ReAddMiddle(loop, t1, t2, t3, t4);
    var r2 := CancelFront(loop, t1, t2, t3, t4);
    ReAddFront(loop, t1, t2, t3, t4);
    var r3 := CancelBack(loop, t1, t2, t3, t4);
    ReuseFront(loop, t1, t2, t3, t4);
    removed := [r1, r2, r3];
    var n1, c1 := StepEarly(loop, t1, t2, t3, t4);
    var n2, c2 := StepOnTime(loop, t1, t2, t3, t4);
    var n3, c3 := StepLate(loop, t1, t2, t3, t4);
    var n4, c4 := StepLateFirst(loop, t1, t2, t3, t4);
    var n5, c5 := StepLateSecond(loop, t1, t2, t3, t4);
    var n6, c6 := Step(loop, 100);
    nexts := [n1, n2, n3, n4, n5, n6];
    calls := [c1, c2, c3, c4, c5, c6];
  }
}
