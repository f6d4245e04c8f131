/**
 * The order the scheduler keeps its queue in, stated on plain sequences.
 *
 * rtic.c walks the queue from its head and stops at the first entry whose due
 * time is strictly after the new one (`rtic_before(when, entry->when)`), so a
 * new task goes behind every entry that is not later than it, equal ones
 * included.  Because the wrapping comparison is not transitive over the whole
 * 32-bit circle, "the queue is sorted" is only meaningful within a horizon:
 * every due time lies within [base, base + 2^31) for some reference tick base.
 */
module QueueOrder {
  import opened Ticks

  /** No element occurs twice. */
  predicate Distinct<T(==)>(q: seq<T>) {
    forall i, j :: 0 <= i < j < |q| ==> q[i] != q[j]
  }

  /** q with every occurrence of x dropped and the other elements kept in order. */
  function Without<T(==)>(q: seq<T>, x: T): (r: seq<T>)
    ensures x !in r
    ensures |r| <= |q|
  {
    if q == [] then []
    else if q[0] == x then Without(q[1..], x)
    else [q[0]] + Without(q[1..], x)
  }

  /** Dropping an element that is absent changes nothing. */
  lemma {:induction false} WithoutAbsent<T>(q: seq<T>, x: T)
    requires x !in q
    ensures Without(q, x) == q
  {
    if q != [] {
      WithoutAbsent(q[1..], x);
    }
  }

  /** In a queue without duplicates, dropping x splices out its one position. */
  lemma {:induction false} WithoutAt<T>(q: seq<T>, i: nat)
    requires Distinct(q) && i < |q|
    ensures Without(q, q[i]) == q[..i] + q[i + 1..]
  {
    if i == 0 {
      assert q[0] !in q[1..];
      WithoutAbsent(q[1..], q[0]);
    } else {
      var tail := q[1..];
      assert tail[i - 1] == q[i] && q[0] != q[i];
      WithoutAt(tail, i - 1);
      assert Without(q, q[i]) == [q[0]] + tail[..i - 1] + tail[i..];
      assert tail[..i - 1] == q[1..i] && tail[i..] == q[i + 1..];
      assert q[..i] == [q[0]] + q[1..i];
    }
  }

  /** Every element left after dropping x was in q. */
  lemma {:induction false} WithoutSubset<T>(q: seq<T>, x: T)
    ensures forall i :: 0 <= i < |Without(q, x)| ==> Without(q, x)[i] in q
  {
    if q != [] {
      WithoutSubset(q[1..], x);
      var r := Without(q, x);
      forall i | 0 <= i < |r|
        ensures r[i] in q
      {
        if q[0] != x && i == 0 {
        } else if q[0] != x {
          assert r[i] == Without(q[1..], x)[i - 1];
        } else {
          assert r[i] == Without(q[1..], x)[i];
        }
      }
    }
  }

  /** Removing elements keeps the queue free of duplicates. */
  lemma {:induction false} WithoutDistinct<T>(q: seq<T>, x: T)
    requires Distinct(q)
    ensures Distinct(Without(q, x))
  {
    if q != [] {
      WithoutDistinct(q[1..], x);
      WithoutSubset(q[1..], x);
    }
  }

  /** q with x inserted so that it becomes element k. */
  function InsertAt<T>(q: seq<T>, k: nat, x: T): seq<T>
    requires k <= |q|
  {
    q[..k] + [x] + q[k..]
  }

  /** Element by element: ahead of position k the old elements, at k the new
      one, behind it the old elements shifted by one. */
  lemma InsertAtElements<T>(q: seq<T>, k: nat, x: T)
    requires k <= |q|
    ensures forall j :: 0 <= j < |q| + 1 ==>
              InsertAt(q, k, x)[j] == if j < k then q[j] else if j == k then x else q[j - 1]
  {
    var r := InsertAt(q, k, x);
    forall j | 0 <= j < |r|
      ensures r[j] == if j < k then q[j] else if j == k then x else q[j - 1]
    {
      if j < k {
        assert r[j] == r[..k][j];
      } else if j > k {
        assert r[j] == r[k + 1..][j - k - 1];
      }
    }
  }

  /** Inserting behind the head is inserting into the tail. */
  lemma InsertAtCons<T>(q: seq<T>, k: nat, x: T)
    requires 0 < k <= |q|
    ensures InsertAt(q, k, x) == [q[0]] + InsertAt(q[1..], k - 1, x)
  {
    assert q[..k] == [q[0]] + q[1..][..k - 1];
    assert q[k..] == q[1..][k - 1..];
  }

  /** Dropping an element that was just inserted, and was not there before,
      gives back the original sequence. */
  lemma {:induction false} WithoutInsertAt<T>(q: seq<T>, k: nat, x: T)
    requires k <= |q| && x !in q
    ensures Without(InsertAt(q, k, x), x) == q
  {
    if k == 0 {
      assert InsertAt(q, 0, x) == [x] + q;
      assert ([x] + q)[1..] == q;
      WithoutAbsent(q, x);
    } else {
      InsertAtCons(q, k, x);
      var r := InsertAt(q, k, x);
      assert r[1..] == InsertAt(q[1..], k - 1, x);
      WithoutInsertAt(q[1..], k - 1, x);
      assert q == [q[0]] + q[1..];
    }
  }

  /** Re-inserting x into q with x dropped: x occurs exactly once, at the
      insertion position, and with x dropped again the other elements are
      those of q in their old order. */
  lemma {:induction false} ReinsertKeepsOthers<T>(q: seq<T>, k: nat, x: T)
    requires k <= |Without(q, x)|
    ensures forall j :: 0 <= j < |InsertAt(Without(q, x), k, x)| ==>
              (InsertAt(Without(q, x), k, x)[j] == x <==> j == k)
    ensures Without(InsertAt(Without(q, x), k, x), x) == Without(q, x)
  {
    var rest := Without(q, x);
    InsertAtElements(rest, k, x);
    WithoutInsertAt(rest, k, x);
  }

  /** Where rtic_schedule links a task due at `when` into a queue whose due
      times are `dues`: in front of the first entry due strictly after `when`,
      or at the end when there is none. */
  function InsertionIndex(dues: seq<u32>, when: u32): (k: nat)
    ensures k <= |dues|
  {
    if dues == [] then 0
    else if Before(when, dues[0]) then 0
    else 1 + InsertionIndex(dues[1..], when)
  }

  /** The insertion position lies within the queue, nothing ahead of it is due
      strictly after `when`, and the entry it displaces is. */
  lemma {:induction false} InsertionIndexSpec(dues: seq<u32>, when: u32)
    ensures forall j :: 0 <= j < InsertionIndex(dues, when) ==> !Before(when, dues[j])
    ensures InsertionIndex(dues, when) < |dues| ==> Before(when, dues[InsertionIndex(dues, when)])
  {
    if dues != [] && !Before(when, dues[0]) {
      InsertionIndexSpec(dues[1..], when);
    }
  }

  /** The two properties of InsertionIndex determine it. */
  lemma {:induction false} InsertionIndexUnique(dues: seq<u32>, when: u32, k: nat)
    requires k <= |dues|
    requires forall j :: 0 <= j < k ==> !Before(when, dues[j])
    requires k < |dues| ==> Before(when, dues[k])
    ensures k == InsertionIndex(dues, when)
  {
    if k > 0 {
      InsertionIndexUnique(dues[1..], when, k - 1);
    }
  }

  /** Every due time lies in [base, base + 2^31) and the due times ascend
      (ties allowed) in that window. */
  predicate SortedFrom(base: u32, dues: seq<u32>) {
    && (forall i :: 0 <= i < |dues| ==> 0 <= TDiff(base, dues[i]))
    && (forall i, j :: 0 <= i < j < |dues| ==> TDiff(base, dues[i]) <= TDiff(base, dues[j]))
  }

  /** Within the horizon the insertion position splits the queue exactly:
      ahead of the new task are the entries due no later than it, equal due
      times included (FIFO among ties), and behind it those due strictly later. */
  lemma {:induction false} InsertionIndexSplits(base: u32, dues: seq<u32>, when: u32)
    requires SortedFrom(base, dues) && 0 <= TDiff(base, when)
    ensures forall j :: 0 <= j < |dues| ==>
              (j < InsertionIndex(dues, when) <==> TDiff(base, dues[j]) <= TDiff(base, when))
  {
    var k := InsertionIndex(dues, when);
    InsertionIndexSpec(dues, when);
    forall j | 0 <= j < |dues|
      ensures j < k <==> TDiff(base, dues[j]) <= TDiff(base, when)
    {
      DistanceWithinHorizon(base, when, dues[j]);
      if k < |dues| {
        DistanceWithinHorizon(base, when, dues[k]);
      }
    }
  }

  /** Inserting x at a position that has only keys no larger than x's in
      front and only keys no smaller behind keeps a sequence ascending by key. */
  lemma {:induction false} InsertAscending<T>(key: T -> int, q: seq<T>, k: nat, x: T)
    requires k <= |q|
    requires forall i, j :: 0 <= i < j < |q| ==> key(q[i]) <= key(q[j])
    requires forall j :: 0 <= j < k ==> key(q[j]) <= key(x)
    requires forall j :: k <= j < |q| ==> key(x) <= key(q[j])
    ensures forall i, j :: 0 <= i < j < |q| + 1 ==>
              key(InsertAt(q, k, x)[i]) <= key(InsertAt(q, k, x)[j])
  {
    InsertAtElements(q, k, x);
  }

  /** Scheduling within the horizon keeps the queue sorted. */
  lemma {:induction false} InsertKeepsSorted(base: u32, dues: seq<u32>, when: u32)
    requires SortedFrom(base, dues) && 0 <= TDiff(base, when)
    ensures SortedFrom(base, InsertAt(dues, InsertionIndex(dues, when), when))
  {
    var k := InsertionIndex(dues, when);
    InsertionIndexSplits(base, dues, when);
    InsertAscending(t => TDiff(base, t), dues, k, when);
    var r := InsertAt(dues, k, when);
    forall i | 0 <= i < |r|
      ensures 0 <= TDiff(base, r[i])
    {
      if i < k {
        assert r[i] == r[..k][i];
      } else if i > k {
        assert r[i] == r[k + 1..][i - k - 1];
      }
    }
  }

  /** Taking any one entry out keeps the queue sorted. */
  lemma {:induction false} RemoveKeepsSorted(base: u32, dues: seq<u32>, i: nat)
    requires SortedFrom(base, dues) && i < |dues|
    ensures SortedFrom(base, dues[..i] + dues[i + 1..])
  {
    var r := dues[..i] + dues[i + 1..];
    forall a | 0 <= a < |r|
      ensures r[a] == if a < i then dues[a] else dues[a + 1]
    {
    }
  }

  /** In a sorted queue no entry is before the head. */
  lemma {:induction false} HeadIsEarliest(base: u32, dues: seq<u32>)
    requires SortedFrom(base, dues) && dues != []
    ensures forall j :: 0 <= j < |dues| ==> !Before(dues[j], dues[0])
  {
    forall j | 0 <= j < |dues|
      ensures !Before(dues[j], dues[0])
    {
      DistanceWithinHorizon(base, dues[j], dues[0]);
    }
  }

  /** When the head of a sorted queue is not yet due at a tick `now` inside the
      horizon, no entry is: one step that reports the head's due time leaves
      nothing due behind. */
  lemma {:induction false} NothingDueBehindHead(base: u32, dues: seq<u32>, now: u32)
    requires SortedFrom(base, dues) && dues != [] && 0 <= TDiff(base, now)
    requires After(dues[0], now)
    ensures forall j :: 0 <= j < |dues| ==> After(dues[j], now)
  {
    DistanceWithinHorizon(base, dues[0], now);
    forall j | 0 <= j < |dues|
      ensures After(dues[j], now)
    {
      DistanceWithinHorizon(base, dues[j], now);
    }
  }
}
