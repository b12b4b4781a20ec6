// The global queue of timeouts.
module Timers {
  import opened Types
  import opened TaskStates
  import opened Schedulers
  import opened WaitQueues

  const NSEC_PER_SEC: nat := 1_000_000_000

  datatype TimeSpec = TimeSpec(sec: nat, nsec: nat)

  /** `TimeSpec::cmp` says Greater. */
  predicate Later(a: TimeSpec, b: TimeSpec) {
    a.sec > b.sec || (a.sec == b.sec && a.nsec > b.nsec)
  }

  function Plus(a: TimeSpec, b: TimeSpec): TimeSpec {
    var nsec := a.nsec + b.nsec;
    TimeSpec(a.sec + b.sec + nsec / NSEC_PER_SEC, nsec % NSEC_PER_SEC)
  }

  function Nanos(a: TimeSpec): nat { a.sec * NSEC_PER_SEC + a.nsec }

  /** On normalised times the order is the order of nanoseconds, and adding adds them. */
  lemma TimeOrder(a: TimeSpec, b: TimeSpec)
    ensures a.nsec < NSEC_PER_SEC && b.nsec < NSEC_PER_SEC ==> (Later(a, b) <==> Nanos(a) > Nanos(b))
    ensures Nanos(Plus(a, b)) == Nanos(a) + Nanos(b) && Plus(a, b).nsec < NSEC_PER_SEC
  {
  }

  datatype Timer = Timer(task: nat, timeout: TimeSpec)

  /** The maximum of the reversed order, as `BinaryHeap::pop` picks it: no other timer is earlier. */
  predicate Top(heap: multiset<Timer>, w: Timer) {
    w in heap && forall x :: x in heap ==> !Later(w.timeout, x.timeout)
  }

  lemma {:induction false} TopExists(heap: multiset<Timer>)
    requires heap != multiset{}
    ensures exists w :: Top(heap, w)
    decreases |heap|
  {
    var x :| x in heap;
    var rest := heap - multiset{x};
    assert heap == rest + multiset{x};
    if rest == multiset{} {
      assert Top(heap, x);
    } else {
      TopExists(rest);
      var w :| Top(rest, w);
      assert forall y :: y in heap ==> y == x || y in rest;
      assert Top(heap, if Later(w.timeout, x.timeout) then x else w);
    }
  }

  /** Some timer of `heap` that has run out at `now` is for task `t`. */
  ghost predicate Due(heap: multiset<Timer>, now: TimeSpec, t: nat) {
    exists w :: w in heap && w.task == t && !Later(w.timeout, now)
  }

  ghost predicate Pending(heap: multiset<Timer>, rest: multiset<Timer>, now: TimeSpec) {
    forall w: Timer :: rest[w] == if Later(w.timeout, now) then heap[w] else 0
  }

  /** Every sleeper with a due timer is ready; nobody else's state has changed. */
  ghost predicate RangDue(k: Sched, k': Sched, heap: multiset<Timer>, now: TimeSpec) {
    && k'.tasks.Keys == k.tasks.Keys
    && (forall u :: u in k.tasks ==>
          k'.tasks[u] == if Sleeps(k, u) && Due(heap, now, u) then k.tasks[u].(status := Ready) else k.tasks[u])
  }

  /** Midway: timers have been taken from `heap`, all of them due. */
  ghost predicate Ringing(k: Sched, k': Sched, heap: multiset<Timer>, left: multiset<Timer>, now: TimeSpec) {
    && left <= heap && Forward(k, k') && RangDue(k, k', heap - left, now)
    && (forall w: Timer :: w in heap - left ==> !Later(w.timeout, now))
  }

  lemma RingStart(k: Sched, heap: multiset<Timer>, now: TimeSpec)
    ensures Ringing(k, k, heap, heap, now)
  {
    ForwardSelf(k, k);
    assert heap - heap == multiset{};
  }

  lemma RingStep(k: Sched, k1: Sched, heap: multiset<Timer>, left: multiset<Timer>, now: TimeSpec, w: Timer)
    requires Ringing(k, k1, heap, left, now) && w in left && !Later(w.timeout, now) && Inv(k1, {})
    ensures var k2 := if w.task in k1.tasks then Nudged(k1, w.task) else k1;
            Ringing(k, k2, heap, left - multiset{w}, now)
  {
    hide Inv, Forward;
    var left' := left - multiset{w};
    var taken, taken' := heap - left, heap - left';
    assert taken' == taken + multiset{w};
    var k2 := if w.task in k1.tasks then Nudged(k1, w.task) else k1;
    assert Forward(k, k2) by {
      if w.task in k1.tasks {
        NudgedKeeps(k1, {}, w.task);
        ForwardThen(k, k1, k2);
      }
    }
    forall u | u in k.tasks
      ensures k2.tasks[u] == if Sleeps(k, u) && Due(taken', now, u) then k.tasks[u].(status := Ready) else k.tasks[u]
    {
      DueMore(taken, now, w, u);
    }
  }

  lemma DueMore(heap: multiset<Timer>, now: TimeSpec, w: Timer, u: nat)
    requires !Later(w.timeout, now)
    ensures Due(heap + multiset{w}, now, u) <==> Due(heap, now, u) || u == w.task
  {
    if u == w.task {
      assert w in heap + multiset{w};
    } else if Due(heap, now, u) {
      var x :| x in heap && x.task == u && !Later(x.timeout, now);
      assert x in heap + multiset{w};
    }
  }

  /** The loop may stop at a timer that is not due: none after it is. */
  lemma RingDone(k: Sched, k1: Sched, heap: multiset<Timer>, left: multiset<Timer>, now: TimeSpec)
    requires Ringing(k, k1, heap, left, now)
    requires left == multiset{} || exists w :: Top(left, w) && Later(w.timeout, now)
    ensures Pending(heap, left, now) && RangDue(k, k1, heap, now) && Forward(k, k1)
  {
    hide Forward;
    forall w | w in left
      ensures Later(w.timeout, now)
    {
    }
    forall w: Timer
      ensures left[w] == if Later(w.timeout, now) then heap[w] else 0
    {
      assert heap[w] == left[w] + (heap - left)[w];
    }
    forall u
      ensures Due(heap, now, u) <==> Due(heap - left, now, u)
    {
      if Due(heap, now, u) {
        var w :| w in heap && w.task == u && !Later(w.timeout, now);
        assert w !in left && w in heap - left;
      }
    }
  }

  class TimeoutWaitQueue {
    var inner: multiset<Timer>

    constructor ()
      ensures inner == multiset{}
    {
      inner := multiset{};
    }

    method AddTask(task: nat, timeout: TimeSpec)
      modifies this
      ensures inner == old(inner) + multiset{Timer(task, timeout)}
    {
      inner := inner + multiset{Timer(task, timeout)};
    }

    method Pop() returns (w: Option<Timer>)
      modifies this
      ensures w.None? <==> old(inner) == multiset{}
      ensures w.None? ==> inner == old(inner)
      ensures w.Some? ==> Top(old(inner), w.value) && inner == old(inner) - multiset{w.value}
    {
      if inner == multiset{} {
        return None;
      }
      TopExists(inner);
      var x :| x in inner && Top(inner, x);
      inner := inner - multiset{x};
      return Some(x);
    }

    /** Exactly the timers later than `now` stay; every sleeper with a due timer ends up ready, and once in
        the ready queue. */
    method WakeExpired(s: Scheduler, now: TimeSpec)
      requires s.Valid()
      modifies this, s`tasks, s`ready, s`sleeping
      ensures s.Valid() && Pending(old(inner), inner, now)
      ensures RangDue(old(s.State()), s.State(), old(inner), now) && Forward(old(s.State()), s.State())
    {
      hide Inv, Forward, Ringing, Nudged, RangDue, Pending, Top;
      ghost var k := s.State();
      RingStart(k, inner, now);
      while true
        invariant s.Valid() && Ringing(k, s.State(), old(inner), inner, now)
        decreases |inner|
      {
        ghost var left := inner;
        var popped := Pop();
        if popped.None? {
          break;
        }
        var w := popped.value;
        TopIn(left, w);
        if Later(w.timeout, now) {
          inner := inner + multiset{w};
          assert inner == left;
          break;
        }
        RingStep(k, s.State(), old(inner), left, now, w);
        if w.task !in s.tasks {
          continue;
        }
        var _ := s.Wake(w.task);
      }
      RingDone(k, s.State(), old(inner), inner, now);
    }
  }

  lemma TopIn(heap: multiset<Timer>, w: Timer)
    requires Top(heap, w)
    ensures w in heap && |heap - multiset{w}| < |heap|
  {
  }

  /** What the ready queue then looks like: every task it woke is there once. */
  lemma DueOnce(k: Sched, k': Sched, heap: multiset<Timer>, now: TimeSpec, t: nat)
    requires Inv(k', {}) && RangDue(k, k', heap, now) && Sleeps(k, t) && Due(heap, now, t)
    ensures k'.tasks[t].status == Ready && multiset(k'.ready)[t] == 1 && t !in k'.sleeping
  {
    hide Pids, Families;
    assert PlacedAt(k', {}, t);
    OnceDistinct(k'.ready, t);
  }

  lemma {:induction false} OnceDistinct(s: seq<nat>, x: nat)
    requires Distinct(s) && x in s
    ensures multiset(s)[x] == 1
  {
    var rest := s[1..];
    assert s == [s[0]] + rest;
    assert Distinct(rest) by { assert forall i :: 0 <= i < |rest| ==> rest[i] == s[i + 1]; }
    if s[0] == x {
      assert x !in rest;
    } else {
      OnceDistinct(rest, x);
    }
  }
}
