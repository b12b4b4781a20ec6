// Wait queues, futexes and timeouts over the scheduler.
module WaitQueues {
  import opened Types
  import opened TaskStates
  import opened Schedulers

  predicate Sleeps(k: Sched, t: nat) {
    t in k.tasks && k.tasks[t].status == Interruptible
  }

  /** The distinct live sleepers of a queue, each where it first occurs. */
  function Sleepers(k: Sched, q: seq<nat>): seq<nat> {
    if q == [] then [] else
      var w := Sleepers(k, DropLast(q));
      if Sleeps(k, Last(q)) && Last(q) !in w then w + [Last(q)] else w
  }

  lemma {:induction false} SleepersAre(k: Sched, q: seq<nat>)
    ensures Distinct(Sleepers(k, q))
    ensures forall x: nat :: x in Sleepers(k, q) <==> x in q && Sleeps(k, x)
  {
    if q != [] {
      SleepersAre(k, DropLast(q));
      assert q == DropLast(q) + [Last(q)];
      PushDistinct(Sleepers(k, DropLast(q)), Last(q));
    }
  }

  lemma SleepersStep(k: Sched, q: seq<nat>, n: nat)
    requires n < |q|
    ensures var w := Sleepers(k, q[..n]);
            Sleepers(k, q[..n + 1]) == if Sleeps(k, q[n]) && q[n] !in w then w + [q[n]] else w
  {
    assert DropLast(q[..n + 1]) == q[..n];
  }

  lemma {:induction false} SleepersPrefix(k: Sched, q: seq<nat>, n: nat)
    requires n <= |q|
    ensures Sleepers(k, q[..n]) <= Sleepers(k, q)
    decreases |q| - n
  {
    if n < |q| {
      SleepersPrefix(k, q, n + 1);
      SleepersStep(k, q, n);
    } else {
      assert q[..n] == q;
    }
  }

  /** All of `w` are ready, queued in that order. */
  function WokenAll(k: Sched, w: seq<nat>): Sched {
    k.(tasks := map u | u in k.tasks :: if u in w then k.tasks[u].(status := Ready) else k.tasks[u],
       sleeping := Drop(k.sleeping, Elements(w)), ready := k.ready + w)
  }

  lemma WokenNone(k: Sched)
    ensures WokenAll(k, []) == k
  {
    DropNone(k.sleeping, {});
    assert Elements([]) == {};
    assert k.ready + [] == k.ready;
  }

  lemma WokenOneMore(k: Sched, w: seq<nat>, t: nat)
    requires t in k.tasks && t !in w
    ensures t in WokenAll(k, w).tasks && Woken(WokenAll(k, w), t) == WokenAll(k, w + [t])
  {
    hide Drop;
    DropTwice(k.sleeping, Elements(w), {t});
    assert Elements(w + [t]) == Elements(w) + {t};
    assert k.ready + w + [t] == k.ready + (w + [t]);
  }

  lemma StillSleeps(k: Sched, w: seq<nat>, t: nat)
    ensures Sleeps(WokenAll(k, w), t) <==> Sleeps(k, t) && t !in w
    ensures t in WokenAll(k, w).tasks <==> t in k.tasks
  {
  }

  /** What `wake_at_most` promises: the first `limit` sleepers are ready, in queue order; it stops at the
      entry it woke last, or at the end of the queue. */
  ghost predicate WokeMost(k: Sched, k': Sched, q: seq<nat>, rest: seq<nat>, limit: nat, cnt: nat) {
    && cnt == Min(limit, |Sleepers(k, q)|) && k' == WokenAll(k, Sleepers(k, q)[..cnt])
    && |rest| <= |q| && rest == q[|q| - |rest|..] && Sleepers(k, q[..|q| - |rest|]) == Sleepers(k, q)[..cnt]
    && (cnt < limit ==> rest == [])
    && (limit == 0 ==> rest == q)
    && (0 < cnt == limit ==>
          |rest| < |q| && q[|q| - |rest| - 1] == Sleepers(k, q)[cnt - 1] && |Sleepers(k, q[..|q| - |rest| - 1])| < cnt)
  }

  lemma WokeMostDone(k: Sched, q: seq<nat>, n: nat, limit: nat)
    requires n <= |q| && limit > 0 && |Sleepers(k, q[..n])| <= limit
    requires n < |q| ==> |Sleepers(k, q[..n])| == limit
    requires |Sleepers(k, q[..n])| == limit ==>
               n > 0 && q[n - 1] == Last(Sleepers(k, q[..n])) && |Sleepers(k, q[..n - 1])| < limit
    ensures WokeMost(k, WokenAll(k, Sleepers(k, q[..n])), q, q[n..], limit, |Sleepers(k, q[..n])|)
  {
    hide WokenAll;
    var w := Sleepers(k, q[..n]);
    SleepersPrefix(k, q, n);
    assert n == |q| ==> q[..n] == q;
    assert Sleepers(k, q)[..|w|] == w;
  }

  method WakeAtMost(s: Scheduler, q: seq<nat>, limit: nat) returns (rest: seq<nat>, cnt: nat)
    requires Loose(s.State())
    modifies s`tasks, s`ready, s`sleeping
    ensures Loose(s.State()) && (old(s.Valid()) ==> s.Valid())
    ensures WokeMost(old(s.State()), s.State(), q, rest, limit, cnt)
  {
    hide Inv, Loose, Sleepers, WokenAll, Sleeps, Calm, Forward;
    ghost var k := s.State();
    WokenNone(k);
    SleepersEmpty(k, q);
    if limit == 0 {
      return q, 0;
    }
    rest, cnt := q, 0;
    ghost var n := 0;
    while rest != []
      invariant n <= |q| && rest == q[n..] && Loose(s.State()) && (old(s.Valid()) ==> s.Valid())
      invariant cnt == |Sleepers(k, q[..n])| < limit
      invariant s.State() == WokenAll(k, Sleepers(k, q[..n]))
      decreases |rest|
    {
      ghost var w := Sleepers(k, q[..n]);
      var t := rest[0];
      rest := rest[1..];
      SleepersStep(k, q, n);
      StillSleeps(k, w, t);
      SleepsMeans(s.State(), t);
      n := n + 1;
      if t !in s.tasks {
        continue;
      }
      if s.tasks[t].status != Interruptible {
        continue;
      }
      WokenOneMore(k, w, t);
      PokedLoose(s.State(), Some(t));
      if s.Valid() {
        NudgedKeeps(s.State(), {}, t);
      }
      var ok := s.Rouse(t);
      if ok {
        cnt := cnt + 1;
      }
      if cnt == limit {
        break;
      }
    }
    WokeMostDone(k, q, n, limit);
  }

  lemma SleepsMeans(k: Sched, t: nat)
    ensures Sleeps(k, t) <==> t in k.tasks && k.tasks[t].status == Interruptible
  {
  }

  lemma SleepersEmpty(k: Sched, q: seq<nat>)
    ensures Sleepers(k, []) == [] && q[..0] == [] && q[0..] == q && q[|q| - |q|..] == q
  {
  }
}
