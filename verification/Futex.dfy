// Futexes: per-address wait queues, woken and moved in order.
module Futexes {
  import opened Types
  import opened TaskStates
  import opened Schedulers
  import opened WaitQueues
  import opened Timers

  type Queues = map<nat, seq<nat>>

  function At(m: Queues, addr: nat): seq<nat> {
    if addr in m then m[addr] else []
  }

  predicate NoEmpty(m: Queues) {
    forall a :: a in m ==> m[a] != []
  }

  // ----- Moving waiters -----

  /** What `requeue` leaves when the first queue moves `n` of its waiters. */
  function Requeued(m: Queues, a: nat, b: nat, n: nat): Queues {
    if a !in m then m
    else
      var q := m[a];
      var moved := Min(n, |q|);
      var m1 := m - {a} - {b};
      var q2 := if b in m - {a} then m[b] else [];
      var m2 := if q[moved..] != [] then m1[a := q[moved..]] else m1;
      if q2 + q[..moved] != [] then m2[b := q2 + q[..moved]] else m2
  }

  /** Between different addresses the next `n` waiters go to the back of the second queue, in order. */
  lemma RequeueMoves(m: Queues, a: nat, b: nat, n: nat)
    requires NoEmpty(m) && a != b
    ensures var m' := Requeued(m, a, b, n); var moved := Min(n, |At(m, a)|);
            && At(m', a) == At(m, a)[moved..] && At(m', b) == At(m, b) + At(m, a)[..moved]
            && NoEmpty(m') && (forall c :: c != a && c != b ==> At(m', c) == At(m, c))
  {
  }

  /** The waiters of the two addresses. */
  ghost function Waiting(m: Queues, a: nat, b: nat): multiset<nat> {
    if a == b then multiset(At(m, a)) else multiset(At(m, a)) + multiset(At(m, b))
  }

  /** No waiter is lost or doubled, except exactly when a queue is requeued onto itself in part. */
  lemma RequeueConservesIff(m: Queues, a: nat, b: nat, n: nat)
    requires NoEmpty(m)
    ensures Waiting(Requeued(m, a, b, n), a, b) == Waiting(m, a, b) <==> !(a == b && 0 < n < |At(m, a)|)
    ensures NoEmpty(Requeued(m, a, b, n))
  {
    hide Requeued, At;
    var q := At(m, a);
    var moved := Min(n, |q|);
    assert q == q[..moved] + q[moved..];
    if a == b {
      RequeueOnto(m, a, n);
      assert |multiset(q[..moved])| == moved && |multiset(q)| == |q|;
    } else {
      RequeueMoves(m, a, b, n);
      assert multiset(At(m, b) + q[..moved]) == multiset(At(m, b)) + multiset(q[..moved]);
    }
  }

  /** Onto itself, a queue keeps only the waiters that moved, unless none did. */
  lemma RequeueOnto(m: Queues, a: nat, n: nat)
    requires NoEmpty(m)
    ensures var q := At(m, a); var m' := Requeued(m, a, a, n);
            At(m', a) == (if 0 < n < |q| then q[..n] else q) && NoEmpty(m')
  {
    var q := At(m, a);
    assert q[..0] == [] && q[0..] == q && q[..|q|] == q && q[|q|..] == [];
  }

  /** A requeue of an address onto itself that drops a waiter. */
  lemma RequeueOntoItselfLoses()
    ensures Waiting(Requeued(map[8 := [1, 2]], 8, 8, 1), 8, 8) == multiset{1}
  {
    assert [1, 2][..1] == [1];
  }

  /** The result of waking at one address. */
  ghost predicate WokeAt(k: Sched, k': Sched, m: Queues, m': Queues, addr: nat, limit: nat, cnt: nat) {
    && WokeMost(k, k', At(m, addr), At(m', addr), limit, cnt)
    && (forall c :: c != addr ==> At(m', c) == At(m, c)) && NoEmpty(m')
  }

  datatype WaitResult = Again | Slept

  /** The loop of `requeue`: at most `n` waiters, from the front of one queue to the back of the other. */
  method Transfer(q: seq<nat>, q2: seq<nat>, n: nat) returns (queue: seq<nat>, queue2: seq<nat>, moved: nat)
    ensures moved == Min(n, |q|) && queue == q[moved..] && queue2 == q2 + q[..moved]
  {
    queue, queue2, moved := q, q2, 0;
    if n != 0 {
      while queue != []
        invariant moved < n && moved <= |q| && queue == q[moved..] && queue2 == q2 + q[..moved]
        decreases |queue|
      {
        assert q[..moved + 1] == q[..moved] + [queue[0]];
        queue2 := queue2 + [queue[0]];
        queue := queue[1..];
        moved := moved + 1;
        if moved == n {
          break;
        }
      }
    }
  }

  class Futex {
    const sched: Scheduler
    var inner: Queues

    ghost predicate Valid()
      reads this, sched
    {
      sched.Valid() && NoEmpty(inner)
    }

    constructor (s: Scheduler)
      requires s.Valid()
      ensures Valid() && sched == s && inner == map[]
    {
      sched, inner := s, map[];
    }

    /** `do_futex_wait` up to the switch: the running task waits at `addr` unless the word has changed. */
    method Wait(addr: nat, word: nat, val: nat, timeout: Option<TimeSpec>, now: TimeSpec,
        timers: TimeoutWaitQueue) returns (r: WaitResult)
      requires Valid() && sched.current.Some?
      modifies this, sched, timers
      ensures Valid() && r == (if word == val then Slept else Again)
      ensures r == Again ==>
                && inner == old(inner) && sched.State() == old(sched.State())
                && timers.inner == old(timers.inner)
      ensures r == Slept ==>
                var t := old(sched.current).value;
                && inner == old(inner)[addr := At(old(inner), addr) + [t]]
                && sched.current == None && sched.sleeping == old(sched.sleeping) + [t]
                   && sched.ready == old(sched.ready)
                && timers.inner == old(timers.inner)
                                   + (if timeout.Some? then multiset{Timer(t, Plus(timeout.value, now))}
                                       else multiset{})
    {
      hide Inv;
      if word != val {
        return Again;
      }
      var t := sched.current.value;
      var queue := At(inner, addr);
      inner := inner - {addr};
      queue := queue + [t];
      inner := inner[addr := queue];
      if timeout.Some? {
        timers.AddTask(t, Plus(timeout.value, now));
      }
      sched.Block();
      return Slept;
    }

    method Wake(addr: nat, val: nat) returns (cnt: nat)
      requires Loose(sched.State()) && NoEmpty(inner)
      modifies this, sched`tasks, sched`ready, sched`sleeping
      ensures Loose(sched.State()) && (old(Valid()) ==> Valid())
      ensures WokeAt(old(sched.State()), sched.State(), old(inner), inner, addr, val, cnt)
    {
      hide Inv, Loose, WokeMost;
      if addr in inner {
        var queue := inner[addr];
        inner := inner - {addr};
        queue, cnt := WakeAtMost(sched, queue, val);
        if queue != [] {
          inner := inner[addr := queue];
        }
      } else {
        WokeNobody(sched.State(), val);
        return 0;
      }
    }

    /** `do_exit` of a task that is off the processor and the queues, with the wake on its `clear_child_tid`. */
    method DoExit(t: nat, tids: map<nat, nat>)
      requires Loose(sched.State()) && NoEmpty(inner) && Complete(sched.State(), map[]) && t in sched.tasks
               && t != sched.init
      modifies this, sched`tasks, sched`ready, sched`sleeping
      ensures Loose(sched.State()) && NoEmpty(inner) && Complete(sched.State(), map[])
      ensures (sched.State(), inner) == Left(old(sched.State()), old(inner), tids, t)
    {
      hide Inv, Loose, Exited, Complete, WokeMost, Calm, Forward, Front, After;
      ghost var m := inner;
      sched.DoExit(t, map[]);
      ghost var k1 := sched.State();
      if t in tids {
        var cnt := Wake(tids[t], 1);
        WokeOne(k1, sched.State(), At(m, tids[t]), At(inner, tids[t]), cnt);
        QueuesSame(inner, Put(m, tids[t], At(inner, tids[t])));
      }
      LooseComplete(sched.State(), map[]);
    }

    /** The running task exits; every task is in its place afterwards. */
    method ExitCurrent(tids: map<nat, nat>)
      requires Valid() && sched.current.Some? && sched.current.value != sched.init
      modifies this, sched
      ensures Valid() && old(sched.current).value in old(sched.tasks)
      ensures var k, t := old(sched.State()).(current := None), old(sched.current.value);
              && Loose(k) && Complete(k, map[]) && (sched.State(), inner) == Left(k, old(inner), tids, t)
              && Calm(old(sched.State()), sched.State(), {t}) && Forward(k, sched.State())
    {
      hide Inv, Loose, Exited, Complete, Calm, Forward, Left, JoinsOf, Disturbs;
      ghost var k0 := sched.State();
      TakenKeeps(k0);
      var t := sched.current.value;
      sched.current := None;
      ghost var k, m := sched.State(), inner;
      InvIsLoose(k, {t});
      LooseComplete(k, map[]);
      LooseFamilies(k);
      ghost var joins := LeftIs(k, m, tids, t);
      AloneUndisturbed(k, t, joins);
      ExitedKeepsIff(k, {t}, t, joins);
      ExitedLoose(k, t, joins);
      DoExit(t, tids);
      CalmFrom(k0, sched.State(), {t});
      assert {t} - {t} == {};
    }

    /** The exits of a whole list, each with its wake. */
    method ExitAll(list: seq<nat>, tids: map<nat, nat>)
      requires Loose(sched.State()) && NoEmpty(inner) && Complete(sched.State(), map[])
      requires Distinct(list) && forall u :: u in list ==> u in sched.tasks && u != sched.init
      modifies this, sched`tasks, sched`ready, sched`sleeping
      ensures NoEmpty(inner)
      ensures var k, m := old(sched.State()), old(inner); var joins := JoinsOf(k, m, list, tids);
              Complete(k, joins) && sched.State() == ExitedAll(k, list, joins)
    {
      hide Loose, Complete, Exited, ExitedAll, Left, JoinsOf;
      ghost var k, m := sched.State(), inner;
      JoinsThere(k, m, list, tids);
      assert list[0..] == list;
      var i := 0;
      while i < |list|
        invariant i <= |list| && Loose(sched.State()) && NoEmpty(inner) && Complete(sched.State(), map[])
        invariant Distinct(list[i..]) && forall u :: u in list[i..] ==> u in sched.tasks && u != sched.init
        invariant var joins := JoinsOf(sched.State(), inner, list[i..], tids);
                  && Complete(sched.State(), joins)
                  && ExitedAll(sched.State(), list[i..], joins) == ExitedAll(k, list, JoinsOf(k, m, list, tids))
      {
        assert list[i..][1..] == list[i + 1..];
        RestOf(list[i..]);
        LeftStep(sched.State(), inner, list[i..], tids);
        DoExit(list[i], tids);
        i := i + 1;
      }
      assert list[|list|..] == [];
      AllLeft(sched.State(), JoinsOf(sched.State(), inner, [], tids));
    }

    /** `exit_group_and_run_next` with the futexes of the group: all of it follows from the state before the call.
        The scheduler is sound afterwards exactly when no exit wakes a sleeping member whose own exit is to come. */
    method ExitGroup(tids: map<nat, nat>)
      requires Valid() && sched.current.Some? && sched.current.value in sched.tasks && sched.init in sched.tasks
      requires sched.tasks[sched.current.value].tgid != sched.tasks[sched.init].tgid
      modifies this, sched
      ensures sched.current == None && NoEmpty(inner)
      ensures Calm(old(sched.State()), sched.State(),
              Group(old(sched.State()), old(sched.tasks[sched.current.value].tgid)))
      ensures var k, t := old(sched.State()).(current := None), old(sched.current.value);
              var g := old(sched.tasks[sched.current.value].tgid);
              && Loose(k) && Complete(k, map[])
              && var (k1, m1) := Left(k, old(inner), tids, t); var list := Leaving(k1, g);
                 && Loose(Swept(k1, g)) && Complete(Swept(k1, g), map[]) && Distinct(list)
                 && (forall u :: u in list ==> u in k1.tasks && u != k1.init)
                 && (Valid() <==> !Entangled(k1.tasks, list, JoinsOf(Swept(k1, g), m1, list, tids)))
                 && (!Valid() ==> ZombieQueued(sched.State(), list))
    {
      hide Inv, Loose, Complete, Calm, Forward, Exited, ExitedAll, Members, Drop, Only, Leaving, Swept, Entangled,
           Left, JoinsOf;
      ghost var k := sched.State();
      var g := sched.tasks[sched.current.value].tgid;
      ExitCurrent(tids);
      ghost var k1, m1 := sched.State(), inner;
      ForwardCurrent(k.(current := None), k1);
      CalmKeys(k, k1, {k.current.value});
      QueuedExist(k1, {});
      ListStands(k1, g);
      SweptKeeps(k1, g);
      InvIsLoose(Swept(k1, g), Elements(Leaving(k1, g)));
      LooseComplete(Swept(k1, g), map[]);
      var list := sched.Sweep(g);
      ghost var joins := JoinsOf(sched.State(), inner, list, tids);
      ghost var k2 := sched.State();
      ExitAll(list, tids);
      ExitedAllIff(k2, list, joins);
      ExitedAllCalm(k2, list, joins);
      CalmSwept(k1, sched.State(), Elements(list), g);
      GroupGone(k, k1, sched.State(), k.current.value, g);
      ForwardCurrent(k2, sched.State());
    }

    /** The second half of `requeue`. */
    method Move(a: nat, b: nat, val2: nat) returns (moved: nat)
      requires NoEmpty(inner)
      modifies this`inner
      ensures inner == Requeued(old(inner), a, b, val2) && moved == Min(val2, |At(old(inner), a)|)
    {
      if a !in inner {
        return 0;
      }
      var queue := inner[a];
      inner := inner - {a};
      var queue2 := At(inner, b);
      inner := inner - {b};
      queue, queue2, moved := Transfer(queue, queue2, val2);
      if queue != [] {
        inner := inner[a := queue];
      }
      if queue2 != [] {
        inner := inner[b := queue2];
      }
    }

    /** `m` is the map between waking and moving. */
    method Requeue(a: nat, b: nat, val: nat, val2: nat) returns (cnt: nat, ghost m: Queues, ghost woke: nat)
      requires Valid()
      modifies this, sched`tasks, sched`ready, sched`sleeping
      ensures Valid() && WokeAt(old(sched.State()), sched.State(), old(inner), m, a, val, woke)
      ensures inner == Requeued(m, a, b, val2) && cnt == woke + Min(val2, |At(m, a)|)
    {
      hide Inv, Loose, WokeMost, Requeued, At;
      var n := 0;
      InvIsLoose(sched.State(), {});
      if val != 0 {
        n := Wake(a, val);
      } else {
        WokeZero(sched.State(), At(inner, a));
      }
      m, woke := inner, n;
      RequeueConservesIff(m, a, b, val2);
      var moved := Move(a, b, val2);
      return n + moved, m, woke;
    }

    method WakeOp(a: nat, b: nat, val: nat, second: bool) returns (cnt: nat, ghost k: Sched, ghost m: Queues,
        ghost first: nat)
      requires Valid() && val < 0x1_0000_0000
      modifies this, sched`tasks, sched`ready, sched`sleeping
      ensures Valid() && WokeAt(old(sched.State()), k, old(inner), m, a, val % 0x8000_0000, first) && first <= cnt
      ensures if second then WokeAt(k, sched.State(), m, inner, b, val / 0x1_0000, cnt - first)
              else sched.State() == k && inner == m && cnt == first
    {
      hide Inv, Loose, WokeAt;
      InvIsLoose(sched.State(), {});
      cnt := Wake(a, val % 0x8000_0000);
      k, m, first := sched.State(), inner, cnt;
      if second {
        assert (val / 0x1_0000) % 0x1_0000 == val / 0x1_0000;
        var rest := Wake(b, (val / 0x1_0000) % 0x1_0000);
        cnt := cnt + rest;
      }
    }
  }

  // ----- The wake on `clear_child_tid` -----

  /** The place of the first sleeper in a queue, or the queue's length. */
  function FirstSleeper(k: Sched, q: seq<nat>): (i: nat)
    ensures i <= |q| && (i < |q| ==> Sleeps(k, q[i])) && forall j :: 0 <= j < i ==> !Sleeps(k, q[j])
  {
    if q == [] || Sleeps(k, q[0]) then 0 else 1 + FirstSleeper(k, q[1..])
  }

  function Front(k: Sched, q: seq<nat>): Option<nat> {
    var i := FirstSleeper(k, q); if i < |q| then Some(q[i]) else None
  }

  /** The queue behind its first sleeper. */
  function After(k: Sched, q: seq<nat>): seq<nat> {
    var i := FirstSleeper(k, q); if i < |q| then q[i + 1..] else []
  }

  /** Waking at most one waiter is waking the first sleeper and leaving the queue behind it. */
  lemma WokeOne(k: Sched, k': Sched, q: seq<nat>, rest: seq<nat>, cnt: nat)
    requires WokeMost(k, k', q, rest, 1, cnt)
    ensures Front(k, q).Some? ==> Front(k, q).value in k.tasks
    ensures k' == Poked(k, Front(k, q)) && rest == After(k, q)
  {
    hide Drop, WokenAll;
    var w, n := Sleepers(k, q), |q| - |rest|;
    SleepersAre(k, q);
    SleepersAre(k, q[..n]);
    WokenNone(k);
    var i := FirstSleeper(k, q);
    if w == [] {
      assert forall x :: x in q ==> !Sleeps(k, x);
      assert w[..0] == [] && i == |q|;
    } else {
      SleepersAre(k, q[..n - 1]);
      assert Sleepers(k, q[..n - 1]) == [];
      assert forall j :: 0 <= j < n - 1 ==> q[..n - 1][j] == q[j] && q[j] in q[..n - 1];
      assert w[0] in w && Sleeps(k, q[n - 1]) && i == n - 1;
      WokenOneMore(k, [], w[0]);
      assert w[..1] == [] + [w[0]];
    }
  }

  /** The queue of one address is replaced. */
  function Put(m: Queues, addr: nat, q: seq<nat>): Queues {
    if q == [] then m - {addr} else m[addr := q]
  }

  lemma QueuesSame(m: Queues, m': Queues)
    requires NoEmpty(m) && NoEmpty(m') && forall a :: At(m, a) == At(m', a)
    ensures m == m'
  {
    forall a
      ensures a in m <==> a in m'
      ensures a in m ==> m[a] == m'[a]
    {
      assert At(m, a) == At(m', a);
    }
  }

  /** Whom the wake at the address of `t` finds after the exit itself. */
  ghost function JoinerOf(k1: Sched, m: Queues, tids: map<nat, nat>, t: nat): (w: Option<nat>)
    ensures w.Some? ==> t in tids && w.value in k1.tasks && w.value in At(m, tids[t])
  {
    if t in tids then Front(k1, At(m, tids[t])) else None
  }

  /** The exit of `t` on the scheduler and the futex queues. */
  ghost function Left(k: Sched, m: Queues, tids: map<nat, nat>, t: nat): (Sched, Queues)
    requires t in k.tasks && Complete(k, map[])
  {
    var k1 := Exited(k, t, map[]);
    (Poked(k1, JoinerOf(k1, m, tids, t)), if t in tids then Put(m, tids[t], After(k1, At(m, tids[t]))) else m)
  }

  function OneJoin(t: nat, w: Option<nat>): Joins {
    if w.Some? then map[t := w.value] else map[]
  }

  lemma LeftIs(k: Sched, m: Queues, tids: map<nat, nat>, t: nat) returns (joins: Joins)
    requires Loose(k) && Complete(k, map[]) && t in k.tasks && t != k.init
    ensures joins == OneJoin(t, JoinerOf(Exited(k, t, map[]), m, tids, t))
    ensures Complete(k, joins) && Left(k, m, tids, t).0 == Exited(k, t, joins)
  {
    hide Loose, Calm, Forward, HalfExited, Nudged;
    ExitedLoose(k, t, map[]);
    CalmKeys(k, Exited(k, t, map[]), {t});
    joins := OneJoin(t, JoinerOf(Exited(k, t, map[]), m, tids, t));
  }

  /** The joiners of a list of exits, each found when its turn comes. */
  ghost function JoinsOf(k: Sched, m: Queues, list: seq<nat>, tids: map<nat, nat>): (joins: Joins)
    requires Loose(k) && Complete(k, map[]) && forall u :: u in list ==> u in k.tasks && u != k.init
    ensures forall t :: t in joins ==> t in list && t in tids && joins[t] in k.tasks && joins[t] in At(m, tids[t])
    decreases |list|
  {
    if list == [] then map[]
    else
      var t := list[0];
      var (k2, m2) := Left(k, m, tids, t);
      LeftKeeps(k, m, tids, t);
      TailIn(list);
      var rest := JoinsOf(k2, m2, list[1..], tids);
      LeftShrinks(k, m, tids, t);
      rest + OneJoin(t, JoinerOf(Exited(k, t, map[]), m, tids, t))
  }

  lemma LeftKeeps(k: Sched, m: Queues, tids: map<nat, nat>, t: nat)
    requires Loose(k) && Complete(k, map[]) && t in k.tasks && t != k.init
    ensures var k2 := Left(k, m, tids, t).0;
            Loose(k2) && Complete(k2, map[]) && k2.tasks.Keys == k.tasks.Keys && k2.init == k.init
    ensures Exited(k, t, map[]).tasks.Keys == k.tasks.Keys
  {
    hide Loose, Complete, Calm, Forward, Exited, Poked;
    ExitedLoose(k, t, map[]);
    var k1 := Exited(k, t, map[]);
    CalmKeys(k, k1, {t});
    var w := JoinerOf(k1, m, tids, t);
    PokedLoose(k1, w);
    CalmKeys(k1, Poked(k1, w), {});
    LooseComplete(Poked(k1, w), map[]);
  }

  lemma LeftShrinks(k: Sched, m: Queues, tids: map<nat, nat>, t: nat)
    requires t in k.tasks && Complete(k, map[])
    ensures forall a, p :: p in At(Left(k, m, tids, t).1, a) ==> p in At(m, a)
  {
    hide Exited, FirstSleeper;
  }

  lemma JoinsThere(k: Sched, m: Queues, list: seq<nat>, tids: map<nat, nat>)
    requires Loose(k) && Complete(k, map[]) && forall u :: u in list ==> u in k.tasks && u != k.init
    ensures Complete(k, JoinsOf(k, m, list, tids))
  {
    hide JoinsOf, Loose;
  }

  lemma AllLeft(k: Sched, joins: Joins)
    requires Loose(k) && Complete(k, joins)
    ensures ExitedAll(k, [], joins) == k
  {
  }

  /** Only the joiners of the tasks in the list matter. */
  lemma {:induction false} ExitedAllAgree(k: Sched, list: seq<nat>, joins: Joins, joins': Joins)
    requires Loose(k) && Complete(k, joins) && Complete(k, joins') && forall u :: u in list ==>
             u in k.tasks && u != k.init
    requires forall u :: u in list ==> Joiner(joins, u) == Joiner(joins', u)
    ensures ExitedAll(k, list, joins) == ExitedAll(k, list, joins')
    decreases |list|
  {
    hide Loose, Complete, Calm, Forward, Poked, HalfExited, Joiner;
    if list != [] {
      var t := list[0];
      ExitedLoose(k, t, joins);
      ExitedLoose(k, t, joins');
      CalmKeys(k, Exited(k, t, joins), {t});
      assert Joiner(joins, t) == Joiner(joins', t);
      TailIn(list);
      ExitedAllAgree(Exited(k, t, joins), list[1..], joins, joins');
    }
  }

  lemma LeftStep(k: Sched, m: Queues, list: seq<nat>, tids: map<nat, nat>)
    requires Loose(k) && Complete(k, map[]) && Distinct(list) && list != []
    requires forall u :: u in list ==> u in k.tasks && u != k.init
    ensures var (k2, m2) := Left(k, m, tids, list[0]);
            && Loose(k2) && Complete(k2, map[]) && k2.tasks.Keys == k.tasks.Keys && k2.init == k.init
            && var joins, joins2 := JoinsOf(k, m, list, tids), JoinsOf(k2, m2, list[1..], tids);
               && Complete(k, joins) && Complete(k2, joins2)
               && ExitedAll(k, list, joins) == ExitedAll(k2, list[1..], joins2)
  {
    hide Loose, Left, Exited, Calm, Forward;
    var t, rest := list[0], list[1..];
    RestOf(list);
    LeftKeeps(k, m, tids, t);
    var (k2, m2) := Left(k, m, tids, t);
    var joins, joins2 := JoinsOf(k, m, list, tids), JoinsOf(k2, m2, rest, tids);
    JoinsThere(k, m, list, tids);
    JoinsThere(k2, m2, rest, tids);
    var one := LeftIs(k, m, tids, t);
    assert joins == joins2 + one && t !in joins2;
    ExitedOne(k, t, joins, one);
    ExitedAllAgree(k2, rest, joins, joins2);
  }

  lemma ExitedOne(k: Sched, t: nat, joins: Joins, joins': Joins)
    requires t in k.tasks && Complete(k, joins) && Complete(k, joins') && Joiner(joins, t) == Joiner(joins', t)
    ensures Exited(k, t, joins) == Exited(k, t, joins')
  {
  }

  /** A group exit is sound if no sleeping member is queued at the address of, or waited for as the parent by, a member
      that leaves before it. */
  lemma NoneWaits(k: Sched, m: Queues, list: seq<nat>, tids: map<nat, nat>)
    requires Loose(k) && Complete(k, map[]) && forall u :: u in list ==> u in k.tasks && u != k.init
    requires forall i, j :: 0 <= i < j < |list| && k.tasks[list[j]].status == Interruptible ==>
               && !(k.tasks[list[i]].exitSignal && k.tasks[list[i]].parent == Some(list[j]))
               && (list[i] in tids ==> list[j] !in At(m, tids[list[i]]))
    ensures !Entangled(k.tasks, list, JoinsOf(k, m, list, tids))
  {
    hide JoinsOf, Loose, Complete;
  }

  lemma ForwardCurrent(k: Sched, k': Sched)
    requires Forward(k, k')
    ensures k'.current == k.current
  {
  }

  lemma WokeNobody(k: Sched, limit: nat)
    ensures WokeMost(k, k, [], [], limit, 0)
  {
    WokenNone(k);
  }

  lemma WokeZero(k: Sched, q: seq<nat>)
    ensures WokeMost(k, k, q, q, 0, 0)
  {
    WokenNone(k);
    SleepersEmpty(k, q);
  }
}
