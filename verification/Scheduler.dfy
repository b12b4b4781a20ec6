// The scheduler of one hart: each locked section is one step.
module Schedulers {
  import opened Types
  import opened TaskStates

  class Scheduler {
    var tasks: map<nat, Task>
    var ready: seq<nat>
    var sleeping: seq<nat>
    var current: Option<nat>
    const init: nat

    ghost function State(): Sched
      reads this
    {
      Sched(tasks, ready, sleeping, current, init)
    }

    ghost predicate Valid()
      reads this
    {
      Inv(State(), {})
    }

    /** Only the first process, ready to run. */
    constructor (initProc: nat, pid: nat)
      ensures Valid() && init == initProc && ready == [initProc] && current == None
    {
      init := initProc;
      tasks := map[initProc := Task(pid, pid, false, Ready, None, [])];
      ready, sleeping, current := [initProc], [], None;
    }

    /** One turn of `run_tasks`. */
    method Dispatch() returns (found: bool)
      requires Valid() && current == None
      modifies this
      ensures Valid() && found == (old(ready) != [])
      ensures !found ==> State() == old(State())
      ensures found ==>
                var t := old(ready)[0];
                && current == Some(t) && ready == old(ready)[1..] && sleeping == old(sleeping)
                && t in old(tasks) && tasks == old(tasks)[t := old(tasks)[t].(status := Running)]
    {
      hide Inv;
      if ready == [] {
        return false;
      }
      DispatchedKeeps(State());
      var t := ready[0];
      ready := ready[1..];
      tasks := tasks[t := tasks[t].(status := Running)];
      current := Some(t);
      assert State() == Dispatched(old(State()));
      return true;
    }

    method Suspend()
      requires Valid() && current.Some?
      modifies this
      ensures Valid() && current == None && ready == old(ready) + [old(current).value] && sleeping == old(sleeping)
      ensures var t := old(current).value; t in old(tasks) && tasks == old(tasks)[t := old(tasks)[t].(status := Ready)]
    {
      hide Inv;
      SuspendedKeeps(State());
      var t := current.value;
      current := None;
      tasks := tasks[t := tasks[t].(status := Ready)];
      ready := ready + [t];
      assert State() == Suspended(old(State()));
    }

    method Block()
      requires Valid() && current.Some?
      modifies this
      ensures Valid() && current == None && sleeping == old(sleeping) + [old(current).value] && ready == old(ready)
      ensures var t := old(current).value;
              t in old(tasks) && tasks == old(tasks)[t := old(tasks)[t].(status := Interruptible)]
    {
      hide Inv;
      BlockedKeeps(State());
      var t := current.value;
      current := None;
      tasks := tasks[t := tasks[t].(status := Interruptible)];
      sleeping := sleeping + [t];
      assert State() == Blocked(old(State()));
    }

    method DropInterruptible(t: nat)
      modifies this`sleeping
      ensures sleeping == Drop(old(sleeping), {t})
    {
      var kept: seq<nat> := [];
      var i := 0;
      assert sleeping[..0] == [];
      while i < |sleeping|
        modifies {}
        invariant i <= |sleeping| && kept == Drop(sleeping[..i], {t})
      {
        assert sleeping[..i + 1] == sleeping[..i] + [sleeping[i]];
        DropAppend(sleeping[..i], sleeping[i], {t});
        if sleeping[i] != t {
          kept := kept + [sleeping[i]];
        }
        i := i + 1;
      }
      assert sleeping[..|sleeping|] == sleeping;
      sleeping := kept;
    }

    method FindByPid(pid: nat) returns (t: Option<nat>)
      requires forall u :: u in ready || u in sleeping ==> u in tasks
      ensures t.Some? <==> Queued(State(), pid)
      ensures t.Some? ==> t.value in ready + sleeping && tasks[t.value].pid == pid
    {
      var all := ready + sleeping;
      for i := 0 to |all|
        invariant forall j :: 0 <= j < i ==> all[j] in tasks && tasks[all[j]].pid != pid
      {
        assert all[i] in ready || all[i] in sleeping;
        if tasks[all[i]].pid == pid {
          return Some(all[i]);
        }
      }
      assert forall u :: u in ready || u in sleeping ==> u in all;
      return None;
    }

    method TryWakeInterruptible(t: nat) returns (ok: bool)
      requires t in tasks && forall u :: u in ready || u in sleeping ==> u in tasks
      modifies this`ready, this`sleeping
      ensures (State(), ok) == TryWake(old(State()), t)
    {
      hide Queued;
      DropMembers(sleeping, {t});
      DropInterruptible(t);
      var other := FindByPid(tasks[t].pid);
      if other.None? {
        ready := ready + [t];
        return true;
      }
      return false;
    }

    /** The guard every waker puts before `wake_interruptible`, also while tasks are on their way out. */
    method Rouse(t: nat) returns (ok: bool)
      requires Loose(State()) && t in tasks
      modifies this`tasks, this`ready, this`sleeping
      ensures State() == Nudged(old(State()), t) && (ok <==> old(tasks[t].status) == Interruptible)
    {
      hide Loose, TryWake;
      if tasks[t].status != Interruptible {
        return false;
      }
      WakeQueues(State(), t);
      LooseQueues(State());
      tasks := tasks[t := tasks[t].(status := Ready)];
      ok := TryWakeInterruptible(t);
      assert ok;
    }

    method Wake(t: nat) returns (ok: bool)
      requires Valid() && t in tasks
      modifies this`tasks, this`ready, this`sleeping
      ensures Valid() && State() == Nudged(old(State()), t)
      ensures ok <==> old(tasks[t].status) == Interruptible
    {
      hide Inv, Nudged;
      InvIsLoose(State(), {});
      NudgedKeeps(State(), {}, t);
      ok := Rouse(t);
    }

    /** Wake the task, if there is one. */
    method Poke(w: Option<nat>)
      requires Loose(State()) && (w.Some? ==> w.value in tasks)
      modifies this`tasks, this`ready, this`sleeping
      ensures State() == Poked(old(State()), w)
    {
      hide Loose;
      if w.Some? {
        var _ := Rouse(w.value);
      }
    }

    method MoveChildren(t: nat)
      requires t in tasks && init in tasks && t != init && Distinct(tasks[t].children) && tasks[t].status == Zombie
      requires forall c :: c in tasks[t].children ==> c in tasks && c != t && c != init
      modifies this`tasks
      ensures tasks == Buried(old(tasks), init, t)
    {
      hide Moving, Buried;
      ghost var was := tasks;
      ghost var n := |tasks[t].children|;
      MoveStart(was, init, t);
      while tasks[t].children != []
        invariant t in tasks && n == |tasks[t].children| && Moving(was, tasks, init, t, n)
        decreases n
      {
        MoveStep(was, tasks, init, t, n);
        MoveFinds(was, tasks, init, t, n);
        var cs := tasks[t].children;
        var c := cs[|cs| - 1];
        tasks := tasks[t := tasks[t].(children := cs[..|cs| - 1])];
        tasks := tasks[c := tasks[c].(parent := Some(init))];
        tasks := tasks[init := tasks[init].(children := tasks[init].children + [c])];
        n := n - 1;
      }
      MoveDone(was, tasks, init, t);
    }

    /** `do_exit` up to the children: the parent is signalled, the task becomes a zombie, `init` inherits. */
    method Bury(t: nat)
      requires Loose(State()) && t in tasks && t != init && Complete(State(), map[])
      modifies this`tasks, this`ready, this`sleeping
      ensures State() == HalfExited(old(State()), t)
    {
      hide Loose, Poked, Buried, Calm, Forward, HalfExited;
      ghost var k := State();
      PokedLoose(k, Caller(k, t));
      Poke(if tasks[t].exitSignal then tasks[t].parent else None);
      ghost var k1 := State();
      CalmKeys(k, k1, {});
      ExitFinds(k1, t);
      BuriedZombie(k1.tasks, init, t);
      HalfExitedIs(k, t);
      tasks := tasks[t := tasks[t].(status := Zombie)];
      if tasks[t].children != [] {
        MoveChildren(t);
      }
    }

    /** `do_exit` of a task that is off the processor and the queues. */
    method DoExit(t: nat, joins: Joins)
      requires Loose(State()) && t in tasks && t != init && Complete(State(), joins)
      modifies this`tasks, this`ready, this`sleeping
      ensures State() == Exited(old(State()), t, joins) && Loose(State()) && Complete(State(), joins)
      ensures Calm(old(State()), State(), {t}) && Forward(old(State()), State())
    {
      hide Loose, Poked, Calm, Forward, HalfExited;
      ghost var k := State();
      ExitedLoose(k, t, joins);
      HalfExitedLoose(k, t);
      var heir := if tasks[t].children != [] then Some(init) else None;
      Bury(t);
      ghost var k2 := State();
      PokedLoose(k2, heir);
      Poke(heir);
      CalmKeys(k2, State(), {});
      Poke(if t in joins then Some(joins[t]) else None);
    }

    method ExitCurrent(joins: Joins)
      requires Valid() && current.Some? && current.value != init && forall u :: u in joins ==> joins[u] in tasks
      modifies this
      ensures Valid() && current == None && Calm(old(State()), State(), {old(current).value})
      ensures old(current).value in old(tasks) && Complete(old(State()).(current := None), joins)
              && Complete(State(), joins)
      ensures State() == Exited(old(State()).(current := None), old(current).value, joins)
      ensures Forward(old(State()).(current := None), State())
    {
      hide Inv, Calm, Forward, Exited, Loose, Complete;
      ghost var k := State();
      TakenKeeps(k);
      var t := current.value;
      current := None;
      InvIsLoose(State(), {t});
      LooseComplete(State(), joins);
      ExitedKeepsIff(State(), {t}, t, joins);
      LooseFamilies(State());
      AloneUndisturbed(State(), t, joins);
      DoExit(t, joins);
      CalmFrom(k, State(), {t});
      assert {t} - {t} == {};
    }

    /** One rotation of a queue: the group comes out in order, the others end up in their old order. */
    method SweepQueue(queue: seq<nat>, g: nat) returns (left: seq<nat>, out: seq<nat>)
      requires forall u :: u in queue ==> u in tasks
      ensures left == Drop(queue, Group(State(), g)) && out == Only(queue, Group(State(), g))
    {
      hide Drop, Only;
      ghost var group := Group(State(), g);
      DropEmpty(group);
      left, out := queue, [];
      var remain := |queue|;
      ghost var n: nat := 0;
      assert queue[..0] == [] && queue[0..] == queue;
      while left != []
        invariant n + remain == |queue| >= n && (queue != [] ==> remain > 0)
        invariant left == queue[n..] + Drop(queue[..n], group) && out == Only(queue[..n], group)
        decreases remain
      {
        var t := left[0];
        assert t == queue[n] && t in queue;
        assert queue[..n + 1] == queue[..n] + [t];
        DropAppend(queue[..n], t, group);
        left := left[1..];
        if tasks[t].tgid == g {
          out := out + [t];
        } else {
          left := left + [t];
        }
        n := n + 1;
        assert left == queue[n..] + Drop(queue[..n], group);
        remain := remain - 1;
        if remain == 0 {
          break;
        }
      }
      assert queue[..|queue|] == queue;
    }

    /** The members of the group come off both queues, in the order the sweep meets them. */
    method Sweep(g: nat) returns (list: seq<nat>)
      requires forall u :: u in ready || u in sleeping ==> u in tasks
      modifies this`ready, this`sleeping
      ensures State() == Swept(old(State()), g) && list == Leaving(old(State()), g)
    {
      hide Drop, Only;
      var first, second;
      ready, first := SweepQueue(ready, g);
      sleeping, second := SweepQueue(sleeping, g);
      return first + second;
    }

    /** The exits of a whole list, one after the other. */
    method ExitAll(list: seq<nat>, joins: Joins)
      requires Loose(State()) && Complete(State(), joins) && forall u :: u in list ==> u in tasks && u != init
      modifies this`tasks, this`ready, this`sleeping
      ensures State() == ExitedAll(old(State()), list, joins)
    {
      hide Loose, Complete, Exited, Calm, Forward;
      ghost var k := State();
      assert list[0..] == list;
      var i := 0;
      while i < |list|
        invariant i <= |list| && Loose(State()) && Complete(State(), joins)
        invariant forall u :: u in list ==> u in tasks && u != init
        invariant forall u :: u in list[i..] ==> u in list
        invariant ExitedAll(State(), list[i..], joins) == ExitedAll(k, list, joins)
      {
        ghost var k1 := State();
        assert list[i..][1..] == list[i + 1..];
        DoExit(list[i], joins);
        CalmKeys(k1, State(), {list[i]});
        i := i + 1;
      }
      assert list[|list|..] == [];
    }

    /** Every task of the running task's group ends as a zombie and all others keep their order. The scheduler is
        sound afterwards exactly when no exit wakes a sleeping member whose own exit is still to come. */
    method ExitGroup(joins: Joins)
      requires Valid() && current.Some? && current.value in tasks && init in tasks
               && tasks[current.value].tgid != tasks[init].tgid
      requires forall u :: u in joins ==> joins[u] in tasks
      modifies this
      ensures current == None && Loose(State())
      ensures Calm(old(State()), State(), Group(old(State()), old(tasks[current.value].tgid)))
      ensures tasks.Keys == old(tasks).Keys
      ensures forall u :: u in tasks ==>
                var was, now := old(tasks)[u], tasks[u];
                && now.pid == was.pid && now.tgid == was.tgid
                && if was.tgid == old(tasks[current.value].tgid) then now.status == Zombie
                   else now.status == was.status || (was.status == Interruptible && now.status == Ready)
      ensures var group := Group(old(State()), old(tasks[current.value].tgid));
              && Drop(old(ready), group) <= ready
              && sleeping == Drop(old(sleeping), group + Elements(ready[|Drop(old(ready), group)|..]))
      ensures var k := old(State()).(current := None); var t, g := old(current.value), old(tasks[current.value].tgid);
              && Complete(k, joins)
              && var k1 := Exited(k, t, joins);
                 && (forall u :: u in Leaving(k1, g) ==> u in k1.tasks)
                 && (Valid() <==> !Entangled(k1.tasks, Leaving(k1, g), joins))
                 && (!Valid() ==> ZombieQueued(State(), Leaving(k1, g)))
    {
      hide Inv, Loose, Complete, Calm, Forward, Exited, Members, Drop, Only, Leaving, Swept, Entangled;
      ghost var k := State();
      var g := tasks[current.value].tgid;
      ExitCurrent(joins);
      ghost var k1 := State();
      CalmKeys(k, k1, {k.current.value});
      SameGroup(k, k1, {k.current.value}, g);
      QueuedExist(k1, {});
      ListStands(k1, g);
      SweptKeeps(k1, g);
      InvIsLoose(Swept(k1, g), Elements(Leaving(k1, g)));
      LooseComplete(Swept(k1, g), joins);
      var list := Sweep(g);
      ExitAll(list, joins);
      ExitedAllIff(Swept(k1, g), Leaving(k1, g), joins);
      ExitedAllCalm(Swept(k1, g), Leaving(k1, g), joins);
      CalmSwept(k1, State(), Elements(Leaving(k1, g)), g);
      SweptForward(k.(current := None), k1, State(), g);
      GroupGone(k, k1, State(), k.current.value, g);
      GroupEnds(k, State(), g);
    }

    /** `sys_clone` by the running task, and `add_task` of the new one. */
    method Clone(c: nat, pid: nat, thread: bool, sibling: bool, signal: bool)
      requires Valid() && current.Some? && c !in tasks && FreshPid(State(), pid)
      modifies this`tasks, this`ready
      ensures Valid() && current.value in old(tasks) && ready == old(ready) + [c] && c in tasks
      ensures old(tasks[current.value].parent.Some? ==> tasks[current.value].parent.value in tasks)
      ensures State() == Cloned(old(State()), c, pid, thread, sibling, signal)
      ensures var t := current.value; var maker := old(tasks)[t];
              && tasks[c] == Task(pid, if thread then maker.tgid else pid, signal, Ready,
                                  if thread || sibling then maker.parent else Some(t), [])
              && (tasks[c].parent.Some? ==>
                    var p := tasks[c].parent.value;
                    && p in old(tasks) && p in tasks
                    && tasks[p] == old(tasks)[p].(children := old(tasks)[p].children + [c]))
              && tasks.Keys == old(tasks).Keys + {c}
              && (forall u :: u in old(tasks) && Some(u) != tasks[c].parent ==> tasks[u] == old(tasks)[u])
      ensures sleeping == old(sleeping) && current == old(current)
      ensures var g := old(tasks[current.value].tgid);
              && Group(State(), g) == Group(old(State()), g) + (if thread || pid == g then {c} else {})
              && (Main(tasks[c]) <==> !thread || pid == g)
    {
      hide Inv, FreshPid;
      ClonedKeeps(State(), c, pid, thread, sibling, signal);
      var t := current.value;
      var parent := if thread || sibling then tasks[t].parent else Some(t);
      var child := Task(pid, if thread then tasks[t].tgid else pid, signal, Ready, parent, []);
      if parent.Some? {
        tasks := tasks[parent.value := tasks[parent.value].(children := tasks[parent.value].children + [c])];
      }
      tasks := tasks[c := child];
      ready := ready + [c];
    }

    /** The search of `wait4`: the first zombie child that was asked for is dropped. */
    method Reap(pid: Option<nat>) returns (child: Option<Task>, ghost c: nat)
      requires Valid() && current.Some? && current.value in tasks && AllIn(tasks, tasks[current.value].children)
      modifies this`tasks
      ensures Valid()
      ensures child.None? ==> tasks == old(tasks) && Picked(old(tasks), old(tasks[current.value].children), pid) == []
      ensures child.Some? ==>
                && c in old(tasks) && c != current.value && child.value == old(tasks)[c]
                   && c in old(tasks[current.value].children)
                && State() == Reaped(old(State()), c) && current.value in tasks
                   && AllIn(tasks, tasks[current.value].children)
                && Picked(old(tasks), old(tasks[current.value].children), pid)
                   == [c] + if Main(child.value) then [] else Picked(tasks, tasks[current.value].children, pid)
    {
      hide Inv, Drop, Ripe, Picked;
      var t := current.value;
      InvIsLoose(State(), {});
      ExitFinds(State(), t);
      var cs := tasks[t].children;
      for i := 0 to |cs|
        invariant tasks == old(tasks)
        invariant forall j :: 0 <= j < i ==> !Ripe(tasks, cs[j], pid)
      {
        if Ripe(tasks, cs[i], pid) {
          RipeIs(tasks, cs[i], pid);
          PickedNext(tasks, cs, pid, i);
          ReapedKeeps(State(), cs[i]);
          RemoveIs(cs, i);
          DropMembers(cs, {cs[i]});
          c := cs[i];
          child := Some(tasks[cs[i]]);
          tasks := tasks[t := tasks[t].(children := cs[..i] + cs[i + 1..])] - {cs[i]};
          PickedSame(old(tasks), tasks, tasks[t].children, pid);
          return;
        }
      }
      PickedAt(tasks, cs, pid, |cs|);
      assert cs[|cs|..] == [];
      PickedNone(tasks, pid);
      return None, 0;
    }

    method AnyWanted(pid: Option<nat>) returns (any: bool)
      requires current.Some? && current.value in tasks && AllIn(tasks, tasks[current.value].children)
      ensures any <==> exists c :: c in tasks[current.value].children && Wanted(tasks, c, pid)
    {
      var cs := tasks[current.value].children;
      for i := 0 to |cs|
        invariant forall j :: 0 <= j < i ==> !Wanted(tasks, cs[j], pid)
      {
        if Wanted(tasks, cs[i], pid) {
          return true;
        }
      }
      return false;
    }

    /** The loop of `wait4`: zombie threads are collected until the first zombie main task, which is reported. */
    method Collect(pid: Option<nat>) returns (r: Waited)
      requires Valid() && current.Some? && current.value in tasks && AllIn(tasks, tasks[current.value].children)
      modifies this`tasks
      ensures Valid()
      ensures var k, t := old(State()), current.value; var picked := Picked(k.tasks, k.tasks[t].children, pid);
              && AllIn(k.tasks, picked) && t in tasks && AllIn(tasks, tasks[t].children)
              && State() == Collected(k, Elements(picked))
              && r == if Reports(k.tasks, picked) then Found(k.tasks[picked[|picked| - 1]].pid)
                      else if !exists c :: c in tasks[t].children && Wanted(tasks, c, pid) then NoChild else NotYet
    {
      hide Inv, Picked, Reaped, Collected, Drop;
      var t := current.value;
      ghost var k, gone: seq<nat> := State(), [];
      CollectedNone(k);
      assert Elements([]) == {};
      CollectedWhole(k, pid);
      while true
        invariant Valid() && current == Some(t) && t in tasks && AllIn(tasks, tasks[t].children)
        invariant AllIn(k.tasks, gone) && t !in gone && State() == Collected(k, Elements(gone))
        invariant Picked(k.tasks, k.tasks[t].children, pid) == gone + Picked(tasks, tasks[t].children, pid)
        invariant forall c :: c in gone ==> !Main(k.tasks[c])
        decreases |tasks[t].children|
      {
        var any := AnyWanted(pid);
        ghost var k1 := State();
        if !any {
          NobodyPicked(tasks, tasks[t].children, pid);
          assert gone + [] == gone;
          return NoChild;
        }
        var child, c := Reap(pid);
        if child.None? {
          assert gone + [] == gone;
          return NotYet;
        }
        CollectedTask(k, Elements(gone), c);
        CollectedMore(k, Elements(gone), c);
        ReapedFewer(k1, c);
        assert Elements(gone + [c]) == Elements(gone) + {c};
        gone := gone + [c];
        if Main(child.value) {
          assert gone[|gone| - 1] == c && [c] + [] == [c];
          return Found(child.value.pid);
        }
      }
    }

    /** `wait4` up to the switch: without a main task to report the call fails if nobody is left to wait for, and
        else returns at once or blocks. */
    method Wait4(pid: Option<nat>, noHang: bool) returns (r: Waited)
      requires Valid() && current.Some? && current.value in tasks && AllIn(tasks, tasks[current.value].children)
      modifies this
      ensures Valid()
      ensures var k, t := old(State()), old(current.value);
              var picked := Picked(k.tasks, k.tasks[t].children, pid); var k' := Collected(k, Elements(picked));
              && AllIn(k.tasks, picked) && t in k'.tasks && AllIn(k'.tasks, k'.tasks[t].children)
              && State() == (if r == Blocks then Blocked(k') else k')
              && r == if Reports(k.tasks, picked) then Found(k.tasks[picked[|picked| - 1]].pid)
                      else if !exists c :: c in k'.tasks[t].children && Wanted(k'.tasks, c, pid) then NoChild
                      else if noHang then NotYet else Blocks
      ensures r.Found? ==> exists c ::
                && c in old(tasks[current.value].children) && c in old(tasks) && c !in tasks
                && old(tasks)[c].status == Zombie && r.pid == old(tasks)[c].pid == old(tasks)[c].tgid
                && (pid.None? || r.pid == pid.value)
      ensures !r.Found? ==> old(current.value) in tasks && forall c ::
                c in tasks[old(current.value)].children ==>
                  && c in tasks
                  && (pid.None? || tasks[c].pid == pid.value ==> r != NoChild && tasks[c].status != Zombie)
    {
      hide Inv, Picked, Collected;
      CollectedFacts(State(), pid);
      r := Collect(pid);
      if r == NotYet && !noHang {
        Block();
        r := Blocks;
      }
    }
  }

  datatype Waited = NoChild | Found(pid: nat) | NotYet | Blocks
}
