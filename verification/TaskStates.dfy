// Task states, the two scheduler queues and the process tree of one hart, as values.
module TaskStates {
  import opened Types

  datatype Status = Ready | Running | Interruptible | Zombie

  /** A task control block; tasks are named by the identity of their `Arc`. */
  datatype Task = Task(pid: nat, tgid: nat, exitSignal: bool, status: Status, parent: Option<nat>, children: seq<nat>)

  /** `tasks` holds the tasks not yet dropped: a weak reference upgrades exactly when its task is there. */
  datatype Sched = Sched(tasks: map<nat, Task>, ready: seq<nat>, sleeping: seq<nat>, current: Option<nat>, init: nat)

  // ----- Queues -----

  /** The queue without the members of `out`. */
  function Drop(s: seq<nat>, out: set<nat>): seq<nat> {
    if s == [] then [] else (if s[0] in out then [] else [s[0]]) + Drop(s[1..], out)
  }

  /** The members of `out`, in queue order. */
  function Only(s: seq<nat>, out: set<nat>): seq<nat> {
    if s == [] then [] else (if s[0] in out then [s[0]] else []) + Only(s[1..], out)
  }

  lemma {:induction false} DropMembers(s: seq<nat>, out: set<nat>)
    ensures forall x: nat :: x in Drop(s, out) <==> x in s && x !in out
    ensures forall x: nat :: x in Only(s, out) <==> x in s && x in out
  {
    if s != [] {
      DropMembers(s[1..], out);
      assert s == [s[0]] + s[1..];
    }
  }

  lemma {:induction false} DropDistinct(s: seq<nat>, out: set<nat>)
    requires Distinct(s)
    ensures Distinct(Drop(s, out)) && Distinct(Only(s, out))
  {
    if s != [] {
      var rest := s[1..];
      assert Distinct(rest) by { assert forall i :: 0 <= i < |rest| ==> rest[i] == s[i + 1]; }
      assert s[0] !in rest;
      DropDistinct(rest, out);
      DropMembers(rest, out);
      ConsDistinct(s[0], Drop(rest, out));
      ConsDistinct(s[0], Only(rest, out));
      assert [] + Drop(rest, out) == Drop(rest, out) && [] + Only(rest, out) == Only(rest, out);
    }
  }

  lemma ConsDistinct(x: nat, s: seq<nat>)
    requires Distinct(s) && x !in s
    ensures Distinct([x] + s)
  {
  }

  lemma DropEmpty(out: set<nat>)
    ensures Drop([], out) == [] && Only([], out) == []
  {
  }

  lemma {:induction false} DropAppend(s: seq<nat>, x: nat, out: set<nat>)
    ensures Drop(s + [x], out) == Drop(s, out) + (if x in out then [] else [x])
    ensures Only(s + [x], out) == Only(s, out) + (if x in out then [x] else [])
  {
    if s != [] {
      DropAppend(s[1..], x, out);
      assert (s + [x])[1..] == s[1..] + [x];
    }
  }

  // ----- Invariant -----

  /** A task is in the ready queue, the interruptible queue or running, as its status says; tasks in
      `limbo` are off all of them on their way to exit. */
  ghost predicate PlacedAt(k: Sched, limbo: set<nat>, t: nat)
    requires t in k.tasks
  {
    if t in limbo then t !in k.ready && t !in k.sleeping && k.current != Some(t)
    else
      && (t in k.ready <==> k.tasks[t].status == Ready)
      && (t in k.sleeping <==> k.tasks[t].status == Interruptible)
      && (k.current == Some(t) <==> k.tasks[t].status == Running)
  }

  ghost predicate Placed(k: Sched, limbo: set<nat>) {
    && Distinct(k.ready) && Distinct(k.sleeping) && limbo <= k.tasks.Keys
    && (forall t :: t in k.ready || t in k.sleeping || k.current == Some(t) ==> t in k.tasks)
    && (forall t :: t in k.tasks ==> PlacedAt(k, limbo, t))
  }

  ghost predicate Pids(k: Sched) {
    forall t, u :: t in k.tasks && u in k.tasks && t != u ==> k.tasks[t].pid != k.tasks[u].pid
  }

  ghost predicate ChildrenAt(k: Sched, t: nat)
    requires t in k.tasks
  {
    && Distinct(k.tasks[t].children)
    && (k.tasks[t].status == Zombie ==> k.tasks[t].children == [])
    && (forall c :: c in k.tasks[t].children ==> c in k.tasks && k.tasks[c].parent == Some(t))
  }

  ghost predicate ParentAt(k: Sched, t: nat)
    requires t in k.tasks
  {
    k.tasks[t].parent.Some? ==>
      var p := k.tasks[t].parent.value;
      p in k.tasks && p != t && t in k.tasks[p].children
  }

  /** A parent lists its child and no task is its own parent; no zombie has children. */
  ghost predicate FamilyAt(k: Sched, t: nat)
    requires t in k.tasks
  {
    ChildrenAt(k, t) && ParentAt(k, t)
  }

  ghost predicate Families(k: Sched) {
    && k.init in k.tasks && k.tasks[k.init].status != Zombie && k.tasks[k.init].parent == None
    && (forall t :: t in k.tasks ==> FamilyAt(k, t))
  }

  ghost predicate Inv(k: Sched, limbo: set<nat>) {
    Placed(k, limbo) && Pids(k) && Families(k)
  }

  /** What still holds when a task on its way out has been put back in the ready queue. */
  ghost predicate Loose(k: Sched) {
    && Pids(k) && Families(k)
    && (forall u :: u in k.ready || u in k.sleeping ==> u in k.tasks)
    && (forall u :: u in k.tasks && k.tasks[u].status == Interruptible ==> u !in k.ready)
  }

  lemma InvIsLoose(k: Sched, limbo: set<nat>)
    requires Inv(k, limbo)
    ensures Loose(k)
  {
    hide Pids, Families;
    forall u | u in k.tasks && k.tasks[u].status == Interruptible
      ensures u !in k.ready
    {
      assert PlacedAt(k, limbo, u);
    }
  }

  function WithStatus(k: Sched, t: nat, s: Status): map<nat, Task>
    requires t in k.tasks
  {
    k.tasks[t := k.tasks[t].(status := s)]
  }

  /** Statuses, queues and the running task are outside the family part of the invariant. */
  lemma StatusKeepsRest(k: Sched, k': Sched, t: nat, s: Status)
    requires Pids(k) && Families(k) && t in k.tasks && s != Zombie
    requires k'.tasks == WithStatus(k, t, s) && k'.init == k.init
    ensures Pids(k') && Families(k')
  {
    forall u | u in k'.tasks
      ensures FamilyAt(k', u)
    {
      assert FamilyAt(k, u);
    }
  }

  /** In exactly one place, and its status says which. */
  lemma ExactlyOne(k: Sched, t: nat)
    requires Inv(k, {}) && t in k.tasks
    ensures var places := (if t in k.ready then 1 else 0) + (if t in k.sleeping then 1 else 0)
                          + (if k.current == Some(t) then 1 else 0) + (if k.tasks[t].status == Zombie then 1 else 0);
            places == 1
  {
    assert PlacedAt(k, {}, t);
  }

  // ----- Running and blocking -----

  /** `fetch_task` and the dispatch of `run_tasks`. */
  function Dispatched(k: Sched): Sched
    requires k.ready != [] && k.ready[0] in k.tasks
  {
    k.(ready := k.ready[1..], tasks := WithStatus(k, k.ready[0], Running), current := Some(k.ready[0]))
  }

  lemma DispatchedKeeps(k: Sched)
    requires Inv(k, {}) && k.ready != [] && k.current == None
    ensures k.ready[0] in k.tasks && Inv(Dispatched(k), {})
  {
    hide Families, Pids;
    var t, rest := k.ready[0], k.ready[1..];
    assert k.ready == [t] + rest;
    var k' := Dispatched(k);
    assert Distinct(rest) by { assert forall i :: 0 <= i < |rest| ==> rest[i] == k.ready[i + 1]; }
    assert t !in rest;
    assert PlacedAt(k, {}, t);
    forall u | u in k'.tasks
      ensures PlacedAt(k', {}, u)
    {
      assert PlacedAt(k, {}, u);
    }
    StatusKeepsRest(k, k', t, Running);
  }

  function Suspended(k: Sched): Sched
    requires k.current.Some? && k.current.value in k.tasks
  {
    k.(current := None, tasks := WithStatus(k, k.current.value, Ready), ready := k.ready + [k.current.value])
  }

  function Blocked(k: Sched): Sched
    requires k.current.Some? && k.current.value in k.tasks
  {
    k.(current := None, tasks := WithStatus(k, k.current.value, Interruptible),
        sleeping := k.sleeping + [k.current.value])
  }

  lemma SuspendedKeeps(k: Sched)
    requires Inv(k, {}) && k.current.Some?
    ensures k.current.value in k.tasks && Inv(Suspended(k), {})
  {
    hide Families, Pids;
    var t := k.current.value;
    var k' := Suspended(k);
    assert PlacedAt(k, {}, t);
    PushDistinct(k.ready, t);
    forall u | u in k'.tasks
      ensures PlacedAt(k', {}, u)
    {
      assert PlacedAt(k, {}, u);
    }
    StatusKeepsRest(k, k', t, Ready);
  }

  lemma BlockedKeeps(k: Sched)
    requires Inv(k, {}) && k.current.Some?
    ensures k.current.value in k.tasks && Inv(Blocked(k), {})
  {
    hide Families, Pids;
    var t := k.current.value;
    var k' := Blocked(k);
    assert PlacedAt(k, {}, t);
    PushDistinct(k.sleeping, t);
    forall u | u in k'.tasks
      ensures PlacedAt(k', {}, u)
    {
      assert PlacedAt(k, {}, u);
    }
    StatusKeepsRest(k, k', t, Interruptible);
  }

  // ----- Waking -----

  /** `find_by_pid` */
  ghost predicate Queued(k: Sched, pid: nat) {
    exists u :: u in k.tasks && (u in k.ready || u in k.sleeping) && k.tasks[u].pid == pid
  }

  /** `try_wake_interruptible`: the new queues, and whether it was queued. */
  ghost function TryWake(k: Sched, t: nat): (Sched, bool)
    requires t in k.tasks
  {
    var k1 := k.(sleeping := Drop(k.sleeping, {t}));
    if Queued(k1, k.tasks[t].pid) then (k1, false) else (k1.(ready := k.ready + [t]), true)
  }

  function Woken(k: Sched, t: nat): Sched
    requires t in k.tasks
  {
    k.(tasks := WithStatus(k, t, Ready), sleeping := Drop(k.sleeping, {t}), ready := k.ready + [t])
  }

  lemma WokenKeeps(k: Sched, limbo: set<nat>, t: nat)
    requires Inv(k, limbo) && t in k.tasks && t !in limbo && k.tasks[t].status == Interruptible
    ensures Inv(Woken(k, t), limbo)
  {
    hide Families, Pids;
    var k' := Woken(k, t);
    assert PlacedAt(k, limbo, t);
    DropMembers(k.sleeping, {t});
    DropDistinct(k.sleeping, {t});
    PushDistinct(k.ready, t);
    forall u | u in k'.tasks
      ensures PlacedAt(k', limbo, u)
    {
      assert PlacedAt(k, limbo, u);
    }
    StatusKeepsRest(k, k', t, Ready);
  }

  /** Waking a sleeper always queues it. */
  lemma WakeQueues(k: Sched, t: nat)
    requires Loose(k) && t in k.tasks && k.tasks[t].status == Interruptible
    ensures TryWake(k.(tasks := WithStatus(k, t, Ready)), t) == (Woken(k, t), true)
  {
    hide Families;
    DropMembers(k.sleeping, {t});
    var k1 := k.(tasks := WithStatus(k, t, Ready), sleeping := Drop(k.sleeping, {t}));
    forall u | u in k1.tasks && (u in k1.ready || u in k1.sleeping)
      ensures k1.tasks[u].pid != k1.tasks[t].pid
    {
      assert u != t;
    }
  }

  lemma {:induction false} DropNone(s: seq<nat>, out: set<nat>)
    requires forall x :: x in s ==> x !in out
    ensures Drop(s, out) == s
  {
    if s != [] {
      DropNone(s[1..], out);
    }
  }

  /** Waking a task that is already ready changes nothing. */
  lemma AlreadyWoken(k: Sched, t: nat)
    requires Inv(k, {}) && t in k.tasks && k.tasks[t].status == Ready
    ensures TryWake(k, t) == (k, false)
  {
    assert PlacedAt(k, {}, t);
    DropNone(k.sleeping, {t});
  }

  // ----- Exit -----

  /** What a step may do to the tasks it does not end: put a sleeper in the ready state. */
  ghost predicate Calm(k: Sched, k': Sched, dead: set<nat>) {
    && k'.tasks.Keys == k.tasks.Keys && k'.init == k.init
    && (forall u :: u in k.tasks ==>
          && k'.tasks[u].pid == k.tasks[u].pid && k'.tasks[u].tgid == k.tasks[u].tgid
          && k'.tasks[u].exitSignal == k.tasks[u].exitSignal
          && (if u in dead then k'.tasks[u].status == Zombie
              else k'.tasks[u].status == k.tasks[u].status
                   || (k.tasks[u].status == Interruptible && k'.tasks[u].status == Ready)))
  }

  lemma CalmThen(k: Sched, k1: Sched, k2: Sched, dead1: set<nat>, dead2: set<nat>)
    requires Calm(k, k1, dead1) && Calm(k1, k2, dead2)
    ensures Calm(k, k2, dead1 + dead2)
  {
  }

  lemma {:induction false} DropConcat(a: seq<nat>, b: seq<nat>, out: set<nat>)
    ensures Drop(a + b, out) == Drop(a, out) + Drop(b, out)
  {
    if a == [] {
      assert a + b == b;
    } else {
      assert (a + b)[1..] == a[1..] + b;
      DropConcat(a[1..], b, out);
    }
  }

  lemma {:induction false} DropTwice(s: seq<nat>, a: set<nat>, b: set<nat>)
    ensures Drop(Drop(s, a), b) == Drop(s, a + b)
  {
    if s != [] {
      DropTwice(s[1..], a, b);
      DropConcat(if s[0] in a then [] else [s[0]], Drop(s[1..], a), b);
    }
  }

  /** The queues move forward: sleepers go to the back of the ready queue, all else keeps its order. */
  ghost predicate Forward(k: Sched, k': Sched) {
    && k'.current == k.current && k.ready <= k'.ready
    && k'.sleeping == Drop(k.sleeping, Elements(k'.ready[|k.ready|..]))
  }

  lemma ForwardSelf(k: Sched, k': Sched)
    requires k'.ready == k.ready && k'.sleeping == k.sleeping && k'.current == k.current
    ensures Forward(k, k')
  {
    assert k'.ready[|k.ready|..] == [];
    DropNone(k.sleeping, {});
    assert Elements([]) == {};
  }

  lemma ForwardThen(k: Sched, k1: Sched, k2: Sched)
    requires Forward(k, k1) && Forward(k1, k2)
    ensures Forward(k, k2)
  {
    var a, b := k1.ready[|k.ready|..], k2.ready[|k1.ready|..];
    assert k2.ready[|k.ready|..] == a + b;
    assert Elements(a + b) == Elements(a) + Elements(b);
    DropTwice(k.sleeping, Elements(a), Elements(b));
  }

  /** Wake task `p` if it sleeps. */
  function Nudged(k: Sched, p: nat): Sched
    requires p in k.tasks
  {
    if k.tasks[p].status == Interruptible then Woken(k, p) else k
  }

  lemma WokenForward(k: Sched, p: nat)
    requires p in k.tasks
    ensures Forward(k, Woken(k, p))
  {
    assert (k.ready + [p])[|k.ready|..] == [p];
    assert Elements([p]) == {p};
  }

  lemma NudgedKeeps(k: Sched, limbo: set<nat>, p: nat)
    requires Inv(k, limbo) && p in k.tasks && p !in limbo
    ensures Inv(Nudged(k, p), limbo) && Calm(k, Nudged(k, p), {}) && Forward(k, Nudged(k, p))
  {
    hide Inv, Forward;
    if k.tasks[p].status == Interruptible {
      WokenKeeps(k, limbo, p);
      WokenForward(k, p);
    } else {
      ForwardSelf(k, k);
    }
  }

  /** Wake the task, if there is one and it sleeps. */
  function Poked(k: Sched, w: Option<nat>): Sched
    requires w.Some? ==> w.value in k.tasks
  {
    if w.Some? then Nudged(k, w.value) else k
  }

  ghost predicate Asleep(k: Sched, limbo: set<nat>, w: Option<nat>) {
    w.Some? && w.value in limbo && w.value in k.tasks && k.tasks[w.value].status == Interruptible
  }

  lemma WokenLoose(k: Sched, t: nat)
    requires Loose(k) && t in k.tasks
    ensures Loose(Woken(k, t))
  {
    hide Families, Pids;
    DropMembers(k.sleeping, {t});
    StatusKeepsRest(k, Woken(k, t), t, Ready);
  }

  lemma PokedLoose(k: Sched, w: Option<nat>)
    requires Loose(k) && (w.Some? ==> w.value in k.tasks)
    ensures Loose(Poked(k, w)) && Calm(k, Poked(k, w), {}) && Forward(k, Poked(k, w))
    ensures SameFamily(k, Poked(k, w))
  {
    hide Loose, Forward, Drop;
    ForwardSelf(k, k);
    if w.Some? && k.tasks[w.value].status == Interruptible {
      WokenLoose(k, w.value);
      WokenForward(k, w.value);
    }
  }

  /** Only statuses and queues differ. */
  ghost predicate SameFamily(k: Sched, k': Sched) {
    && k'.tasks.Keys == k.tasks.Keys && k'.init == k.init
    && (forall u :: u in k.tasks ==>
       k'.tasks[u].parent == k.tasks[u].parent && k'.tasks[u].children == k.tasks[u].children)
  }

  /** A wake keeps the invariant exactly when it does not meet a sleeper that is on its way out. */
  lemma PokedKeepsIff(k: Sched, limbo: set<nat>, w: Option<nat>)
    requires Inv(k, limbo) && (w.Some? ==> w.value in k.tasks)
    ensures Inv(Poked(k, w), limbo) <==> !Asleep(k, limbo, w)
    ensures !Asleep(k, limbo, w) ==> forall u :: u in limbo && u in k.tasks ==> Poked(k, w).tasks[u] == k.tasks[u]
  {
    hide Pids, Families, Drop;
    if w.Some? && w.value !in limbo {
      NudgedKeeps(k, limbo, w.value);
    }
    if Asleep(k, limbo, w) {
      var k' := Poked(k, w);
      assert w.value in k'.ready;
      assert !PlacedAt(k', limbo, w.value);
    }
  }

  lemma {:induction false} ReversedFacts(s: seq<nat>)
    ensures |Reversed(s)| == |s| && forall x: nat :: x in Reversed(s) <==> x in s
    ensures Distinct(s) ==> Distinct(Reversed(s))
  {
    if s != [] {
      ReversedFacts(s[1..]);
      assert s == [s[0]] + s[1..];
      if Distinct(s) {
        assert forall i :: 0 <= i < |s[1..]| ==> s[1..][i] == s[i + 1];
        PushDistinct(Reversed(s[1..]), s[0]);
      }
    }
  }

  /** Task `t` after its exit: a zombie whose children belong to `init`. */
  function Buried(tasks: map<nat, Task>, init: nat, t: nat): map<nat, Task>
    requires t in tasks && init in tasks
  {
    map u | u in tasks ::
      if u == t then tasks[u].(status := Zombie, children := [])
      else if u == init then tasks[u].(children := tasks[u].children + Reversed(tasks[t].children))
      else if u in tasks[t].children then tasks[u].(parent := Some(init))
      else tasks[u]
  }

  lemma NotOwnChild(k: Sched, t: nat)
    requires Families(k) && t in k.tasks
    ensures t !in k.tasks[t].children && k.init !in k.tasks[t].children
  {
    assert FamilyAt(k, t);
  }

  lemma BuriedChildrenAt(k: Sched, t: nat, u: nat)
    requires Families(k) && t in k.tasks && t != k.init && u in k.tasks
    ensures ChildrenAt(k.(tasks := Buried(k.tasks, k.init, t)), u)
  {
    hide Reversed, ParentAt;
    NotOwnChild(k, t);
    assert FamilyAt(k, u) && FamilyAt(k, t) && FamilyAt(k, k.init);
    var cs, own := k.tasks[t].children, k.tasks[k.init].children;
    ReversedFacts(cs);
    AppendDistinct(own, Reversed(cs));
  }

  lemma AppendDistinct(a: seq<nat>, b: seq<nat>)
    requires Distinct(a) && Distinct(b) && forall x :: x in a ==> x !in b
    ensures Distinct(a + b)
  {
    forall i, j | 0 <= i < j < |a + b|
      ensures (a + b)[i] != (a + b)[j]
    {
      assert i < |a| ==> (a + b)[i] in a;
      assert j >= |a| ==> (a + b)[j] in b;
    }
  }

  lemma BuriedParentAt(k: Sched, t: nat, u: nat)
    requires Families(k) && t in k.tasks && t != k.init && u in k.tasks
    ensures ParentAt(k.(tasks := Buried(k.tasks, k.init, t)), u)
  {
    hide Reversed;
    NotOwnChild(k, t);
    assert FamilyAt(k, u) && FamilyAt(k, t) && FamilyAt(k, k.init);
    ReversedFacts(k.tasks[t].children);
  }

  lemma BuriedKeeps(k: Sched, limbo: set<nat>, t: nat)
    requires Inv(k, limbo) && t in k.tasks && t in limbo && t != k.init
    ensures Inv(k.(tasks := Buried(k.tasks, k.init, t)), limbo - {t})
  {
    hide ChildrenAt, ParentAt, Reversed;
    var k' := k.(tasks := Buried(k.tasks, k.init, t));
    forall u | u in k'.tasks
      ensures PlacedAt(k', limbo - {t}, u)
    {
      assert PlacedAt(k, limbo, u);
    }
    NotOwnChild(k, t);
    forall u | u in k'.tasks
      ensures FamilyAt(k', u)
    {
      BuriedChildrenAt(k, t, u);
      BuriedParentAt(k, t, u);
    }
  }

  lemma BuriedLoose(k: Sched, t: nat)
    requires Loose(k) && t in k.tasks && t != k.init
    ensures Loose(k.(tasks := Buried(k.tasks, k.init, t)))
  {
    hide ChildrenAt, ParentAt, Reversed;
    var k' := k.(tasks := Buried(k.tasks, k.init, t));
    NotOwnChild(k, t);
    forall u | u in k'.tasks
      ensures FamilyAt(k', u)
    {
      BuriedChildrenAt(k, t, u);
      BuriedParentAt(k, t, u);
    }
  }

  /** Whom the exit of `t` signals and wakes. */
  function Caller(k: Sched, t: nat): Option<nat>
    requires t in k.tasks
  {
    if k.tasks[t].exitSignal then k.tasks[t].parent else None
  }

  /** The first process is woken when it inherits. */
  function Heir(k: Sched, t: nat): Option<nat>
    requires t in k.tasks
  {
    if k.tasks[t].children != [] then Some(k.init) else None
  }

  /** The sleeper the futex wake on the `clear_child_tid` of a task finds, if any. */
  type Joins = map<nat, nat>

  function Joiner(joins: Joins, t: nat): Option<nat> {
    if t in joins then Some(joins[t]) else None
  }

  /** Everybody an exit may meet is there. */
  predicate Complete(k: Sched, joins: Joins) {
    && k.init in k.tasks
    && (forall u :: u in k.tasks && k.tasks[u].parent.Some? ==> k.tasks[u].parent.value in k.tasks)
    && (forall u :: u in joins ==> joins[u] in k.tasks)
  }

  lemma LooseComplete(k: Sched, joins: Joins)
    requires Loose(k) && forall u :: u in joins ==> joins[u] in k.tasks
    ensures Complete(k, joins)
  {
    forall u | u in k.tasks && k.tasks[u].parent.Some?
      ensures k.tasks[u].parent.value in k.tasks
    {
      assert FamilyAt(k, u);
    }
  }

  /** The state between the two halves of an exit. */
  function HalfExited(k: Sched, t: nat): Sched
    requires t in k.tasks && Complete(k, map[])
  {
    var k1 := Poked(k, Caller(k, t));
    k1.(tasks := Buried(k1.tasks, k.init, t))
  }

  /** `do_exit` of a task that was taken off the processor and the queues. */
  function Exited(k: Sched, t: nat, joins: Joins): Sched
    requires t in k.tasks && Complete(k, joins)
  {
    Poked(Poked(HalfExited(k, t), Heir(k, t)), Joiner(joins, t))
  }

  lemma BuriedCalm(k: Sched, t: nat)
    requires t in k.tasks && k.init in k.tasks
    ensures Calm(k, k.(tasks := Buried(k.tasks, k.init, t)), {t})
  {
  }

  /** An exit changes no other task except that it may wake sleepers, and the queues only move forward. */
  lemma ExitedLoose(k: Sched, t: nat, joins: Joins)
    requires Loose(k) && t in k.tasks && t != k.init && Complete(k, joins)
    ensures Loose(Exited(k, t, joins)) && Calm(k, Exited(k, t, joins), {t}) && Forward(k, Exited(k, t, joins))
    ensures Complete(Exited(k, t, joins), joins)
  {
    hide Loose, Poked, Buried, Calm, Forward, HalfExited;
    HalfExitedLoose(k, t);
    var k2 := HalfExited(k, t);
    var k3 := Poked(k2, Heir(k, t));
    PokedLoose(k2, Heir(k, t));
    CalmKeys(k2, k3, {});
    var k4 := Poked(k3, Joiner(joins, t));
    PokedLoose(k3, Joiner(joins, t));
    CalmKeys(k3, k4, {});
    CalmThen(k, k2, k3, {t}, {});
    CalmThen(k, k3, k4, {t}, {});
    ForwardThen(k, k2, k3);
    ForwardThen(k, k3, k4);
    assert {t} == {t} + {};
    LooseComplete(k4, joins);
  }

  /** The exit of `t` wakes a sleeper that is itself on its way out. */
  ghost predicate Disturbs(k: Sched, limbo: set<nat>, t: nat, joins: Joins)
    requires t in k.tasks
  {
    Asleep(k, limbo, Caller(k, t)) || Asleep(k, limbo - {t}, Joiner(joins, t))
  }

  lemma ReadyStays(k: Sched, k': Sched, p: nat)
    requires Forward(k, k') && p in k.ready
    ensures p in k'.ready
  {
  }

  lemma HalfExitedIs(k: Sched, t: nat)
    requires t in k.tasks && Complete(k, map[])
    ensures var k1 := Poked(k, Caller(k, t));
            k.init in k1.tasks && t in k1.tasks && HalfExited(k, t) == k1.(tasks := Buried(k1.tasks, k.init, t))
  {
  }

  lemma HalfExitedLoose(k: Sched, t: nat)
    requires Loose(k) && t in k.tasks && t != k.init && Complete(k, map[])
    ensures Loose(HalfExited(k, t)) && HalfExited(k, t).tasks.Keys == k.tasks.Keys && HalfExited(k, t).init == k.init
    ensures Calm(k, HalfExited(k, t), {t}) && Forward(Poked(k, Caller(k, t)), HalfExited(k, t))
            && Forward(k, HalfExited(k, t))
    ensures forall u :: u in k.tasks ==> HalfExited(k, t).tasks[u] == Buried(Poked(k, Caller(k, t)).tasks, k.init, t)[u]
  {
    hide Loose, Poked, Buried, Calm, Forward;
    var k1, k2 := Poked(k, Caller(k, t)), HalfExited(k, t);
    PokedLoose(k, Caller(k, t));
    CalmKeys(k, k1, {});
    BuriedLoose(k1, t);
    BuriedCalm(k1, t);
    CalmKeys(k1, k2, {t});
    ForwardSelf(k1, k2);
    CalmThen(k, k1, k2, {}, {t});
    ForwardThen(k, k1, k2);
    assert {} + {t} == {t};
  }

  /** The exit of one task of a group whose other members may be on their way out too keeps the invariant
      exactly when it wakes none of those. */
  lemma ExitedKeepsIff(k: Sched, limbo: set<nat>, t: nat, joins: Joins)
    requires Inv(k, limbo) && t in limbo && t in k.tasks && t != k.init && k.init !in limbo && Complete(k, joins)
    ensures Inv(Exited(k, t, joins), limbo - {t}) <==> !Disturbs(k, limbo, t, joins)
    ensures Disturbs(k, limbo, t, joins) ==>
              exists p :: p in limbo - {t} && p in k.tasks && p in Exited(k, t, joins).ready
    ensures !Disturbs(k, limbo, t, joins) ==> forall u :: u in limbo - {t} && u in k.tasks ==>
              u in Exited(k, t, joins).tasks
              && Exited(k, t, joins).tasks[u] ==
                   if u in k.tasks[t].children then k.tasks[u].(parent := Some(k.init)) else k.tasks[u]
  {
    hide Inv, Loose, Poked, Buried, Calm, Forward, HalfExited;
    InvIsLoose(k, limbo);
    if Asleep(k, limbo, Caller(k, t)) {
      CallerDisturbed(k, limbo, t, joins);
    } else {
      HalfExitedKeeps(k, limbo, t);
      HalfExitedLoose(k, t);
      var k2 := HalfExited(k, t);
      PokedKeepsIff(k2, limbo - {t}, Heir(k, t));
      PokedLoose(k2, Heir(k, t));
      var k3 := Poked(k2, Heir(k, t));
      CalmKeys(k2, k3, {});
      PokedKeepsIff(k3, limbo - {t}, Joiner(joins, t));
      if Asleep(k, limbo - {t}, Joiner(joins, t)) {
        PokedReady(k3, Joiner(joins, t).value);
      }
      PokedLoose(k3, Joiner(joins, t));
      CalmKeys(k3, Poked(k3, Joiner(joins, t)), {});
    }
  }

  lemma CallerDisturbed(k: Sched, limbo: set<nat>, t: nat, joins: Joins)
    requires Loose(k) && t in limbo && t in k.tasks && t != k.init && Complete(k, joins)
    requires Asleep(k, limbo, Caller(k, t))
    ensures var p := Caller(k, t).value; p in limbo - {t} && p in k.tasks && p in Exited(k, t, joins).ready
    ensures !Inv(Exited(k, t, joins), limbo - {t})
  {
    hide Inv, Loose, Poked, Buried, Calm, Forward, HalfExited;
    var p := Caller(k, t).value;
    LooseFamilies(k);
    ParentDiffers(k, t);
    PokedReady(k, p);
    HalfExitedLoose(k, t);
    var k2 := HalfExited(k, t);
    ReadyStays(Poked(k, Caller(k, t)), k2, p);
    PokedLoose(k2, Heir(k, t));
    var k3 := Poked(k2, Heir(k, t));
    CalmKeys(k2, k3, {});
    ReadyStays(k2, k3, p);
    PokedLoose(k3, Joiner(joins, t));
    CalmKeys(k3, Exited(k, t, joins), {});
    ReadyStays(k3, Exited(k, t, joins), p);
    NotPlaced(Exited(k, t, joins), limbo - {t}, p);
  }

  lemma HalfExitedKeeps(k: Sched, limbo: set<nat>, t: nat)
    requires Inv(k, limbo) && t in limbo && t in k.tasks && t != k.init && k.init !in limbo && Complete(k, map[])
    requires !Asleep(k, limbo, Caller(k, t))
    ensures Inv(HalfExited(k, t), limbo - {t})
    ensures forall u :: u in limbo - {t} && u in k.tasks ==>
              && u in HalfExited(k, t).tasks
              && HalfExited(k, t).tasks[u]
                 == if u in k.tasks[t].children then k.tasks[u].(parent := Some(k.init)) else k.tasks[u]
  {
    hide Inv, Loose, Poked, Calm, Forward, Reversed;
    InvIsLoose(k, limbo);
    PokedLoose(k, Caller(k, t));
    PokedKeepsIff(k, limbo, Caller(k, t));
    BuriedKeeps(Poked(k, Caller(k, t)), limbo, t);
  }

  lemma PokedReady(k: Sched, p: nat)
    requires p in k.tasks && k.tasks[p].status == Interruptible
    ensures p in Poked(k, Some(p)).ready
  {
  }

  lemma NotPlaced(k: Sched, limbo: set<nat>, p: nat)
    requires p in limbo && p in k.ready && p in k.tasks
    ensures !Inv(k, limbo)
  {
    assert !PlacedAt(k, limbo, p);
  }

  /** An exit is noticed: a parent that is to be signalled, the first process when it inherits, and a task that
      joins the exiting one do not sleep afterwards; every child belongs to the first process. */
  lemma ExitNoticed(k: Sched, t: nat, joins: Joins)
    requires Loose(k) && t in k.tasks && t != k.init && Complete(k, joins)
    ensures var k' := Exited(k, t, joins);
            && t in k'.tasks && k'.tasks[t].status == Zombie && k'.tasks[t].children == []
            && (k.tasks[t].exitSignal && k.tasks[t].parent.Some? ==>
                  k.tasks[t].parent.value in k'.tasks && k'.tasks[k.tasks[t].parent.value].status != Interruptible)
            && (k.tasks[t].children != [] ==> k.init in k'.tasks && k'.tasks[k.init].status != Interruptible)
            && (t in joins ==> joins[t] in k'.tasks && k'.tasks[joins[t]].status != Interruptible)
            && (forall c :: c in k.tasks[t].children ==>
                  c in k'.tasks && k'.tasks[c].parent == Some(k.init) && k.init in k'.tasks
                      && c in k'.tasks[k.init].children)
  {
    hide Loose, Poked, Buried, Calm, Forward, HalfExited;
    LooseFamilies(k);
    PokedLoose(k, Caller(k, t));
    var k1, k2 := Poked(k, Caller(k, t)), HalfExited(k, t);
    CalmKeys(k, k1, {});
    HalfExitedLoose(k, t);
    BuriedFamily(k1, t);
    ChildrenThere(k, t);
    NotOwnChild(k, t);
    PokedLoose(k2, Heir(k, t));
    var k3 := Poked(k2, Heir(k, t));
    CalmKeys(k2, k3, {});
    PokedLoose(k3, Joiner(joins, t));
    CalmKeys(k3, Poked(k3, Joiner(joins, t)), {});
    BuriedCalm(k1, t);
    AwakeStays(k1, k2, {t});
    AwakeStays(k2, k3, {});
    AwakeStays(k3, Poked(k3, Joiner(joins, t)), {});
    PokedAwake(k, Caller(k, t));
    PokedAwake(k2, Heir(k, t));
    PokedAwake(k3, Joiner(joins, t));
  }

  lemma PokedAwake(k: Sched, w: Option<nat>)
    requires w.Some? ==> w.value in k.tasks
    ensures w.Some? ==> w.value in Poked(k, w).tasks && Poked(k, w).tasks[w.value].status != Interruptible
  {
  }

  /** Nobody falls asleep and no zombie comes back. */
  lemma AwakeStays(k: Sched, k': Sched, dead: set<nat>)
    requires Calm(k, k', dead)
    ensures forall u :: u in k.tasks && k.tasks[u].status != Interruptible ==>
            u in k'.tasks && k'.tasks[u].status != Interruptible
    ensures forall u :: u in k.tasks && (k.tasks[u].status == Zombie || u in dead) ==>
            u in k'.tasks && k'.tasks[u].status == Zombie
  {
  }

  lemma BuriedFamily(k: Sched, t: nat)
    requires t in k.tasks && k.init in k.tasks && t != k.init && t !in k.tasks[t].children
             && k.init !in k.tasks[t].children
    ensures var tasks := Buried(k.tasks, k.init, t);
            && tasks[t].children == []
            && forall c :: c in k.tasks[t].children && c in k.tasks ==>
               tasks[c].parent == Some(k.init) && c in tasks[k.init].children
  {
    ReversedFacts(k.tasks[t].children);
  }

  lemma ChildrenThere(k: Sched, t: nat)
    requires Families(k) && t in k.tasks
    ensures forall c :: c in k.tasks[t].children ==> c in k.tasks
  {
    assert FamilyAt(k, t);
  }

  lemma ParentDiffers(k: Sched, t: nat)
    requires Families(k) && t in k.tasks && k.tasks[t].parent.Some?
    ensures k.tasks[t].parent.value != t
  {
    assert FamilyAt(k, t);
  }

  /** Only the signalled parent, the first process and the joiner can join the ready queue. */
  lemma ExitQueues(k: Sched, t: nat, joins: Joins, u: nat)
    requires Loose(k) && t in k.tasks && t != k.init && Complete(k, joins)
    requires u in Exited(k, t, joins).ready && u !in k.ready
    ensures Some(u) in {Caller(k, t), Heir(k, t), Joiner(joins, t)}
  {
    hide Loose, Drop, Buried;
  }

  lemma CalmFrom(k: Sched, k': Sched, dead: set<nat>)
    requires Calm(k.(current := None), k', dead)
    ensures Calm(k, k', dead)
  {
  }

  lemma CalmSelf(k: Sched)
    ensures Calm(k, k, {})
  {
  }

  lemma CalmKeys(k: Sched, k': Sched, dead: set<nat>)
    requires Calm(k, k', dead)
    ensures k'.tasks.Keys == k.tasks.Keys && k'.init == k.init
    ensures forall u :: u in k.tasks ==> k'.tasks[u].tgid == k.tasks[u].tgid
  {
  }

  /** The running task comes off the processor. */
  lemma TakenKeeps(k: Sched)
    requires Inv(k, {}) && k.current.Some?
    ensures k.current.value in k.tasks && Inv(k.(current := None), {k.current.value})
  {
    hide Families, Pids;
    var t := k.current.value;
    var k' := k.(current := None);
    assert PlacedAt(k, {}, t);
    forall u | u in k'.tasks
      ensures PlacedAt(k', {t}, u)
    {
      assert PlacedAt(k, {}, u);
    }
    SameTasks(k, k');
  }

  lemma SameTasks(k: Sched, k': Sched)
    requires k'.tasks == k.tasks && k'.init == k.init && Pids(k) && Families(k)
    ensures Pids(k') && Families(k')
  {
    forall u | u in k'.tasks
      ensures FamilyAt(k', u)
    {
      assert FamilyAt(k, u);
    }
  }

  /** The tasks while the children of `t` move to `init`; `n` are still with `t`. */
  ghost predicate Moving(was: map<nat, Task>, now: map<nat, Task>, init: nat, t: nat, n: nat)
    requires t in was && init in was
  {
    var cs := was[t].children;
    && n <= |cs| && now.Keys == was.Keys && t != init
    && now[t] == was[t].(children := cs[..n])
    && now[init] == was[init].(children := was[init].children + Reversed(cs[n..]))
    && (forall u :: u in was && u != t && u != init ==>
          now[u] == if u in cs[n..] then was[u].(parent := Some(init)) else was[u])
  }

  lemma MoveStep(was: map<nat, Task>, now: map<nat, Task>, init: nat, t: nat, n: nat)
    requires t in was && init in was && Moving(was, now, init, t, n) && n > 0 && Distinct(was[t].children)
    requires forall c :: c in was[t].children ==> c in was && c != t && c != init
    ensures var c := was[t].children[n - 1];
            && c in now && c != t && c != init
            && Moving(was, now[t := now[t].(children := was[t].children[..n - 1])]
                            [c := now[c].(parent := Some(init))]
                            [init := now[init].(children := now[init].children + [c])], init, t, n - 1)
  {
    var cs := was[t].children;
    assert cs[n - 1] in cs;
    assert cs[n - 1..] == [cs[n - 1]] + cs[n..];
    assert cs[n - 1] !in cs[n..];
  }

  lemma MoveStart(was: map<nat, Task>, init: nat, t: nat)
    requires t in was && init in was && t != init
    ensures Moving(was, was, init, t, |was[t].children|)
  {
    assert was[t].children[..|was[t].children|] == was[t].children;
  }

  lemma MoveFinds(was: map<nat, Task>, now: map<nat, Task>, init: nat, t: nat, n: nat)
    requires t in was && init in was && Moving(was, now, init, t, n) && n > 0
    ensures now.Keys == was.Keys && t != init && n <= |was[t].children| && now[t].children == was[t].children[..n]
    ensures now[t].children[..n - 1] == was[t].children[..n - 1]
  {
  }

  lemma MoveDone(was: map<nat, Task>, now: map<nat, Task>, init: nat, t: nat)
    requires t in was && init in was && Moving(was, now, init, t, 0) && was[t].status == Zombie
    ensures now == Buried(was, init, t)
  {
    assert was[t].children[0..] == was[t].children;
    assert was[t].children[..0] == [];
  }

  lemma BuriedZombie(tasks: map<nat, Task>, init: nat, t: nat)
    requires t in tasks && init in tasks && t != init
    ensures Buried(tasks[t := tasks[t].(status := Zombie)], init, t) == Buried(tasks, init, t)
    ensures tasks[t].children == [] ==> tasks[t := tasks[t].(status := Zombie)] == Buried(tasks, init, t)
  {
    assert tasks[init].children + [] == tasks[init].children;
  }

  /** What the exit of `t` finds before it moves the children. */
  lemma ExitFinds(k: Sched, t: nat)
    requires Loose(k) && t in k.tasks
    ensures k.init in k.tasks && Distinct(k.tasks[t].children)
    ensures forall c :: c in k.tasks[t].children ==> c in k.tasks && c != t && c != k.init
  {
    assert FamilyAt(k, t);
    NotOwnChild(k, t);
  }

  lemma LooseQueues(k: Sched)
    requires Loose(k)
    ensures forall u :: u in k.ready || u in k.sleeping ==> u in k.tasks
  {
  }

  /** A task that exits alone disturbs nobody. */
  lemma AloneUndisturbed(k: Sched, t: nat, joins: Joins)
    requires Families(k) && t in k.tasks
    ensures !Disturbs(k, {t}, t, joins)
  {
    if k.tasks[t].parent.Some? {
      ParentDiffers(k, t);
    }
  }

  lemma QueuedExist(k: Sched, limbo: set<nat>)
    requires Inv(k, limbo)
    ensures forall u :: u in k.ready || u in k.sleeping ==> u in k.tasks
  {
  }

  // ----- Leaving a whole group -----

  function Members(tasks: map<nat, Task>, g: nat): set<nat> {
    set u | u in tasks && tasks[u].tgid == g
  }

  function Group(k: Sched, g: nat): set<nat> {
    Members(k.tasks, g)
  }

  /** The queued members of the group are off both queues. */
  function Swept(k: Sched, g: nat): Sched {
    k.(ready := Drop(k.ready, Group(k, g)), sleeping := Drop(k.sleeping, Group(k, g)))
  }

  /** The members of the group a sweep takes off, in the order it meets them. */
  function Leaving(k: Sched, g: nat): seq<nat> {
    Only(k.ready, Group(k, g)) + Only(k.sleeping, Group(k, g))
  }

  lemma LeavingFacts(k: Sched, g: nat)
    requires Inv(k, {})
    ensures Distinct(Leaving(k, g))
    ensures forall u: nat :: u in Leaving(k, g) <==> u in Group(k, g) && (u in k.ready || u in k.sleeping)
  {
    hide Families, Pids;
    var group := Group(k, g);
    DropMembers(k.ready, group);
    DropMembers(k.sleeping, group);
    DropDistinct(k.ready, group);
    DropDistinct(k.sleeping, group);
    var a, b := Only(k.ready, group), Only(k.sleeping, group);
    forall i, j | 0 <= i < |a| && 0 <= j < |b|
      ensures a[i] != b[j]
    {
      assert a[i] in k.ready && b[j] in k.sleeping;
      assert PlacedAt(k, {}, a[i]);
    }
  }

  lemma SweptKeeps(k: Sched, g: nat)
    requires Inv(k, {})
    ensures Inv(Swept(k, g), Elements(Leaving(k, g)))
  {
    hide Families, Pids, Drop, Only;
    var k', limbo, group := Swept(k, g), Elements(Leaving(k, g)), Group(k, g);
    LeavingFacts(k, g);
    DropMembers(k.ready, group);
    DropMembers(k.sleeping, group);
    DropDistinct(k.ready, group);
    DropDistinct(k.sleeping, group);
    forall u | u in k'.tasks
      ensures PlacedAt(k', limbo, u)
    {
      assert PlacedAt(k, {}, u);
    }
    SameTasks(k, k');
  }

  lemma ListStands(k: Sched, g: nat)
    requires Inv(k, {}) && k.init in k.tasks && k.tasks[k.init].tgid != g
    ensures Distinct(Leaving(k, g)) && Swept(k, g).tasks == k.tasks && Swept(k, g).init == k.init
    ensures forall u :: u in Leaving(k, g) ==> u in k.tasks && u != k.init
  {
    hide Inv, Leaving;
    LeavingFacts(k, g);
  }

  // ----- Exits in a row -----

  /** The tasks of the list exit in order. */
  ghost function ExitedAll(k: Sched, list: seq<nat>, joins: Joins): (r: Sched)
    requires Loose(k) && Complete(k, joins) && forall u :: u in list ==> u in k.tasks && u != k.init
    ensures Loose(r) && Complete(r, joins) && r.init == k.init && r.tasks.Keys == k.tasks.Keys
    decreases |list|
  {
    if list == [] then k
    else
      ExitedLoose(k, list[0], joins);
      CalmKeys(k, Exited(k, list[0], joins), {list[0]});
      TailIn(list);
      ExitedAll(Exited(k, list[0], joins), list[1..], joins)
  }

  /** A task later in the list sleeps, and the exit of an earlier one wakes it. */
  ghost predicate Entangled(tasks: map<nat, Task>, list: seq<nat>, joins: Joins)
    requires forall u :: u in list ==> u in tasks
  {
    exists i, j :: 0 <= i < j < |list| && Wakes(tasks, joins, list[i], list[j])
  }

  /** The exit of `t` wakes the sleeper `p`. */
  ghost predicate Wakes(tasks: map<nat, Task>, joins: Joins, t: nat, p: nat)
    requires t in tasks && p in tasks
  {
    && tasks[p].status == Interruptible
    && ((tasks[t].exitSignal && tasks[t].parent == Some(p)) || Joiner(joins, t) == Some(p))
  }

  lemma DisturbsIff(k: Sched, list: seq<nat>, joins: Joins)
    requires list != [] && Distinct(list) && (forall u :: u in list ==> u in k.tasks) && Families(k)
    ensures Disturbs(k, Elements(list), list[0], joins)
            <==> exists j :: 0 < j < |list| && Wakes(k.tasks, joins, list[0], list[j])
  {
    hide FamilyAt;
    var t := list[0];
    if k.tasks[t].parent.Some? {
      ParentDiffers(k, t);
    }
    if Disturbs(k, Elements(list), t, joins) {
      var p := if Asleep(k, Elements(list), Caller(k, t)) then Caller(k, t).value else Joiner(joins, t).value;
      assert p in list && p != t;
      var j :| 0 <= j < |list| && list[j] == p;
      assert Wakes(k.tasks, joins, list[0], list[j]);
    }
    if j :| 0 < j < |list| && Wakes(k.tasks, joins, list[0], list[j]) {
      assert list[j] in list && list[j] != list[0];
    }
  }

  lemma EntangledCons(tasks: map<nat, Task>, list: seq<nat>, joins: Joins)
    requires list != [] && forall u :: u in list ==> u in tasks
    ensures Entangled(tasks, list, joins) <==>
              (exists j :: 0 < j < |list| && Wakes(tasks, joins, list[0], list[j]))
                  || Entangled(tasks, list[1..], joins)
  {
    hide Wakes;
    var rest := list[1..];
    assert forall i :: 0 <= i < |rest| ==> rest[i] == list[i + 1];
    if i, j :| 0 <= i < j < |list| && Wakes(tasks, joins, list[i], list[j]) {
      if i > 0 {
        assert Wakes(tasks, joins, rest[i - 1], rest[j - 1]);
      }
    }
    if i, j :| 0 <= i < j < |rest| && Wakes(tasks, joins, rest[i], rest[j]) {
      assert Wakes(tasks, joins, list[i + 1], list[j + 1]);
    }
  }

  /** The exit of `t` does not change who wakes whom among the others on their way out. */
  lemma EntangledSame(tasks: map<nat, Task>, tasks': map<nat, Task>, kids: seq<nat>, t: nat, init: nat,
      list: seq<nat>, joins: Joins)
    requires t !in list && init !in list
    requires forall u :: u in list ==>
               && u in tasks && u in tasks' && (u in kids ==> tasks[u].parent == Some(t))
               && tasks'[u] == if u in kids then tasks[u].(parent := Some(init)) else tasks[u]
    ensures Entangled(tasks', list, joins) <==> Entangled(tasks, list, joins)
  {
    assert forall u, p :: u in list && p in list ==> (Wakes(tasks', joins, u, p) <==> Wakes(tasks, joins, u, p));
  }

  lemma {:induction false} ExitedAllCalm(k: Sched, list: seq<nat>, joins: Joins)
    requires Loose(k) && Complete(k, joins) && forall u :: u in list ==> u in k.tasks && u != k.init
    ensures Calm(k, ExitedAll(k, list, joins), Elements(list)) && Forward(k, ExitedAll(k, list, joins))
    decreases |list|
  {
    hide Loose, Complete, Calm, Forward, Exited;
    if list == [] {
      CalmSelf(k);
      ForwardSelf(k, k);
      assert Elements(list) == {};
    } else {
      var t, k1 := list[0], Exited(k, list[0], joins);
      ExitedLoose(k, t, joins);
      CalmKeys(k, k1, {t});
      TailIn(list);
      ExitedAllCalm(k1, list[1..], joins);
      CalmThen(k, k1, ExitedAll(k, list, joins), {t}, Elements(list[1..]));
      ForwardThen(k, k1, ExitedAll(k, list, joins));
      assert list == [t] + list[1..];
      assert Elements(list) == {t} + Elements(list[1..]);
    }
  }

  /** After all exits every task is in its place again exactly when no exit woke a later member of the list;
      otherwise a zombie is left in the ready queue. */
  lemma {:induction false} ExitedAllIff(k: Sched, list: seq<nat>, joins: Joins)
    requires Inv(k, Elements(list)) && Loose(k) && Complete(k, joins) && Distinct(list)
    requires forall u :: u in list ==> u in k.tasks && u != k.init
    ensures Inv(ExitedAll(k, list, joins), {}) <==> !Entangled(k.tasks, list, joins)
    ensures Entangled(k.tasks, list, joins) ==> ZombieQueued(ExitedAll(k, list, joins), list)
    decreases |list|
  {
    hide Inv, Loose, Complete, Exited, Entangled, Disturbs, Calm, Forward, ZombieQueued;
    if list == [] {
      assert Elements(list) == {};
      NotEntangled(k.tasks, joins);
    } else {
      var t, rest, k1 := list[0], list[1..], Exited(k, list[0], joins);
      RestOf(list);
      ExitedLoose(k, t, joins);
      CalmKeys(k, k1, {t});
      ExitedKeepsIff(k, Elements(list), t, joins);
      LooseFamilies(k);
      DisturbsIff(k, list, joins);
      EntangledCons(k.tasks, list, joins);
      if Disturbs(k, Elements(list), t, joins) {
        var p :| p in Elements(list) - {t} && p in k.tasks && p in k1.ready;
        ExitedAllCalm(k1, rest, joins);
        ZombieReady(k1, ExitedAll(k1, rest, joins), Elements(rest), p, list);
      } else {
        ExitedAllIff(k1, rest, joins);
        ChildrenOf(k, t);
        EntangledSame(k.tasks, k1.tasks, k.tasks[t].children, t, k.init, rest, joins);
        QueuedInWhole(ExitedAll(k1, rest, joins), rest, list);
      }
    }
  }

  /** A thread group of three: task 2 is ready and task 3 sleeps until task 2 is gone. */
  function JoinedGroup(): Sched {
    Sched(map[0 := Task(0, 0, false, Ready, None, []), 1 := Task(1, 1, false, Running, None, []),
              2 := Task(2, 1, false, Ready, None, []), 3 := Task(3, 1, false, Interruptible, None, [])],
          [0, 2], [3], Some(1), 0)
  }

  lemma JoinedGroupInv()
    ensures Inv(JoinedGroup(), {})
  {
    hide Placed, Pids, Families;
    JoinedGroupPlaced();
    JoinedGroupFamilies();
  }

  lemma JoinedGroupPlaced()
    ensures Placed(JoinedGroup(), {})
  {
  }

  lemma JoinedGroupFamilies()
    ensures Pids(JoinedGroup()) && Families(JoinedGroup())
  {
    Unrelated(JoinedGroup());
  }

  lemma Unrelated(k: Sched)
    requires forall u :: u in k.tasks ==> k.tasks[u].pid == u && k.tasks[u].parent == None && k.tasks[u].children == []
    ensures Pids(k)
    ensures k.init in k.tasks && k.tasks[k.init].status != Zombie ==> Families(k)
  {
  }

  /** An exit that signals nobody, leaves no child and has no joiner. */
  lemma QuietExit(k: Sched, t: nat, joins: Joins)
    requires t in k.tasks && t != k.init && Complete(k, joins) && !k.tasks[t].exitSignal
             && k.tasks[t].children == [] && t !in joins
    ensures Exited(k, t, joins) == k.(tasks := WithStatus(k, t, Zombie))
  {
    assert k.tasks[k.init].children + [] == k.tasks[k.init].children;
    assert Buried(k.tasks, k.init, t) == WithStatus(k, t, Zombie);
  }

  /** When task 1 leaves with its whole group, task 3 ends as a zombie in the ready queue. */
  lemma JoinedGroupBreaks()
    ensures var k, joins := JoinedGroup(), map[2 := 3];
            && Inv(k, {}) && Complete(k.(current := None), joins)
            && var k1 := Exited(k.(current := None), 1, joins);
               && Leaving(k1, 1) == [2, 3] && Loose(Swept(k1, 1)) && Complete(Swept(k1, 1), joins)
               && Swept(k1, 1).init == 0 && 2 in Swept(k1, 1).tasks && 3 in Swept(k1, 1).tasks
               && var k2 := ExitedAll(Swept(k1, 1), [2, 3], joins);
                  3 in k2.tasks && k2.tasks[3].status == Zombie && 3 in k2.ready && !Inv(k2, {})
  {
    JoinedGroupInv();
    hide Inv, Exited, ExitedAll, Loose, Only, Drop;
    var k, joins := JoinedGroup().(current := None), map[2 := 3];
    TakenKeeps(JoinedGroup());
    InvIsLoose(k, {1});
    QuietExit(k, 1, joins);
    ExitedLoose(k, 1, joins);
    var k1 := Exited(k, 1, joins);
    var group := Group(k1, 1);
    assert 2 in group && 3 in group && 0 !in group;
    OnlySecond(0, 2, group);
    OnlyOne(3, group);
    assert [2] + [3] == [2, 3];
    SweptLoose(k1, 1);
    assert Wakes(k1.tasks, joins, [2, 3][0], [2, 3][1]);
    ExitedAllQueued(Swept(k1, 1), [2, 3], joins, 1);
    ZombieNotPlaced(ExitedAll(Swept(k1, 1), [2, 3], joins), 3);
  }

  lemma OnlyOne(x: nat, out: set<nat>)
    requires x in out
    ensures Only([x], out) == [x]
  {
    DropAppend([], x, out);
    assert [] + [x] == [x];
  }

  lemma OnlySecond(x: nat, y: nat, out: set<nat>)
    requires x !in out && y in out
    ensures Only([x, y], out) == [y]
  {
    DropAppend([], x, out);
    DropAppend([x], y, out);
    assert [] + [x] == [x] && [x] + [y] == [x, y];
  }

  lemma SweptLoose(k: Sched, g: nat)
    requires Loose(k)
    ensures Loose(Swept(k, g))
  {
    hide Pids, Families;
    DropMembers(k.ready, Group(k, g));
    DropMembers(k.sleeping, Group(k, g));
    SameTasks(k, Swept(k, g));
  }

  lemma ZombieNotPlaced(k: Sched, p: nat)
    requires p in k.tasks && k.tasks[p].status == Zombie && p in k.ready
    ensures !Inv(k, {})
  {
    assert !PlacedAt(k, {}, p);
  }

  lemma NotEntangled(tasks: map<nat, Task>, joins: Joins)
    ensures !Entangled(tasks, [], joins)
  {
  }

  lemma RestOf(list: seq<nat>)
    requires list != [] && Distinct(list)
    ensures Distinct(list[1..]) && list[0] !in list[1..] && Elements(list) - {list[0]} == Elements(list[1..])
    ensures forall u :: u in list[1..] ==> u in list
  {
    assert list == [list[0]] + list[1..];
    assert forall i :: 0 <= i < |list[1..]| ==> list[1..][i] == list[i + 1];
  }

  lemma LooseFamilies(k: Sched)
    requires Loose(k)
    ensures Families(k)
  {
  }

  lemma ChildrenOf(k: Sched, t: nat)
    requires Families(k) && t in k.tasks
    ensures forall c :: c in k.tasks[t].children ==> c in k.tasks && k.tasks[c].parent == Some(t)
  {
    assert FamilyAt(k, t);
  }

  /** A member of the list is a zombie and in the ready queue. */
  ghost predicate ZombieQueued(k: Sched, list: seq<nat>) {
    exists p :: p in list && p in k.tasks && k.tasks[p].status == Zombie && p in k.ready
  }

  lemma QueuedInWhole(k: Sched, rest: seq<nat>, list: seq<nat>)
    requires forall u :: u in rest ==> u in list
    ensures ZombieQueued(k, rest) ==> ZombieQueued(k, list)
  {
  }

  lemma ZombieReady(k: Sched, k': Sched, dead: set<nat>, p: nat, list: seq<nat>)
    requires p in k.tasks && p in dead && p in k.ready && Forward(k, k') && Calm(k, k', dead) && p in list
    ensures !Inv(k', {}) && ZombieQueued(k', list)
  {
    assert !PlacedAt(k', {}, p);
  }

  /** A wake reaches its sleeper and nobody else. */
  lemma PokedAt(k: Sched, w: Option<nat>, u: nat)
    requires (w.Some? ==> w.value in k.tasks) && u in k.tasks
    ensures var hit := w == Some(u) && k.tasks[u].status == Interruptible;
            && Poked(k, w).tasks.Keys == k.tasks.Keys && Poked(k, w).init == k.init
            && (u in Poked(k, w).ready <==> u in k.ready || hit)
            && Poked(k, w).tasks[u] == if hit then k.tasks[u].(status := Ready) else k.tasks[u]
  {
    hide Drop;
  }

  lemma BuriedAt(tasks: map<nat, Task>, init: nat, t: nat, u: nat)
    requires t in tasks && init in tasks && u in tasks && u != init && t != init
    ensures Buried(tasks, init, t).Keys == tasks.Keys
    ensures Buried(tasks, init, t)[u] ==
            if u == t then tasks[u].(status := Zombie, children := [])
            else if u in tasks[t].children then tasks[u].(parent := Some(init)) else tasks[u]
  {
    hide Reversed;
  }

  /** The exit of `t` as another task sees it. */
  lemma ExitedAt(k: Sched, t: nat, joins: Joins, u: nat)
    requires Loose(k) && t in k.tasks && t != k.init && Complete(k, joins) && u in k.tasks && u != k.init
    ensures Exited(k, t, joins).tasks.Keys == k.tasks.Keys
    ensures u in Exited(k, t, joins).ready <==> u in k.ready || (u != t && Wakes(k.tasks, joins, t, u))
    ensures u != t ==>
              var moved := if u in k.tasks[t].children then k.tasks[u].(parent := Some(k.init)) else k.tasks[u];
              Exited(k, t, joins).tasks[u] == if Wakes(k.tasks, joins, t, u) then moved.(status := Ready) else moved
  {
    hide Loose, Poked, Buried, HalfExited;
    LooseFamilies(k);
    if k.tasks[t].parent.Some? {
      ParentDiffers(k, t);
    }
    PokedAt(k, Caller(k, t), u);
    PokedAt(k, Caller(k, t), t);
    var k1, k2 := Poked(k, Caller(k, t)), HalfExited(k, t);
    HalfExitedIs(k, t);
    BuriedAt(k1.tasks, k.init, t, u);
    PokedAt(k2, Heir(k, t), u);
    PokedAt(Poked(k2, Heir(k, t)), Joiner(joins, t), u);
  }

  lemma {:induction false} ReversedAt(s: seq<nat>, j: nat)
    requires j < |s|
    ensures j < |Reversed(s)| == |s| && Reversed(s)[j] == s[|s| - 1 - j]
  {
    ReversedFacts(s[1..]);
    if j < |s| - 1 {
      ReversedAt(s[1..], j);
    }
  }

  /** The first process takes the children over from the last to the first. */
  lemma BuriedInit(tasks: map<nat, Task>, init: nat, t: nat)
    requires t in tasks && init in tasks && t != init
    ensures Buried(tasks, init, t).Keys == tasks.Keys
    ensures var was, now, cs := tasks[init], Buried(tasks, init, t)[init], tasks[t].children;
            && now == was.(children := now.children)
            && |now.children| == |was.children| + |cs| && was.children <= now.children
            && (forall i :: |was.children| <= i < |now.children| ==> now.children[i] == cs[|now.children| - 1 - i])
  {
    hide Reversed;
    var cs := tasks[t].children;
    ReversedFacts(cs);
    forall j | 0 <= j < |cs|
      ensures Reversed(cs)[j] == cs[|cs| - 1 - j]
    {
      ReversedAt(cs, j);
    }
  }

  lemma HalfExitedInit(k: Sched, t: nat)
    requires Loose(k) && t in k.tasks && t != k.init && Complete(k, map[])
    ensures HalfExited(k, t).tasks.Keys == k.tasks.Keys && HalfExited(k, t).init == k.init
    ensures var was, now, cs := k.tasks[k.init], HalfExited(k, t).tasks[k.init], k.tasks[t].children;
            var wakes := was.status == Interruptible && k.tasks[t].exitSignal && k.tasks[t].parent == Some(k.init);
            && now == was.(status := if wakes then Ready else was.status, children := now.children)
            && |now.children| == |was.children| + |cs| && was.children <= now.children
            && (forall i :: |was.children| <= i < |now.children| ==> now.children[i] == cs[|now.children| - 1 - i])
            && (k.init in HalfExited(k, t).ready <==> k.init in k.ready || wakes)
  {
    hide Loose, Poked, HalfExited, Buried;
    LooseFamilies(k);
    if k.tasks[t].parent.Some? {
      ParentDiffers(k, t);
    }
    PokedAt(k, Caller(k, t), k.init);
    PokedAt(k, Caller(k, t), t);
    HalfExitedIs(k, t);
    BuriedInit(Poked(k, Caller(k, t)).tasks, k.init, t);
  }

  /** The exit of `t` as the first process sees it: it inherits the children, and wakes up when there are any, when
      it is the parent to be signalled or when it joins `t`. */
  lemma ExitedInit(k: Sched, t: nat, joins: Joins)
    requires Loose(k) && t in k.tasks && t != k.init && Complete(k, joins)
    ensures k.init in Exited(k, t, joins).tasks
    ensures var was, now, cs := k.tasks[k.init], Exited(k, t, joins).tasks[k.init], k.tasks[t].children;
            var wakes := was.status == Interruptible
                         && (cs != [] || (k.tasks[t].exitSignal && k.tasks[t].parent == Some(k.init))
                             || (t in joins && joins[t] == k.init));
            && now == was.(status := if wakes then Ready else was.status, children := now.children)
            && |now.children| == |was.children| + |cs| && was.children <= now.children
            && (forall i :: |was.children| <= i < |now.children| ==> now.children[i] == cs[|now.children| - 1 - i])
            && (k.init in Exited(k, t, joins).ready <==> k.init in k.ready || wakes)
  {
    hide Loose, Poked, HalfExited;
    HalfExitedInit(k, t);
    var k2 := HalfExited(k, t);
    PokedAt(k2, Heir(k, t), k.init);
    PokedAt(Poked(k2, Heir(k, t)), Joiner(joins, t), k.init);
  }

  /** A zombie outside the ready queue stays outside. */
  lemma {:induction false} ZombieStaysOut(k: Sched, list: seq<nat>, joins: Joins, u: nat)
    requires Loose(k) && Complete(k, joins) && forall x :: x in list ==> x in k.tasks && x != k.init
    requires u in k.tasks && u != k.init && k.tasks[u].status == Zombie
    ensures u in ExitedAll(k, list, joins).ready <==> u in k.ready
    decreases |list|
  {
    hide Loose, Complete, Calm, Forward, Exited;
    if list != [] {
      var t, k1 := list[0], Exited(k, list[0], joins);
      ExitedLoose(k, t, joins);
      CalmKeys(k, k1, {t});
      AwakeStays(k, k1, {t});
      ExitedAt(k, t, joins, u);
      TailIn(list);
      ZombieStaysOut(k1, list[1..], joins, u);
    }
  }

  /** What one exit leaves for the wakes of the next ones. */
  lemma WakesAfter(k: Sched, t: nat, joins: Joins, x: nat, u: nat)
    requires Loose(k) && t in k.tasks && t != k.init && Complete(k, joins)
    requires x in k.tasks && u in k.tasks && x !in {t, k.init} && u !in {t, k.init}
    ensures x in Exited(k, t, joins).tasks && u in Exited(k, t, joins).tasks
    ensures Wakes(Exited(k, t, joins).tasks, joins, x, u)
            <==> Wakes(k.tasks, joins, x, u) && !Wakes(k.tasks, joins, t, u)
  {
    hide Loose, Exited;
    LooseFamilies(k);
    ExitedAt(k, t, joins, x);
    ExitedAt(k, t, joins, u);
    ChildrenOf(k, t);
  }

  ghost predicate WokenBefore(tasks: map<nat, Task>, joins: Joins, list: seq<nat>, j: nat)
    requires j < |list| && forall u :: u in list ==> u in tasks
  {
    exists i :: 0 <= i < j && Wakes(tasks, joins, list[i], list[j])
  }

  /** After the exits of a list, the members left in the ready queue are exactly those a member before them woke. */
  lemma {:induction false} ExitedAllQueued(k: Sched, list: seq<nat>, joins: Joins, j: nat)
    requires Loose(k) && Complete(k, joins) && Distinct(list) && j < |list|
    requires forall u :: u in list ==> u in k.tasks && u != k.init
    ensures list[j] in ExitedAll(k, list, joins).ready <==> list[j] in k.ready || WokenBefore(k.tasks, joins, list, j)
    ensures list[j] in ExitedAll(k, list, joins).tasks && ExitedAll(k, list, joins).tasks[list[j]].status == Zombie
    decreases |list|
  {
    hide Loose, Complete, Calm, Forward, Exited, Wakes;
    var t, rest, k1, u := list[0], list[1..], Exited(k, list[0], joins), list[j];
    RestOf(list);
    ExitedLoose(k, t, joins);
    CalmKeys(k, k1, {t});
    ExitedAt(k, t, joins, u);
    ExitedAllCalm(k, list, joins);
    AwakeStays(k, ExitedAll(k, list, joins), Elements(list));
    if j == 0 {
      AwakeStays(k, k1, {t});
      ZombieStaysOut(k1, rest, joins, t);
    } else {
      ExitedAllQueued(k1, rest, joins, j - 1);
      assert rest[j - 1] == u && u in rest;
      forall i | 0 <= i < j - 1
        ensures Wakes(k1.tasks, joins, rest[i], u)
                <==> Wakes(k.tasks, joins, list[i + 1], u) && !Wakes(k.tasks, joins, t, u)
      {
        assert rest[i] == list[i + 1] && rest[i] in rest;
        WakesAfter(k, t, joins, rest[i], u);
      }
      WokenFirst(k.tasks, k1.tasks, joins, list, j);
    }
  }

  lemma WokenFirst(tasks: map<nat, Task>, tasks': map<nat, Task>, joins: Joins, list: seq<nat>, j: nat)
    requires 0 < j < |list| && (forall u :: u in list ==> u in tasks) && (forall u :: u in list[1..] ==> u in tasks')
    requires forall i :: 0 <= i < j - 1 ==>
               (Wakes(tasks', joins, list[1..][i], list[1..][j - 1])
                <==> Wakes(tasks, joins, list[i + 1], list[j]) && !Wakes(tasks, joins, list[0], list[j]))
    ensures WokenBefore(tasks, joins, list, j) <==>
              Wakes(tasks, joins, list[0], list[j]) || WokenBefore(tasks', joins, list[1..], j - 1)
  {
    hide Wakes;
    if i :| 0 <= i < j && Wakes(tasks, joins, list[i], list[j]) {
      assert i > 0 ==> list[1..][i - 1] == list[i];
      assert i > 0 && !Wakes(tasks, joins, list[0], list[j]) ==>
          Wakes(tasks', joins, list[1..][i - 1], list[1..][j - 1]);
    }
    if i :| 0 <= i < j - 1 && Wakes(tasks', joins, list[1..][i], list[1..][j - 1]) {
      assert Wakes(tasks, joins, list[i + 1], list[j]);
    }
  }

  lemma CalmSwept(k: Sched, k': Sched, dead: set<nat>, g: nat)
    requires Calm(Swept(k, g), k', dead)
    ensures Calm(k, k', dead)
  {
  }

  /** Over a whole group exit: the queues lose the group and otherwise only move forward. */
  lemma SweptForward(k: Sched, k1: Sched, k2: Sched, g: nat)
    requires Forward(k, k1) && Forward(Swept(k1, g), k2) && Group(k1, g) == Group(k, g)
    ensures Drop(k.ready, Group(k, g)) <= k2.ready
    ensures k2.sleeping == Drop(k.sleeping, Group(k, g) + Elements(k2.ready[|Drop(k.ready, Group(k, g))|..]))
  {
    hide Drop;
    var group := Group(k, g);
    var a := k1.ready[|k.ready|..];
    assert k1.ready == k.ready + a;
    DropConcat(k.ready, a, group);
    DropMembers(a, group);
    var kept, a' := Drop(k.ready, group), Drop(a, group);
    var b := k2.ready[|Swept(k1, g).ready|..];
    assert k2.ready == kept + a' + b;
    assert k2.ready[|kept|..] == a' + b;
    DropTwice(k.sleeping, Elements(a), group);
    DropTwice(k.sleeping, Elements(a) + group, Elements(b));
    assert Elements(a) + group + Elements(b) == group + Elements(a' + b);
  }

  lemma SameGroup(k: Sched, k1: Sched, dead: set<nat>, g: nat)
    requires Calm(k, k1, dead)
    ensures Group(k1, g) == Group(k, g)
  {
  }

  /** Every member of the group ends up a zombie. */
  lemma GroupGone(k: Sched, k1: Sched, k2: Sched, t: nat, g: nat)
    requires t in k.tasks && k.tasks[t].tgid == g && Calm(k, k1, {t}) && Inv(k1, {}) && k1.current == None
    requires Calm(k1, k2, Elements(Leaving(k1, g)))
    ensures Calm(k, k2, Group(k, g))
  {
    hide Pids, Families, Leaving;
    LeavingFacts(k1, g);
    forall u | u in k.tasks
      ensures u in Group(k, g) ==> k2.tasks[u].status == Zombie
      ensures u !in Group(k, g) ==> u != t && u !in Leaving(k1, g)
    {
      assert PlacedAt(k1, {}, u);
    }
  }

  lemma GroupEnds(k: Sched, k': Sched, g: nat)
    requires Calm(k, k', Group(k, g))
    ensures k'.tasks.Keys == k.tasks.Keys
    ensures forall u :: u in k'.tasks ==>
              var was, now := k.tasks[u], k'.tasks[u];
              && now.pid == was.pid && now.tgid == was.tgid
              && if was.tgid == g then now.status == Zombie
                 else now.status == was.status || (was.status == Interruptible && now.status == Ready)
  {
    assert forall u :: u in k.tasks ==> (u in Group(k, g) <==> k.tasks[u].tgid == g);
  }

  // ----- Coming and going -----

  /** `sys_clone` and the `add_task` after it: the new task `c` is ready, and a thread or a
      CLONE_PARENT task is a sibling of its maker. */
  function Cloned(k: Sched, c: nat, pid: nat, thread: bool, sibling: bool, signal: bool): Sched
    requires k.current.Some? && k.current.value in k.tasks
    requires thread || sibling ==> k.tasks[k.current.value].parent.Some? ==>
             k.tasks[k.current.value].parent.value in k.tasks
  {
    var t := k.current.value;
    var parent := if thread || sibling then k.tasks[t].parent else Some(t);
    var child := Task(pid, if thread then k.tasks[t].tgid else pid, signal, Ready, parent, []);
    var tasks := if parent.Some? then
        k.tasks[parent.value := k.tasks[parent.value].(children := k.tasks[parent.value].children + [c])] else k.tasks;
    k.(tasks := tasks[c := child], ready := k.ready + [c])
  }

  /** No task has the number. */
  ghost predicate FreshPid(k: Sched, pid: nat) {
    forall u :: u in k.tasks ==> k.tasks[u].pid != pid
  }

  /** A task may be cloned: it runs, and its parent, if any, lives. */
  ghost predicate Clonable(k: Sched, c: nat) {
    && Families(k) && k.current.Some? && k.current.value in k.tasks && k.tasks[k.current.value].status == Running
       && c !in k.tasks
    && (k.tasks[k.current.value].parent.Some? ==>
          var p := k.tasks[k.current.value].parent.value; p in k.tasks && k.tasks[p].status != Zombie)
  }

  lemma ClonedChildrenAt(k: Sched, c: nat, pid: nat, thread: bool, sibling: bool, signal: bool, u: nat)
    requires Clonable(k, c) && u in Cloned(k, c, pid, thread, sibling, signal).tasks
    ensures ChildrenAt(Cloned(k, c, pid, thread, sibling, signal), u)
  {
    hide ParentAt;
    if u != c {
      assert FamilyAt(k, u);
      assert c !in k.tasks[u].children;
      PushDistinct(k.tasks[u].children, c);
    }
  }

  lemma ClonedParentAt(k: Sched, c: nat, pid: nat, thread: bool, sibling: bool, signal: bool, u: nat)
    requires Clonable(k, c) && u in Cloned(k, c, pid, thread, sibling, signal).tasks
    ensures k.init in Cloned(k, c, pid, thread, sibling, signal).tasks
            && ParentAt(Cloned(k, c, pid, thread, sibling, signal), u)
  {
    hide ChildrenAt;
    assert FamilyAt(k, k.current.value);
    if u != c {
      assert FamilyAt(k, u);
    }
  }

  lemma ParentLives(k: Sched, t: nat)
    requires Families(k) && t in k.tasks && k.tasks[t].parent.Some?
    ensures k.tasks[t].parent.value in k.tasks && k.tasks[k.tasks[t].parent.value].status != Zombie
  {
    assert FamilyAt(k, t);
    assert FamilyAt(k, k.tasks[t].parent.value);
  }

  lemma CurrentRuns(k: Sched)
    requires Placed(k, {}) && k.current.Some?
    ensures k.current.value in k.tasks && k.tasks[k.current.value].status == Running
  {
    assert PlacedAt(k, {}, k.current.value);
  }

  lemma ClonedPlaced(k: Sched, c: nat, pid: nat, thread: bool, sibling: bool, signal: bool)
    requires Placed(k, {}) && k.current.Some? && k.current.value in k.tasks && c !in k.tasks
    requires k.tasks[k.current.value].parent.Some? ==> k.tasks[k.current.value].parent.value in k.tasks
    ensures Placed(Cloned(k, c, pid, thread, sibling, signal), {})
  {
    var k' := Cloned(k, c, pid, thread, sibling, signal);
    PushDistinct(k.ready, c);
    forall u | u in k'.tasks
      ensures PlacedAt(k', {}, u)
    {
      assert u != c ==> PlacedAt(k, {}, u);
    }
  }

  lemma ClonedKeeps(k: Sched, c: nat, pid: nat, thread: bool, sibling: bool, signal: bool)
    requires Inv(k, {}) && k.current.Some? && c !in k.tasks && FreshPid(k, pid)
    ensures k.current.value in k.tasks
    ensures k.tasks[k.current.value].parent.Some? ==> k.tasks[k.current.value].parent.value in k.tasks
    ensures Inv(Cloned(k, c, pid, thread, sibling, signal), {})
  {
    hide ChildrenAt, ParentAt, Placed;
    var t := k.current.value;
    CurrentRuns(k);
    if k.tasks[t].parent.Some? {
      ParentLives(k, t);
    }
    var k' := Cloned(k, c, pid, thread, sibling, signal);
    ClonedPlaced(k, c, pid, thread, sibling, signal);
    forall u | u in k'.tasks
      ensures FamilyAt(k', u)
    {
      ClonedChildrenAt(k, c, pid, thread, sibling, signal, u);
      ClonedParentAt(k, c, pid, thread, sibling, signal, u);
    }
  }

  /** A group outlives its first task: task 2, of group 1, runs although no task has pid 1 any more. */
  function LeaderlessGroup(): Sched {
    Sched(map[0 := Task(0, 0, false, Ready, None, []), 2 := Task(2, 1, false, Running, None, [])], [0], [], Some(2), 0)
  }

  /** A process that is given the free pid 1 then lands in the group of its maker. */
  lemma PidOfLiveGroup()
    ensures var k := LeaderlessGroup();
            && Inv(k, {}) && FreshPid(k, 1)
            && var k' := Cloned(k, 3, 1, false, false, true);
               Inv(k', {}) && Group(k, 1) == {2} && Group(k', 1) == {2, 3}
  {
    var k := LeaderlessGroup();
    Unrelated(k);
    assert Placed(k, {});
    ClonedKeeps(k, 3, 1, false, false, true);
  }

  /** `wait4` drops a zombie child of the running task. */
  function Reaped(k: Sched, c: nat): Sched
    requires k.current.Some? && k.current.value in k.tasks
  {
    var t := k.current.value;
    k.(tasks := k.tasks[t := k.tasks[t].(children := Drop(k.tasks[t].children, {c}))] - {c})
  }

  lemma ReapedKeeps(k: Sched, c: nat)
    requires Inv(k, {}) && k.current.Some? && k.current.value in k.tasks
    requires c in k.tasks[k.current.value].children && c in k.tasks && k.tasks[c].status == Zombie
    ensures Inv(Reaped(k, c), {})
  {
    hide FamilyAt, Pids, Drop;
    var t := k.current.value;
    var k' := Reaped(k, c);
    assert PlacedAt(k, {}, c) && PlacedAt(k, {}, t);
    forall u | u in k'.tasks
      ensures PlacedAt(k', {}, u)
    {
      assert PlacedAt(k, {}, u);
    }
    forall u | u in k'.tasks
      ensures FamilyAt(k', u)
    {
      ReapedFamilyAt(k, c, u);
    }
    ReapedPids(k, c);
  }

  /** Removing one index of a duplicate-free sequence removes that element. */
  lemma {:induction false} RemoveIs(s: seq<nat>, i: nat)
    requires Distinct(s) && i < |s|
    ensures s[..i] + s[i + 1..] == Drop(s, {s[i]})
    decreases |s|
  {
    if i == 0 {
      assert s[1..] == s[..0] + s[1..];
      DropNone(s[1..], {s[0]});
    } else {
      var rest := s[1..];
      assert Distinct(rest) by { assert forall j :: 0 <= j < |rest| ==> rest[j] == s[j + 1]; }
      RemoveIs(rest, i - 1);
      assert s[..i] + s[i + 1..] == [s[0]] + (rest[..i - 1] + rest[i..]);
    }
  }

  lemma ReapedPids(k: Sched, c: nat)
    requires Pids(k) && k.current.Some? && k.current.value in k.tasks
    ensures Pids(Reaped(k, c))
  {
  }

  lemma ReapedFamilyAt(k: Sched, c: nat, u: nat)
    requires Families(k) && k.current.Some? && k.current.value in k.tasks && k.tasks[k.current.value].status == Running
    requires c in k.tasks[k.current.value].children && c in k.tasks && k.tasks[c].status == Zombie && c != k.init
    requires u in Reaped(k, c).tasks
    ensures FamilyAt(Reaped(k, c), u)
  {
    hide Drop;
    var t := k.current.value;
    assert FamilyAt(k, u) && FamilyAt(k, c) && FamilyAt(k, t);
    DropMembers(k.tasks[t].children, {c});
    DropDistinct(k.tasks[t].children, {c});
  }

  // ----- wait4 -----

  /** The children `wait4` asks for: all of them, or the one with the given pid. */
  predicate Wanted(tasks: map<nat, Task>, c: nat, pid: Option<nat>)
    requires c in tasks
  {
    pid.None? || tasks[c].pid == pid.value
  }

  predicate Ripe(tasks: map<nat, Task>, c: nat, pid: Option<nat>)
    requires c in tasks
  {
    Wanted(tasks, c, pid) && tasks[c].status == Zombie
  }

  /** The task is the first of its group, whose end `wait4` reports; a thread is collected silently. */
  predicate Main(task: Task) { task.pid == task.tgid }

  ghost predicate AllIn(tasks: map<nat, Task>, cs: seq<nat>) {
    forall c :: c in cs ==> c in tasks
  }

  /** The zombies one call collects, in order: threads up to and with the first main task. */
  ghost function Picked(tasks: map<nat, Task>, cs: seq<nat>, pid: Option<nat>): seq<nat>
    requires AllIn(tasks, cs)
  {
    if cs == [] then []
    else if !Ripe(tasks, cs[0], pid) then Picked(tasks, cs[1..], pid)
    else if Main(tasks[cs[0]]) then [cs[0]]
    else [cs[0]] + Picked(tasks, cs[1..], pid)
  }

  ghost predicate Reports(tasks: map<nat, Task>, picked: seq<nat>)
    requires AllIn(tasks, picked)
  {
    picked != [] && Main(tasks[picked[|picked| - 1]])
  }

  lemma {:induction false} PickedRipe(tasks: map<nat, Task>, cs: seq<nat>, pid: Option<nat>)
    requires AllIn(tasks, cs)
    ensures var picked := Picked(tasks, cs, pid);
            && AllIn(tasks, picked)
            && (forall c :: c in picked ==> c in cs && Ripe(tasks, c, pid))
            && (forall i :: 0 <= i < |picked| - 1 ==> !Main(tasks[picked[i]]))
            && (!Reports(tasks, picked) ==> forall c :: c in cs && Ripe(tasks, c, pid) ==> c in picked)
  {
    hide Ripe;
    if cs != [] {
      PickedRipe(tasks, cs[1..], pid);
      assert cs == [cs[0]] + cs[1..];
    }
  }

  /** A call collects only zombies that were asked for, none but the last of them a main task, and all of them
      if it reports nothing. */
  lemma PickedFacts(tasks: map<nat, Task>, cs: seq<nat>, pid: Option<nat>)
    requires AllIn(tasks, cs)
    ensures var picked := Picked(tasks, cs, pid);
            && AllIn(tasks, picked)
            && (forall c :: c in picked ==>
                  c in cs && tasks[c].status == Zombie && (pid.None? || tasks[c].pid == pid.value))
            && (forall i :: 0 <= i < |picked| - 1 ==> tasks[picked[i]].pid != tasks[picked[i]].tgid)
            && (Reports(tasks, picked) <==>
                  picked != [] && var c := picked[|picked| - 1]; tasks[c].pid == tasks[c].tgid)
            && (!Reports(tasks, picked) ==>
                  forall c :: c in cs && tasks[c].status == Zombie && (pid.None? || tasks[c].pid == pid.value) ==>
                    c in picked)
  {
    hide Picked;
    PickedRipe(tasks, cs, pid);
  }

  /** The first ripe child decides. */
  lemma {:induction false} PickedAt(tasks: map<nat, Task>, cs: seq<nat>, pid: Option<nat>, i: nat)
    requires AllIn(tasks, cs) && i <= |cs| && forall j :: 0 <= j < i ==> !Ripe(tasks, cs[j], pid)
    ensures AllIn(tasks, cs[i..]) && Picked(tasks, cs, pid) == Picked(tasks, cs[i..], pid)
  {
    hide Ripe;
    if i > 0 {
      assert forall j :: 0 <= j < i - 1 ==> cs[1..][j] == cs[j + 1];
      PickedAt(tasks, cs[1..], pid, i - 1);
      assert cs[1..][i - 1..] == cs[i..];
    } else {
      assert cs[0..] == cs;
    }
  }

  /** Collecting the first ripe child leaves the rest of the choice as it was. */
  lemma PickedNext(tasks: map<nat, Task>, cs: seq<nat>, pid: Option<nat>, i: nat)
    requires AllIn(tasks, cs) && i < |cs| && Ripe(tasks, cs[i], pid) && forall j :: 0 <= j < i ==>
             !Ripe(tasks, cs[j], pid)
    ensures AllIn(tasks, cs[..i] + cs[i + 1..])
    ensures Picked(tasks, cs, pid) == [cs[i]] + if Main(tasks[cs[i]]) then []
            else Picked(tasks, cs[..i] + cs[i + 1..], pid)
  {
    hide Ripe;
    PickedAt(tasks, cs, pid, i);
    var rest := cs[..i] + cs[i + 1..];
    assert cs[i..][1..] == cs[i + 1..] && rest[i..] == cs[i + 1..];
    assert forall j :: 0 <= j < i ==> rest[j] == cs[j];
    PickedAt(tasks, rest, pid, i);
  }

  /** The choice depends on the children only. */
  lemma {:induction false} PickedSame(tasks: map<nat, Task>, tasks': map<nat, Task>, cs: seq<nat>, pid: Option<nat>)
    requires AllIn(tasks, cs) && AllIn(tasks', cs) && forall c :: c in cs ==> tasks'[c] == tasks[c]
    ensures Picked(tasks', cs, pid) == Picked(tasks, cs, pid)
  {
    if cs != [] {
      PickedSame(tasks, tasks', cs[1..], pid);
    }
  }

  /** The running task without the children `gone`. */
  function Collected(k: Sched, gone: set<nat>): Sched
    requires k.current.Some? && k.current.value in k.tasks
  {
    var t := k.current.value;
    k.(tasks := k.tasks[t := k.tasks[t].(children := Drop(k.tasks[t].children, gone))] - gone)
  }

  lemma CollectedNone(k: Sched)
    requires k.current.Some? && k.current.value in k.tasks
    ensures Collected(k, {}) == k
  {
    DropNone(k.tasks[k.current.value].children, {});
  }

  lemma CollectedMore(k: Sched, gone: set<nat>, c: nat)
    requires k.current.Some? && k.current.value in k.tasks && k.current.value !in gone && c != k.current.value
    ensures Reaped(Collected(k, gone), c) == Collected(k, gone + {c})
  {
    DropTwice(k.tasks[k.current.value].children, gone, {c});
    assert Reaped(Collected(k, gone), c).tasks == Collected(k, gone + {c}).tasks;
  }

  lemma RipeIs(tasks: map<nat, Task>, c: nat, pid: Option<nat>)
    requires c in tasks
    ensures Ripe(tasks, c, pid) ==> Wanted(tasks, c, pid) && tasks[c].status == Zombie
  {
  }

  lemma PickedNone(tasks: map<nat, Task>, pid: Option<nat>)
    ensures Picked(tasks, [], pid) == []
  {
  }

  lemma NobodyPicked(tasks: map<nat, Task>, cs: seq<nat>, pid: Option<nat>)
    requires AllIn(tasks, cs) && forall c :: c in cs ==> !Wanted(tasks, c, pid)
    ensures Picked(tasks, cs, pid) == []
  {
    assert forall j :: 0 <= j < |cs| ==> cs[j] in cs;
    PickedAt(tasks, cs, pid, |cs|);
  }

  /** What one call leaves and reports: a zombie main task that was asked for is gone, or no zombie that was asked
      for is left. */
  lemma CollectedFacts(k: Sched, pid: Option<nat>)
    requires Inv(k, {}) && k.current.Some? && k.current.value in k.tasks
    requires AllIn(k.tasks, k.tasks[k.current.value].children)
    ensures var t := k.current.value; var picked := Picked(k.tasks, k.tasks[t].children, pid);
            var k' := Collected(k, Elements(picked));
            && AllIn(k.tasks, picked) && t in k'.tasks
            && (Reports(k.tasks, picked) ==>
                  var c := picked[|picked| - 1];
                  && c in k.tasks[t].children && c !in k'.tasks && k.tasks[c].status == Zombie
                  && k.tasks[c].pid == k.tasks[c].tgid && (pid.None? || k.tasks[c].pid == pid.value))
            && (!Reports(k.tasks, picked) ==>
                  forall c :: c in k'.tasks[t].children ==>
                    c in k'.tasks && (pid.None? || k'.tasks[c].pid == pid.value ==> k'.tasks[c].status != Zombie))
  {
    hide Pids, Families, Picked, Drop;
    var t := k.current.value;
    CurrentRuns(k);
    var picked := Picked(k.tasks, k.tasks[t].children, pid);
    PickedFacts(k.tasks, k.tasks[t].children, pid);
    DropMembers(k.tasks[t].children, Elements(picked));
  }

  lemma CollectedWhole(k: Sched, pid: Option<nat>)
    requires k.current.Some? && k.current.value in k.tasks && AllIn(k.tasks, k.tasks[k.current.value].children)
    ensures var picked := Picked(k.tasks, k.tasks[k.current.value].children, pid);
            [] + picked == picked && AllIn(k.tasks, picked)
  {
    PickedFacts(k.tasks, k.tasks[k.current.value].children, pid);
  }

  /** A child that is still there is as it was. */
  lemma CollectedTask(k: Sched, gone: set<nat>, c: nat)
    requires k.current.Some? && k.current.value in k.tasks && c in Collected(k, gone).tasks
    ensures c in k.tasks && c !in gone && (c != k.current.value ==> Collected(k, gone).tasks[c] == k.tasks[c])
  {
  }

  lemma ReapedFewer(k: Sched, c: nat)
    requires k.current.Some? && k.current.value in k.tasks && c in k.tasks[k.current.value].children
             && c != k.current.value
    ensures k.current.value in Reaped(k, c).tasks
    ensures |Reaped(k, c).tasks[k.current.value].children| < |k.tasks[k.current.value].children|
  {
    DropFewer(k.tasks[k.current.value].children, c);
  }

  lemma {:induction false} DropFewer(s: seq<nat>, x: nat)
    ensures |Drop(s, {x})| <= |s| && (x in s ==> |Drop(s, {x})| < |s|)
  {
    if s != [] {
      DropFewer(s[1..], x);
    }
  }
}
