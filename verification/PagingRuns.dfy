// Whole runs of the page machine against the plain memory in which a fork copies every page
// and neither compression nor swap exists.
module PagingRuns {
  import opened Types
  import opened Paging
  import FA = FrameAllocator

  datatype Event =
    | Store(key: Key, off: nat, value: byte, perm: Perm, stripped: bool)
    | KernelStore(key: Key, off: nat, data: seq<byte>, perm: Perm)
    | Touch(key: Key, perm: Perm, stripped: bool)
    | Oom(key: Key)
    | DeepOom(key: Key)
    | Fork(key: Key, child: Key, perm: Perm)
    | Mprotect(key: Key, perm: Perm)
    | Munmap(key: Key)
    | Mmap(key: Key)

  /** One event; events on pages that are not there do nothing. */
  function Step(m: Mem, e: Event): Mem
    requires Inv(m)
  {
    match e
    case Store(k, off, v, perm, stripped) =>
      if k in m.slots && off < PAGE_SIZE then StoreInstr(m, k, off, v, perm, stripped).0 else m
    case KernelStore(k, off, data, perm) =>
      if k in m.slots && off + |data| <= PAGE_SIZE then KernelWrite(m, k, off, data, perm) else m
    case Touch(k, perm, stripped) => if k in m.slots then Fault(m, k, perm, stripped).0 else m
    case Oom(k) => if k in m.slots then Evict(m, k).0 else m
    case DeepOom(k) => if k in m.slots then ForceSwap(m, k).0 else m
    case Fork(k, child, perm) => if k in m.slots && child !in m.slots then ForkPage(m, k, child, perm) else m
    case Mprotect(k, perm) => Protect(m, k, perm.WithoutW())
    case Munmap(k) => if k in m.slots then Release(m, k) else m
    case Mmap(k) => if k !in m.slots then Reserve(m, k) else m
  }

  /** Whether a store takes effect, read off the state before it; no other event can fail. */
  predicate Effective(m: Mem, e: Event) {
    match e
    case Store(k, _, _, perm, stripped) => k in m.slots ==> Commits(m, k, perm, stripped)
    case KernelStore(k, _, _, _) => k in m.pt || FA.Unallocated(m.frames) > 0
    case _ => true
  }

  /** The same event on plain memory; `effective` matters for the two stores only. */
  function PlainStep(v: map<Key, Page>, e: Event, effective: bool): map<Key, Page> {
    match e
    case Store(k, off, x, _, _) => if effective && k in v && off < PAGE_SIZE then v[k := v[k][off := x]] else v
    case KernelStore(k, off, data, _) =>
      if effective && k in v && off + |data| <= PAGE_SIZE then v[k := Overwritten(v[k], off, data)] else v
    case Fork(k, child, _) => if k in v && child !in v then v[child := v[k]] else v
    case Munmap(k) => v - {k}
    case Mmap(k) => if k !in v then v[k := ZeroPage()] else v
    case _ => v
  }

  /** A kernel write of the event reaches no other space. */
  predicate Isolated(m: Mem, e: Event) {
    match e
    case KernelStore(k, off, data, _) => k in m.slots && off + |data| <= PAGE_SIZE ==> Private(m, k, off, data)
    case _ => true
  }

  function Run(m: Mem, es: seq<Event>): Mem
    requires Inv(m)
    decreases |es|
  {
    if es == [] then m
    else
      StepRefines(m, es[0]);
      Run(Step(m, es[0]), es[1..])
  }

  /** Which events of a run are effective. */
  function Effects(m: Mem, es: seq<Event>): (r: seq<bool>)
    requires Inv(m)
    ensures |r| == |es|
    decreases |es|
  {
    if es == [] then []
    else
      StepRefines(m, es[0]);
      [Effective(m, es[0])] + Effects(Step(m, es[0]), es[1..])
  }

  /** Every kernel write of the run meets a page that is not shared, or changes nothing. */
  predicate AllIsolated(m: Mem, es: seq<Event>)
    requires Inv(m)
    decreases |es|
  {
    es == [] || (StepRefines(m, es[0]); Isolated(m, es[0]) && AllIsolated(Step(m, es[0]), es[1..]))
  }

  function PlainRun(v: map<Key, Page>, es: seq<Event>, effects: seq<bool>): map<Key, Page>
    requires |effects| == |es|
    decreases |es|
  {
    if es == [] then v
    else PlainRun(PlainStep(v, es[0], effects[0]), es[1..], effects[1..])
  }

  /** An event does to every view what it does to plain memory, exactly when its kernel write is isolated. */
  lemma StepRefines(m: Mem, e: Event)
    requires Inv(m)
    ensures Inv(Step(m, e))
    ensures View(Step(m, e)) == PlainStep(View(m), e, Effective(m, e)) <==> Isolated(m, e)
  {
    hide Inv, View, StoreInstr, Commits, Private, KernelWrite, Fault, Evict, ForceSwap, ForkPage, Protect, Release;
    ViewKeys(m);
    match e
    case Store(k, off, v, perm, stripped) =>
      if k in m.slots && off < PAGE_SIZE {
        StoreCommitsIff(m, k, off, v, perm, stripped);
      }
    case KernelStore(k, off, data, perm) =>
      if k in m.slots && off + |data| <= PAGE_SIZE {
        KernelWritePrivateIff(m, k, off, data, perm);
      }
    case Touch(k, perm, stripped) => if k in m.slots { FaultKeeps(m, k, perm, stripped); }
    case Oom(k) => if k in m.slots { EvictKeeps(m, k); }
    case DeepOom(k) => if k in m.slots { ForceSwapKeeps(m, k); }
    case Fork(k, child, perm) => if k in m.slots && child !in m.slots { ForkPageKeeps(m, k, child, perm); }
    case Mprotect(k, perm) => ProtectKeeps(m, k, perm.WithoutW());
    case Munmap(k) => if k in m.slots { ReleaseKeeps(m, k); } else { assert View(m) - {k} == View(m); }
    case Mmap(k) => if k !in m.slots { ReserveKeeps(m, k); }
  }

  /** Over every run the resource accounting never drifts, and every address space sees what it would see in
      plain memory with eager copying as long as no kernel write meets a shared page. */
  lemma {:induction false} RunRefines(m: Mem, es: seq<Event>)
    requires Inv(m)
    ensures Inv(Run(m, es))
    ensures AllIsolated(m, es) ==> View(Run(m, es)) == PlainRun(View(m), es, Effects(m, es))
    decreases |es|
  {
    hide Inv, View, Step, PlainStep, Effective, Isolated;
    if es != [] {
      var m1 := Step(m, es[0]);
      StepRefines(m, es[0]);
      RunRefines(m1, es[1..]);
      assert ([Effective(m, es[0])] + Effects(m1, es[1..]))[1..] == Effects(m1, es[1..]);
    }
  }

  lemma {:induction false} NoKernelStores(m: Mem, es: seq<Event>)
    requires Inv(m) && forall e :: e in es ==> !e.KernelStore?
    ensures AllIsolated(m, es)
    decreases |es|
  {
    hide Inv, View, Step;
    if es != [] {
      StepRefines(m, es[0]);
      NoKernelStores(Step(m, es[0]), es[1..]);
    }
  }

  // ----- Runs in which no store can fail -----

  /** The pool holds more frames than other owners and all pages of the run could ever take. */
  predicate Roomy(m: Mem, n: nat) {
    m.frames.end - m.frames.base > |m.foreign| + |m.slots| + n
  }

  /** Pages in memory and foreign frames bound the frames taken. */
  lemma RoomyHasFree(m: Mem, n: nat)
    requires Inv(m) && Roomy(m, n)
    ensures FA.Unallocated(m.frames) > 0
  {
    FA.FreePlusUsed(m.frames);
    TakenBound(m, FA.Used(m.frames));
  }

  lemma TakenBound(m: Mem, taken: set<nat>)
    requires Inv(m) && forall p :: p in taken ==> FA.Taken(m.frames, p)
    ensures |taken| <= |m.foreign| + |m.slots|
  {
    var own := taken - m.foreign;
    assert taken <= m.foreign + own;
    SubsetSize(taken, m.foreign + own);
    forall p | p in own
      ensures Held(m, InMemory(p))
    {
      assert FA.Taken(m.frames, p);
    }
    HeldBound(m.slots, own);
  }

  lemma {:induction false} HeldBound(slots: map<Key, Frame>, own: set<nat>)
    requires forall p :: p in own ==> exists k :: k in slots && slots[k] == InMemory(p)
    ensures |own| <= |slots|
    decreases own
  {
    if own != {} {
      var p :| p in own;
      var k :| k in slots && slots[k] == InMemory(p);
      var rest := slots - {k};
      assert slots.Keys == rest.Keys + {k};
      forall q | q in own - {p}
        ensures exists k' :: k' in rest && rest[k'] == InMemory(q)
      {
        var k' :| k' in slots && slots[k'] == InMemory(q);
        assert k' in rest && rest[k'] == InMemory(q);
      }
      HeldBound(rest, own - {p});
      assert |slots| == |slots.Keys| && |rest| == |rest.Keys|;
    }
  }

  lemma StepKeepsPool(m: Mem, e: Event)
    requires Inv(m)
    ensures SamePool(m, Step(m, e))
  {
    hide Inv, Fault, Evict, ForceSwap, Release, Overwritten;
    match e
    case Store(k, _, _, perm, stripped) => if k in m.slots { FaultPool(m, k, perm, stripped); }
    case KernelStore(k, _, _, perm) => if k in m.slots { FaultPool(m, k, perm, false); }
    case Touch(k, perm, stripped) => if k in m.slots { FaultPool(m, k, perm, stripped); }
    case Oom(k) => if k in m.slots { EvictPool(m, k); }
    case DeepOom(k) => if k in m.slots { EvictPool(m, k); }
    case Munmap(k) => if k in m.slots { ReleasePool(m, k); }
    case _ =>
  }

  lemma StepKeepsRoom(m: Mem, e: Event, n: nat)
    requires Inv(m) && Roomy(m, n + 1)
    ensures Inv(Step(m, e)) && Roomy(Step(m, e), n)
  {
    hide Inv, View, Step;
    StepRefines(m, e);
    StepKeepsPool(m, e);
    StepKeys(m, e);
    assert |m.slots| == |m.slots.Keys| && |Step(m, e).slots| == |Step(m, e).slots.Keys|;
  }

  /** An event adds at most one page. */
  lemma StepKeys(m: Mem, e: Event)
    requires Inv(m)
    ensures |Step(m, e).slots.Keys| <= |m.slots.Keys| + 1
  {
    hide Inv, View, StoreInstr, Commits, KernelWrite, Fault, Evict, ForceSwap, ForkPage, Protect, Release, PlainStep;
    StepRefines(m, e);
    ViewKeys(m);
    ViewKeys(Step(m, e));
    PlainKeys(View(m), e, Effective(m, e));
    match e
    case KernelStore(k, off, data, perm) =>
      if k in m.slots && off + |data| <= PAGE_SIZE {
        KernelWriteKeys(m, k, off, data, perm);
      }
    case _ =>
  }

  lemma PlainKeys(v: map<Key, Page>, e: Event, effective: bool)
    ensures |PlainStep(v, e, effective).Keys| <= |v.Keys| + 1
  {
    hide Overwritten;
    match e
    case Store(k, off, x, _, _) => if k in v && off < PAGE_SIZE { OneKey(v, k, v[k][off := x]); }
    case KernelStore(k, off, data, _) =>
      if k in v && off + |data| <= PAGE_SIZE {
        OneKey(v, k, Overwritten(v[k], off, data));
      }
    case Fork(k, child, _) => if k in v { OneKey(v, child, v[k]); }
    case Munmap(k) => OneKey(v, k, ZeroPage());
    case Mmap(k) => OneKey(v, k, ZeroPage());
    case _ =>
  }

  lemma OneKey(v: map<Key, Page>, k: Key, p: Page)
    ensures |v[k := p].Keys| <= |v.Keys| + 1 && |(v - {k}).Keys| <= |v.Keys|
  {
    assert v[k := p].Keys == v.Keys + {k};
    assert (v - {k}).Keys == v.Keys - {k};
  }

  /** With room for every page and no store to a read-only page, the run is the plain one: nothing of the
      machine shows, not even a failed store. */
  lemma {:induction false} RoomyRunIsPlain(m: Mem, es: seq<Event>)
    requires Inv(m) && Roomy(m, |es|) && AllIsolated(m, es)
    requires forall e :: e in es && e.Store? ==> e.perm.w && !e.stripped
    ensures View(Run(m, es)) == PlainRun(View(m), es, seq(|es|, _ => true))
    decreases |es|
  {
    hide Inv, View, PlainStep, Roomy, Step;
    if es != [] {
      var m1 := Step(m, es[0]);
      RoomyHasFree(m, |es|);
      StepRefines(m, es[0]);
      StepKeepsRoom(m, es[0], |es| - 1);
      RoomyRunIsPlain(m1, es[1..]);
      assert seq(|es|, _ => true)[1..] == seq(|es[1..]|, _ => true);
    }
  }

  /** In every reachable state no device reissues a tracker that a slot still names. */
  lemma NoReissue(m: Mem, es: seq<Event>)
    requires Inv(m)
    ensures var m' := Run(m, es);
            && Inv(m')
            && (forall p: nat :: Held(m', InMemory(p)) ==> FA.Taken(m'.frames, p))
            && (FA.Alloc(m'.frames).Some? ==> !Held(m', InMemory(FA.Alloc(m'.frames).value.1)))
            && (forall page: Page :: var w := Swap.Write(m'.swap, page);
                  w.Some? ==> !Held(m', SwappedOut(w.value.1)))
            && (forall b: Zram.Blob :: var w := Zram.Insert(m'.zram, b);
                  w.Some? ==> !Held(m', Compressed(w.value.1)))
  {
    RunRefines(m, es);
    var m' := Run(m, es);
    FA.AllocTakesOne(m'.frames);
    forall page: Page
      ensures Swap.Write(m'.swap, page).Some? ==> !Held(m', SwappedOut(Swap.Write(m'.swap, page).value.1))
    {
      Swap.WriteIssuesFresh(m'.swap, page);
    }
    forall b: Zram.Blob
      ensures Zram.Insert(m'.zram, b).Some? ==> !Held(m', Compressed(Zram.Insert(m'.zram, b).value.1))
    {
      Zram.InsertIssuesFresh(m'.zram, b);
    }
  }
}
