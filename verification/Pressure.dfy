// Memory pressure, list by list: which pages an eviction pass takes, and when it leaves one.
module Pressure {
  import opened Types
  import opened Paging
  import opened Areas
  import FA = FrameAllocator
  import Zram
  import Swap

  /** The pages of `list` below `n`, evicted in order. */
  ghost function EvictList(m: Mem, a: nat, start: nat, n: nat, list: seq<nat>): (r: Mem)
    requires Inv(m)
    ensures Inv(r) && View(r) == View(m) && r.slots.Keys == m.slots.Keys
    decreases |list|
  {
    if list == [] then m
    else
      var k := (a, start + list[0]);
      if list[0] < n && k in m.slots then
        EvictKeeps(m, k);
        EvictList(Evict(m, k).0, a, start, n, list[1..])
      else EvictList(m, a, start, n, list[1..])
  }

  /** The same without a look at the reference counts. */
  ghost function ForceList(m: Mem, a: nat, start: nat, n: nat, list: seq<nat>): (r: Mem)
    requires Inv(m)
    ensures Inv(r) && View(r) == View(m) && r.slots.Keys == m.slots.Keys
    decreases |list|
  {
    if list == [] then m
    else
      var k := (a, start + list[0]);
      if list[0] < n && k in m.slots then
        ForceSwapKeeps(m, k);
        ForceList(ForceSwap(m, k).0, a, start, n, list[1..])
      else ForceList(m, a, start, n, list[1..])
  }

  /** How many pages a forced pass swaps out, and how many of those were their frame's only owner. */
  ghost function ForceCounts(m: Mem, a: nat, start: nat, n: nat, list: seq<nat>): (r: (nat, nat))
    requires Inv(m)
    ensures r.1 <= r.0
    decreases |list|
  {
    if list == [] then (0, 0)
    else
      var k := (a, start + list[0]);
      if list[0] < n && k in m.slots then
        ForceSwapKeeps(m, k);
        var (m', done) := ForceSwap(m, k);
        var (all, sole) := ForceCounts(m', a, start, n, list[1..]);
        (all + (if done then 1 else 0), sole + (if done && Sole(m, k) then 1 else 0))
      else ForceCounts(m, a, start, n, list[1..])
  }

  /** How many pages an eviction pass takes. */
  ghost function EvictCount(m: Mem, a: nat, start: nat, n: nat, list: seq<nat>): nat
    requires Inv(m)
    decreases |list|
  {
    if list == [] then 0
    else
      var k := (a, start + list[0]);
      if list[0] < n && k in m.slots then
        EvictKeeps(m, k);
        (if Evict(m, k).1 then 1 else 0) + EvictCount(Evict(m, k).0, a, start, n, list[1..])
      else EvictCount(m, a, start, n, list[1..])
  }

  // ----- Reported and released -----

  /** `k` was resident in `m` and is not in `m'`. */
  ghost predicate Left(m: Mem, m': Mem, k: Key) {
    k in m.slots && k in m'.slots && m.slots[k].InMemory? && !m'.slots[k].InMemory?
  }

  /** Pages only leave memory; `reported` of them are reported and `freed` frames come back; the two
      numbers agree exactly when no page that left was shared in `m`. */
  ghost predicate Pass(m: Mem, m': Mem, reported: nat, freed: nat) {
    && m'.slots.Keys == m.slots.Keys && freed <= reported
    && (forall k :: k in m.slots ==> m'.slots[k] == m.slots[k] || Left(m, m', k))
    && FA.Unallocated(m'.frames) == FA.Unallocated(m.frames) + freed
    && (reported == freed <==> forall k :: Left(m, m', k) ==> Sole(m, k))
  }

  lemma PassNone(m: Mem)
    ensures Pass(m, m, 0, 0)
  {
  }

  lemma PassFrees(m: Mem, m': Mem, reported: nat, freed: nat)
    requires Pass(m, m', reported, freed)
    ensures FA.Unallocated(m'.frames) - FA.Unallocated(m.frames) == freed <= reported
  {
  }

  /** A sharer that stays resident tells in the first state what the second state has forgotten. */
  lemma PassThen(m: Mem, m1: Mem, m2: Mem, r1: nat, f1: nat, r2: nat, f2: nat)
    requires Pass(m, m1, r1, f1) && Pass(m1, m2, r2, f2)
    ensures Pass(m, m2, r1 + r2, f1 + f2)
  {
    hide Sole;
    forall k | k in m.slots
      ensures m2.slots[k] == m.slots[k] || Left(m, m2, k)
      ensures Left(m, m2, k) <==> Left(m, m1, k) || Left(m1, m2, k)
    {
      assert m1.slots[k] == m.slots[k] || Left(m, m1, k);
    }
    if forall k :: Left(m, m2, k) ==> Sole(m, k) {
      forall k | Left(m1, m2, k)
        ensures Sole(m1, k)
      {
        SoleLater(m, m1, k);
      }
    }
    if r1 == f1 && r2 == f2 {
      forall k | Left(m, m2, k)
        ensures Sole(m, k)
      {
        if !Left(m, m1, k) {
          SoleEarlier(m, m1, k);
        }
      }
    }
  }

  lemma SoleLater(m: Mem, m1: Mem, k: Key)
    requires m1.slots.Keys == m.slots.Keys && forall k :: k in m.slots ==> m1.slots[k] == m.slots[k] || Left(m, m1, k)
    requires k in m.slots && m1.slots[k].InMemory? && Sole(m, k)
    ensures Sole(m1, k)
  {
    forall k' | k' in m1.slots && m1.slots[k'] == m1.slots[k]
      ensures k' == k
    {
      assert m.slots[k'] == m1.slots[k'] && m.slots[k] == m1.slots[k];
    }
  }

  lemma SoleEarlier(m: Mem, m1: Mem, k: Key)
    requires m1.slots.Keys == m.slots.Keys && forall k :: k in m.slots ==> m1.slots[k] == m.slots[k] || Left(m, m1, k)
    requires forall k :: Left(m, m1, k) ==> Sole(m, k)
    requires k in m.slots && m1.slots[k].InMemory? && Sole(m1, k)
    ensures Sole(m, k)
  {
    assert m.slots[k] == m1.slots[k];
    forall k' | k' in m.slots && m.slots[k'] == m.slots[k]
      ensures k' == k
    {
      if Left(m, m1, k') {
        assert Sole(m, k');
      }
    }
  }

  lemma ForcePass(m: Mem, k: Key)
    requires Inv(m) && k in m.slots
    ensures var (m', done) := ForceSwap(m, k);
            Pass(m, m', if done then 1 else 0, if done && Sole(m, k) then 1 else 0)
  {
    hide Accounted, Mapped, WritableIsSole, View, Sole;
    ForceSwapKeeps(m, k);
    ForceSwapFrees(m, k);
    ForceLeaves(m, k);
  }

  lemma ForceLeaves(m: Mem, k: Key)
    requires Inv(m) && k in m.slots
    ensures var (m', done) := ForceSwap(m, k);
            if done then m.slots[k].InMemory? && k in m'.slots && m'.slots[k].SwappedOut? else m' == m
  {
    hide Accounted, Mapped, WritableIsSole, View;
  }

  lemma EvictPass(m: Mem, k: Key)
    requires Inv(m) && k in m.slots
    ensures var (m', done) := Evict(m, k); Pass(m, m', if done then 1 else 0, if done then 1 else 0)
  {
    hide Accounted, Mapped, WritableIsSole, View, Sole;
    EvictKeeps(m, k);
    EvictFreesOne(m, k);
    EvictLeaves(m, k);
  }

  lemma EvictLeaves(m: Mem, k: Key)
    requires Inv(m) && k in m.slots
    ensures var (m', done) := Evict(m, k);
            if done then m.slots[k].InMemory? && Sole(m, k) && k in m'.slots && !m'.slots[k].InMemory? else m' == m
  {
    hide Accounted, Mapped, WritableIsSole, View;
  }

  /** What a forced pass reports is what it releases exactly when none of the pages it swapped out was
      shared before the pass. */
  lemma {:induction false} ForceListPass(m: Mem, a: nat, start: nat, n: nat, list: seq<nat>)
    requires Inv(m)
    ensures var c := ForceCounts(m, a, start, n, list); Pass(m, ForceList(m, a, start, n, list), c.0, c.1)
    decreases |list|
  {
    hide Inv, View, ForceSwap, Sole, Pass;
    if list == [] {
      PassNone(m);
    } else {
      var k := (a, start + list[0]);
      if list[0] < n && k in m.slots {
        ForceSwapKeeps(m, k);
        ForcePass(m, k);
        var (m', done) := ForceSwap(m, k);
        ForceListPass(m', a, start, n, list[1..]);
        var c := ForceCounts(m', a, start, n, list[1..]);
        var r, f := if done then 1 else 0, if done && Sole(m, k) then 1 else 0;
        PassThen(m, m', ForceList(m', a, start, n, list[1..]), r, f, c.0, c.1);
      } else {
        ForceListPass(m, a, start, n, list[1..]);
      }
    }
  }

  /** An eviction pass reports exactly what it releases. */
  lemma {:induction false} EvictListPass(m: Mem, a: nat, start: nat, n: nat, list: seq<nat>)
    requires Inv(m)
    ensures var c := EvictCount(m, a, start, n, list); Pass(m, EvictList(m, a, start, n, list), c, c)
    decreases |list|
  {
    hide Inv, View, Evict, Sole, Pass;
    if list == [] {
      PassNone(m);
    } else {
      var k := (a, start + list[0]);
      if list[0] < n && k in m.slots {
        EvictKeeps(m, k);
        EvictPass(m, k);
        var (m', done) := Evict(m, k);
        EvictListPass(m', a, start, n, list[1..]);
        var c := EvictCount(m', a, start, n, list[1..]);
        PassThen(m, m', EvictList(m', a, start, n, list[1..]), if done then 1 else 0, if done then 1 else 0, c, c);
      } else {
        EvictListPass(m, a, start, n, list[1..]);
      }
    }
  }

  /** The list names page `k`. */
  ghost predicate Listed(a: nat, start: nat, n: nat, list: seq<nat>, k: Key) {
    exists i :: 0 <= i < |list| && list[i] < n && k == (a, start + list[i])
  }

  lemma ListedHead(a: nat, start: nat, n: nat, list: seq<nat>, k: Key)
    requires list != []
    ensures Listed(a, start, n, list, k)
            <==> (list[0] < n && k == (a, start + list[0])) || Listed(a, start, n, list[1..], k)
  {
    if Listed(a, start, n, list[1..], k) {
      var i :| 0 <= i < |list[1..]| && list[1..][i] < n && k == (a, start + list[1..][i]);
      assert list[i + 1] == list[1..][i];
    }
    if Listed(a, start, n, list, k) {
      var i :| 0 <= i < |list| && list[i] < n && k == (a, start + list[i]);
      assert i > 0 ==> list[1..][i - 1] == list[i];
    }
  }

  lemma ForceRoomFalls(m: Mem, k: Key)
    requires Inv(m) && k in m.slots && |Swap.FreeSlots(m.swap)| > 0
    ensures ForceSwap(m, k).1 <==> m.slots[k].InMemory?
    ensures |Swap.FreeSlots(ForceSwap(m, k).0.swap)| >= |Swap.FreeSlots(m.swap)| - 1
  {
    hide Mapped, WritableIsSole, View, Swap.FreeSlots;
    Swap.WriteTakesOne(m.swap, Bytes(m, m.slots[k]));
  }

  /** With a free swap slot for every entry of the list, the pages that leave are the listed resident ones. */
  lemma {:induction false} ForceTakesListed(m: Mem, a: nat, start: nat, n: nat, list: seq<nat>, k: Key)
    requires Inv(m) && |list| <= |Swap.FreeSlots(m.swap)| && k in m.slots
    ensures Left(m, ForceList(m, a, start, n, list), k) <==> m.slots[k].InMemory? && Listed(a, start, n, list, k)
    decreases |list|
  {
    hide Inv, View, ForceSwap, Sole, Listed, Swap.FreeSlots;
    if list == [] {
      assert !Listed(a, start, n, [], k) by { ListedNone(a, start, n, k); }
    } else {
      ListedHead(a, start, n, list, k);
      var h := (a, start + list[0]);
      if list[0] < n && h in m.slots {
        ForceSwapKeeps(m, h);
        ForceRoomFalls(m, h);
        ForceLeaves(m, h);
        var m' := ForceSwap(m, h).0;
        ForceTakesListed(m', a, start, n, list[1..], k);
        ForceListPass(m', a, start, n, list[1..]);
      } else {
        ForceTakesListed(m, a, start, n, list[1..], k);
      }
    }
  }

  lemma ListedNone(a: nat, start: nat, n: nat, k: Key)
    ensures !Listed(a, start, n, [], k)
  {
  }

  /** With room in swap, a caller can tell before the pass whether its report will be honest: no listed
      resident page may be shared. */
  lemma ForceHonestIff(m: Mem, a: nat, start: nat, n: nat, list: seq<nat>)
    requires Inv(m) && |list| <= |Swap.FreeSlots(m.swap)|
    ensures var c := ForceCounts(m, a, start, n, list);
            c.0 == c.1 <==> forall k :: k in m.slots && m.slots[k].InMemory? && Listed(a, start, n, list, k) ==>
                Sole(m, k)
  {
    hide Inv, View, ForceList, ForceCounts, Sole, Listed, Swap.FreeSlots;
    ForceListPass(m, a, start, n, list);
    forall k | k in m.slots
      ensures Left(m, ForceList(m, a, start, n, list), k) <==> m.slots[k].InMemory? && Listed(a, start, n, list, k)
    {
      ForceTakesListed(m, a, start, n, list, k);
    }
  }

  /** Two spaces share their only page after a fork; the swap device has 64 free slots. */
  ghost function SharedPage(): Mem {
    var entry := Pte(0, Perm(true, false, false, true));
    Mem(map[(0, 0) := InMemory(0), (1, 0) := InMemory(0)], map[(0, 0) := entry, (1, 0) := entry], map[0 := ZeroPage()],
        FA.Frames(0, 1, 1, []), Zram.New(0), ClearDevice(), {},
        Codec((p: Page) => p, (b: Zram.Blob) => if |b| == PAGE_SIZE then b else ZeroPage()))
  }

  ghost function ClearDevice(): Swap.Device {
    var ids: seq<nat> := seq(64, i => i);
    Swap.Device(Swap.Clear(64), ids, map b | b in ids :: ZeroPage(), true, 1)
  }

  lemma ClearDeviceValid()
    ensures Swap.Valid(ClearDevice()) && forall id: nat :: !Swap.InUse(ClearDevice(), id)
  {
  }

  lemma SharedPageInv()
    ensures Inv(SharedPage())
  {
    hide Accounted;
    SharedPageAccounted();
  }

  lemma SharedPageAccounted()
    ensures Accounted(SharedPage(), Unallocated)
  {
    hide Swap.Valid, Swap.InUse;
    var m := SharedPage();
    ClearDeviceValid();
    assert m.slots[(0, 0)] == InMemory(0) && Held(m, InMemory(0));
    assert forall f :: Held(m, f) ==> f == InMemory(0);
  }

  /** `force_swap` of the shared page reports one page and gives back no frame. */
  lemma SharedPageUncounted()
    ensures Inv(SharedPage()) && ForceCounts(SharedPage(), 0, 0, 1, [0]) == (1, 0)
  {
    var m, k := SharedPage(), (0, 0);
    SharedPageInv();
    SharedPageTaken();
    assert m.slots[(1, 0)] == m.slots[k] && !Sole(m, k);
    hide Inv, Sole, Held, ForceSwap, View, SharedPage;
    ForceSwapKeeps(m, k);
    EvictNone(ForceSwap(m, k).0, 0, 0, 1);
    assert [0][1..] == [];
  }

  /** A kernel write to the page of space 0 changes what space 1 sees. */
  lemma SharedPageWritten()
    ensures var m := SharedPage(); var m' := KernelWrite(m, (0, 0), 0, [1], Perm(true, true, false, true));
            && Inv(m) && !Private(m, (0, 0), 0, [1]) && (1, 0) in View(m') && View(m')[(1, 0)] != View(m)[(1, 0)]
  {
    var m, k, perm := SharedPage(), (0, 0), Perm(true, true, false, true);
    SharedPageInv();
    assert m.slots[(1, 0)] == m.slots[k] && !Sole(m, k);
    var m' := KernelWrite(m, k, 0, [1], perm);
    assert View(m)[k] == View(m)[(1, 0)] == ZeroPage();
    assert Overwritten(ZeroPage(), 0, [1])[0] == 1;
    hide Inv, View, SharedPage, KernelWrite, Overwritten, Sole;
    KernelWriteShared(m, k, 0, [1], perm);
    ViewKeys(m');
  }

  lemma SharedPageTaken()
    ensures Inv(SharedPage()) && ForceSwap(SharedPage(), (0, 0)).1
  {
    hide Held, Sole, Swap.Valid, Put;
    var m := SharedPage();
    SharedPageInv();
    ClearDeviceValid();
    Swap.WriteIssuesFresh(m.swap, Bytes(m, InMemory(0)));
    assert !Swap.InUse(m.swap, 0);
  }

  lemma EvictListHead(m: Mem, a: nat, start: nat, n: nat, list: seq<nat>)
    requires Inv(m) && list != []
    ensures var k := (a, start + list[0]);
            if list[0] < n && k in m.slots then Inv(Evict(m, k).0)
                && EvictList(m, a, start, n, list) == EvictList(Evict(m, k).0, a, start, n, list[1..])
            else EvictList(m, a, start, n, list) == EvictList(m, a, start, n, list[1..])
  {
    hide Inv, View, Evict;
    if list[0] < n && (a, start + list[0]) in m.slots {
      EvictKeeps(m, (a, start + list[0]));
    }
  }

  lemma ForceListHead(m: Mem, a: nat, start: nat, n: nat, list: seq<nat>)
    requires Inv(m) && list != []
    ensures var k := (a, start + list[0]);
            if list[0] < n && k in m.slots then
              && Inv(ForceSwap(m, k).0)
                 && ForceList(m, a, start, n, list) == ForceList(ForceSwap(m, k).0, a, start, n, list[1..])
              && ForceCounts(m, a, start, n, list).0
                 == ForceCounts(ForceSwap(m, k).0, a, start, n, list[1..]).0 + (if ForceSwap(m, k).1 then 1 else 0)
            else
              && ForceList(m, a, start, n, list) == ForceList(m, a, start, n, list[1..])
              && ForceCounts(m, a, start, n, list) == ForceCounts(m, a, start, n, list[1..])
  {
    hide Inv, View, ForceSwap, Sole;
    if list[0] < n && (a, start + list[0]) in m.slots {
      ForceSwapKeeps(m, (a, start + list[0]));
    }
  }

  ghost predicate SwapFull(m: Mem) {
    forall id: nat :: id < |m.swap.bitmap| * Swap.WORD_BITS ==> Swap.InUse(m.swap, id)
  }

  ghost predicate ZramFull(m: Mem) {
    forall id: nat :: id < |m.zram.compressed| ==> Zram.Live(m.zram, id)
  }

  /** The page is out of memory, or shared, or there was nowhere to put it. */
  ghost predicate Settled(m: Mem, k: Key) {
    k in m.slots && (!m.slots[k].InMemory? || !Sole(m, k) || (ZramFull(m) && SwapFull(m)))
  }

  ghost predicate ForceSettled(m: Mem, k: Key) {
    k in m.slots && (!m.slots[k].InMemory? || SwapFull(m))
  }

  lemma ForceSettles(m: Mem, k: Key)
    requires Inv(m) && k in m.slots
    ensures ForceSettled(ForceSwap(m, k).0, k)
    ensures !ForceSwap(m, k).1 && m.slots[k].InMemory? ==> SwapFull(m)
  {
    hide View, Mapped, WritableIsSole;
    Swap.WriteIssuesFresh(m.swap, Bytes(m, m.slots[k]));
  }

  lemma EvictSettles(m: Mem, k: Key)
    requires Inv(m) && k in m.slots
    ensures Settled(Evict(m, k).0, k)
  {
    hide View, Mapped, WritableIsSole;
    if m.slots[k].InMemory? && Sole(m, k) {
      Zram.InsertIssuesFresh(m.zram, m.codec.compress(Bytes(m, m.slots[k])));
      ForceSettles(m, k);
    }
  }

  /** A later eviction unsettles nothing. */
  lemma EvictStays(m: Mem, k: Key, k': Key)
    requires Inv(m) && k in m.slots && Settled(m, k')
    ensures Settled(Evict(m, k).0, k')
  {
    hide View, Mapped, WritableIsSole, Accounted;
    EvictKeeps(m, k);
    EvictSettles(m, k);
    var m' := Evict(m, k).0;
    if Evict(m, k).1 && k' != k {
      EvictRoom(m, k);
      if m.slots[k'].InMemory? && !Sole(m, k') {
        var k2 :| k2 in m.slots && m.slots[k2] == m.slots[k'] && k2 != k';
        assert k2 != k && m'.slots[k2] == m'.slots[k'];
      }
    }
  }

  lemma EvictRoom(m: Mem, k: Key)
    requires Inv(m) && k in m.slots && Evict(m, k).1
    ensures m.slots[k].InMemory? && Sole(m, k) && !(ZramFull(m) && SwapFull(m))
  {
    hide View, Mapped, WritableIsSole;
    var page := Bytes(m, m.slots[k]);
    Zram.InsertIssuesFresh(m.zram, m.codec.compress(page));
    Swap.WriteIssuesFresh(m.swap, page);
  }

  lemma ForceStays(m: Mem, k: Key, k': Key)
    requires Inv(m) && k in m.slots && ForceSettled(m, k')
    ensures ForceSettled(ForceSwap(m, k).0, k')
  {
    hide View, Mapped, WritableIsSole, Accounted;
    ForceSwapKeeps(m, k);
    ForceSettles(m, k);
    if ForceSwap(m, k).1 && k' != k && m.slots[k'].InMemory? {
      ForceRoom(m, k);
    }
  }

  lemma ForceRoom(m: Mem, k: Key)
    requires Inv(m) && k in m.slots && ForceSwap(m, k).1
    ensures !SwapFull(m)
  {
    hide View, Mapped, WritableIsSole;
    Swap.WriteIssuesFresh(m.swap, Bytes(m, m.slots[k]));
  }

  lemma {:induction false} EvictListStays(m: Mem, a: nat, start: nat, n: nat, list: seq<nat>, k: Key)
    requires Inv(m) && Settled(m, k)
    ensures Settled(EvictList(m, a, start, n, list), k)
    decreases |list|
  {
    hide Inv, View, Settled, Evict;
    if list != [] {
      var h := (a, start + list[0]);
      if list[0] < n && h in m.slots {
        EvictKeeps(m, h);
        EvictStays(m, h, k);
        EvictListStays(Evict(m, h).0, a, start, n, list[1..], k);
      } else {
        EvictListStays(m, a, start, n, list[1..], k);
      }
    }
  }

  /** After a pass every listed page is out of memory, shared, or both stores are full. */
  lemma {:induction false} EvictListSettles(m: Mem, a: nat, start: nat, n: nat, list: seq<nat>, i: nat)
    requires Inv(m) && i < |list| && list[i] < n && (a, start + list[i]) in m.slots
    ensures Settled(EvictList(m, a, start, n, list), (a, start + list[i]))
    decreases |list|
  {
    hide Inv, View, Settled, Evict;
    var h := (a, start + list[0]);
    if list[0] < n && h in m.slots {
      EvictKeeps(m, h);
      EvictSettles(m, h);
      if i == 0 {
        EvictListStays(Evict(m, h).0, a, start, n, list[1..], h);
      } else {
        EvictedKeys(m, h);
        EvictListSettles(Evict(m, h).0, a, start, n, list[1..], i - 1);
      }
    } else {
      EvictListSettles(m, a, start, n, list[1..], i - 1);
    }
  }

  lemma EvictedKeys(m: Mem, k: Key)
    requires Inv(m) && k in m.slots
    ensures Evict(m, k).0.slots.Keys == m.slots.Keys && Inv(Evict(m, k).0)
  {
    hide View;
    EvictKeeps(m, k);
  }

  lemma {:induction false} ForceListStays(m: Mem, a: nat, start: nat, n: nat, list: seq<nat>, k: Key)
    requires Inv(m) && ForceSettled(m, k)
    ensures ForceSettled(ForceList(m, a, start, n, list), k)
    decreases |list|
  {
    hide Inv, View, ForceSettled, ForceSwap;
    if list != [] {
      var h := (a, start + list[0]);
      if list[0] < n && h in m.slots {
        ForceSwapKeeps(m, h);
        ForceStays(m, h, k);
        ForceListStays(ForceSwap(m, h).0, a, start, n, list[1..], k);
      } else {
        ForceListStays(m, a, start, n, list[1..], k);
      }
    }
  }

  /** After a forced pass every listed page is out of memory, or swap is full. */
  lemma {:induction false} ForceListSettles(m: Mem, a: nat, start: nat, n: nat, list: seq<nat>, i: nat)
    requires Inv(m) && i < |list| && list[i] < n && (a, start + list[i]) in m.slots
    ensures ForceSettled(ForceList(m, a, start, n, list), (a, start + list[i]))
    decreases |list|
  {
    hide Inv, View, ForceSettled, ForceSwap;
    var h := (a, start + list[0]);
    if list[0] < n && h in m.slots {
      ForceSwapKeeps(m, h);
      ForceSettles(m, h);
      if i == 0 {
        ForceListStays(ForceSwap(m, h).0, a, start, n, list[1..], h);
      } else {
        ForcedKeys(m, h);
        ForceListSettles(ForceSwap(m, h).0, a, start, n, list[1..], i - 1);
      }
    } else {
      ForceListSettles(m, a, start, n, list[1..], i - 1);
    }
  }

  lemma ForcedKeys(m: Mem, k: Key)
    requires Inv(m) && k in m.slots
    ensures ForceSwap(m, k).0.slots.Keys == m.slots.Keys && Inv(ForceSwap(m, k).0)
  {
    hide View;
    ForceSwapKeeps(m, k);
  }

  // ----- Whole spaces -----

  const MMAP_BASE_VPN: nat := 0x6_0000
  const TASK_SIZE_VPN: nat := 0xC_0000

  /** `do_shallow_clean` from area `j` on. */
  ghost function ShallowFrom(m: Mem, a: nat, areas: seq<Area>, j: nat): (r: Mem)
    requires Inv(m) && j <= |areas|
    ensures Inv(r) && View(r) == View(m)
    decreases |areas| - j
  {
    if j == |areas| then m
    else
      var x := areas[j];
      var evicted := EvictList(m, a, x.start, |x.frames|, x.active);
      ShallowFrom(if MMAP_BASE_VPN <= x.start < TASK_SIZE_VPN then evicted else m, a, areas, j + 1)
  }

  /** `do_deep_clean` from area `j` on. */
  ghost function DeepFrom(m: Mem, a: nat, areas: seq<Area>, j: nat): (r: Mem)
    requires Inv(m) && j <= |areas|
    ensures Inv(r) && View(r) == View(m)
    decreases |areas| - j
  {
    if j == |areas| then m
    else
      var x := areas[j];
      DeepFrom(if x.start >= TASK_SIZE_VPN then m
               else if x.start < MMAP_BASE_VPN then ForceList(m, a, x.start, |x.frames|, x.active)
               else EvictList(m, a, x.start, |x.frames|, x.active), a, areas, j + 1)
  }

  /** What `do_deep_clean` reports from area `j` on, and the frames it gives back: the sums over the areas. */
  ghost function DeepCounts(m: Mem, a: nat, areas: seq<Area>, j: nat): (nat, nat)
    requires Inv(m) && j <= |areas|
    decreases |areas| - j
  {
    if j == |areas| then (0, 0)
    else
      var x := areas[j];
      if x.start >= TASK_SIZE_VPN then DeepCounts(m, a, areas, j + 1)
      else if x.start < MMAP_BASE_VPN then
        var c := ForceCounts(m, a, x.start, |x.frames|, x.active);
        var rest := DeepCounts(ForceList(m, a, x.start, |x.frames|, x.active), a, areas, j + 1);
        (c.0 + rest.0, c.1 + rest.1)
      else
        var c := EvictCount(m, a, x.start, |x.frames|, x.active);
        var rest := DeepCounts(EvictList(m, a, x.start, |x.frames|, x.active), a, areas, j + 1);
        (c + rest.0, c + rest.1)
  }

  /** A deep clean reports exactly the frames it gives back iff no page that left memory was shared before. */
  lemma {:induction false} DeepPass(m: Mem, a: nat, areas: seq<Area>, j: nat)
    requires Inv(m) && j <= |areas|
    ensures var c := DeepCounts(m, a, areas, j); Pass(m, DeepFrom(m, a, areas, j), c.0, c.1)
    decreases |areas| - j
  {
    hide Inv, View, Pass, ForceList, ForceCounts, EvictList, EvictCount;
    if j == |areas| {
      PassNone(m);
    } else {
      var x := areas[j];
      if x.start >= TASK_SIZE_VPN {
        DeepPass(m, a, areas, j + 1);
      } else if x.start < MMAP_BASE_VPN {
        ForceListPass(m, a, x.start, |x.frames|, x.active);
        var m', c := ForceList(m, a, x.start, |x.frames|, x.active), ForceCounts(m, a, x.start, |x.frames|, x.active);
        DeepPass(m', a, areas, j + 1);
        var rest := DeepCounts(m', a, areas, j + 1);
        PassThen(m, m', DeepFrom(m', a, areas, j + 1), c.0, c.1, rest.0, rest.1);
      } else {
        EvictListPass(m, a, x.start, |x.frames|, x.active);
        var m', c := EvictList(m, a, x.start, |x.frames|, x.active), EvictCount(m, a, x.start, |x.frames|, x.active);
        DeepPass(m', a, areas, j + 1);
        var rest := DeepCounts(m', a, areas, j + 1);
        PassThen(m, m', DeepFrom(m', a, areas, j + 1), c, c, rest.0, rest.1);
      }
    }
  }

  lemma DeepCountsHead(m: Mem, a: nat, areas: seq<Area>, j: nat)
    requires Inv(m) && j < |areas|
    ensures var x := areas[j];
            DeepCounts(m, a, areas, j).0 ==
              if x.start >= TASK_SIZE_VPN then DeepCounts(m, a, areas, j + 1).0
              else if x.start < MMAP_BASE_VPN then
                var m' := ForceList(m, a, x.start, |x.frames|, x.active);
                ForceCounts(m, a, x.start, |x.frames|, x.active).0 + DeepCounts(m', a, areas, j + 1).0
              else
                var m' := EvictList(m, a, x.start, |x.frames|, x.active);
                EvictCount(m, a, x.start, |x.frames|, x.active) + DeepCounts(m', a, areas, j + 1).0
  {
    hide Inv, View, ForceList, ForceCounts, EvictList, EvictCount;
  }

  lemma ShallowHead(m: Mem, a: nat, areas: seq<Area>, j: nat)
    requires Inv(m) && j < |areas|
    ensures var x := areas[j];
            ShallowFrom(m, a, areas, j) ==
              var evicted := EvictList(m, a, x.start, |x.frames|, x.active);
              ShallowFrom(if MMAP_BASE_VPN <= x.start < TASK_SIZE_VPN then evicted else m, a, areas, j + 1)
  {
    hide Inv, View, EvictList;
  }

  lemma DeepHead(m: Mem, a: nat, areas: seq<Area>, j: nat)
    requires Inv(m) && j < |areas|
    ensures var x := areas[j];
            DeepFrom(m, a, areas, j) ==
              DeepFrom(if x.start >= TASK_SIZE_VPN then m
                       else if x.start < MMAP_BASE_VPN then ForceList(m, a, x.start, |x.frames|, x.active)
                       else EvictList(m, a, x.start, |x.frames|, x.active), a, areas, j + 1)
  {
    hide Inv, View, EvictList, ForceList;
  }

  lemma EvictNone(m: Mem, a: nat, start: nat, n: nat)
    requires Inv(m)
    ensures EvictList(m, a, start, n, []) == m && ForceList(m, a, start, n, []) == m
            && ForceCounts(m, a, start, n, []) == (0, 0)
  {
  }

  lemma CleanNone(m: Mem, a: nat, areas: seq<Area>)
    requires Inv(m)
    ensures ShallowFrom(m, a, areas, |areas|) == m && DeepFrom(m, a, areas, |areas|) == m
            && DeepCounts(m, a, areas, |areas|) == (0, 0)
  {
  }
}
