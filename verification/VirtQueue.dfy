// The driver of a split virtqueue, with the device as a step that completes any fetched chain once.
module VirtQueues {
  import opened Types
  import opened DescriptorTable
  import opened RingPair

  /** The contract of `add`: no buffer is empty, and each length fits a descriptor. */
  predicate NonEmpty(bufs: seq<(Buf, Dir)>) {
    forall i :: 0 <= i < |bufs| ==> 0 < bufs[i].0.len < 0x1_0000_0000
  }

  ghost predicate NoneEmpty(chains: map<nat, Chain>) {
    forall h :: h in chains ==> NonEmpty(chains[h].bufs)
  }

  lemma NoneEmptyGrows(chains: map<nat, Chain>, h: nat, c: Chain)
    requires NoneEmpty(chains) && NonEmpty(c.bufs)
    ensures NoneEmpty(chains[h := c])
  {
  }

  datatype AddResult = Added(token: nat) | InvalidParam | QueueFull

  datatype PopResult = Popped(len: nat) | NotReady | WrongToken

  /** The loop of `new`: zeroed descriptors, each linked to the one after it. */
  method Link(n: nat) returns (shadow: seq<Desc>, desc: seq<Desc>)
    requires n > 0
    ensures |shadow| == n && desc == shadow
    ensures forall k :: 0 <= k < n ==> shadow[k] == Desc(0, 0, if k < n - 1 then k + 1 else 0, false, false, false)
  {
    var zero := Desc(0, 0, 0, false, false, false);
    shadow, desc := seq(n, _ => zero), seq(n, _ => zero);
    var i := 0;
    while i < n - 1
      invariant i <= n - 1 && |shadow| == n && desc == shadow
      invariant forall k :: 0 <= k < n ==> shadow[k] == zero.(next := if k < i then k + 1 else 0)
    {
      shadow := shadow[i := shadow[i].(next := i + 1)];
      desc := desc[i := desc[i].(next := i + 1)];
      i := i + 1;
    }
  }

  class VirtQueue {
    const size: nat
    const indirect: bool
    const eventIdx: bool
    var numUsed: nat
    var freeHead: nat
    var shadow: seq<Desc>
    var lists: seq<Option<seq<Desc>>>
    var availIdx: nat
    var lastUsedIdx: nat

    // Memory shared with the device: the driver writes the first four, the device the last two.
    var desc: seq<Desc>
    var availRing: seq<nat>
    var availPublished: nat
    var usedEvent: nat
    var usedRing: seq<UsedElem>
    var usedIdx: nat

    ghost var free: seq<nat>
    ghost var role: seq<Role>
    ghost var chains: map<nat, Chain>
    ghost var live: map<Place, Mapping>
    ghost var added: nat
    ghost var fetched: nat
    ghost var completed: nat
    ghost var popped: nat
    ghost var pending: seq<nat>
    ghost var inflight: set<nat>
    ghost var done: seq<nat>
    ghost var lens: seq<nat> // what the device wrote for each chain of `done`

    ghost function Descs(): Queue
      reads `shadow, `desc, `lists, `freeHead, `numUsed, `free, `role, `chains, `live
    {
      Queue(size, shadow, desc, lists, freeHead, numUsed, free, role, chains, live)
    }

    ghost function Ring(): Rings
      reads `availRing, `availIdx, `usedRing, `usedIdx, `lastUsedIdx, `added, `fetched, `completed, `popped,
          `pending, `inflight, `done, `lens
    {
      Rings(size, availRing, availIdx, usedRing, usedIdx, lastUsedIdx, added, fetched, completed, popped, pending,
          inflight, done, lens)
    }

    ghost predicate Valid()
      reads this
    {
      && Inv(Descs()) && RingInv(Ring(), chains.Keys) && availPublished == availIdx
      && NoneEmpty(chains)
    }

    constructor (n: nat, tables: bool, events: bool)
      requires SizeOk(n)
      ensures Valid() && size == n && indirect == tables && eventIdx == events
      ensures free == Count(n) && chains == map[] && live == map[] && pending == [] && inflight == {} && done == []
      ensures lens == []
    {
      SizePositive(n);
      var links, copies := Link(n);
      size, indirect, eventIdx := n, tables, events;
      shadow, desc := links, copies;
      numUsed, freeHead, availIdx, lastUsedIdx, availPublished, usedEvent, usedIdx := 0, 0, 0, 0, 0, 0, 0;
      lists := seq(n, _ => None);
      availRing, usedRing := seq(n, _ => 0), seq(n, _ => UsedElem(0, 0));
      added, fetched, completed, popped := 0, 0, 0, 0;
      pending, inflight, done, lens := [], {}, [], [];
      free, chains, live := Count(n), map[], map[];
      role := seq(n, i requires 0 <= i < n => Free(i));
      new;
      hide Indexed, Staged, Partition, Linked, Count, SizeOk;
      FreshTable(Descs());
      FreshRings(Ring());
    }

    /** `H::share`: the address is the platform's choice. */
    method Share(ghost place: Place, region: Region, dir: Dir) returns (addr: nat)
      requires place !in live
      modifies this`live
      ensures live == old(live)[place := Mapping(addr, region, dir)]
    {
      addr :| 0 <= addr < 0x1_0000_0000_0000_0000;
      live := live[place := Mapping(addr, region, dir)];
    }

    /** `H::unshare`: its safety contract asks for the address the same region was shared at. */
    method Unshare(ghost place: Place, addr: nat, region: Region, dir: Dir)
      requires place in live && live[place] == Mapping(addr, region, dir)
      modifies this`live
      ensures live == old(live) - {place}
    {
      live := live - {place};
    }

    method AddDirect(bufs: seq<(Buf, Dir)>) returns (head: nat)
      requires Inv(Descs()) && 0 < |bufs| <= |free| && NonEmpty(bufs)
      modifies this`numUsed, this`freeHead, this`shadow, this`desc, this`free, this`role, this`chains, this`live
      ensures Inv(Descs()) && head == old(freeHead) == old(free)[0]
      ensures chains == old(chains)[head := Chain(old(free)[..|bufs|], bufs, None)]
      ensures free == old(free)[|bufs|..] && LiveGrows(old(Descs()), Descs())
    {
      hide Inv, Partition, Linked, ChainsOk, Coherent, Filling, Finish, TakeRoles, LiveGrows;
      ghost var q := Descs();
      HeadFacts(q);
      FillStart(q, bufs);
      head := freeHead;
      var last := freeHead;
      var i := 0;
      while i < |bufs|
        invariant i <= |bufs| && Filling(q, Descs(), bufs, i)
        invariant i > 0 ==> last == q.free[i - 1]
        invariant numUsed == q.numUsed && free == q.free && role == q.role && chains == q.chains
      {
        FillBounds(q, Descs(), bufs, i);
        ghost var q1 := Descs();
        assert bufs[i].0.len != 0;
        var d := freeHead;
        var addr := Share(Direct(d), User(bufs[i].0), bufs[i].1);
        FillStep(q, q1, bufs, i, addr);
        shadow := shadow[d := SetBuf(shadow[d], addr, bufs[i])];
        last := d;
        freeHead := shadow[d].next;
        desc := desc[d := shadow[d]];
        i := i + 1;
      }
      ghost var q1 := Descs();
      FinishKeeps(q, q1, bufs);
      FinishIs(q, q1, bufs);
      FinishShares(q, q1, bufs);
      shadow := shadow[last := shadow[last].(fNext := false)];
      desc := desc[last := shadow[last]];
      numUsed := numUsed + |bufs|;
      free, role, chains := q.free[|bufs|..], TakeRoles(q, |bufs|),
          q.chains[head := Chain(q.free[..|bufs|], bufs, None)];
      assert Descs() == Finish(q, q1, bufs);
    }

    /** The table of `add_indirect`: one entry per buffer, each shared as it is entered. */
    method FillTable(head: nat, bufs: seq<(Buf, Dir)>) returns (list: seq<Desc>)
      requires |bufs| > 0 && NonEmpty(bufs) && forall i :: Entry(head, i) !in live
      modifies this`live
      ensures |list| == |bufs| && Tabled(old(live), live, head, bufs, list, |bufs|)
    {
      hide Tabled;
      list := [];
      TableStart(live, head, bufs);
      while |list| < |bufs|
        invariant |list| <= |bufs| && Tabled(old(live), live, head, bufs, list, |bufs| + 1)
      {
        var i := |list|;
        ghost var live1 := live;
        TableRoom(old(live), live1, head, bufs, list);
        var addr := Share(Entry(head, i), User(bufs[i].0), bufs[i].1);
        TableStep(old(live), live1, head, bufs, list, addr);
        list := list + [Desc(addr, bufs[i].0.len, i + 1, true, bufs[i].1.DeviceToDriver?, false)];
      }
      TableDone(old(live), live, head, bufs, list);
      list := list[|list| - 1 := list[|list| - 1].(fNext := false)];
    }

    method AddIndirect(bufs: seq<(Buf, Dir)>) returns (head: nat)
      requires Inv(Descs()) && 1 < |bufs| && free != [] && NonEmpty(bufs)
      modifies this`numUsed, this`freeHead, this`shadow, this`desc, this`lists, this`free, this`role, this`chains,
          this`live
      ensures Inv(Descs()) && head == old(freeHead) == old(free)[0]
      ensures head in chains && chains[head].table.Some? && |chains[head].table.value| == |bufs|
      ensures chains == old(chains)[head := Chain(old(free)[..1], bufs, chains[head].table)]
      ensures free == old(free)[1..] && LiveGrows(old(Descs()), Descs())
    {
      hide Inv, TakeRoles, Tabled, Sizes, NonEmpty, LiveGrows;
      ghost var q := Descs();
      HeadFacts(q);
      HeadSizes(q);
      head := freeHead;
      var list := FillTable(head, bufs);
      assert lists[head] == None;
      lists := lists[head := Some(list)];
      ghost var live1 := live;
      HeadUnshared(q.live, live1, head, bufs, list);
      freeHead := shadow[head].next;
      var addr := Share(Direct(head), Table(list), DriverToDevice);
      shadow := shadow[head := shadow[head].(addr := addr, len := 16 * |list|, fNext := false, fWrite := false,
          fIndirect := true)];
      desc := desc[head := shadow[head]];
      numUsed := numUsed + 1;
      free, role, chains := q.free[1..], TakeRoles(q, 1), q.chains[head := Chain([head], bufs, Some(list))];
      WithTableKeeps(q, live1, bufs, list, addr);
      WithTableShares(q, live1, bufs, list, addr);
      assert Descs() == WithTable(q, live1, bufs, list, addr);
      assert q.free[..1] == [head];
    }

    lemma Seen(token: nat, inputs: seq<Buf>, outputs: seq<Buf>)
      requires Inv(Descs()) && token in chains && Request(chains[token].bufs, inputs, outputs)
      ensures ReadsAs(Descs(), DeviceReads(Descs(), token), inputs, outputs)
    {
      hide Inv;
      RequestSeen(Descs(), token, inputs, outputs);
    }

    lemma Bounds()
      requires Inv(Descs())
      ensures |free| + numUsed == size && |chains.Keys| <= numUsed
    {
      hide Inv;
      SizesOf(Descs());
      ChainCount(Descs());
    }

    /** The choice in `add`: a table for several buffers when the device takes tables. */
    method Take(bufs: seq<(Buf, Dir)>) returns (head: nat)
      requires Inv(Descs()) && NonEmpty(bufs) && 0 < |bufs| && free != [] && (indirect || |bufs| <= |free|)
      modifies this`numUsed, this`freeHead, this`shadow, this`desc, this`lists, this`free, this`role, this`chains,
          this`live
      ensures Inv(Descs()) && head == old(free)[0] && head !in old(chains) && head in chains
              && LiveGrows(old(Descs()), Descs())
      ensures var taken := if indirect && |bufs| > 1 then 1 else |bufs|;
              && taken <= |old(free)| && free == old(free)[taken..]
              && chains == old(chains)[head := Chain(old(free)[..taken], bufs, chains[head].table)]
    {
      hide Inv, NonEmpty, LiveGrows;
      HeadFacts(Descs());
      if indirect && |bufs| > 1 {
        head := AddIndirect(bufs);
      } else {
        head := AddDirect(bufs);
      }
    }

    /** The end of `add`: the head goes into the next available slot before the index moves. */
    method Offer(head: nat, ghost heads: set<nat>)
      requires RingInv(Ring(), heads) && head !in heads && |heads| < size
      modifies this`availRing, this`availIdx, this`availPublished, this`added, this`pending
      ensures RingInv(Ring(), heads + {head}) && availPublished == availIdx && pending == old(pending) + [head]
    {
      hide RingInv, Publish, Descs;
      ghost var r0 := Ring();
      PublishKeeps(r0, heads, head);
      PublishIs(r0, heads, head);
      availRing := availRing[Masked(availIdx, size) := head];
      availIdx := (availIdx + 1) % 0x1_0000;
      availPublished := availIdx;
      added, pending := added + 1, pending + [head];
      assert Ring() == Publish(r0, head);
    }

    /** `add` after its checks: the chain, then its head. */
    method Enqueue(bufs: seq<(Buf, Dir)>) returns (head: nat)
      requires Valid() && NonEmpty(bufs) && 0 < |bufs| && free != [] && (indirect || |bufs| <= |free|)
      requires |chains.Keys| < size
      modifies this
      ensures Valid() && head == old(free)[0] && head !in old(chains) && head in chains
      ensures var taken := if indirect && |bufs| > 1 then 1 else |bufs|;
              && taken <= |old(free)| && free == old(free)[taken..]
              && chains == old(chains)[head := Chain(old(free)[..taken], bufs, chains[head].table)]
      ensures pending == old(pending) + [head] && inflight == old(inflight) && done == old(done) && lens == old(lens)
      ensures LiveGrows(old(Descs()), Descs())
    {
      hide Inv, RingInv, NonEmpty, NoneEmpty, Descs, Ring, LiveGrows;
      head := Take(bufs);
      assert chains.Keys == old(chains).Keys + {head};
      Offer(head, old(chains).Keys);
      NoneEmptyGrows(old(chains), head, chains[head]);
    }

    method Add(inputs: seq<Buf>, outputs: seq<Buf>) returns (r: AddResult)
      requires Valid() && NonEmpty(Bufs(inputs, outputs))
      modifies this
      ensures Valid()
      ensures r == InvalidParam <==> inputs == [] && outputs == []
      ensures r == QueueFull <==>
                var needed := |inputs| + |outputs|;
                needed > 0 && (old(numUsed) == size || needed > size || (!indirect && old(numUsed) + needed > size))
      ensures !r.Added? ==> Descs() == old(Descs()) && Ring() == old(Ring())
      ensures r.Added? ==>
                var taken := if indirect && |inputs| + |outputs| > 1 then 1 else |inputs| + |outputs|;
                && 0 < taken <= |old(free)| && r.token == old(free)[0] && r.token !in old(chains) && r.token in chains
                && chains == old(chains)[r.token := Chain(old(free)[..taken], Bufs(inputs, outputs),
                   chains[r.token].table)]
                && free == old(free)[taken..]
                && pending == old(pending) + [r.token] && inflight == old(inflight) && done == old(done)
                && lens == old(lens)
      ensures r.Added? ==> LiveGrows(old(Descs()), Descs())
      ensures r.Added? ==> Request(chains[r.token].bufs, inputs, outputs)
      ensures r.Added? ==> ReadsAs(Descs(), DeviceReads(Descs(), r.token), inputs, outputs)
    {
      hide Inv, RingInv, NonEmpty, NoneEmpty, Bufs, Descs, Ring, LiveGrows, DeviceReads, ReadsAs, Request;
      if inputs == [] && outputs == [] {
        return InvalidParam;
      }
      var needed := |inputs| + |outputs|;
      Bounds();
      if numUsed + 1 > size || needed > size || (!indirect && numUsed + needed > size) {
        return QueueFull;
      }
      var head := Enqueue(Bufs(inputs, outputs));
      BufsAre(inputs, outputs, chains[head].bufs);
      Seen(head, inputs, outputs);
      return Added(head);
    }

    method CanPop() returns (ready: bool)
      requires Valid()
      ensures ready <==> done != []
    {
      Window(Ring(), chains.Keys);
      ready := lastUsedIdx != usedIdx;
    }

    method PeekUsed() returns (token: Option<nat>)
      requires Valid()
      ensures token == if done == [] then None else Some(done[0])
    {
      hide Inv;
      var ready := CanPop();
      if ready {
        PopKeeps(Ring(), chains.Keys);
        token := Some(usedRing[Masked(lastUsedIdx, size)].id);
      } else {
        token := None;
      }
    }

    method UnshareEntries(ghost q: Queue, head: nat, bufs: seq<(Buf, Dir)>, list: seq<Desc>)
      requires |list| == |bufs| && NonEmpty(bufs) && Unsharing(q, live, head, 0)
      requires forall i :: 0 <= i < |bufs| ==>
                 Entry(head, i) in q.live && q.live[Entry(head, i)] == Mapping(list[i].addr, User(bufs[i].0), bufs[i].1)
      modifies this`live
      ensures Unsharing(q, live, head, |bufs|)
    {
      var i := 0;
      while i < |bufs|
        invariant i <= |bufs| && Unsharing(q, live, head, i)
      {
        assert bufs[i].0.len != 0;
        Unshare(Entry(head, i), list[i].addr, User(bufs[i].0), bufs[i].1);
        i := i + 1;
      }
    }

    /** The indirect branch of `recycle_descriptors`. */
    method RecycleTable(head: nat, bufs: seq<(Buf, Dir)>)
      requires Inv(Descs()) && head in chains && chains[head].table.Some? && chains[head].bufs == bufs && NonEmpty(bufs)
      modifies this`numUsed, this`freeHead, this`shadow, this`lists, this`free, this`role, this`chains, this`live
      ensures Inv(Descs()) && freeHead == head && free == old(chains)[head].descs + old(free)
              && chains == old(chains) - {head}
      ensures Unshared(old(Descs()), Descs(), head)
    {
      hide Inv, ReturnRoles, FreedTable, Unshared, Unsharing, OwnedBy;
      ghost var q := Descs();
      TableTarget(q, head);
      SizesOf(q);
      ChainFits(q, head);
      HeadUsedIn(q, head);
      var original := freeHead;
      freeHead := head;
      var list := lists[head].value;
      lists := lists[head := None];
      var addr := shadow[head].addr;
      shadow := shadow[head := shadow[head].(addr := 0, len := 0, next := original)];
      numUsed := numUsed - 1;
      Unshare(Direct(head), addr, Table(list), DriverToDevice);
      UnsharingStart(q, live, head);
      assert |list| == |bufs|;
      UnshareEntries(q, head, bufs, list);
      FreedTableIs(q, live, head);
      FreedTableKeeps(q, head);
      free, role, chains := q.chains[head].descs + q.free, ReturnRoles(q, head), q.chains - {head};
      assert Descs() == FreedTable(q, head);
    }

    /** The direct branch of `recycle_descriptors`: the chain is neither shorter nor longer than the
        buffers passed in. */
    method RecycleDirect(head: nat, bufs: seq<(Buf, Dir)>)
      requires Inv(Descs()) && head in chains && chains[head].table.None? && chains[head].bufs == bufs && NonEmpty(bufs)
      modifies this`numUsed, this`freeHead, this`shadow, this`desc, this`free, this`role, this`chains, this`live
      ensures Inv(Descs()) && freeHead == head && free == old(chains)[head].descs + old(free)
              && chains == old(chains) - {head}
      ensures Unshared(old(Descs()), Descs(), head)
    {
      hide Inv, ReturnRoles, Recycling, Unshared;
      ghost var q := Descs();
      DirectTarget(q, head);
      SizesOf(q);
      ChainFits(q, head);
      var original := freeHead;
      freeHead := head;
      var next := Some(head);
      var i := 0;
      while i < |bufs|
        invariant i <= |bufs| && Recycling(q, Descs(), head, i)
        invariant next == if i < |bufs| then Some(q.chains[head].descs[i]) else None
      {
        ghost var q1 := Descs();
        RecycleTarget(q, q1, head, i);
        RecycleSizes(q, q1, head, i);
        RecycleStep(q, q1, head, i);
        assert bufs[i].0.len != 0;
        assert next.Some?; // the chain is not shorter than the buffers
        var d := next.value;
        var addr := shadow[d].addr;
        shadow := shadow[d := shadow[d].(addr := 0, len := 0)];
        numUsed := numUsed - 1;
        next := NextOf(shadow[d]);
        if next.None? {
          shadow := shadow[d := shadow[d].(next := original)];
        }
        desc := desc[d := shadow[d]];
        Unshare(Direct(d), addr, User(bufs[i].0), bufs[i].1);
        assert Descs() == Recycle(q1, d, q.freeHead);
        i := i + 1;
      }
      assert next.None?; // the chain is not longer than the buffers
      ghost var q1 := Descs();
      FreedKeeps(q, q1, head);
      FreedShares(q, q1, head);
      free, role, chains := q.chains[head].descs + q.free, ReturnRoles(q, head), q.chains - {head};
      assert Descs() == Freed(q, q1, head);
    }

    method RecycleDescriptors(head: nat, bufs: seq<(Buf, Dir)>)
      requires Inv(Descs()) && head in chains && chains[head].bufs == bufs && NonEmpty(bufs)
      modifies this`numUsed, this`freeHead, this`shadow, this`desc, this`lists, this`free, this`role, this`chains,
          this`live
      ensures Inv(Descs()) && freeHead == head && free == old(chains)[head].descs + old(free)
              && chains == old(chains) - {head}
      ensures Unshared(old(Descs()), Descs(), head)
    {
      hide Inv, Unshared, NonEmpty;
      ChainKind(Descs(), head);
      if shadow[head].fIndirect {
        RecycleTable(head, bufs);
      } else {
        RecycleDirect(head, bufs);
      }
    }

    /** The end of `pop_used`: the driver moves past the used element it read. */
    method Consume(ghost heads: set<nat>)
      requires RingInv(Ring(), heads) && done != []
      modifies this`lastUsedIdx, this`usedEvent, this`popped, this`done, this`lens
      ensures RingInv(Ring(), heads - {old(done)[0]}) && done == old(done)[1..]
      ensures |old(lens)| > 0 && lens == old(lens)[1..]
      ensures usedEvent == if eventIdx then lastUsedIdx else old(usedEvent)
    {
      hide RingInv, Pop, Descs;
      PopKeeps(Ring(), heads);
      PopIs(Ring());
      lastUsedIdx := (lastUsedIdx + 1) % 0x1_0000;
      if eventIdx {
        usedEvent := lastUsedIdx;
      }
      popped, done, lens := popped + 1, done[1..], lens[1..];
      assert Ring() == Pop(old(Ring()));
    }

    method PopUsed(token: nat, inputs: seq<Buf>, outputs: seq<Buf>) returns (r: PopResult)
      requires Valid()
      requires done != [] && done[0] == token && token in chains ==> Request(chains[token].bufs, inputs, outputs)
      modifies this
      ensures Valid()
      ensures r == NotReady <==> old(done) == []
      ensures r == WrongToken <==> old(done) != [] && old(done)[0] != token
      ensures !r.Popped? ==> Descs() == old(Descs()) && Ring() == old(Ring()) && usedEvent == old(usedEvent)
      ensures r.Popped? ==>
                && token in old(chains) && chains == old(chains) - {token}
                && free == old(chains)[token].descs + old(free) && Unshared(old(Descs()), Descs(), token)
                && done == old(done)[1..] && pending == old(pending) && inflight == old(inflight)
                && usedEvent == (if eventIdx then lastUsedIdx else old(usedEvent))
      ensures r.Popped? ==> |old(lens)| > 0 && r.len == old(lens)[0] && lens == old(lens)[1..]
    {
      hide Inv, NonEmpty, Unshared, RingInv, SizeOk, Slot;
      var ready := CanPop();
      if !ready {
        return NotReady;
      }
      PopKeeps(Ring(), chains.Keys);
      ghost var r0 := Ring();
      var elem := usedRing[Masked(lastUsedIdx, size)];
      if elem.id != token {
        return WrongToken;
      }
      BufsAre(inputs, outputs, chains[token].bufs);
      RecycleDescriptors(elem.id, Bufs(inputs, outputs));
      assert Ring() == r0;
      Consume(old(chains).Keys);
      assert chains.Keys == old(chains).Keys - {token};
      return Popped(elem.len);
    }

    /** The device takes the next head; `at` is its own place in the available ring. */
    method DeviceFetch(at: nat) returns (head: nat)
      requires Valid() && pending != [] && at == fetched % 0x1_0000
      modifies this`fetched, this`pending, this`inflight
      ensures Valid() && head == old(pending)[0] && head in chains
      ensures pending == old(pending)[1..] && inflight == old(inflight) + {head}
    {
      hide Inv, NoneEmpty, RingInv, SizeOk, Descs;
      PublishIs(Ring(), chains.Keys, 0);
      FetchKeeps(Ring(), chains.Keys);
      PendingHead(Ring(), chains.Keys);
      head := availRing[Slot(at, size)];
      fetched, pending, inflight := fetched + 1, pending[1..], inflight + {head};
      assert Ring() == Fetch(old(Ring()));
    }

    /** The device reports a chain it fetched as used. */
    method DeviceComplete(head: nat, len: nat)
      requires Valid() && head in inflight
      modifies this`usedRing, this`usedIdx, this`completed, this`inflight, this`done, this`lens
      ensures Valid() && inflight == old(inflight) - {head} && done == old(done) + [head] && lens == old(lens) + [len]
    {
      hide Inv, NoneEmpty, RingInv, SizeOk, Descs, Ring;
      Report(head, len, chains.Keys);
    }

    method Report(head: nat, len: nat, ghost heads: set<nat>)
      requires RingInv(Ring(), heads) && head in inflight
      modifies this`usedRing, this`usedIdx, this`completed, this`inflight, this`done, this`lens
      ensures RingInv(Ring(), heads)
      ensures inflight == old(inflight) - {head} && done == old(done) + [head] && lens == old(lens) + [len]
    {
      hide RingInv, SizeOk, Descs, Complete;
      PublishIs(Ring(), heads, head);
      CompleteKeeps(Ring(), heads, head, len);
      CompleteIs(Ring(), head, len);
      usedRing := usedRing[Slot(usedIdx, size) := UsedElem(head, len)];
      usedIdx := (usedIdx + 1) % 0x1_0000;
      completed, inflight, done, lens := completed + 1, inflight - {head}, done + [head], lens + [len];
      assert Ring() == Complete(old(Ring()), head, len);
    }
  }
}
