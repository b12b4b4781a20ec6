// The descriptor half of a split virtqueue (section 2.6 of Virtual I/O Device (VIRTIO) Version 1.1):
// an intrusive free list threaded through the descriptors, and direct and indirect chains.
module DescriptorTable {
  import opened Types

  /** A caller's buffer: its identity and its length. */
  datatype Buf = Buf(id: nat, len: nat)

  datatype Dir = DriverToDevice | DeviceToDriver

  datatype Desc = Desc(addr: nat, len: nat, next: nat, fNext: bool, fWrite: bool, fIndirect: bool)

  /** What a mapping shared with the device covers. */
  datatype Region = User(buf: Buf) | Table(list: seq<Desc>)

  datatype Mapping = Mapping(addr: nat, region: Region, dir: Dir)

  /** The descriptor that holds a mapping's address: in the queue, or in an indirect table. */
  datatype Place = Direct(d: nat) | Entry(head: nat, i: nat)

  /** An outstanding request: its descriptors in order, its buffers in order, and its table. */
  datatype Chain = Chain(descs: seq<nat>, bufs: seq<(Buf, Dir)>, table: Option<seq<Desc>>)

  datatype Role = Free(pos: nat) | Used(head: nat, pos: nat)

  /** The descriptor half of the queue. `free`, `role`, `chains` and `live` are what the fields
      above them stand for. */
  datatype Queue = Queue(
    size: nat,
    shadow: seq<Desc>,
    desc: seq<Desc>,
    lists: seq<Option<seq<Desc>>>,
    freeHead: nat,
    numUsed: nat,
    free: seq<nat>,
    role: seq<Role>,
    chains: map<nat, Chain>,
    live: map<Place, Mapping>)

  /** `InputOutputIter`: the inputs, then the outputs. */
  function Bufs(inputs: seq<Buf>, outputs: seq<Buf>): (r: seq<(Buf, Dir)>)
    ensures |r| == |inputs| + |outputs|
  {
    seq(|inputs|, i requires 0 <= i < |inputs| => (inputs[i], DriverToDevice))
    + seq(|outputs|, i requires 0 <= i < |outputs| => (outputs[i], DeviceToDriver))
  }

  /** The buffers of a request: the inputs, which the device reads, then the outputs, which it writes. */
  ghost predicate Request(bufs: seq<(Buf, Dir)>, inputs: seq<Buf>, outputs: seq<Buf>) {
    && |bufs| == |inputs| + |outputs|
    && (forall i :: 0 <= i < |inputs| ==> bufs[i] == (inputs[i], DriverToDevice))
    && (forall i :: 0 <= i < |outputs| ==> bufs[|inputs| + i] == (outputs[i], DeviceToDriver))
  }

  lemma BufsAre(inputs: seq<Buf>, outputs: seq<Buf>, bufs: seq<(Buf, Dir)>)
    ensures Request(bufs, inputs, outputs) <==> bufs == Bufs(inputs, outputs)
  {
    if Request(bufs, inputs, outputs) {
      forall i | 0 <= i < |bufs|
        ensures bufs[i] == Bufs(inputs, outputs)[i]
      {
        assert i >= |inputs| ==> bufs[|inputs| + (i - |inputs|)] == (outputs[i - |inputs|], DeviceToDriver);
      }
    }
  }

  // ----- Invariant of the descriptor table -----

  ghost predicate Sizes(q: Queue) {
    && 0 < q.size <= 0x8000
    && |q.shadow| == |q.desc| == |q.lists| == |q.role| == q.size
    && |q.free| + q.numUsed == q.size
  }

  ghost predicate FreeRoles(q: Queue)
    requires Sizes(q)
  {
    forall p :: 0 <= p < |q.free| ==> q.free[p] < q.size && q.role[q.free[p]] == Free(p)
  }

  ghost predicate ChainRoles(q: Queue)
    requires Sizes(q)
  {
    forall h, p :: h in q.chains && 0 <= p < |q.chains[h].descs| ==>
      q.chains[h].descs[p] < q.size && q.role[q.chains[h].descs[p]] == Used(h, p)
  }

  predicate AtRole(q: Queue, d: nat)
    requires d < |q.role|
  {
    match q.role[d]
    case Free(p) => p < |q.free| && q.free[p] == d
    case Used(h, p) => h in q.chains && p < |q.chains[h].descs| && q.chains[h].descs[p] == d
  }

  /** Every descriptor is at one place of the free list or of one chain. */
  ghost predicate Partition(q: Queue) {
    && Sizes(q) && FreeRoles(q) && ChainRoles(q)
    && (forall d :: 0 <= d < q.size ==> AtRole(q, d))
  }

  /** The free list is threaded through `next`; what follows its last node is meaningless. */
  ghost predicate Linked(q: Queue) {
    && Sizes(q)
    && (forall p :: 0 <= p < |q.free| ==> q.free[p] < q.size)
    && (|q.free| > 0 ==> q.freeHead == q.free[0])
    && (forall p :: 0 <= p < |q.free| - 1 ==> q.shadow[q.free[p]].next == q.free[p + 1])
  }

  /** The descriptor of buffer `i` of `n`. */
  predicate Describes(d: Desc, b: (Buf, Dir), i: nat, n: nat) {
    && d.len == b.0.len && d.fWrite == b.1.DeviceToDriver? && !d.fIndirect && (d.fNext <==> i + 1 < n)
  }

  ghost predicate DirectOk(q: Queue, h: nat, c: Chain)
    requires Sizes(q)
  {
    && c.table == None && |c.descs| == |c.bufs| > 0 && c.descs[0] == h
    && (forall i :: 0 <= i < |c.descs| ==> c.descs[i] < q.size)
    && (forall i :: 0 <= i < |c.descs| ==> Describes(q.shadow[c.descs[i]], c.bufs[i], i, |c.descs|))
    && (forall i :: 0 <= i < |c.descs| - 1 ==> q.shadow[c.descs[i]].next == c.descs[i + 1])
    && (forall i :: 0 <= i < |c.descs| ==>
          Direct(c.descs[i]) in q.live
              && q.live[Direct(c.descs[i])] == Mapping(q.shadow[c.descs[i]].addr, User(c.bufs[i].0), c.bufs[i].1))
  }

  ghost predicate IndirectOk(q: Queue, h: nat, c: Chain)
    requires Sizes(q)
  {
    && c.descs == [h] && h < q.size && c.table.Some? && |c.table.value| == |c.bufs| > 1
    && q.shadow[h].fIndirect && !q.shadow[h].fNext && !q.shadow[h].fWrite && q.shadow[h].len == 16 * |c.bufs|
    && Direct(h) in q.live && q.live[Direct(h)] == Mapping(q.shadow[h].addr, Table(c.table.value), DriverToDevice)
    && (forall i :: 0 <= i < |c.bufs| ==>
          var d := c.table.value[i];
          && Describes(d, c.bufs[i], i, |c.bufs|) && d.next == i + 1
          && Entry(h, i) in q.live && q.live[Entry(h, i)] == Mapping(d.addr, User(c.bufs[i].0), c.bufs[i].1))
  }

  ghost predicate ChainsOk(q: Queue) {
    && Sizes(q)
    && (forall h :: h in q.chains ==>
       if q.chains[h].table == None then DirectOk(q, h, q.chains[h]) else IndirectOk(q, h, q.chains[h]))
  }

  /** The device's copy of every outstanding descriptor equals the shadow; tables are remembered
      exactly for indirect chains; nothing is shared but what outstanding descriptors name. */
  ghost predicate Coherent(q: Queue) {
    && Sizes(q)
    && (forall d :: 0 <= d < q.size && q.role[d].Used? ==> q.desc[d] == q.shadow[d])
    && (forall d :: 0 <= d < q.size ==> q.lists[d] == if d in q.chains then q.chains[d].table else None)
    && (forall p :: p in q.live ==>
          match p
          case Direct(d) => d < q.size && q.role[d].Used?
          case Entry(h, i) => h in q.chains && q.chains[h].table.Some? && i < |q.chains[h].bufs|)
  }

  ghost predicate Inv(q: Queue) {
    Partition(q) && Linked(q) && ChainsOk(q) && Coherent(q)
  }

  // ----- Taking nodes -----

  /** Roles after the first `n` free nodes became one chain. */
  ghost function TakeRoles(q: Queue, n: nat): (r: seq<Role>)
    requires |q.role| == q.size && 0 < n <= |q.free|
    ensures |r| == q.size
  {
    seq(q.size, d requires 0 <= d < q.size =>
      match q.role[d]
      case Free(p) => if p < n then Used(q.free[0], p) else Free(p - n)
      case Used(h, p) => q.role[d])
  }

  /** The first `n` free nodes become chain `c`. */
  ghost predicate Took(q: Queue, q': Queue, n: nat, c: Chain) {
    && Sizes(q) && Sizes(q') && 0 < n <= |q.free| && q'.size == q.size
    && c.descs == q.free[..n] && q'.free == q.free[n..]
    && (n < |q.free| ==> q'.freeHead == q.free[n])
    && q'.chains == q.chains[q.free[0] := c] && q'.role == TakeRoles(q, n)
  }

  /** Only the shadow and device copies of the first `n` free nodes may differ; `next` never does. */
  ghost predicate WroteOnly(q: Queue, q': Queue, n: nat)
    requires Sizes(q) && Sizes(q') && q'.size == q.size && n <= |q.free|
  {
    && (forall d :: 0 <= d < q.size && d !in q.free[..n] ==> q'.shadow[d] == q.shadow[d] && q'.desc[d] == q.desc[d])
    && (forall d :: 0 <= d < q.size ==> q'.shadow[d].next == q.shadow[d].next)
    && (forall d :: 0 <= d < q.size && d in q.free[..n] ==> q'.desc[d] == q'.shadow[d])
  }

  /** Mappings made earlier stay as they are. */
  ghost predicate LiveGrows(q: Queue, q': Queue) {
    forall p :: p in q.live ==> p in q'.live && q'.live[p] == q.live[p]
  }

  lemma HeadUsed(q: Queue, h: nat)
    requires Partition(q) && ChainsOk(q) && h in q.chains
    ensures h < q.size && q.role[h] == Used(h, 0) && |q.chains[h].descs| > 0 && q.chains[h].descs[0] == h
  {
  }

  lemma FreeHeadIsNew(q: Queue)
    requires Partition(q) && ChainsOk(q) && |q.free| > 0
    ensures q.free[0] !in q.chains
  {
    if q.free[0] in q.chains {
      HeadUsed(q, q.free[0]);
    }
  }

  lemma TookFreeRoles(q: Queue, q': Queue, n: nat, c: Chain)
    requires Sizes(q) && FreeRoles(q) && Took(q, q', n, c)
    ensures FreeRoles(q')
  {
    forall p | 0 <= p < |q'.free|
      ensures q'.free[p] < q.size && q'.role[q'.free[p]] == Free(p)
    {
      assert q'.free[p] == q.free[p + n];
    }
  }

  lemma TookChainRoles(q: Queue, q': Queue, n: nat, c: Chain)
    requires Sizes(q) && FreeRoles(q) && ChainRoles(q) && Took(q, q', n, c)
    ensures ChainRoles(q')
  {
    forall g, p | g in q'.chains && 0 <= p < |q'.chains[g].descs|
      ensures q'.chains[g].descs[p] < q.size && q'.role[q'.chains[g].descs[p]] == Used(g, p)
    {
      if g == q.free[0] {
        assert q'.chains[g].descs[p] == q.free[p];
      } else {
        assert q.role[q.chains[g].descs[p]] == Used(g, p);
      }
    }
  }

  lemma TookAtRole(q: Queue, q': Queue, n: nat, c: Chain, d: nat)
    requires Sizes(q) && d < q.size && AtRole(q, d) && Took(q, q', n, c) && q.free[0] !in q.chains
    ensures AtRole(q', d)
  {
  }

  lemma TookPartition(q: Queue, q': Queue, n: nat, c: Chain)
    requires Partition(q) && Took(q, q', n, c) && q.free[0] !in q.chains
    ensures Partition(q')
  {
    hide FreeRoles, ChainRoles, AtRole, TakeRoles;
    TookFreeRoles(q, q', n, c);
    TookChainRoles(q, q', n, c);
    forall d | 0 <= d < q.size
      ensures AtRole(q', d)
    {
      TookAtRole(q, q', n, c, d);
    }
  }

  lemma TookLinked(q: Queue, q': Queue, n: nat, c: Chain)
    requires Partition(q) && Linked(q) && Took(q, q', n, c) && WroteOnly(q, q', n)
    ensures Linked(q')
  {
    forall p | 0 <= p < |q'.free| - 1
      ensures q'.shadow[q'.free[p]].next == q'.free[p + 1]
    {
      assert q'.free[p] == q.free[p + n] && q'.free[p + 1] == q.free[p + n + 1];
    }
  }

  lemma FreeDistinct(q: Queue, i: nat, j: nat)
    requires Partition(q) && i < |q.free| && j < |q.free|
    ensures q.free[i] < q.size && q.free[j] < q.size && (q.free[i] == q.free[j] ==> i == j)
  {
    assert q.role[q.free[i]] == Free(i) && q.role[q.free[j]] == Free(j);
  }

  lemma NotFree(q: Queue, d: nat, n: nat)
    requires Partition(q) && d < q.size && n <= |q.free|
    ensures d in q.free[..n] <==> q.role[d].Free? && q.role[d].pos < n
  {
    assert AtRole(q, d);
    if d in q.free[..n] {
      var p :| 0 <= p < n && q.free[p] == d;
      assert q.role[q.free[p]] == Free(p);
    }
  }

  /** A chain that exists keeps its meaning when nodes it does not own are written. */
  lemma TookOldChain(q: Queue, q': Queue, n: nat, g: nat)
    requires Partition(q) && ChainsOk(q) && Sizes(q') && q'.size == q.size && n <= |q.free|
    requires WroteOnly(q, q', n) && LiveGrows(q, q') && g in q.chains
    ensures if q.chains[g].table == None then DirectOk(q', g, q.chains[g]) else IndirectOk(q', g, q.chains[g])
  {
    var c := q.chains[g];
    forall i | 0 <= i < |c.descs|
      ensures c.descs[i] < q.size && q'.shadow[c.descs[i]] == q.shadow[c.descs[i]]
    {
      NotFree(q, c.descs[i], n);
    }
    HeadUsed(q, g);
  }

  lemma TookKeeps(q: Queue, q': Queue, n: nat, c: Chain)
    requires Inv(q) && Took(q, q', n, c) && WroteOnly(q, q', n) && LiveGrows(q, q')
    requires if c.table == None then DirectOk(q', q.free[0], c) else IndirectOk(q', q.free[0], c)
    requires forall d :: 0 <= d < q.size ==> q'.lists[d] == if d == q.free[0] then c.table else q.lists[d]
    requires forall p :: p in q'.live && p !in q.live ==>
               match p
               case Direct(d) => d in q.free[..n]
               case Entry(g, i) => g == q.free[0] && c.table.Some? && i < |c.bufs|
    ensures Inv(q')
  {
    FreeHeadIsNew(q);
    TookPartition(q, q', n, c);
    TookLinked(q, q', n, c);
    forall g | g in q'.chains
      ensures if q'.chains[g].table == None then DirectOk(q', g, q'.chains[g]) else IndirectOk(q', g, q'.chains[g])
    {
      if g != q.free[0] {
        TookOldChain(q, q', n, g);
      }
    }
    TookCoherent(q, q', n, c);
  }

  lemma TookCoherent(q: Queue, q': Queue, n: nat, c: Chain)
    requires Partition(q) && Coherent(q) && Took(q, q', n, c) && WroteOnly(q, q', n) && q.free[0] !in q.chains
    requires forall d :: 0 <= d < q.size ==> q'.lists[d] == if d == q.free[0] then c.table else q.lists[d]
    requires forall p :: p in q'.live && p !in q.live ==>
               match p
               case Direct(d) => d in q.free[..n]
               case Entry(g, i) => g == q.free[0] && c.table.Some? && i < |c.bufs|
    ensures Coherent(q')
  {
    forall d | 0 <= d < q.size && d in q.free[..n]
      ensures q'.role[d].Used?
    {
      var p :| 0 <= p < n && q.free[p] == d;
      assert q.role[q.free[p]] == Free(p);
    }
    forall d | 0 <= d < q.size && q'.role[d].Used?
      ensures q'.desc[d] == q'.shadow[d]
    {
      assert AtRole(q, d);
    }
  }

  // ----- Returning nodes -----

  /** Roles after chain `h` went back to the front of the free list. */
  ghost function ReturnRoles(q: Queue, h: nat): (r: seq<Role>)
    requires |q.role| == q.size && h in q.chains
    ensures |r| == q.size
  {
    seq(q.size, d requires 0 <= d < q.size =>
      match q.role[d]
      case Free(p) => Free(p + |q.chains[h].descs|)
      case Used(g, p) => if g == h then Free(p) else q.role[d])
  }

  /** The mapping at `p` was made for chain `h`. */
  ghost predicate OwnedBy(q: Queue, h: nat, p: Place)
    requires h in q.chains
  {
    match p
    case Direct(d) => d in q.chains[h].descs
    case Entry(g, _) => g == h
  }

  /** Chain `h` goes back to the front of the free list, in its own order. */
  ghost predicate Returned(q: Queue, q': Queue, h: nat) {
    && Sizes(q) && Sizes(q') && q'.size == q.size && h in q.chains
    && q'.free == q.chains[h].descs + q.free && q'.freeHead == h
    && q'.chains == q.chains - {h} && q'.role == ReturnRoles(q, h)
    && (forall d :: 0 <= d < q.size ==> q'.lists[d] == if d == h then None else q.lists[d])
  }

  ghost predicate Rethreaded(q: Queue, q': Queue, h: nat)
    requires Sizes(q) && Sizes(q') && q'.size == q.size && h in q.chains
  {
    var c := q.chains[h];
    && (forall i :: 0 <= i < |c.descs| ==> c.descs[i] < q.size)
    && (forall d :: 0 <= d < q.size && d !in c.descs ==> q'.shadow[d] == q.shadow[d] && q'.desc[d] == q.desc[d])
    && (forall i :: 0 <= i < |c.descs| - 1 ==> q'.shadow[c.descs[i]].next == c.descs[i + 1])
    && (|c.descs| > 0 ==> q'.shadow[c.descs[|c.descs| - 1]].next == q.freeHead)
  }

  /** Exactly the mappings of chain `h` are gone. */
  ghost predicate Unshared(q: Queue, q': Queue, h: nat)
    requires h in q.chains
  {
    && (forall p :: p in q'.live <==> p in q.live && !OwnedBy(q, h, p))
    && (forall p :: p in q'.live ==> q'.live[p] == q.live[p])
  }

  lemma ReturnedFreeRoles(q: Queue, q': Queue, h: nat)
    requires Sizes(q) && FreeRoles(q) && ChainRoles(q) && Returned(q, q', h)
    ensures FreeRoles(q')
  {
    var c := q.chains[h];
    forall p | 0 <= p < |q'.free|
      ensures q'.free[p] < q.size && q'.role[q'.free[p]] == Free(p)
    {
      if p < |c.descs| {
        assert q.role[c.descs[p]] == Used(h, p);
      } else {
        assert q.role[q.free[p - |c.descs|]] == Free(p - |c.descs|);
      }
    }
  }

  lemma ReturnedChainRoles(q: Queue, q': Queue, h: nat)
    requires Sizes(q) && ChainRoles(q) && Returned(q, q', h)
    ensures ChainRoles(q')
  {
    forall g, p | g in q'.chains && 0 <= p < |q'.chains[g].descs|
      ensures q'.chains[g].descs[p] < q.size && q'.role[q'.chains[g].descs[p]] == Used(g, p)
    {
      assert q.role[q.chains[g].descs[p]] == Used(g, p);
    }
  }

  lemma ReturnedAtRole(q: Queue, q': Queue, h: nat, d: nat)
    requires Sizes(q) && d < q.size && AtRole(q, d) && Returned(q, q', h)
    ensures AtRole(q', d)
  {
  }

  lemma ReturnedPartition(q: Queue, q': Queue, h: nat)
    requires Partition(q) && Returned(q, q', h)
    ensures Partition(q')
  {
    hide FreeRoles, ChainRoles, AtRole, ReturnRoles;
    ReturnedFreeRoles(q, q', h);
    ReturnedChainRoles(q, q', h);
    forall d | 0 <= d < q.size
      ensures AtRole(q', d)
    {
      ReturnedAtRole(q, q', h, d);
    }
  }

  /** No descriptor of another chain or of the free list is in chain `h`. */
  lemma NotInChain(q: Queue, h: nat, d: nat)
    requires Partition(q) && h in q.chains && d < q.size
    ensures d in q.chains[h].descs <==> q.role[d].Used? && q.role[d].head == h
  {
    assert AtRole(q, d);
    if d in q.chains[h].descs {
      var i :| 0 <= i < |q.chains[h].descs| && q.chains[h].descs[i] == d;
      assert q.role[q.chains[h].descs[i]] == Used(h, i);
    }
  }

  lemma ReturnedLinked(q: Queue, q': Queue, h: nat)
    requires Partition(q) && Linked(q) && ChainsOk(q) && Returned(q, q', h) && Rethreaded(q, q', h)
    ensures Linked(q')
  {
    HeadUsed(q, h);
    var c := q.chains[h];
    var n := |c.descs|;
    forall p | 0 <= p < |q'.free| - 1
      ensures q'.shadow[q'.free[p]].next == q'.free[p + 1]
    {
      if p >= n {
        assert q'.free[p] == q.free[p - n] && q'.free[p + 1] == q.free[p - n + 1];
        NotInChain(q, h, q.free[p - n]);
      } else if p == n - 1 {
        assert q'.free[p + 1] == q.free[0];
      }
    }
  }

  lemma ReturnedOldChain(q: Queue, q': Queue, h: nat, g: nat)
    requires Partition(q) && ChainsOk(q) && Returned(q, q', h) && Rethreaded(q, q', h) && Unshared(q, q', h)
    requires g in q.chains && g != h
    ensures if q.chains[g].table == None then DirectOk(q', g, q.chains[g]) else IndirectOk(q', g, q.chains[g])
  {
    var c := q.chains[g];
    forall i | 0 <= i < |c.descs|
      ensures c.descs[i] < q.size && q'.shadow[c.descs[i]] == q.shadow[c.descs[i]] && !OwnedBy(q, h, Direct(c.descs[i]))
    {
      NotInChain(q, h, c.descs[i]);
    }
    HeadUsed(q, g);
  }

  lemma ReturnedKeeps(q: Queue, q': Queue, h: nat)
    requires Inv(q) && Returned(q, q', h) && Rethreaded(q, q', h) && Unshared(q, q', h)
    ensures Inv(q')
  {
    ReturnedPartition(q, q', h);
    ReturnedLinked(q, q', h);
    forall g | g in q'.chains
      ensures if q'.chains[g].table == None then DirectOk(q', g, q'.chains[g]) else IndirectOk(q', g, q'.chains[g])
    {
      ReturnedOldChain(q, q', h, g);
    }
    ReturnedCoherent(q, q', h);
  }

  lemma ReturnedCoherent(q: Queue, q': Queue, h: nat)
    requires Partition(q) && Coherent(q) && ChainsOk(q) && Returned(q, q', h) && Rethreaded(q, q', h)
             && Unshared(q, q', h)
    ensures Coherent(q')
  {
    hide ChainRoles, FreeRoles, AtRole, DirectOk, IndirectOk;
    HeadUsed(q, h);
    forall d | 0 <= d < q.size && q'.role[d].Used?
      ensures q'.desc[d] == q'.shadow[d]
    {
      NotInChain(q, h, d);
    }
    forall p | p in q'.live
      ensures match p
              case Direct(d) => d < q.size && q'.role[d].Used?
              case Entry(g, i) => g in q'.chains && q'.chains[g].table.Some? && i < |q'.chains[g].bufs|
    {
      if p.Direct? {
        NotInChain(q, h, p.d);
      }
    }
  }

  // ----- Filling a direct chain -----

  /** `set_buf` on a free descriptor, with the flag the loop of `add_direct` gives it. */
  function SetBuf(d: Desc, addr: nat, b: (Buf, Dir)): Desc {
    d.(addr := addr, len := b.0.len, fNext := true, fWrite := b.1.DeviceToDriver?, fIndirect := false)
  }

  ghost predicate Filled(q: Queue, q1: Queue, bufs: seq<(Buf, Dir)>, i: nat)
    requires Sizes(q) && Sizes(q1) && i <= |bufs| <= |q.free| && q1.size == q.size
  {
    forall j :: 0 <= j < i ==>
      && q.free[j] < q.size
      && q1.shadow[q.free[j]] == SetBuf(q.shadow[q.free[j]], q1.shadow[q.free[j]].addr, bufs[j])
      && Direct(q.free[j]) in q1.live
      && q1.live[Direct(q.free[j])] == Mapping(q1.shadow[q.free[j]].addr, User(bufs[j].0), bufs[j].1)
  }

  /** `q1` is `q` after the first `i` buffers were written to the first `i` free nodes. */
  ghost predicate Filling(q: Queue, q1: Queue, bufs: seq<(Buf, Dir)>, i: nat) {
    && Sizes(q) && Sizes(q1) && i <= |bufs| <= |q.free|
    && q1 == q.(shadow := q1.shadow, desc := q1.desc, live := q1.live, freeHead := q1.freeHead)
    && (i < |q.free| ==> q1.freeHead == q.free[i])
    && WroteOnly(q, q1, i) && LiveGrows(q, q1) && Filled(q, q1, bufs, i)
    && (forall p :: p in q1.live && p !in q.live ==> p.Direct? && p.d in q.free[..i])
  }

  /** The queue after one more buffer. */
  function Fill(q: Queue, addr: nat, b: (Buf, Dir)): Queue
    requires q.freeHead < |q.shadow| == |q.desc|
  {
    var d := q.freeHead;
    var x := SetBuf(q.shadow[d], addr, b);
    q.(shadow := q.shadow[d := x], desc := q.desc[d := x], freeHead := x.next,
       live := q.live[Direct(d) := Mapping(addr, User(b.0), b.1)])
  }

  /** The node about to be filled is free, unshared and none of those filled before. */
  lemma FillTarget(q: Queue, q1: Queue, bufs: seq<(Buf, Dir)>, i: nat)
    requires Inv(q) && Filling(q, q1, bufs, i) && i < |bufs|
    ensures q1.freeHead == q.free[i] < q.size && Direct(q1.freeHead) !in q1.live
    ensures q1.freeHead !in q.free[..i] && q.free[..i + 1] == q.free[..i] + [q1.freeHead]
    ensures forall j :: 0 <= j < i ==> q.free[j] != q1.freeHead
    ensures i + 1 < |q.free| ==> q.shadow[q.free[i]].next == q.free[i + 1]
  {
    hide ChainsOk, ChainRoles, AtRole, WroteOnly, Filled;
    assert q.role[q.free[i]] == Free(i);
    NotFree(q, q.free[i], i);
    forall j | 0 <= j < i
      ensures q.free[j] != q.free[i]
    {
      assert q.role[q.free[j]] == Free(j);
    }
  }

  lemma FillStep(q: Queue, q1: Queue, bufs: seq<(Buf, Dir)>, i: nat, addr: nat)
    requires Inv(q) && Filling(q, q1, bufs, i) && i < |bufs|
    ensures q1.freeHead < q.size && Direct(q1.freeHead) !in q1.live
    ensures Filling(q, Fill(q1, addr, bufs[i]), bufs, i + 1)
  {
    hide Inv, WroteOnly, Filled;
    FillTarget(q, q1, bufs, i);
    FillWrites(q, q1, i, addr, bufs[i]);
    FillFills(q, q1, bufs, i, addr);
  }

  lemma FillWrites(q: Queue, q1: Queue, i: nat, addr: nat, b: (Buf, Dir))
    requires Sizes(q) && Sizes(q1) && q1.size == q.size && i < |q.free| && q1.freeHead < q.size && WroteOnly(q, q1, i)
    requires q1.freeHead !in q.free[..i] && q.free[..i + 1] == q.free[..i] + [q1.freeHead]
    ensures Sizes(Fill(q1, addr, b)) && WroteOnly(q, Fill(q1, addr, b), i + 1)
    ensures Fill(q1, addr, b).freeHead == q.shadow[q1.freeHead].next
  {
  }

  lemma FillFills(q: Queue, q1: Queue, bufs: seq<(Buf, Dir)>, i: nat, addr: nat)
    requires Sizes(q) && Sizes(q1) && q1.size == q.size && i < |bufs| <= |q.free| && Filled(q, q1, bufs, i)
             && WroteOnly(q, q1, i)
    requires q1.freeHead == q.free[i] < q.size && q1.freeHead !in q.free[..i] && forall j :: 0 <= j < i ==>
             q.free[j] != q1.freeHead
    ensures Sizes(Fill(q1, addr, bufs[i])) && Filled(q, Fill(q1, addr, bufs[i]), bufs, i + 1)
  {
  }

  lemma FillStart(q: Queue, bufs: seq<(Buf, Dir)>)
    requires Inv(q) && |bufs| <= |q.free|
    ensures Filling(q, q, bufs, 0)
  {
  }

  /** Clear the last NEXT flag and hand the nodes over to the new chain. */
  ghost function Finish(q: Queue, q1: Queue, bufs: seq<(Buf, Dir)>): Queue
    requires Filling(q, q1, bufs, |bufs|) && |bufs| > 0
  {
    var n := |bufs|;
    var last := q.free[n - 1];
    var x := q1.shadow[last].(fNext := false);
    q1.(shadow := q1.shadow[last := x], desc := q1.desc[last := x], numUsed := q.numUsed + n,
        free := q.free[n..], role := TakeRoles(q, n), chains := q.chains[q.free[0] := Chain(q.free[..n], bufs, None)])
  }

  lemma FinishKeeps(q: Queue, q1: Queue, bufs: seq<(Buf, Dir)>)
    requires Inv(q) && Filling(q, q1, bufs, |bufs|) && |bufs| > 0
    ensures Inv(Finish(q, q1, bufs))
  {
    hide ChainsOk, AtRole, TakeRoles, Filled, DirectOk, ChainRoles;
    var n := |bufs|;
    var q' := Finish(q, q1, bufs);
    var c := Chain(q.free[..n], bufs, None);
    var last := q.free[n - 1];
    forall j | 0 <= j < n
      ensures q.role[q.free[j]] == Free(j) && (j < n - 1 ==> q.free[j] != last)
    {
    }
    assert last in q.free[..n];
    assert WroteOnly(q, q', n);
    assert q.free[0] !in q.chains by { FreeHeadIsNew(q); }
    FinishDirect(q, q1, bufs);
    TookKeeps(q, q', n, c);
  }

  lemma FinishAt(q: Queue, q1: Queue, bufs: seq<(Buf, Dir)>, j: nat)
    requires Partition(q) && Linked(q) && Filling(q, q1, bufs, |bufs|) && j < |bufs|
    ensures var q' := Finish(q, q1, bufs);
            && Sizes(q') && q.free[j] < q.size
            && Describes(q'.shadow[q.free[j]], bufs[j], j, |bufs|)
            && q'.shadow[q.free[j]].next == q.shadow[q.free[j]].next
            && (j < |bufs| - 1 ==> q.shadow[q.free[j]].next == q.free[j + 1])
            && Direct(q.free[j]) in q'.live
            && q'.live[Direct(q.free[j])] == Mapping(q'.shadow[q.free[j]].addr, User(bufs[j].0), bufs[j].1)
  {
    hide Partition, Filled, LiveGrows, WroteOnly, TakeRoles, SetBuf;
    FreeDistinct(q, j, |bufs| - 1);
    FilledAt(q, q1, bufs, j);
    SetBufIs(q.shadow[q.free[j]], q1.shadow[q.free[j]].addr, bufs[j]);
  }

  lemma FilledAt(q: Queue, q1: Queue, bufs: seq<(Buf, Dir)>, j: nat)
    requires Sizes(q) && Sizes(q1) && q1.size == q.size && j < |bufs| <= |q.free| && Filled(q, q1, bufs, |bufs|)
    ensures q.free[j] < q.size
            && q1.shadow[q.free[j]] == SetBuf(q.shadow[q.free[j]], q1.shadow[q.free[j]].addr, bufs[j])
    ensures Direct(q.free[j]) in q1.live
            && q1.live[Direct(q.free[j])] == Mapping(q1.shadow[q.free[j]].addr, User(bufs[j].0), bufs[j].1)
  {
  }

  lemma SetBufIs(d: Desc, addr: nat, b: (Buf, Dir))
    ensures Describes(SetBuf(d, addr, b), b, 0, 2) && Describes(SetBuf(d, addr, b).(fNext := false), b, 0, 1)
    ensures SetBuf(d, addr, b).next == d.next
  {
  }

  lemma FinishDirect(q: Queue, q1: Queue, bufs: seq<(Buf, Dir)>)
    requires Partition(q) && Linked(q) && Filling(q, q1, bufs, |bufs|) && |bufs| > 0
    ensures Sizes(Finish(q, q1, bufs)) && DirectOk(Finish(q, q1, bufs), q.free[0], Chain(q.free[..|bufs|], bufs, None))
  {
    hide Partition, Linked, Finish, WroteOnly, LiveGrows, Filled, Describes;
    var q' := Finish(q, q1, bufs);
    FinishAt(q, q1, bufs, 0);
    assert q'.size == q.size by { FinishSize(q, q1, bufs); }
    forall j | 0 <= j < |bufs|
      ensures q.free[j] < q.size && Describes(q'.shadow[q.free[j]], bufs[j], j, |bufs|)
      ensures j < |bufs| - 1 ==> q'.shadow[q.free[j]].next == q.free[j + 1]
      ensures Direct(q.free[j]) in q'.live
      ensures q'.live[Direct(q.free[j])] == Mapping(q'.shadow[q.free[j]].addr, User(bufs[j].0), bufs[j].1)
    {
      FinishAt(q, q1, bufs, j);
    }
  }

  lemma FinishSize(q: Queue, q1: Queue, bufs: seq<(Buf, Dir)>)
    requires Filling(q, q1, bufs, |bufs|) && |bufs| > 0
    ensures Finish(q, q1, bufs).size == q.size
  {
  }

  lemma FillBounds(q: Queue, q1: Queue, bufs: seq<(Buf, Dir)>, i: nat)
    requires Inv(q) && Filling(q, q1, bufs, i) && i < |bufs|
    ensures q1.freeHead == q.free[i] < |q1.shadow| == |q1.desc| && Direct(q1.freeHead) !in q1.live
  {
    hide Inv;
    FillTarget(q, q1, bufs, i);
  }

  lemma FinishIs(q: Queue, q1: Queue, bufs: seq<(Buf, Dir)>)
    requires Filling(q, q1, bufs, |bufs|) && |bufs| > 0
    ensures q.free[|bufs| - 1] < |q1.shadow| == |q1.desc| && |q.role| == q.size && |bufs| <= |q.free|
    ensures var n := |bufs|; var last := q.free[n - 1]; var x := q1.shadow[last].(fNext := false);
            Finish(q, q1, bufs) == q1.(shadow := q1.shadow[last := x], desc := q1.desc[last := x],
                numUsed := q.numUsed + n,
              free := q.free[n..], role := TakeRoles(q, n),
                  chains := q.chains[q.free[0] := Chain(q.free[..n], bufs, None)])
  {
    hide WroteOnly, LiveGrows, TakeRoles;
  }

  // ----- Indirect chains -----

  /** Entry `i` of an indirect table of `n` descriptors. */
  function TableEntry(addr: nat, b: (Buf, Dir), i: nat, n: nat): Desc {
    Desc(addr, b.0.len, i + 1, i + 1 < n, b.1.DeviceToDriver?, false)
  }

  /** `list` describes the first `|list|` buffers, each shared at the address its entry holds; the
      NEXT flag is on before entry `n - 1`. */
  ghost predicate Tabled(live: map<Place, Mapping>, live1: map<Place, Mapping>, h: nat, bufs: seq<(Buf, Dir)>,
      list: seq<Desc>, n: nat) {
    && |list| <= |bufs|
    && (forall i :: 0 <= i < |list| ==>
          && list[i] == TableEntry(list[i].addr, bufs[i], i, n)
          && Entry(h, i) in live1 && live1[Entry(h, i)] == Mapping(list[i].addr, User(bufs[i].0), bufs[i].1))
    && (forall p :: p in live ==> p in live1 && live1[p] == live[p])
    && (forall p :: p in live1 && p !in live ==> p.Entry? && p.head == h && p.i < |list|)
  }

  lemma TableStep(live: map<Place, Mapping>, live1: map<Place, Mapping>, h: nat, bufs: seq<(Buf, Dir)>,
      list: seq<Desc>, addr: nat)
    requires Tabled(live, live1, h, bufs, list, |bufs| + 1) && |list| < |bufs|
    requires forall i :: Entry(h, i) !in live
    ensures Entry(h, |list|) !in live1
    ensures var b := bufs[|list|];
            Tabled(live, live1[Entry(h, |list|) := Mapping(addr, User(b.0), b.1)], h, bufs,
              list + [Desc(addr, b.0.len, |list| + 1, true, b.1.DeviceToDriver?, false)], |bufs| + 1)
  {
  }

  lemma TableDone(live: map<Place, Mapping>, live1: map<Place, Mapping>, h: nat, bufs: seq<(Buf, Dir)>, list: seq<Desc>)
    requires Tabled(live, live1, h, bufs, list, |bufs| + 1) && |list| == |bufs| > 0
    ensures Tabled(live, live1, h, bufs, list[|list| - 1 := list[|list| - 1].(fNext := false)], |bufs|)
  {
  }

  ghost function WithTable(q: Queue, live1: map<Place, Mapping>, bufs: seq<(Buf, Dir)>, list: seq<Desc>,
      addr: nat): Queue
    requires Sizes(q) && |q.free| > 0 && q.freeHead < q.size
  {
    var h := q.freeHead;
    var x := Desc(addr, 16 * |list|, q.shadow[h].next, false, false, true);
    q.(shadow := q.shadow[h := x], desc := q.desc[h := x], lists := q.lists[h := Some(list)],
       freeHead := x.next, numUsed := q.numUsed + 1, free := q.free[1..], role := TakeRoles(q, 1),
       chains := q.chains[h := Chain([h], bufs, Some(list))],
       live := live1[Direct(h) := Mapping(addr, Table(list), DriverToDevice)])
  }

  lemma HeadFacts(q: Queue)
    requires Inv(q) && |q.free| > 0
    ensures q.freeHead == q.free[0] < q.size && q.freeHead !in q.chains
    ensures q.lists[q.freeHead] == None && q.role[q.freeHead] == Free(0)
    ensures Direct(q.freeHead) !in q.live && forall i :: Entry(q.freeHead, i) !in q.live
  {
    FreeHeadIsNew(q);
    assert q.role[q.free[0]] == Free(0);
  }

  lemma WithTableKeeps(q: Queue, live1: map<Place, Mapping>, bufs: seq<(Buf, Dir)>, list: seq<Desc>, addr: nat)
    requires Inv(q) && |q.free| > 0 && |list| == |bufs| > 1 && Tabled(q.live, live1, q.freeHead, bufs, list, |bufs|)
    ensures q.freeHead < q.size && Inv(WithTable(q, live1, bufs, list, addr))
  {
    hide ChainsOk, ChainRoles, AtRole, TakeRoles;
    HeadFacts(q);
    var q' := WithTable(q, live1, bufs, list, addr);
    assert q.free[..1] == [q.freeHead];
    if |q.free| > 1 {
      assert q.shadow[q.free[0]].next == q.free[0 + 1];
    }
    TookKeeps(q, q', 1, Chain([q.freeHead], bufs, Some(list)));
  }

  // ----- Recycling a chain -----

  /** `unset_buf`, and the link to the old free list on the last node. */
  function Unset(d: Desc, oldHead: nat): Desc {
    d.(addr := 0, len := 0, next := if d.fNext then d.next else oldHead)
  }

  /** `Descriptor::next` */
  function NextOf(d: Desc): Option<nat> {
    if d.fNext then Some(d.next) else None
  }

  ghost predicate Blanked(q: Queue, q1: Queue, descs: seq<nat>, i: nat)
    requires |q.shadow| == |q.desc| == |q1.shadow| == |q1.desc| == q.size && i <= |descs|
  {
    && (forall d :: 0 <= d < q.size && d !in descs[..i] ==> q1.shadow[d] == q.shadow[d] && q1.desc[d] == q.desc[d])
    && (forall j :: 0 <= j < i ==> descs[j] < q.size && q1.shadow[descs[j]] == Unset(q.shadow[descs[j]], q.freeHead))
  }

  ghost predicate Dropped(q: Queue, q1: Queue, descs: seq<nat>, i: nat)
    requires i <= |descs|
  {
    && (forall p :: p in q1.live <==> p in q.live && !(p.Direct? && p.d in descs[..i]))
    && (forall p :: p in q1.live ==> q1.live[p] == q.live[p])
  }

  /** `q1` is `q` after the first `i` descriptors of the direct chain `h` were recycled. */
  ghost predicate Recycling(q: Queue, q1: Queue, h: nat, i: nat) {
    && Sizes(q) && h in q.chains && i <= |q.chains[h].descs| && i <= q.numUsed
    && q1 == q.(shadow := q1.shadow, desc := q1.desc, live := q1.live, freeHead := h, numUsed := q.numUsed - i)
    && |q1.shadow| == |q1.desc| == q.size
    && Blanked(q, q1, q.chains[h].descs, i) && Dropped(q, q1, q.chains[h].descs, i)
  }

  function Recycle(q: Queue, d: nat, oldHead: nat): Queue
    requires d < |q.shadow| == |q.desc| && q.numUsed > 0
  {
    var x := Unset(q.shadow[d], oldHead);
    q.(shadow := q.shadow[d := x], desc := q.desc[d := x], numUsed := q.numUsed - 1, live := q.live - {Direct(d)})
  }

  /** A direct chain is no longer than the number of used descriptors, and its nodes differ. */
  lemma ChainDistinct(q: Queue, h: nat, i: nat)
    requires Inv(q) && h in q.chains && i < |q.chains[h].descs|
    ensures q.chains[h].descs[i] < q.size && q.chains[h].descs[i] !in q.chains[h].descs[..i]
  {
    hide ChainsOk, Linked, Coherent, FreeRoles, AtRole;
    assert q.role[q.chains[h].descs[i]] == Used(h, i);
    forall j | 0 <= j < i
      ensures q.chains[h].descs[j] != q.chains[h].descs[i]
    {
      assert q.role[q.chains[h].descs[j]] == Used(h, j);
    }
  }

  /** The next descriptor to recycle is the one `next` names, still shared at its own address. */
  lemma RecycleTarget(q: Queue, q1: Queue, h: nat, i: nat)
    requires Inv(q) && h in q.chains && q.chains[h].table == None && Recycling(q, q1, h, i) && i < |q.chains[h].descs|
    ensures var c := q.chains[h]; var d := c.descs[i];
            && d < q.size && d !in c.descs[..i] && |c.bufs| == |c.descs|
            && Direct(d) in q1.live && q1.live[Direct(d)] == Mapping(q1.shadow[d].addr, User(c.bufs[i].0), c.bufs[i].1)
            && NextOf(q1.shadow[d]) == (if i + 1 < |c.descs| then Some(c.descs[i + 1]) else None)
  {
    hide Partition, Linked, Coherent;
    assert DirectOk(q, h, q.chains[h]);
    ChainDistinct(q, h, i);
    assert Describes(q.shadow[q.chains[h].descs[i]], q.chains[h].bufs[i], i, |q.chains[h].descs|);
  }

  lemma RecycleStep(q: Queue, q1: Queue, h: nat, i: nat)
    requires Inv(q) && h in q.chains && q.chains[h].table == None && Recycling(q, q1, h, i) && i < |q.chains[h].descs|
    requires i < q.numUsed
    ensures q.chains[h].descs[i] < q.size && Recycling(q, Recycle(q1, q.chains[h].descs[i], q.freeHead), h, i + 1)
  {
    hide Inv, Blanked, Dropped, Unset;
    var descs := q.chains[h].descs;
    RecycleTarget(q, q1, h, i);
    assert descs[..i + 1] == descs[..i] + [descs[i]];
    BlankStep(q, q1, descs, i);
    DropStep(q, q1, descs, i);
  }

  lemma BlankStep(q: Queue, q1: Queue, descs: seq<nat>, i: nat)
    requires |q.shadow| == |q.desc| == |q1.shadow| == |q1.desc| == q.size && i < |descs| && q1.numUsed > 0
    requires Blanked(q, q1, descs, i) && descs[i] < q.size && descs[i] !in descs[..i]
             && descs[..i + 1] == descs[..i] + [descs[i]]
    ensures Blanked(q, Recycle(q1, descs[i], q.freeHead), descs, i + 1)
  {
    hide Unset;
  }

  lemma DropStep(q: Queue, q1: Queue, descs: seq<nat>, i: nat)
    requires |q1.shadow| == |q1.desc| && i < |descs| && descs[i] < |q1.shadow| && q1.numUsed > 0
    requires Dropped(q, q1, descs, i) && descs[..i + 1] == descs[..i] + [descs[i]]
    ensures Dropped(q, Recycle(q1, descs[i], q.freeHead), descs, i + 1)
  {
    hide Unset;
  }

  ghost function Freed(q: Queue, q1: Queue, h: nat): Queue
    requires |q.role| == q.size && h in q.chains && h < |q1.lists|
  {
    q1.(free := q.chains[h].descs + q.free, role := ReturnRoles(q, h), chains := q.chains - {h},
        lists := q1.lists[h := None])
  }

  lemma FreedRethreaded(q: Queue, q1: Queue, h: nat)
    requires Sizes(q) && h in q.chains && DirectOk(q, h, q.chains[h]) && Recycling(q, q1, h, |q.chains[h].descs|)
    requires Sizes(Freed(q, q1, h))
    ensures Rethreaded(q, Freed(q, q1, h), h)
  {
    var c := q.chains[h];
    assert c.descs[..|c.descs|] == c.descs;
    forall i | 0 <= i < |c.descs|
      ensures c.descs[i] < q.size
              && q1.shadow[c.descs[i]].next == if i + 1 < |c.descs| then c.descs[i + 1] else q.freeHead
    {
      assert Describes(q.shadow[c.descs[i]], c.bufs[i], i, |c.descs|);
    }
  }

  lemma FreedUnshared(q: Queue, q1: Queue, h: nat)
    requires h in q.chains && h < q.size && Recycling(q, q1, h, |q.chains[h].descs|)
    requires forall p :: p in q.live && p.Entry? ==> p.head != h
    ensures Unshared(q, Freed(q, q1, h), h)
  {
    var c := q.chains[h];
    assert c.descs[..|c.descs|] == c.descs;
  }

  lemma FreedKeeps(q: Queue, q1: Queue, h: nat)
    requires Inv(q) && h in q.chains && q.chains[h].table == None && Recycling(q, q1, h, |q.chains[h].descs|)
    ensures h < q.size && q.lists[h] == None && Inv(Freed(q, q1, h)) && Freed(q, q1, h).lists == q.lists
  {
    hide AtRole, FreeRoles, ChainRoles, ReturnRoles, Rethreaded, Unshared, DirectOk, IndirectOk, Linked;
    HeadUsed(q, h);
    assert DirectOk(q, h, q.chains[h]);
    FreedRethreaded(q, q1, h);
    FreedUnshared(q, q1, h);
    assert q.lists[h := None] == q.lists;
    ReturnedKeeps(q, Freed(q, q1, h), h);
  }

  /** An indirect chain is recycled in one go; the device's copy of its descriptor is not written. */
  ghost function FreedTable(q: Queue, h: nat): Queue
    requires Sizes(q) && h in q.chains && h < q.size && q.numUsed > 0
  {
    var c := q.chains[h];
    q.(shadow := q.shadow[h := q.shadow[h].(addr := 0, len := 0, next := q.freeHead)], numUsed := q.numUsed - 1,
        freeHead := h,
       lists := q.lists[h := None], free := c.descs + q.free, role := ReturnRoles(q, h), chains := q.chains - {h},
       live := map p | p in q.live && !OwnedBy(q, h, p) :: q.live[p])
  }

  lemma FreedTableKeeps(q: Queue, h: nat)
    requires Inv(q) && h in q.chains && q.chains[h].table.Some? && q.numUsed > 0
    ensures h < q.size && Inv(FreedTable(q, h))
  {
    hide AtRole, FreeRoles, ChainRoles, ReturnRoles, Coherent;
    HeadUsed(q, h);
    assert IndirectOk(q, h, q.chains[h]);
    ReturnedKeeps(q, FreedTable(q, h), h);
  }

  /** What is left shared once the table and its first `i` buffers were unshared. */
  ghost predicate Unsharing(q: Queue, live1: map<Place, Mapping>, h: nat, i: nat) {
    && (forall p :: p in live1 <==> p in q.live && p != Direct(h) && !(p.Entry? && p.head == h && p.i < i))
    && (forall p :: p in live1 ==> live1[p] == q.live[p])
  }

  /** The table to recycle is remembered, and each of its buffers is shared at the address it holds. */
  lemma TableTarget(q: Queue, h: nat)
    requires Inv(q) && h in q.chains && q.chains[h].table.Some?
    ensures h < q.size && q.shadow[h].fIndirect && !q.shadow[h].fNext && q.lists[h] == q.chains[h].table
    ensures |q.chains[h].table.value| == |q.chains[h].bufs|
    ensures Direct(h) in q.live
            && q.live[Direct(h)] == Mapping(q.shadow[h].addr, Table(q.lists[h].value), DriverToDevice)
    ensures forall i :: 0 <= i < |q.chains[h].bufs| ==>
              && Entry(h, i) in q.live
              && q.live[Entry(h, i)]
                 == Mapping(q.chains[h].table.value[i].addr, User(q.chains[h].bufs[i].0), q.chains[h].bufs[i].1)
  {
    hide Partition, Linked;
    assert IndirectOk(q, h, q.chains[h]);
  }

  lemma TableUnshared(q: Queue, live1: map<Place, Mapping>, h: nat)
    requires Inv(q) && h in q.chains && q.chains[h].table.Some? && Unsharing(q, live1, h, |q.chains[h].bufs|)
    requires h < q.size && q.numUsed > 0
    ensures Sizes(q) && live1 == FreedTable(q, h).live && q.chains[h].descs == [h]
  {
    hide Partition, Linked;
    assert IndirectOk(q, h, q.chains[h]);
    assert forall p :: p in q.live ==>
        (OwnedBy(q, h, p) <==> p == Direct(h) || (p.Entry? && p.head == h && p.i < |q.chains[h].bufs|));
  }

  lemma UnsharingStart(q: Queue, live1: map<Place, Mapping>, h: nat)
    requires live1 == q.live - {Direct(h)}
    ensures Unsharing(q, live1, h, 0)
  {
  }

  lemma FreedTableIs(q: Queue, live1: map<Place, Mapping>, h: nat)
    requires Inv(q) && h in q.chains && q.chains[h].table.Some? && Unsharing(q, live1, h, |q.chains[h].bufs|)
    requires h < q.size && q.numUsed > 0
    ensures |q.shadow| == |q.lists| == |q.role| == q.size && q.chains[h].descs == [h]
    ensures FreedTable(q, h) == q.(shadow := q.shadow[h := q.shadow[h].(addr := 0, len := 0, next := q.freeHead)],
              numUsed := q.numUsed - 1, freeHead := h, lists := q.lists[h := None], free := [h] + q.free,
              role := ReturnRoles(q, h), chains := q.chains - {h}, live := live1)
    ensures Unshared(q, FreedTable(q, h), h)
  {
    hide Inv, ReturnRoles, Unsharing;
    TableUnshared(q, live1, h);
  }

  lemma DirectTarget(q: Queue, h: nat)
    requires Inv(q) && h in q.chains && q.chains[h].table.None?
    ensures h < q.size && !q.shadow[h].fIndirect && q.chains[h].descs != [] && q.chains[h].descs[0] == h
    ensures |q.chains[h].bufs| == |q.chains[h].descs|
    ensures Recycling(q, q.(freeHead := h), h, 0)
  {
    hide Partition, Linked;
    assert DirectOk(q, h, q.chains[h]);
    assert Describes(q.shadow[q.chains[h].descs[0]], q.chains[h].bufs[0], 0, |q.chains[h].descs|);
  }

  // ----- What the device reads -----

  /** The indices a device visits in a table from index `d`, following NEXT. */
  function Walk(table: seq<Desc>, d: nat, fuel: nat): seq<nat>
    decreases fuel
  {
    if fuel == 0 || d >= |table| then []
        else [d] + (if table[d].fNext then Walk(table, table[d].next, fuel - 1) else [])
  }

  lemma {:induction false} WalkAlong(table: seq<Desc>, ds: seq<nat>, k: nat, fuel: nat)
    requires k < |ds| && |ds| - k <= fuel
    requires forall i :: 0 <= i < |ds| ==> ds[i] < |table| && (table[ds[i]].fNext <==> i + 1 < |ds|)
    requires forall i :: 0 <= i < |ds| - 1 ==> table[ds[i]].next == ds[i + 1]
    ensures Walk(table, ds[k], fuel) == ds[k..]
    decreases |ds| - k
  {
    if k + 1 < |ds| {
      WalkAlong(table, ds, k + 1, fuel - 1);
    }
    assert ds[k..] == [ds[k]] + ds[k + 1..];
  }

  lemma {:induction false} CountingUp(n: nat)
    ensures |Count(n)| == n && forall i :: 0 <= i < n ==> Count(n)[i] == i
  {
    if n > 0 {
      CountingUp(n - 1);
    }
  }

  function Count(n: nat): seq<nat> {
    if n == 0 then [] else Count(n - 1) + [n - 1]
  }

  /** From a direct head the device visits exactly the request's descriptors, in order, and its copy
      of each says where and how long the request's next buffer is and who writes it. */
  lemma DirectSeen(q: Queue, h: nat)
    requires Inv(q) && h in q.chains && h < q.size && !q.desc[h].fIndirect
    ensures |q.chains[h].descs| == |q.chains[h].bufs| && Walk(q.desc, h, q.size) == q.chains[h].descs
    ensures forall i :: 0 <= i < |q.chains[h].descs| ==>
              && q.chains[h].descs[i] < q.size
              && q.desc[q.chains[h].descs[i]].len == q.chains[h].bufs[i].0.len
              && (q.desc[q.chains[h].descs[i]].fWrite <==> q.chains[h].bufs[i].1 == DeviceToDriver)
              && !q.desc[q.chains[h].descs[i]].fIndirect
              && (q.desc[q.chains[h].descs[i]].fNext <==> i + 1 < |q.chains[h].bufs|)
              && Direct(q.chains[h].descs[i]) in q.live
              && q.live[Direct(q.chains[h].descs[i])]
                 == Mapping(q.desc[q.chains[h].descs[i]].addr, User(q.chains[h].bufs[i].0), q.chains[h].bufs[i].1)
  {
    hide Linked, Walk, AtRole, FreeRoles;
    var c := q.chains[h];
    HeadUsed(q, h);
    assert DirectOk(q, h, c);
    forall i | 0 <= i < |c.descs|
      ensures c.descs[i] < q.size && q.desc[c.descs[i]] == q.shadow[c.descs[i]]
    {
      assert q.role[c.descs[i]] == Used(h, i);
    }
    ChainFits(q, h);
    WalkAlong(q.desc, c.descs, 0, q.size);
  }

  /** From an indirect head the device reads the request's own table, every entry of it in order. */
  lemma TableSeen(q: Queue, h: nat)
    requires Inv(q) && h in q.chains && h < q.size && q.desc[h].fIndirect
    ensures q.chains[h].table.Some? && |q.chains[h].table.value| == |q.chains[h].bufs|
    ensures q.desc[h].len == 16 * |q.chains[h].bufs| && Direct(h) in q.live
    ensures q.live[Direct(h)] == Mapping(q.desc[h].addr, Table(q.chains[h].table.value), DriverToDevice)
    ensures Walk(q.chains[h].table.value, 0, |q.chains[h].bufs|) == Count(|q.chains[h].bufs|)
    ensures forall i :: 0 <= i < |q.chains[h].bufs| ==>
              && q.chains[h].table.value[i].len == q.chains[h].bufs[i].0.len
              && (q.chains[h].table.value[i].fWrite <==> q.chains[h].bufs[i].1 == DeviceToDriver)
              && !q.chains[h].table.value[i].fIndirect
              && (q.chains[h].table.value[i].fNext <==> i + 1 < |q.chains[h].bufs|)
              && Entry(h, i) in q.live
              && q.live[Entry(h, i)]
                 == Mapping(q.chains[h].table.value[i].addr, User(q.chains[h].bufs[i].0), q.chains[h].bufs[i].1)
  {
    hide Linked, Walk, Count, AtRole, FreeRoles;
    var c := q.chains[h];
    HeadUsed(q, h);
    assert c.table.Some?;
    assert IndirectOk(q, h, c);
    CountingUp(|c.bufs|);
    WalkAlong(c.table.value, Count(|c.bufs|), 0, |c.bufs|);
  }

  function Picks(table: seq<Desc>, ds: seq<nat>): (r: seq<Desc>)
    ensures |r| == |ds| && forall i :: 0 <= i < |ds| && ds[i] < |table| ==> r[i] == table[ds[i]]
  {
    if ds == [] then []
    else Picks(table, ds[..|ds| - 1])
         + [if ds[|ds| - 1] < |table| then table[ds[|ds| - 1]] else Desc(0, 0, 0, false, false, false)]
  }

  /** The descriptors a device reads for head `h`, in order: along the chain, or through the table the head points
      to. */
  ghost function DeviceReads(q: Queue, h: nat): seq<Desc> {
    if h < |q.desc| && q.desc[h].fIndirect && Direct(h) in q.live && q.live[Direct(h)].region.Table? then
      var table := q.live[Direct(h)].region.list;
      Picks(table, Walk(table, 0, |table|))
    else Picks(q.desc, Walk(q.desc, h, |q.desc|))
  }

  /** The address is one at which the buffer is shared with the device, for that direction. */
  ghost predicate SharedAs(q: Queue, addr: nat, b: Buf, dir: Dir) {
    exists p :: p in q.live && q.live[p] == Mapping(addr, User(b), dir)
  }

  /** The descriptors `ds` describe the request: the lengths in order, the inputs for reading, the outputs for writing,
      each at an address where that buffer is shared. */
  ghost predicate ReadsAs(q: Queue, ds: seq<Desc>, inputs: seq<Buf>, outputs: seq<Buf>) {
    && |ds| == |inputs| + |outputs|
    && (forall i :: 0 <= i < |inputs| ==>
          ds[i].len == inputs[i].len && !ds[i].fWrite && SharedAs(q, ds[i].addr, inputs[i], DriverToDevice))
    && (forall i :: 0 <= i < |outputs| ==>
          var d := ds[|inputs| + i];
          d.len == outputs[i].len && d.fWrite && SharedAs(q, d.addr, outputs[i], DeviceToDriver))
  }

  /** The device reads one descriptor for each buffer of the request, in order, with its address, its length and its
      direction. */
  lemma RequestSeen(q: Queue, h: nat, inputs: seq<Buf>, outputs: seq<Buf>)
    requires Inv(q) && h in q.chains && Request(q.chains[h].bufs, inputs, outputs)
    ensures ReadsAs(q, DeviceReads(q, h), inputs, outputs)
  {
    hide Inv, Walk, SharedAs;
    HeadInQueue(q, h);
    var ds, bufs := DeviceReads(q, h), q.chains[h].bufs;
    assert |ds| == |bufs| && forall i :: 0 <= i < |bufs| ==>
             ds[i].len == bufs[i].0.len && (ds[i].fWrite <==> bufs[i].1 == DeviceToDriver)
             && SharedAs(q, ds[i].addr, bufs[i].0, bufs[i].1) by {
      if q.desc[h].fIndirect {
        IndirectReads(q, h);
      } else {
        DirectReads(q, h);
      }
    }
    forall i | 0 <= i < |outputs|
      ensures var d := ds[|inputs| + i];
              d.len == outputs[i].len && d.fWrite && SharedAs(q, d.addr, outputs[i], DeviceToDriver)
    {
      assert bufs[|inputs| + i] == (outputs[i], DeviceToDriver);
    }
  }

  lemma HeadInQueue(q: Queue, h: nat)
    requires Inv(q) && h in q.chains
    ensures h < q.size == |q.desc|
  {
    HeadUsed(q, h);
  }

  lemma DirectReads(q: Queue, h: nat)
    requires Inv(q) && h in q.chains && h < q.size == |q.desc| && !q.desc[h].fIndirect
    ensures var ds, bufs := DeviceReads(q, h), q.chains[h].bufs;
            && |ds| == |bufs|
            && forall i :: 0 <= i < |bufs| ==>
                 && ds[i].len == bufs[i].0.len && (ds[i].fWrite <==> bufs[i].1 == DeviceToDriver)
                 && SharedAs(q, ds[i].addr, bufs[i].0, bufs[i].1)
  {
    hide Inv, Walk;
    DirectSeen(q, h);
    var c, ds := q.chains[h], DeviceReads(q, h);
    forall i | 0 <= i < |c.bufs|
      ensures SharedAs(q, ds[i].addr, c.bufs[i].0, c.bufs[i].1)
    {
      assert q.live[Direct(c.descs[i])] == Mapping(ds[i].addr, User(c.bufs[i].0), c.bufs[i].1);
    }
  }

  lemma IndirectReads(q: Queue, h: nat)
    requires Inv(q) && h in q.chains && h < q.size == |q.desc| && q.desc[h].fIndirect
    ensures var ds, bufs := DeviceReads(q, h), q.chains[h].bufs;
            && |ds| == |bufs|
            && forall i :: 0 <= i < |bufs| ==>
                 && ds[i].len == bufs[i].0.len && (ds[i].fWrite <==> bufs[i].1 == DeviceToDriver)
                 && SharedAs(q, ds[i].addr, bufs[i].0, bufs[i].1)
  {
    hide Inv, Walk, Count;
    TableSeen(q, h);
    var c, ds := q.chains[h], DeviceReads(q, h);
    CountingUp(|c.bufs|);
    forall i | 0 <= i < |c.bufs|
      ensures SharedAs(q, ds[i].addr, c.bufs[i].0, c.bufs[i].1)
    {
      assert q.live[Entry(h, i)] == Mapping(ds[i].addr, User(c.bufs[i].0), c.bufs[i].1);
    }
  }

  // ----- Add undone by pop -----

  /** Popping a chain straight after it was added puts every descriptor back where it was. */
  lemma TookThenReturned(q: Queue, q1: Queue, q2: Queue, n: nat, c: Chain)
    requires Inv(q) && Took(q, q1, n, c) && Returned(q1, q2, q.free[0])
    ensures q2.free == q.free && q2.chains == q.chains && q2.role == q.role && q2.numUsed == q.numUsed
            && q2.freeHead == q.freeHead
  {
    hide ChainsOk, Coherent, Partition, Linked, TakeRoles, ReturnRoles;
    HeadFacts(q);
    assert q2.free == q.free[..n] + q.free[n..] == q.free;
    assert q2.chains == q.chains;
    RolesSized(q, q1, q2, n, c);
    forall d | 0 <= d < q.size
      ensures q2.role[d] == q.role[d]
    {
      RoleRestored(q, q1, q2, n, c, d);
    }
  }

  lemma RolesSized(q: Queue, q1: Queue, q2: Queue, n: nat, c: Chain)
    requires Sizes(q) && Took(q, q1, n, c) && Returned(q1, q2, q.free[0])
    ensures |q2.role| == |q.role| == q.size
  {
  }

  lemma RoleRestored(q: Queue, q1: Queue, q2: Queue, n: nat, c: Chain, d: nat)
    requires Partition(q) && Took(q, q1, n, c) && Returned(q1, q2, q.free[0]) && d < q.size && q.free[0] !in q.chains
    ensures q2.role[d] == q.role[d]
  {
    assert AtRole(q, d);
  }

  // ----- Counting -----

  /** A chain is no longer than the number of used descriptors. */
  lemma ChainFits(q: Queue, h: nat)
    requires Inv(q) && h in q.chains
    ensures |q.chains[h].descs| <= q.numUsed
  {
    hide ChainsOk, Linked, Coherent, AtRole;
    var c := q.chains[h].descs;
    var free := Elements(q.free);
    forall i, j | 0 <= i < j < |q.free|
      ensures q.free[i] != q.free[j]
    {
      FreeDistinct(q, i, j);
    }
    forall i, j | 0 <= i < j < |c|
      ensures c[i] != c[j]
    {
      assert q.role[c[i]] == Used(h, i) && q.role[c[j]] == Used(h, j);
    }
    ElementsSize(q.free);
    ElementsSize(c);
    BelowSize(q.size);
    forall d | d in Elements(c)
      ensures d in Below(q.size) && d !in free
    {
      var i :| 0 <= i < |c| && c[i] == d;
      assert q.role[c[i]] == Used(h, i);
      NotFree(q, d, |q.free|);
      assert q.free[..|q.free|] == q.free;
    }
    assert Elements(c) !! free && Elements(c) + free <= Below(q.size);
    SubsetSize(Elements(c) + free, Below(q.size));
  }

  /** There are no more outstanding chains than used descriptors. */
  lemma ChainCount(q: Queue)
    requires Inv(q)
    ensures |q.chains.Keys| <= q.numUsed
  {
    hide ChainsOk, Linked, Coherent;
    var heads := q.chains.Keys;
    var free := Elements(q.free);
    forall i, j | 0 <= i < j < |q.free|
      ensures q.free[i] != q.free[j]
    {
      FreeDistinct(q, i, j);
    }
    ElementsSize(q.free);
    BelowSize(q.size);
    forall h | h in heads
      ensures h in Below(q.size) && h !in free
    {
      HeadUsed(q, h);
      NotFree(q, h, |q.free|);
      assert q.free[..|q.free|] == q.free;
    }
    assert heads !! free && heads + free <= Below(q.size);
    SubsetSize(heads + free, Below(q.size));
  }

  /** The linked list `new` builds holds every descriptor. */
  lemma FreshTable(q: Queue)
    requires 0 < q.size <= 0x8000 && |q.shadow| == |q.desc| == |q.lists| == |q.role| == q.size && q.numUsed == 0
    requires q.freeHead == 0 && q.free == Count(q.size) && q.chains == map[] && q.live == map[]
    requires forall k :: 0 <= k < q.size - 1 ==> q.shadow[k].next == k + 1
    requires forall k :: 0 <= k < q.size ==> q.lists[k] == None && q.role[k] == Free(k)
    ensures Inv(q)
  {
    hide Count;
    CountingUp(q.size);
  }

  // ----- Facts the driver's methods start from -----

  lemma SizesOf(q: Queue)
    requires Inv(q)
    ensures Sizes(q)
  {
  }

  lemma HeadSizes(q: Queue)
    requires Inv(q)
    ensures |q.shadow| == |q.desc| == |q.lists| == q.size && Sizes(q)
  {
  }

  lemma HeadUsedIn(q: Queue, h: nat)
    requires Inv(q) && h in q.chains
    ensures h < q.size && |q.chains[h].descs| > 0
  {
    HeadUsed(q, h);
  }

  /** The INDIRECT flag of a head says which kind of chain it starts. */
  lemma ChainKind(q: Queue, h: nat)
    requires Inv(q) && h in q.chains
    ensures h < |q.shadow| && (q.shadow[h].fIndirect <==> q.chains[h].table.Some?)
  {
    hide Inv;
    SizesOf(q);
    if q.chains[h].table.Some? {
      TableTarget(q, h);
    } else {
      DirectTarget(q, h);
    }
  }

  lemma TableStart(live: map<Place, Mapping>, h: nat, bufs: seq<(Buf, Dir)>)
    ensures Tabled(live, live, h, bufs, [], |bufs| + 1)
  {
  }

  lemma TableRoom(live: map<Place, Mapping>, live1: map<Place, Mapping>, h: nat, bufs: seq<(Buf, Dir)>, list: seq<Desc>)
    requires Tabled(live, live1, h, bufs, list, |bufs| + 1) && forall i :: Entry(h, i) !in live
    ensures Entry(h, |list|) !in live1
  {
  }

  lemma HeadUnshared(live: map<Place, Mapping>, live1: map<Place, Mapping>, h: nat, bufs: seq<(Buf, Dir)>,
      list: seq<Desc>)
    requires Tabled(live, live1, h, bufs, list, |bufs|) && Direct(h) !in live
    ensures Direct(h) !in live1
  {
  }

  lemma RecycleSizes(q: Queue, q1: Queue, h: nat, i: nat)
    requires Recycling(q, q1, h, i)
    ensures |q1.shadow| == |q1.desc| == q.size && q1.size == q.size && q1.numUsed == q.numUsed - i && q1.freeHead == h
    ensures q1 == q.(shadow := q1.shadow, desc := q1.desc, live := q1.live, freeHead := h, numUsed := q.numUsed - i)
  {
  }

  lemma FreedShares(q: Queue, q1: Queue, h: nat)
    requires Inv(q) && h in q.chains && q.chains[h].table == None && Recycling(q, q1, h, |q.chains[h].descs|)
    ensures h < |q1.lists| && Unshared(q, Freed(q, q1, h), h)
    ensures q1.chains == q.chains && q1.role == q.role && q1.free == q.free && q1.lists == q.lists && q1.freeHead == h
  {
    hide Partition, Linked, Recycling, Unshared;
    HeadUsedIn(q, h);
    RecycleSizes(q, q1, h, |q.chains[h].descs|);
    FreedUnshared(q, q1, h);
  }

  lemma FinishShares(q: Queue, q1: Queue, bufs: seq<(Buf, Dir)>)
    requires Filling(q, q1, bufs, |bufs|) && |bufs| > 0
    ensures LiveGrows(q, Finish(q, q1, bufs))
  {
    hide TakeRoles, WroteOnly, Filled;
  }

  lemma WithTableShares(q: Queue, live1: map<Place, Mapping>, bufs: seq<(Buf, Dir)>, list: seq<Desc>, addr: nat)
    requires Inv(q) && |q.free| > 0 && Tabled(q.live, live1, q.freeHead, bufs, list, |bufs|)
    ensures q.freeHead < q.size && Sizes(q) && LiveGrows(q, WithTable(q, live1, bufs, list, addr))
  {
    hide TakeRoles, Inv;
    HeadFacts(q);
    SizesOf(q);
  }
}
