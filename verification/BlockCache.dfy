// The bounded write-back block cache, against a disk without a cache.
module BlockCaches {
  import opened Types

  /** `usize::MAX`: the block number of an unused buffer. */
  const FREE: nat := 0xFFFF_FFFF_FFFF_FFFF

  const PRIORITY_UPPERBOUND: nat := 1

  /** The value of a buffer; `holders` counts the clones of its `Arc` outside the pool. */
  datatype Buffer = Buffer(priority: nat, blockId: nat, dirty: bool, data: Block, holders: nat)

  datatype Cache = Cache(pool: seq<Buffer>, disk: seq<Block>)

  predicate Held(b: Buffer) { b.holders > 0 }

  ghost predicate BufferOk(b: Buffer, disk: seq<Block>) {
    && b.priority <= PRIORITY_UPPERBOUND
    && (if b.blockId == FREE then !b.dirty && b.priority == 0 && !Held(b)
        else b.blockId < |disk| && (!b.dirty ==> b.data == disk[b.blockId]))
  }

  /** At most one buffer per block, clean buffers equal to disk, free buffers neither dirty nor held. */
  ghost predicate Inv(c: Cache) {
    && |c.disk| <= FREE
    && (forall i :: 0 <= i < |c.pool| ==> BufferOk(c.pool[i], c.disk))
    && (forall i, j :: 0 <= i < j < |c.pool| && c.pool[i].blockId != FREE ==> c.pool[i].blockId != c.pool[j].blockId)
  }

  ghost predicate Cached(c: Cache, id: nat) {
    exists i :: 0 <= i < |c.pool| && c.pool[i].blockId == id
  }

  /** What a reader of block `id` must see. */
  ghost function At(c: Cache, id: nat): Block
    requires id < |c.disk|
  {
    if Cached(c, id) then
      var i :| 0 <= i < |c.pool| && c.pool[i].blockId == id;
      c.pool[i].data
    else c.disk[id]
  }

  /** The disk as a reader of every block must see it. */
  ghost function Logical(c: Cache): seq<Block> {
    seq(|c.disk|, id requires 0 <= id < |c.disk| => At(c, id))
  }

  lemma EmptyLogical(c: Cache)
    requires |c.disk| <= FREE && forall i :: 0 <= i < |c.pool| ==> c.pool[i].blockId == FREE
    ensures Logical(c) == c.disk
  {
  }

  lemma AtIs(c: Cache, i: nat)
    requires Inv(c) && i < |c.pool| && c.pool[i].blockId != FREE
    ensures c.pool[i].blockId < |c.disk| && At(c, c.pool[i].blockId) == c.pool[i].data
  {
    assert BufferOk(c.pool[i], c.disk);
    var id := c.pool[i].blockId;
    var j :| 0 <= j < |c.pool| && c.pool[j].blockId == id && At(c, id) == c.pool[j].data;
    assert i == j;
  }

  /** If each buffer keeps its block and data, or is detached with its data on disk, no reader can tell. */
  lemma SameLogical(c: Cache, c': Cache)
    requires Inv(c) && Inv(c') && |c'.pool| == |c.pool| && |c'.disk| == |c.disk|
    requires forall i :: 0 <= i < |c.pool| ==> c'.pool[i].data == c.pool[i].data
    requires forall i :: 0 <= i < |c.pool| ==> c'.pool[i].blockId in {c.pool[i].blockId, FREE}
    requires forall i :: 0 <= i < |c.pool| && c.pool[i].blockId != FREE && c'.pool[i].blockId == FREE ==>
               c.pool[i].blockId < |c.disk| && c'.disk[c.pool[i].blockId] == c.pool[i].data
    requires forall id :: 0 <= id < |c.disk| && !Cached(c, id) ==> c'.disk[id] == c.disk[id]
    ensures Logical(c') == Logical(c)
  {
    hide BufferOk;
    forall id | 0 <= id < |c.disk|
      ensures At(c', id) == At(c, id)
    {
      if Cached(c, id) {
        var i :| 0 <= i < |c.pool| && c.pool[i].blockId == id;
        AtIs(c, i);
        if c'.pool[i].blockId == id {
          AtIs(c', i);
        } else {
          assert !Cached(c', id);
        }
      } else {
        assert !Cached(c', id);
      }
    }
  }

  // ----- Eviction -----

  /** What one `oom` pass does to a buffer. */
  function Aged(b: Buffer): Buffer {
    if Held(b) then b
    else if b.priority > 0 then b.(priority := b.priority - 1)
    else b.(dirty := false, blockId := FREE)
  }

  /** The disk after one buffer was looked at. */
  function Flushed(disk: seq<Block>, b: Buffer): seq<Block> {
    if !Held(b) && b.priority == 0 && b.dirty && b.blockId < |disk| then disk[b.blockId := b.data] else disk
  }

  function OomAt(c: Cache, i: nat): Cache
    requires i < |c.pool|
  {
    Cache(c.pool[i := Aged(c.pool[i])], Flushed(c.disk, c.pool[i]))
  }

  /** One `oom` pass from buffer `i` on. */
  function OomFrom(c: Cache, i: nat): Cache
    requires i <= |c.pool|
    decreases |c.pool| - i
  {
    if i == |c.pool| then c else OomFrom(OomAt(c, i), i + 1)
  }

  lemma OomUnfold(c: Cache, i: nat)
    requires i <= |c.pool|
    ensures OomFrom(c, i) == if i == |c.pool| then c else OomFrom(OomAt(c, i), i + 1)
  {
  }

  lemma InRange(c: Cache, i: nat)
    requires Inv(c) && i < |c.pool|
    ensures c.pool[i].dirty || c.pool[i].blockId != FREE ==> c.pool[i].blockId < |c.disk|
  {
    assert BufferOk(c.pool[i], c.disk);
  }

  lemma OomAtInv(c: Cache, i: nat)
    requires Inv(c) && i < |c.pool|
    ensures Inv(OomAt(c, i))
  {
    var c' := OomAt(c, i);
    assert BufferOk(c.pool[i], c.disk);
    forall j | 0 <= j < |c.pool|
      ensures BufferOk(c'.pool[j], c'.disk)
    {
      assert BufferOk(c.pool[j], c.disk);
    }
  }

  lemma OomAtKeeps(c: Cache, i: nat)
    requires Inv(c) && i < |c.pool|
    ensures Inv(OomAt(c, i)) && Logical(OomAt(c, i)) == Logical(c)
  {
    OomAtInv(c, i);
    assert BufferOk(c.pool[i], c.disk);
    SameLogical(c, OomAt(c, i));
  }

  lemma {:induction false} OomKeeps(c: Cache, i: nat)
    requires Inv(c) && i <= |c.pool|
    ensures var c' := OomFrom(c, i);
            && Inv(c') && Logical(c') == Logical(c) && |c'.pool| == |c.pool|
            && (forall j :: 0 <= j < |c.pool| ==> c'.pool[j] == if j < i then c.pool[j] else Aged(c.pool[j]))
    decreases |c.pool| - i
  {
    hide Inv, Logical, Aged;
    if i < |c.pool| {
      OomAtKeeps(c, i);
      OomKeeps(OomAt(c, i), i + 1);
    }
  }

  /** Second chance: a held buffer is left alone, one that was used since the last pass keeps its block and loses one
      point, and only one without a point is given up. */
  lemma SecondChance(c: Cache, i: nat)
    requires Inv(c) && i < |c.pool|
    ensures i < |OomFrom(c, 0).pool|
    ensures var b, b' := c.pool[i], OomFrom(c, 0).pool[i];
            && b'.holders == b.holders && b'.data == b.data
            && (b.holders > 0 ==> b' == b)
            && (b.holders == 0 && b.priority > 0 ==>
                  b'.blockId == b.blockId && b'.dirty == b.dirty && b'.priority == b.priority - 1)
            && (b.holders == 0 && b.priority == 0 ==> b'.blockId == FREE && !b'.dirty && b'.priority == 0)
  {
    hide Inv, Logical;
    OomKeeps(c, 0);
  }

  /** The caches the loop of `alloc_buffer_cache` passes through. */
  function Passes(c: Cache, k: nat): Cache {
    if k == 0 then c else OomFrom(Passes(c, k - 1), 0)
  }

  ghost predicate HasFree(c: Cache) {
    exists i :: 0 <= i < |c.pool| && c.pool[i].blockId == FREE
  }

  /** Some buffer can be had: it is free or nobody holds it. */
  ghost predicate Available(c: Cache) {
    exists i :: 0 <= i < |c.pool| && !Held(c.pool[i])
  }

  lemma {:induction false} PassesKeep(c: Cache, k: nat)
    requires Inv(c)
    ensures Inv(Passes(c, k)) && Logical(Passes(c, k)) == Logical(c) && |Passes(c, k).pool| == |c.pool|
  {
    hide Inv, Logical;
    if k > 0 {
      PassesKeep(c, k - 1);
      OomKeeps(Passes(c, k - 1), 0);
    }
  }

  /** An unheld buffer is free after as many passes as its priority and one more. */
  lemma PassFrees(c: Cache, i: nat)
    requires Inv(c) && i < |c.pool| && !Held(c.pool[i])
    ensures Passes(c, 2).pool != [] && i < |Passes(c, 2).pool| && Passes(c, 2).pool[i].blockId == FREE
  {
    hide Logical;
    var c1 := OomFrom(c, 0);
    OomKeeps(c, 0);
    OomKeeps(c1, 0);
    assert Passes(c, 1) == c1 by { assert Passes(c, 0) == c; }
    assert Passes(c, 2) == OomFrom(c1, 0);
    assert BufferOk(c.pool[i], c.disk);
  }

  /** If every buffer is held, an `oom` pass does nothing, and never will. */
  lemma {:induction false} Stuck(c: Cache, k: nat)
    requires Inv(c) && !Available(c)
    ensures Passes(c, k) == c && !HasFree(c)
  {
    if k > 0 {
      Stuck(c, k - 1);
      StuckFrom(c, 0);
    }
    forall i | 0 <= i < |c.pool|
      ensures c.pool[i].blockId != FREE
    {
      assert BufferOk(c.pool[i], c.disk) && Held(c.pool[i]);
    }
  }

  lemma {:induction false} StuckFrom(c: Cache, i: nat)
    requires !Available(c) && i <= |c.pool|
    ensures OomFrom(c, i) == c
    decreases |c.pool| - i
  {
    if i < |c.pool| {
      assert Held(c.pool[i]);
      assert OomAt(c, i) == c;
      StuckFrom(c, i + 1);
    }
  }

  /** The scan-and-evict loop ever sees a free buffer exactly when some buffer is not held; then two
      passes are enough. */
  lemma AllocEndsIff(c: Cache)
    requires Inv(c)
    ensures (exists k: nat :: HasFree(Passes(c, k))) <==> Available(c)
    ensures Available(c) ==> HasFree(Passes(c, 2))
  {
    if Available(c) {
      var i :| 0 <= i < |c.pool| && !Held(c.pool[i]);
      PassFrees(c, i);
    } else {
      forall k: nat
        ensures !HasFree(Passes(c, k))
      {
        Stuck(c, k);
      }
    }
  }

  /** One buffer, held by a reader of block 0: a request for block 1 never ends. */
  lemma OneHeldStuck(d: Block)
    ensures var c := Cache([Buffer(0, 0, false, d, 1)], [d, d]);
            Inv(c) && !Cached(c, 1) && forall k: nat :: !HasFree(Passes(c, k))
  {
    var c := Cache([Buffer(0, 0, false, d, 1)], [d, d]);
    assert !Available(c);
    AllocEndsIff(c);
  }

  lemma PassesStart(c: Cache)
    ensures Passes(c, 0) == c
  {
  }

  lemma PassesStep(c: Cache, k: nat)
    requires k > 0
    ensures Passes(c, k) == OomFrom(Passes(c, k - 1), 0)
  {
  }

  lemma NoneFree(c: Cache)
    requires forall j :: 0 <= j < |c.pool| ==> c.pool[j].blockId != FREE
    ensures !HasFree(c)
  {
  }

  /** Eviction leaves held buffers alone and attaches nothing. */
  lemma {:induction false} HeldThrough(c: Cache, k: nat)
    requires Inv(c)
    ensures |Passes(c, k).pool| == |c.pool|
    ensures forall j :: 0 <= j < |c.pool| && Held(c.pool[j]) ==> Passes(c, k).pool[j] == c.pool[j]
    ensures forall j :: 0 <= j < |c.pool| ==> Passes(c, k).pool[j].blockId in {c.pool[j].blockId, FREE}
    ensures forall j :: 0 <= j < |c.pool| ==> Passes(c, k).pool[j].holders == c.pool[j].holders
  {
    hide Inv, Logical;
    if k > 0 {
      HeldThrough(c, k - 1);
      PassesKeep(c, k - 1);
      OomKeeps(Passes(c, k - 1), 0);
    }
  }

  lemma FreeUnheld(c: Cache, k: nat)
    requires Inv(c) && k < |c.pool| && c.pool[k].blockId == FREE
    ensures c.pool[k].holders == 0
  {
    assert BufferOk(c.pool[k], c.disk);
  }

  lemma StaysUncached(c: Cache, k: nat, id: nat)
    requires Inv(c) && !Cached(c, id) && id < |c.disk|
    ensures !Cached(Passes(c, k), id) && |Passes(c, k).disk| == |c.disk|
  {
    hide Passes, BufferOk;
    HeldThrough(c, k);
    PassesKeep(c, k);
    LogicalSize(c);
    LogicalSize(Passes(c, k));
  }

  lemma LogicalSize(c: Cache)
    ensures |Logical(c)| == |c.disk|
  {
  }

  lemma SharedData(c: Cache, k: nat)
    requires Inv(c) && k < |c.pool| && c.pool[k].blockId != FREE
    ensures c.pool[k].blockId < |Logical(c)| && Shared(c, k).pool[k].data == Logical(c)[c.pool[k].blockId]
  {
    SharedKeeps(c, k);
  }

  // ----- Loading and writing -----

  /** `read_block` into a free buffer, with the priority and the clone of `get_block_cache`. */
  function Loaded(c: Cache, i: nat, id: nat): Cache
    requires i < |c.pool| && id < |c.disk|
  {
    c.(pool := c.pool[i := Buffer(Raised(c.pool[i].priority), id, c.pool[i].dirty, c.disk[id], c.pool[i].holders + 1)])
  }

  function Raised(p: nat): nat { if p < PRIORITY_UPPERBOUND then p + 1 else p }

  lemma LoadedKeeps(c: Cache, i: nat, id: nat)
    requires Inv(c) && i < |c.pool| && c.pool[i].blockId == FREE && id < |c.disk| && !Cached(c, id)
    ensures Inv(Loaded(c, i, id)) && Logical(Loaded(c, i, id)) == Logical(c)
    ensures Loaded(c, i, id).pool[i].data == Logical(c)[id] && Loaded(c, i, id).pool[i].priority == 1
  {
    var c' := Loaded(c, i, id);
    assert BufferOk(c.pool[i], c.disk);
    assert Inv(c');
    forall k | 0 <= k < |c.disk|
      ensures At(c', k) == At(c, k)
    {
      if k == id {
        AtIs(c', i);
      } else if Cached(c, k) {
        var j :| 0 <= j < |c.pool| && c.pool[j].blockId == k;
        AtIs(c, j);
        AtIs(c', j);
      } else {
        assert !Cached(c', k);
      }
    }
  }

  /** Another clone of a cached buffer. */
  function Shared(c: Cache, i: nat): Cache
    requires i < |c.pool|
  {
    c.(pool := c.pool[i := c.pool[i].(priority := Raised(c.pool[i].priority), holders := c.pool[i].holders + 1)])
  }

  lemma SharedKeeps(c: Cache, i: nat)
    requires Inv(c) && i < |c.pool| && c.pool[i].blockId != FREE
    ensures Inv(Shared(c, i)) && Logical(Shared(c, i)) == Logical(c)
    ensures c.pool[i].blockId < |c.disk| && c.pool[i].data == Logical(c)[c.pool[i].blockId]
  {
    var c' := Shared(c, i);
    assert BufferOk(c.pool[i], c.disk);
    assert Inv(c');
    SameLogical(c, c');
    AtIs(c, i);
  }

  /** `modify` through a held clone. */
  function Modified(c: Cache, i: nat, data: Block): Cache
    requires i < |c.pool|
  {
    c.(pool := c.pool[i := c.pool[i].(dirty := true, data := data)])
  }

  lemma ModifiedKeeps(c: Cache, i: nat, data: Block)
    requires Inv(c) && i < |c.pool| && Held(c.pool[i])
    ensures c.pool[i].blockId < |c.disk| && Inv(Modified(c, i, data))
    ensures Logical(Modified(c, i, data)) == Logical(c)[c.pool[i].blockId := data]
  {
    var c' := Modified(c, i, data);
    assert BufferOk(c.pool[i], c.disk);
    assert Inv(c');
    forall k | 0 <= k < |c.disk|
      ensures At(c', k) == if k == c.pool[i].blockId then data else At(c, k)
    {
      if k == c.pool[i].blockId {
        AtIs(c', i);
      } else if Cached(c, k) {
        var j :| 0 <= j < |c.pool| && c.pool[j].blockId == k;
        AtIs(c, j);
        AtIs(c', j);
      } else {
        assert !Cached(c', k);
      }
    }
  }

  function Released(c: Cache, i: nat): Cache
    requires i < |c.pool| && Held(c.pool[i])
  {
    c.(pool := c.pool[i := c.pool[i].(holders := c.pool[i].holders - 1)])
  }

  lemma ReleasedKeeps(c: Cache, i: nat)
    requires Inv(c) && i < |c.pool| && Held(c.pool[i])
    ensures Inv(Released(c, i)) && Logical(Released(c, i)) == Logical(c)
  {
    assert BufferOk(c.pool[i], c.disk);
    assert Inv(Released(c, i));
    SameLogical(c, Released(c, i));
  }

  // ----- The objects -----

  class BufferCache {
    var priority: nat
    var blockId: nat
    var dirty: bool
    var data: Block
    var holders: nat // clones of the `Arc` outside the pool

    ghost function Value(): Buffer
      reads this
    {
      Buffer(priority, blockId, dirty, data, holders)
    }

    constructor (frame: Block)
      ensures Value() == Buffer(0, FREE, false, frame, 0)
    {
      priority, blockId, dirty, data, holders := 0, FREE, false, frame, 0;
    }

    method ReadBlock(id: nat, disk: seq<Block>)
      requires id < |disk|
      modifies this`blockId, this`data
      ensures blockId == id && data == disk[id]
    {
      blockId := id;
      data := disk[id];
    }

    /** Another clone is handed out. */
    method Clone()
      modifies this`priority, this`holders
      ensures Value() == old(Value()).(priority := Raised(old(priority)), holders := old(holders) + 1)
    {
      if priority < PRIORITY_UPPERBOUND {
        priority := priority + 1;
      }
      holders := holders + 1;
    }

    /** The body of the loop of `oom`. */
    method Age(disk: seq<Block>) returns (disk': seq<Block>)
      requires dirty || blockId != FREE ==> blockId < |disk|
      modifies this`priority, this`blockId, this`dirty
      ensures Value() == Aged(old(Value())) && disk' == Flushed(disk, old(Value()))
    {
      disk' := disk;
      if holders > 0 {
        return;
      }
      if priority > 0 {
        priority := priority - 1;
      } else {
        if dirty {
          disk' := disk[blockId := data];
          dirty := false;
        }
        blockId := FREE;
      }
    }

    /** A closure over the bytes at `offset` leaves `bytes` there. */
    method Modify(offset: nat, bytes: seq<byte>)
      requires offset + |bytes| <= |data|
      modifies this`dirty, this`data
      ensures dirty && data == Patched(old(data), offset, bytes)
    {
      dirty := true;
      data := data[..offset] + bytes + data[offset + |bytes|..];
    }
  }

  /** `bytes` at `offset`, everything else as it was. */
  ghost function Patched(data: Block, offset: nat, bytes: seq<byte>): Block
    requires offset + |bytes| <= |data|
  {
    seq(|data|, i requires 0 <= i < |data| => if offset <= i < offset + |bytes| then bytes[i - offset] else data[i])
  }

  ghost function Values(pool: seq<BufferCache>): (r: seq<Buffer>)
    reads pool
    ensures |r| == |pool| && forall i :: 0 <= i < |pool| ==> r[i] == pool[i].Value()
  {
    if pool == [] then [] else Values(pool[..|pool| - 1]) + [pool[|pool| - 1].Value()]
  }

  class BlockCacheManager {
    const pool: seq<BufferCache>
    var disk: seq<Block>

    ghost function State(): Cache
      reads this, pool
    {
      Cache(Values(pool), disk)
    }

    ghost predicate Valid()
      reads this, pool
    {
      && (forall i, j :: 0 <= i < j < |pool| ==> pool[i] != pool[j])
      && Inv(State())
    }

    /** The disk behind the cache, as every reader must see it. */
    ghost function Contents(): seq<Block>
      reads this, pool
    {
      Logical(State())
    }

    constructor (frames: seq<Block>, blocks: seq<Block>)
      requires |blocks| <= FREE
      ensures Valid() && disk == blocks && |pool| == |frames| && fresh(pool)
      ensures Contents() == blocks
    {
      var buffers: seq<BufferCache> := [];
      for i := 0 to |frames|
        invariant |buffers| == i && fresh(buffers)
        invariant forall j, k :: 0 <= j < k < i ==> buffers[j] != buffers[k]
        invariant forall j :: 0 <= j < i ==> buffers[j].Value() == Buffer(0, FREE, false, frames[j], 0)
      {
        var b := new BufferCache(frames[i]);
        buffers := buffers + [b];
      }
      pool, disk := buffers, blocks;
      new;
      EmptyLogical(State());
    }

    /** Every buffer in the hands of a caller keeps its block and its data. */
    twostate predicate HeldKept()
      reads this, pool
    {
      forall j :: 0 <= j < |pool| && old(pool[j].holders) > 0 ==>
        pool[j].blockId == old(pool[j].blockId) && pool[j].data == old(pool[j].data)
    }

    /** One turn of the loop of `oom`. */
    method AgeAt(i: nat)
      requires Valid() && i < |pool|
      modifies this`disk, pool[i]
      ensures State() == OomAt(old(State()), i)
    {
      hide Inv, Values, Aged, Flushed;
      InRange(State(), i);
      disk := pool[i].Age(disk);
      assert Values(pool) == old(Values(pool))[i := pool[i].Value()];
    }

    method Oom()
      requires Valid()
      modifies this`disk, pool
      ensures Valid() && State() == OomFrom(old(State()), 0)
    {
      hide Inv, Logical, Values, OomAt, OomFrom;
      var i := 0;
      while i < |pool|
        invariant i <= |pool| && Valid() && OomFrom(State(), i) == OomFrom(old(State()), 0)
      {
        ghost var c := State();
        OomAtKeeps(c, i);
        OomUnfold(c, i);
        AgeAt(i);
        i := i + 1;
      }
      OomUnfold(State(), i);
    }

    /** The scan-and-evict loop; `AllocEndsIff` is why it needs a buffer nobody holds. */
    method AllocBufferCache() returns (k: nat, ghost passes: nat)
      requires Valid() && Available(State())
      modifies this`disk, pool
      ensures Valid() && Contents() == old(Contents()) && HeldKept()
      ensures k < |pool| && pool[k].blockId == FREE
      ensures passes <= 2 && State() == Passes(old(State()), passes)
      ensures passes > 0 ==> !HasFree(Passes(old(State()), passes - 1))
    {
      hide Inv, Logical, Values, Passes, HasFree, Available;
      ghost var c := State();
      passes := 0;
      PassesStart(c);
      while true
        invariant Valid() && passes <= 2 && State() == Passes(c, passes)
        invariant passes > 0 ==> !HasFree(Passes(c, passes - 1))
        decreases 2 - passes
      {
        PassesKeep(c, passes);
        HeldThrough(c, passes);
        AllocEndsIff(c);
        for i := 0 to |pool|
          invariant forall j :: 0 <= j < i ==> pool[j].blockId != FREE
        {
          if pool[i].blockId == FREE {
            return i, passes;
          }
        }
        NoneFree(State());
        Oom();
        passes := passes + 1;
        PassesStep(c, passes);
      }
    }

    method TryGetBlockCache(id: nat) returns (k: Option<nat>)
      requires Valid() && id < |disk|
      modifies pool
      ensures Valid() && Contents() == old(Contents()) && HeldKept()
      ensures k.Some? <==> Cached(old(State()), id)
      ensures k.None? ==> State() == old(State())
      ensures k.Some? ==> k.value < |pool| && pool[k.value].blockId == id && State() == Shared(old(State()), k.value)
      ensures k.Some? ==> id < |Contents()| && pool[k.value].data == Contents()[id] && pool[k.value].priority == 1
    {
      hide Logical, Values;
      for i := 0 to |pool|
        invariant State() == old(State()) && Valid()
        invariant forall j :: 0 <= j < i ==> pool[j].blockId != id
      {
        if pool[i].blockId == id {
          ghost var c := State();
          SharedKeeps(c, i);
          SharedData(c, i);
          pool[i].Clone();
          assert Values(pool) == c.pool[i := pool[i].Value()];
          assert c.pool[i].blockId == id;
          return Some(i);
        }
      }
      return None;
    }

    /** The handle returned is a buffer of block `id` that holds what the disk must show there. */
    method GetBlockCache(id: nat) returns (k: nat)
      requires Valid() && id < |disk|
      requires Cached(State(), id) || Available(State())
      modifies this`disk, pool
      ensures Valid() && Contents() == old(Contents()) && HeldKept()
      ensures k < |pool| && pool[k].blockId == id && pool[k].holders == old(pool[k].holders) + 1
      ensures id < |Contents()| && pool[k].data == Contents()[id] && pool[k].priority == 1
    {
      hide Inv, Logical, Values, Available, Passes, Cached;
      var found := TryGetBlockCache(id);
      if found.Some? {
        return found.value;
      }
      ghost var passes;
      k, passes := AllocBufferCache();
      StaysUncached(old(State()), passes, id);
      HeldThrough(old(State()), passes);
      FreeUnheld(State(), k);
      assert old(pool[k].holders) == 0;
      Load(k, id);
    }

    /** A free buffer takes block `id` from disk and is handed out. */
    method Load(k: nat, id: nat)
      requires Valid() && id < |disk| && k < |pool| && pool[k].blockId == FREE && !Cached(State(), id)
      modifies pool[k]
      ensures Valid() && Contents() == old(Contents()) && pool[k].blockId == id
      ensures pool[k].holders == old(pool[k].holders) + 1
      ensures id < |Contents()| && pool[k].data == Contents()[id] && pool[k].priority == 1
    {
      hide Inv, Logical, Values, Cached;
      ghost var c := State();
      LoadedKeeps(c, k, id);
      pool[k].ReadBlock(id, disk);
      pool[k].Clone();
      assert Values(pool) == c.pool[k := pool[k].Value()];
      LogicalSize(c);
    }

    method Modify(k: nat, offset: nat, bytes: seq<byte>)
      requires Valid() && k < |pool| && pool[k].holders > 0 && offset + |bytes| <= |pool[k].data|
      modifies pool[k]
      ensures Valid() && pool[k].blockId == old(pool[k].blockId) < |old(Contents())|
      ensures Contents() == old(Contents())[pool[k].blockId := Patched(old(pool[k].data), offset, bytes)]
    {
      hide Inv, Logical, Values, Patched;
      ghost var c := State();
      ModifiedKeeps(c, k, Patched(pool[k].data, offset, bytes));
      pool[k].Modify(offset, bytes);
      assert Values(pool) == c.pool[k := pool[k].Value()];
      LogicalSize(c);
    }

    /** The caller drops its clone. */
    method Release(k: nat)
      requires Valid() && k < |pool| && pool[k].holders > 0
      modifies pool[k]
      ensures Valid() && Contents() == old(Contents())
      ensures pool[k].Value() == old(pool[k].Value()).(holders := old(pool[k].holders) - 1)
    {
      hide Inv, Logical, Values;
      ghost var c := State();
      ReleasedKeeps(c, k);
      pool[k].holders := pool[k].holders - 1;
      assert Values(pool) == c.pool[k := pool[k].Value()];
    }
  }
}
