// Anonymous user memory, page by page: lazy allocation, copy-on-write, compression, swap and
// page-fault repair over one pool of frames. A key names a page of an address space.
module Paging {
  import opened Types
  import FA = FrameAllocator
  import Zram
  import Swap

  /** (address space, virtual page number) */
  type Key = (nat, nat)

  datatype Frame = InMemory(ppn: nat) | Compressed(zramId: nat) | SwappedOut(swapId: nat) | Unallocated

  datatype Pte = Pte(ppn: nat, perm: Perm)

  /** The external compressor; only its round trip is relied on. */
  datatype Codec = Codec(compress: Page -> Zram.Blob, decompress: Zram.Blob -> Page)

  ghost predicate RoundTrips(c: Codec) {
    forall p: Page :: c.decompress(c.compress(p)) == p
  }

  /** `foreign` holds the frames allocated to other owners (page tables, caches, the kernel). */
  datatype Mem = Mem(
    slots: map<Key, Frame>,
    pt: map<Key, Pte>,
    ram: map<nat, Page>,
    frames: FA.Frames,
    zram: Zram.Store,
    swap: Swap.Device,
    foreign: set<nat>,
    codec: Codec)

  // ----- Reference counts -----

  /** Some slot owns a clone of the tracker `f`. */
  predicate Held(m: Mem, f: Frame) {
    exists k :: k in m.slots && m.slots[k] == f
  }

  /** `Arc::strong_count` of the tracker in slot `k` is 1. */
  predicate Sole(m: Mem, k: Key)
    requires k in m.slots
  {
    forall k' :: k' in m.slots && m.slots[k'] == m.slots[k] ==> k' == k
  }

  // ----- Invariant -----

  /** Every device hands out exactly what the slots own, plus at most one tracker `pend` that has
      been created and not yet stored. */
  ghost predicate Accounted(m: Mem, pend: Frame) {
    && FA.Valid(m.frames) && Zram.Valid(m.zram) && Swap.Valid(m.swap) && RoundTrips(m.codec)
    && (forall p: nat :: m.frames.base <= p < m.frames.end ==> p in m.ram)
    && (forall p: nat :: FA.Taken(m.frames, p) <==> p in m.foreign || Held(m, InMemory(p)) || pend == InMemory(p))
    && (forall p: nat :: p in m.foreign ==> !Held(m, InMemory(p)) && pend != InMemory(p))
    && (forall z: nat :: Zram.Live(m.zram, z) <==> Held(m, Compressed(z)) || pend == Compressed(z))
    && (forall s: nat :: Swap.InUse(m.swap, s) <==> Held(m, SwappedOut(s)) || pend == SwappedOut(s))
    && (pend != Unallocated ==> !Held(m, pend))
  }

  /** A page is mapped exactly when its frame is in memory, to that frame. */
  ghost predicate Mapped(m: Mem) {
    && m.pt.Keys <= m.slots.Keys
    && (forall k :: k in m.slots ==> (k in m.pt <==> m.slots[k].InMemory?))
    && (forall k :: k in m.pt ==> k in m.slots && m.slots[k] == InMemory(m.pt[k].ppn))
  }

  /** A writable entry has the only reference to its frame. */
  ghost predicate WritableIsSole(m: Mem) {
    forall k :: k in m.pt && k in m.slots && m.pt[k].perm.w ==> Sole(m, k)
  }

  ghost predicate Inv(m: Mem) {
    Accounted(m, Unallocated) && Mapped(m) && WritableIsSole(m)
  }

  // ----- Meaning -----

  /** The bytes a tracker stands for. */
  function Bytes(m: Mem, f: Frame): Page {
    match f
    case InMemory(p) => if p in m.ram then m.ram[p] else ZeroPage()
    case Compressed(z) => if Zram.Live(m.zram, z) then m.codec.decompress(m.zram.compressed[z].value) else ZeroPage()
    case SwappedOut(s) => Swap.Load(m.swap, s)
    case Unallocated => ZeroPage()
  }

  /** What each address space sees: the plain map the machinery must be invisible in. */
  function View(m: Mem): map<Key, Page> {
    map k | k in m.slots :: Bytes(m, m.slots[k])
  }

  // ----- Tracker life cycle -----

  /** `f`'s resource goes back to its device if the last clone is gone. */
  function Drop(m: Mem, f: Frame): Mem {
    if Held(m, f) then m
    else match f
      case InMemory(p) => m.(frames := FA.Dealloc(m.frames, p))
      case Compressed(z) => m.(zram := Zram.Remove(m.zram, z))
      case SwappedOut(s) => m.(swap := Swap.Discard(m.swap, s))
      case Unallocated => m
  }

  /** `*slot = f`. */
  function Put(m: Mem, k: Key, f: Frame): Mem
    requires k in m.slots
  {
    Drop(m.(slots := m.slots[k := f]), m.slots[k])
  }

  /** The slot itself goes away. */
  function Forget(m: Mem, k: Key): Mem
    requires k in m.slots
  {
    Drop(m.(slots := m.slots - {k}), m.slots[k])
  }

  lemma DropKeepsAccounts(m: Mem, f: Frame)
    requires Accounted(m, if Held(m, f) then Unallocated else f)
    ensures Accounted(Drop(m, f), Unallocated)
    ensures forall g :: g != f ==> Bytes(Drop(m, f), g) == Bytes(m, g)
    ensures Held(m, f) ==> Drop(m, f) == m
  {
    var m' := Drop(m, f);
    assert forall g :: Held(m', g) <==> Held(m, g);
    if !Held(m, f) {
      match f
      case InMemory(p) => FA.DeallocReturnsOne(m.frames, p);
      case Compressed(z) => Zram.RemoveFreesOne(m.zram, z);
      case SwappedOut(s) => Swap.DiscardFreesOne(m.swap, s);
      case Unallocated =>
    }
  }

  lemma PutKeepsAccounts(m: Mem, k: Key, f: Frame)
    requires k in m.slots && Accounted(m, f)
    ensures Accounted(Put(m, k, f), Unallocated)
    ensures forall g :: g != m.slots[k] ==> Bytes(Put(m, k, f), g) == Bytes(m, g)
    ensures Put(m, k, f).slots == m.slots[k := f]
    ensures forall g :: Held(m, g) && g != m.slots[k] ==> Held(Put(m, k, f), g)
  {
    hide FA.Valid, FA.Taken, Zram.Valid, Zram.Live, Swap.Valid, Swap.InUse, RoundTrips;
    var old' := m.slots[k];
    var m1 := m.(slots := m.slots[k := f]);
    HeldAfterPut(m, k, f);
    DropKeepsAccounts(m1, old');
  }

  lemma HeldAfterPut(m: Mem, k: Key, f: Frame)
    requires k in m.slots
    ensures var m1 := m.(slots := m.slots[k := f]);
            && Held(m1, f)
            && (forall g :: g != f && g != m.slots[k] ==> (Held(m1, g) <==> Held(m, g)))
            && Held(m, m.slots[k])
  {
    var m1 := m.(slots := m.slots[k := f]);
    assert m1.slots[k] == f;
    forall g | g != f && g != m.slots[k]
      ensures Held(m1, g) <==> Held(m, g)
    {
      if Held(m1, g) {
        var k' :| k' in m1.slots && m1.slots[k'] == g;
        assert m.slots[k'] == g;
      }
      if Held(m, g) {
        var k' :| k' in m.slots && m.slots[k'] == g;
        assert m1.slots[k'] == g;
      }
    }
  }

  lemma ForgetKeepsAccounts(m: Mem, k: Key)
    requires k in m.slots && Accounted(m, Unallocated)
    ensures Accounted(Forget(m, k), Unallocated)
    ensures forall g :: g != m.slots[k] ==> Bytes(Forget(m, k), g) == Bytes(m, g)
    ensures Held(m.(slots := m.slots - {k}), m.slots[k]) ==> Forget(m, k) == m.(slots := m.slots - {k})
  {
    var f := m.slots[k];
    var m1 := m.(slots := m.slots - {k});
    forall g | g != f
      ensures Held(m1, g) <==> Held(m, g)
    {
      if Held(m, g) {
        var k' :| k' in m.slots && m.slots[k'] == g;
        assert k' in m1.slots && m1.slots[k'] == g;
      }
      if Held(m1, g) {
        var k' :| k' in m1.slots && m1.slots[k'] == g;
        assert k' in m.slots && m.slots[k'] == g;
      }
    }
    DropKeepsAccounts(m1, f);
  }

  /** A new slot with a clone of a tracker that is already held, or with nothing. */
  lemma CloneKeepsAccounts(m: Mem, k: Key, f: Frame)
    requires k !in m.slots && Accounted(m, Unallocated)
    requires f == Unallocated || Held(m, f)
    ensures Accounted(m.(slots := m.slots[k := f]), Unallocated)
  {
    var m1 := m.(slots := m.slots[k := f]);
    forall g | g != Unallocated
      ensures Held(m1, g) <==> Held(m, g)
    {
      if Held(m, g) {
        var k' :| k' in m.slots && m.slots[k'] == g;
        assert k' in m1.slots && m1.slots[k'] == g;
      }
    }
  }

  // ----- The page-table contract -----

  /** `PageTable::map` panics on a page that is mapped. */
  function PtMap(pt: map<Key, Pte>, k: Key, e: Pte): map<Key, Pte>
    requires k !in pt
  {
    pt[k := e]
  }

  /** `PageTable::unmap` panics on a page that is not mapped. */
  function PtUnmap(pt: map<Key, Pte>, k: Key): map<Key, Pte>
    requires k in pt
  {
    pt - {k}
  }

  /** `set_pte_flags(..).unwrap()` panics on a page that is not mapped. */
  function PtSet(pt: map<Key, Pte>, k: Key, perm: Perm): map<Key, Pte>
    requires k in pt
  {
    pt[k := Pte(pt[k].ppn, perm)]
  }

  // ----- Page-fault repair -----

  datatype MemoryError = BadAddress | NoPermission | NotMapped

  datatype FaultResult = Resolved(ppn: nat) | Failed(error: MemoryError) | Panicked

  /** Allocate a frame, fill it with `page`, store its tracker in slot `k` and map it. */
  function Install(m: Mem, k: Key, page: Page, perm: Perm): Option<(Mem, nat)>
    requires k in m.slots && k !in m.pt
  {
    match FA.Alloc(m.frames)
    case None => None
    case Some((fa, p)) =>
      var m1 := Put(m.(frames := fa, ram := m.ram[p := page]), k, InMemory(p));
      Some((m1.(pt := PtMap(m1.pt, k, Pte(p, perm))), p))
  }

  /** `copy_on_write`: a sole owner just gets its permissions back, a sharer is unmapped and gets a copy. */
  function CopyOnWrite(m: Mem, k: Key, perm: Perm): (Mem, FaultResult)
    requires k in m.slots && k in m.pt
  {
    match m.slots[k]
    case InMemory(p) =>
      if Sole(m, k) then (m.(pt := PtSet(m.pt, k, perm)), Resolved(p))
      else (match Install(m.(pt := PtUnmap(m.pt, k)), k, Bytes(m, m.slots[k]), perm)
            case None => (m, Panicked)
            case Some((m', p')) => (m', Resolved(p')))
    case _ => (m, Failed(NotMapped))
  }

  /** `unzip` and `swap_in` can read the slot their tracker names; otherwise their unwrap or index panics. */
  predicate Readable(m: Mem, f: Frame) {
    match f
    case Compressed(z) => Zram.Live(m.zram, z)
    case SwappedOut(s) => Swap.Readable(m.swap, s)
    case _ => true
  }

  /** `do_page_fault` on a page of an anonymous area with permissions `perm`. */
  function Fault(m: Mem, k: Key, perm: Perm, stripped: bool): (Mem, FaultResult)
    requires k in m.slots
  {
    if k in m.pt then
      if stripped then (m, Failed(NoPermission)) else CopyOnWrite(m, k, perm)
    else match m.slots[k]
      case InMemory(_) => (m, Panicked)
      case Unallocated =>
        (match Install(m, k, ZeroPage(), perm)
         case None => (m, Failed(BadAddress))
         case Some((m', p)) => (m', Resolved(p)))
      case _ =>
        if !Readable(m, m.slots[k]) then (m, Panicked)
        else
          (match Install(m, k, Bytes(m, m.slots[k]), perm)
           case None => (m, Panicked)
           case Some((m', p)) => (m', Resolved(p)))
  }

  // ----- Eviction -----

  /** The body of `do_oom`'s loop: compress an unshared page, or swap it out when zram is full. */
  function Evict(m: Mem, k: Key): (Mem, bool)
    requires Inv(m) && k in m.slots
  {
    if !m.slots[k].InMemory? || !Sole(m, k) then (m, false)
    else
      var page := Bytes(m, m.slots[k]);
      match Zram.Insert(m.zram, m.codec.compress(page))
      case Some((z, id)) =>
        var m1 := Put(m.(zram := z), k, Compressed(id));
        (m1.(pt := PtUnmap(m1.pt, k)), true)
      case None => ForceSwap(m, k)
  }

  /** The body of `force_swap`'s loop: the reference count is not looked at. */
  function ForceSwap(m: Mem, k: Key): (Mem, bool)
    requires Inv(m) && k in m.slots
  {
    if !m.slots[k].InMemory? then (m, false)
    else match Swap.Write(m.swap, Bytes(m, m.slots[k]))
      case Some((d, id)) =>
        var m1 := Put(m.(swap := d), k, SwappedOut(id));
        (m1.(pt := PtUnmap(m1.pt, k)), true)
      case None => (m, false)
  }

  // ----- Fork, mprotect, munmap, mmap, user stores -----

  /** One page of `map_from_existing_page_table`: the child clones the tracker, both lose W. */
  function ForkPage(m: Mem, k: Key, child: Key, perm: Perm): Mem
    requires k in m.slots && child !in m.pt
  {
    var m1 := m.(slots := m.slots[child := m.slots[k]]);
    if k in m.pt then
      m1.(pt := PtMap(PtSet(m.pt, k, m.pt[k].perm.WithoutW()), child, Pte(m.pt[k].ppn, perm.WithoutW())))
    else m1
  }

  /** `set_pte_flags`, which does nothing to an unmapped page. */
  function Protect(m: Mem, k: Key, perm: Perm): Mem {
    if k in m.pt then m.(pt := PtSet(m.pt, k, perm)) else m
  }

  /** `unmap_one`: a mapped page loses its frame and its entry, another keeps its tracker. */
  function UnmapOne(m: Mem, k: Key): Mem
    requires k in m.slots
  {
    if k in m.pt then
      var m1 := Put(m, k, Unallocated);
      m1.(pt := PtUnmap(m1.pt, k))
    else m
  }

  /** A vector of slots is truncated: each tracker is dropped, whether or not it was unmapped. */
  function Discard(m: Mem, k: Key): Mem
    requires k in m.slots
  {
    Forget(m.(pt := m.pt - {k}), k)
  }

  /** The pages `[lo, hi)` of space `a` are dropped in order. */
  function DiscardRange(m: Mem, a: nat, lo: nat, hi: nat): Mem
    decreases hi - lo
  {
    if lo >= hi then m
    else DiscardRange(if (a, lo) in m.slots then Discard(m, (a, lo)) else m, a, lo + 1, hi)
  }

  function Range(a: nat, lo: nat, hi: nat): set<Key> {
    set v | lo <= v < hi :: (a, v)
  }

  /** The page leaves its area: `unmap_one`, then the vector drops the slot. */
  function Release(m: Mem, k: Key): Mem
    requires k in m.slots
  {
    var m1 := UnmapOne(m, k);
    if k in m1.slots then Discard(m1, k) else m1
  }

  /** A page of a fresh lazy area. */
  function Reserve(m: Mem, k: Key): Mem {
    m.(slots := m.slots[k := Unallocated])
  }

  /** The hardware store: takes effect only through a writable entry. */
  function Poke(m: Mem, k: Key, off: nat, v: byte): (Mem, bool)
    requires off < PAGE_SIZE
  {
    if k in m.pt && m.pt[k].perm.w && m.pt[k].ppn in m.ram then
      var p := m.pt[k].ppn;
      (m.(ram := m.ram[p := m.ram[p][off := v]]), true)
    else (m, false)
  }

  /** A store instruction: on a fault the kernel repairs the page and the instruction retries. */
  function StoreInstr(m: Mem, k: Key, off: nat, v: byte, perm: Perm, stripped: bool): (Mem, bool)
    requires k in m.slots && off < PAGE_SIZE
  {
    var (m1, done) := Poke(m, k, off, v);
    if done then (m1, true) else Poke(Fault(m, k, perm, stripped).0, k, off, v)
  }

  /** A store will take effect: through its entry, or after a repair that makes the entry writable. */
  predicate Commits(m: Mem, k: Key, perm: Perm, stripped: bool)
    requires k in m.slots
  {
    || (k in m.pt && m.pt[k].perm.w)
    || (perm.w &&
          if k in m.pt then !stripped && (Sole(m, k) || FA.Unallocated(m.frames) > 0)
          else FA.Unallocated(m.frames) > 0)
  }

  function Overwritten(page: Page, off: nat, data: seq<byte>): Page
    requires off + |data| <= PAGE_SIZE
  {
    page[..off] + data + page[off + |data|..]
  }

  /** The kernel writes to user memory through `translate`, which does not look at W; an unmapped page is faulted in. */
  function KernelWrite(m: Mem, k: Key, off: nat, data: seq<byte>, perm: Perm): Mem
    requires k in m.slots && off + |data| <= PAGE_SIZE
  {
    var m1 := if k in m.pt then m else Fault(m, k, perm, false).0;
    if k in m1.pt && m1.pt[k].ppn in m1.ram then
      var p := m1.pt[k].ppn;
      m1.(ram := m1.ram[p := Overwritten(m1.ram[p], off, data)])
    else m1
  }

  // ----- What every step keeps -----

  /** The page-table half of storing tracker `f` in slot `k`. */
  ghost predicate Remapped(pt: map<Key, Pte>, k: Key, f: Frame, pt': map<Key, Pte>) {
    if f.InMemory? then exists perm :: pt' == pt[k := Pte(f.ppn, perm)] else pt' == pt - {k}
  }

  /** `m1` is `m` with the tracker `f` created: no held tracker changed its meaning. */
  ghost predicate Created(m: Mem, m1: Mem, f: Frame) {
    && m1.slots == m.slots && m1.pt == m.pt
    && Accounted(m1, f)
    && (forall g :: Held(m, g) ==> Bytes(m1, g) == Bytes(m, g))
  }

  /** Storing a new tracker and remapping the page keeps the invariant and changes one page of
      the view, to the bytes the tracker stands for. */
  lemma ReplaceKeeps(m: Mem, m1: Mem, k: Key, f: Frame, pt': map<Key, Pte>)
    requires Inv(m) && k in m.slots && Created(m, m1, f) && Remapped(m.pt, k, f, pt')
    ensures var m' := Put(m1, k, f).(pt := pt');
            && Inv(m')
            && View(m') == View(m)[k := Bytes(m1, f)]
            && m'.slots == m.slots[k := f]
  {
    hide View, Sole;
    var m2 := Put(m1, k, f);
    var m' := m2.(pt := pt');
    PutKeepsAccounts(m1, k, f);
    AccountsIgnorePt(m2, pt');
    ReplaceKeepsMapping(m, k, f, m');
    ReplaceView(m, m1, k, f, m');
  }

  lemma AccountsIgnorePt(m: Mem, pt': map<Key, Pte>)
    requires Accounted(m, Unallocated)
    ensures Accounted(m.(pt := pt'), Unallocated)
  {
    HeldSame(m, m.(pt := pt'));
  }

  lemma HeldSame(m: Mem, m': Mem)
    requires m.slots == m'.slots
    ensures forall g :: Held(m', g) <==> Held(m, g)
  {
  }

  lemma ReplaceKeepsMapping(m: Mem, k: Key, f: Frame, m': Mem)
    requires Mapped(m) && WritableIsSole(m) && k in m.slots
    requires f == Unallocated || !Held(m, f)
    requires m'.slots == m.slots[k := f] && Remapped(m.pt, k, f, m'.pt)
    ensures Mapped(m') && WritableIsSole(m')
  {
    forall k1 | k1 in m'.pt && k1 in m'.slots && m'.pt[k1].perm.w
      ensures Sole(m', k1)
    {
      forall k2 | k2 in m'.slots && m'.slots[k2] == m'.slots[k1]
        ensures k2 == k1
      {
        assert k1 == k || k2 == k || Sole(m, k1);
      }
    }
  }

  lemma ReplaceView(m: Mem, m1: Mem, k: Key, f: Frame, m': Mem)
    requires k in m.slots && Created(m, m1, f)
    requires m' == Put(m1, k, f).(pt := m'.pt)
    ensures View(m') == View(m)[k := Bytes(m1, f)]
  {
    hide Accounted, Put, Bytes, Held;
    PutSlots(m1, k, f);
    forall k' | k' in m.slots && k' != k
      ensures Bytes(m', m.slots[k']) == Bytes(m, m.slots[k'])
    {
      ReplaceOther(m, m1, k, f, k');
      BytesIgnorePt(Put(m1, k, f), m'.pt, m.slots[k']);
    }
    ReplaceSelf(m1, k, f);
    BytesIgnorePt(Put(m1, k, f), m'.pt, f);
  }

  lemma PutSlots(m: Mem, k: Key, f: Frame)
    requires k in m.slots
    ensures Put(m, k, f).slots == m.slots[k := f] && Put(m, k, f).pt == m.pt
  {
  }

  lemma BytesIgnorePt(m: Mem, pt': map<Key, Pte>, f: Frame)
    ensures Bytes(m.(pt := pt'), f) == Bytes(m, f)
  {
  }

  lemma ReplaceOther(m: Mem, m1: Mem, k: Key, f: Frame, k': Key)
    requires k in m.slots && k' in m.slots && k' != k && Created(m, m1, f)
    ensures Bytes(Put(m1, k, f), m.slots[k']) == Bytes(m, m.slots[k'])
  {
    assert Held(m, m.slots[k']);
    if m.slots[k'] == m.slots[k] {
      var m2 := m1.(slots := m1.slots[k := f]);
      assert m2.slots[k'] == m.slots[k];
      assert Held(m2, m.slots[k]);
    } else {
      PutKeepsAccounts(m1, k, f);
    }
  }

  lemma ReplaceSelf(m1: Mem, k: Key, f: Frame)
    requires k in m1.slots && Accounted(m1, f)
    ensures Bytes(Put(m1, k, f), f) == Bytes(m1, f)
  {
    if f == m1.slots[k] {
      assert Held(m1, f);
    } else {
      PutKeepsAccounts(m1, k, f);
    }
  }

  lemma FrameCreates(m: Mem, page: Page)
    requires Accounted(m, Unallocated) && FA.Alloc(m.frames).Some?
    ensures var (fa, p) := FA.Alloc(m.frames).value;
            Created(m, m.(frames := fa, ram := m.ram[p := page]), InMemory(p))
  {
    FA.AllocTakesOne(m.frames);
    var (fa, p) := FA.Alloc(m.frames).value;
    HeldSame(m, m.(frames := fa, ram := m.ram[p := page]));
  }

  lemma BlobCreates(m: Mem, page: Page)
    requires Accounted(m, Unallocated) && Zram.Insert(m.zram, m.codec.compress(page)).Some?
    ensures var (z, id) := Zram.Insert(m.zram, m.codec.compress(page)).value;
            && Created(m, m.(zram := z), Compressed(id))
            && Bytes(m.(zram := z), Compressed(id)) == page
  {
    Zram.InsertIssuesFresh(m.zram, m.codec.compress(page));
    var (z, id) := Zram.Insert(m.zram, m.codec.compress(page)).value;
    HeldSame(m, m.(zram := z));
  }

  lemma SwapCreates(m: Mem, page: Page)
    requires Accounted(m, Unallocated) && Swap.Write(m.swap, page).Some?
    ensures var (d, id) := Swap.Write(m.swap, page).value;
            && Created(m, m.(swap := d), SwappedOut(id))
            && Bytes(m.(swap := d), SwappedOut(id)) == page
  {
    Swap.WriteIssuesFresh(m.swap, page);
    var (d, id) := Swap.Write(m.swap, page).value;
    HeldSame(m, m.(swap := d));
  }

  lemma ViewAt(m: Mem, k: Key)
    requires k in m.slots
    ensures View(m)[k := Bytes(m, m.slots[k])] == View(m)
  {
  }

  lemma InstallKeeps(m: Mem, k: Key, page: Page, perm: Perm)
    requires Inv(m) && k in m.slots
    ensures var r := Install(m.(pt := m.pt - {k}), k, page, perm);
            && (r.None? <==> FA.Unallocated(m.frames) == 0)
            && (r.Some? ==>
                  var (m', p) := r.value;
                  && Inv(m') && View(m') == View(m)[k := page]
                  && m'.pt == m.pt[k := Pte(p, perm)] && m'.slots == m.slots[k := InMemory(p)])
  {
    hide Created, Mapped, WritableIsSole, Put, Held, View, Sole;
    FA.AllocTakesOne(m.frames);
    if FA.Alloc(m.frames).Some? {
      var (fa, p) := FA.Alloc(m.frames).value;
      FrameCreates(m, page);
      var m1 := m.(frames := fa, ram := m.ram[p := page]);
      PutIgnoresPt(m1, k, InMemory(p), m.pt - {k});
      PutSlots(m1, k, InMemory(p));
      assert (m.pt - {k})[k := Pte(p, perm)] == m.pt[k := Pte(p, perm)];
      ReplaceKeeps(m, m1, k, InMemory(p), m.pt[k := Pte(p, perm)]);
    }
  }

  lemma PutIgnoresPt(m: Mem, k: Key, f: Frame, pt': map<Key, Pte>)
    requires k in m.slots
    ensures Put(m.(pt := pt'), k, f) == Put(m, k, f).(pt := pt')
  {
    HeldSame(m.(slots := m.slots[k := f]), m.(slots := m.slots[k := f], pt := pt'));
  }

  /** Whatever a live tracker names can be read: the unwraps of `unzip` and `swap_in` do not fire. */
  lemma TrackersReadable(m: Mem, k: Key)
    requires Inv(m) && k in m.slots
    ensures Readable(m, m.slots[k])
  {
    hide Mapped, WritableIsSole;
    assert Held(m, m.slots[k]);
  }

  lemma ForceSwapKeeps(m: Mem, k: Key)
    requires Inv(m) && k in m.slots
    ensures var (m', done) := ForceSwap(m, k);
            && Inv(m') && View(m') == View(m)
            && (done ==> k in m'.slots && m'.slots == m.slots[k := m'.slots[k]] && m'.pt == m.pt - {k})
            && (!done ==> m' == m)
  {
    hide Created, Accounted, Mapped, WritableIsSole, Put, Held, View;
    var page := Bytes(m, m.slots[k]);
    if m.slots[k].InMemory? && Swap.Write(m.swap, page).Some? {
      var (d, id) := Swap.Write(m.swap, page).value;
      SwapCreates(m, page);
      PutSlots(m.(swap := d), k, SwappedOut(id));
      ReplaceKeeps(m, m.(swap := d), k, SwappedOut(id), m.pt - {k});
      ViewAt(m, k);
    }
  }

  lemma EvictKeeps(m: Mem, k: Key)
    requires Inv(m) && k in m.slots
    ensures var (m', done) := Evict(m, k);
            && Inv(m') && View(m') == View(m)
            && (done ==> k in m'.slots && m'.slots == m.slots[k := m'.slots[k]] && m'.pt == m.pt - {k})
            && (!done ==> m' == m)
  {
    hide Created, Mapped, WritableIsSole, Put, Held, View, Sole;
    if m.slots[k].InMemory? && Sole(m, k) {
      var page := Bytes(m, m.slots[k]);
      if Zram.Insert(m.zram, m.codec.compress(page)).Some? {
        var (z, id) := Zram.Insert(m.zram, m.codec.compress(page)).value;
        BlobCreates(m, page);
        PutSlots(m.(zram := z), k, Compressed(id));
        ReplaceKeeps(m, m.(zram := z), k, Compressed(id), m.pt - {k});
        ViewAt(m, k);
      } else {
        ForceSwapKeeps(m, k);
      }
    }
  }

  /** An unshared resident page is compressed as long as some zram slot is not live, and swap is not touched then; with
      zram full it goes to swap as long as a slot is free there, and zram is not touched. */
  lemma EvictOrder(m: Mem, k: Key)
    requires Inv(m) && k in m.slots
    ensures var (m', done) := Evict(m, k);
            var room := exists id: nat :: id < |m.zram.compressed| && !Zram.Live(m.zram, id);
            var swapRoom := exists id: nat :: id < |m.swap.bitmap| * Swap.WORD_BITS && !Swap.InUse(m.swap, id);
            && (done <==> m.slots[k].InMemory? && Sole(m, k) && (room || swapRoom))
            && (done && room ==> k in m'.slots && m'.slots[k].Compressed? && m'.swap == m.swap)
            && (done && !room ==> k in m'.slots && m'.slots[k].SwappedOut? && m'.zram == m.zram)
  {
    hide Mapped, WritableIsSole, View, Sole, Held, Swap.Valid, Swap.InUse, Swap.Write, Zram.Valid, Zram.Insert;
    if m.slots[k].InMemory? && Sole(m, k) {
      var page := Bytes(m, m.slots[k]);
      Zram.InsertIssuesFresh(m.zram, m.codec.compress(page));
      Swap.WriteIssuesFresh(m.swap, page);
    }
  }

  /** An eviction gives back exactly one frame when it succeeds and none when it does not. */
  lemma EvictFreesOne(m: Mem, k: Key)
    requires Inv(m) && k in m.slots
    ensures FA.Unallocated(Evict(m, k).0.frames) == FA.Unallocated(m.frames) + (if Evict(m, k).1 then 1 else 0)
  {
  }

  /** A forced swap gives the frame back exactly when the page was not shared. */
  lemma ForceSwapFrees(m: Mem, k: Key)
    requires Inv(m) && k in m.slots
    ensures FA.Unallocated(ForceSwap(m, k).0.frames)
         == FA.Unallocated(m.frames) + (if ForceSwap(m, k).1 && Sole(m, k) then 1 else 0)
  {
    if ForceSwap(m, k).1 && !Sole(m, k) {
      var k' :| k' in m.slots && m.slots[k'] == m.slots[k] && k' != k;
      var (d, id) := Swap.Write(m.swap, Bytes(m, m.slots[k])).value;
      var m1 := m.(swap := d, slots := m.slots[k := SwappedOut(id)]);
      assert m1.slots[k'] == m.slots[k];
      assert Held(m1, m.slots[k]);
    }
  }

  /** `unreachable!()` in the fault handler is unreachable, a fault changes no page's bytes, and a
      repaired page is mapped with the area's permissions. */
  lemma FaultKeeps(m: Mem, k: Key, perm: Perm, stripped: bool)
    requires Inv(m) && k in m.slots
    ensures var (m', r) := Fault(m, k, perm, stripped);
            && Inv(m') && View(m') == View(m)
            && (r.Resolved? ==>
                  && k in m'.pt && m'.pt == m.pt[k := Pte(r.ppn, perm)]
                  && m'.slots == m.slots[k := InMemory(r.ppn)])
            && (!r.Resolved? ==> m' == m)
  {
    hide Accounted, Sole, View, WritableIsSole, Readable, Install;
    ViewAt(m, k);
    PtWithout(m, k);
    TrackersReadable(m, k);
    if k in m.pt {
      if !stripped {
        if Sole(m, k) {
          RegrantKeeps(m, k, perm);
        } else {
          InstallKeeps(m, k, Bytes(m, m.slots[k]), perm);
        }
      }
    } else {
      InstallKeeps(m, k, Bytes(m, m.slots[k]), perm);
    }
  }

  lemma PtWithout(m: Mem, k: Key)
    ensures k !in m.pt ==> m.(pt := m.pt - {k}) == m
  {
    assert k !in m.pt ==> m.pt - {k} == m.pt;
  }

  lemma FaultSame(m: Mem, k: Key, perm: Perm, stripped: bool)
    requires k in m.slots
    ensures Fault(m, k, perm, stripped).0.foreign == m.foreign && Fault(m, k, perm, stripped).0.codec == m.codec
  {
  }

  lemma FreeNat(m: Mem)
    requires Inv(m)
    ensures FA.Unallocated(m.frames) >= 0
  {
  }

  /** A fault fails only for want of a free frame, or because mprotect took W away for good. */
  lemma FaultResolves(m: Mem, k: Key, perm: Perm, stripped: bool)
    requires Inv(m) && k in m.slots
    ensures Fault(m, k, perm, stripped).1.Resolved? <==>
              if k in m.pt then !stripped && (Sole(m, k) || FA.Unallocated(m.frames) > 0)
              else FA.Unallocated(m.frames) > 0
  {
    hide Accounted, Sole, View, WritableIsSole, Readable, Install;
    PtWithout(m, k);
    FreeNat(m);
    TrackersReadable(m, k);
    InstallKeeps(m, k, Bytes(m, m.slots[k]), perm);
  }

  /** The handler panics only where it unwraps a frame allocation: to copy a shared page, or to bring a
      page back, with no frame free. Its `unreachable!()`, its calls of `map` and `unmap` and its reads of
      the two stores never panic. */
  lemma FaultPanicsIff(m: Mem, k: Key, perm: Perm, stripped: bool)
    requires Inv(m) && k in m.slots
    ensures Fault(m, k, perm, stripped).1 == Panicked <==>
              && FA.Unallocated(m.frames) == 0
              && if k in m.pt then !stripped && !Sole(m, k) else m.slots[k] != Unallocated
  {
    hide Accounted, Sole, View, WritableIsSole, Readable, Install;
    PtWithout(m, k);
    TrackersReadable(m, k);
    InstallKeeps(m, k, Bytes(m, m.slots[k]), perm);
  }

  lemma MappedAt(m: Mem, k: Key)
    requires Inv(m) && k in m.slots
    ensures k in m.pt <==> m.slots[k].InMemory?
    ensures k in m.pt ==> m.slots[k] == InMemory(m.pt[k].ppn)
  {
  }

  lemma InstallMaps(m: Mem, k: Key, page: Page, perm: Perm)
    requires FA.Valid(m.frames) && k in m.slots && k !in m.pt && Install(m, k, page, perm).Some?
    ensures var (m', p) := Install(m, k, page, perm).value;
            m'.slots == m.slots[k := InMemory(p)] && m'.pt == m.pt[k := Pte(p, perm)] && !FA.Taken(m.frames, p)
  {
    hide Held;
    FA.AllocTakesOne(m.frames);
  }

  /** What a repair leaves: the page in memory, mapped to its frame with the permissions of the area, in the frame it
      had if it was mapped and its only owner and else in one nobody held; any failure changes nothing. */
  lemma FaultMaps(m: Mem, k: Key, perm: Perm, stripped: bool)
    requires Inv(m) && k in m.slots
    ensures var (m', r) := Fault(m, k, perm, stripped);
            if r.Resolved? then
              && m'.slots == m.slots[k := InMemory(r.ppn)] && m'.pt == m.pt[k := Pte(r.ppn, perm)]
              && if k in m.pt && Sole(m, k) then m' == m.(pt := m'.pt) && m.slots[k] == InMemory(r.ppn)
                 else !FA.Taken(m.frames, r.ppn)
            else m' == m
  {
    hide View, Bytes, Install, WritableIsSole, Sole, Mapped, Readable, FA.Taken;
    MappedAt(m, k);
    var (m', r) := Fault(m, k, perm, stripped);
    if r.Resolved? {
      var page := if k !in m.pt && m.slots[k] == Unallocated then ZeroPage() else Bytes(m, m.slots[k]);
      var m1 := m.(pt := m.pt - {k});
      if Install(m1, k, page, perm).Some? {
        InstallMaps(m1, k, page, perm);
      }
      assert k !in m.pt ==> m.pt - {k} == m.pt;
      assert (m.pt - {k})[k := Pte(r.ppn, perm)] == m.pt[k := Pte(r.ppn, perm)];
      assert m.slots[k] == InMemory(r.ppn) ==> m.slots[k := m.slots[k]] == m.slots;
    }
  }

  /** Why the handler refuses: W was taken away from a mapped page, or no frame is free for a page that has never been
      touched. */
  lemma FaultFailsIff(m: Mem, k: Key, perm: Perm, stripped: bool)
    requires Inv(m) && k in m.slots
    ensures Fault(m, k, perm, stripped).1 == Failed(NoPermission) <==> k in m.pt && stripped
    ensures Fault(m, k, perm, stripped).1 == Failed(BadAddress) <==>
              k !in m.pt && m.slots[k] == Unallocated && FA.Unallocated(m.frames) == 0
    ensures Fault(m, k, perm, stripped).1 != Failed(NotMapped)
  {
    hide Accounted, Sole, View, WritableIsSole, Readable, Install;
    PtWithout(m, k);
    TrackersReadable(m, k);
    InstallKeeps(m, k, Bytes(m, m.slots[k]), perm);
  }

  lemma RegrantKeeps(m: Mem, k: Key, perm: Perm)
    requires Inv(m) && k in m.pt && Sole(m, k)
    ensures var m' := m.(pt := m.pt[k := Pte(m.pt[k].ppn, perm)]); Inv(m') && View(m') == View(m)
  {
    hide Accounted, WritableIsSole, View;
    AccountsIgnorePt(m, m.pt[k := Pte(m.pt[k].ppn, perm)]);
    SameSlots(m, m.(pt := m.pt[k := Pte(m.pt[k].ppn, perm)]));
    RegrantKeepsMapping(m, k, perm);
  }

  lemma RegrantKeepsMapping(m: Mem, k: Key, perm: Perm)
    requires Mapped(m) && WritableIsSole(m) && k in m.pt && Sole(m, k)
    ensures var m' := m.(pt := m.pt[k := Pte(m.pt[k].ppn, perm)]); Mapped(m') && WritableIsSole(m')
  {
    var m' := m.(pt := m.pt[k := Pte(m.pt[k].ppn, perm)]);
    forall k1 | k1 in m'.pt && k1 in m'.slots && m'.pt[k1].perm.w
      ensures Sole(m', k1)
    {
      assert Sole(m, k1);
    }
  }

  lemma SameSlots(m: Mem, m': Mem)
    requires m'.slots == m.slots && m'.ram == m.ram && m'.zram == m.zram && m'.swap == m.swap && m'.codec == m.codec
    ensures View(m') == View(m)
    ensures forall k :: k in m.slots ==> (Sole(m', k) <==> Sole(m, k))
  {
    forall k | k in m.slots
      ensures Bytes(m', m.slots[k]) == Bytes(m, m.slots[k])
    {
    }
  }

  lemma ProtectKeeps(m: Mem, k: Key, perm: Perm)
    requires Inv(m) && !perm.w
    ensures Inv(Protect(m, k, perm)) && View(Protect(m, k, perm)) == View(m)
  {
    AccountsIgnorePt(m, Protect(m, k, perm).pt);
    SameSlots(m, Protect(m, k, perm));
    ProtectKeepsMapping(m, k, perm);
  }

  lemma ProtectKeepsMapping(m: Mem, k: Key, perm: Perm)
    requires Mapped(m) && WritableIsSole(m) && !perm.w
    ensures Mapped(Protect(m, k, perm)) && WritableIsSole(Protect(m, k, perm))
  {
    var m' := Protect(m, k, perm);
    forall k1 | k1 in m'.pt && k1 in m'.slots && m'.pt[k1].perm.w
      ensures Sole(m', k1)
    {
      assert Sole(m, k1);
    }
  }

  /** Forking a page copies it in the view, although both spaces share one tracker. */
  lemma ForkPageKeeps(m: Mem, k: Key, child: Key, perm: Perm)
    requires Inv(m) && k in m.slots && child !in m.slots
    ensures var m' := ForkPage(m, k, child, perm);
            && Inv(m') && View(m') == View(m)[child := View(m)[k]]
  {
    var m' := ForkPage(m, k, child, perm);
    var m1 := m.(slots := m.slots[child := m.slots[k]]);
    assert Held(m, m.slots[k]);
    CloneKeepsAccounts(m, child, m.slots[k]);
    AccountsIgnorePt(m1, m'.pt);
    SameSlots(m1, m');
    AddSlotView(m, child, m.slots[k]);
    ForkPageKeepsMapping(m, k, child, perm);
  }

  lemma ForkPageKeepsMapping(m: Mem, k: Key, child: Key, perm: Perm)
    requires Mapped(m) && WritableIsSole(m) && k in m.slots && child !in m.slots
    ensures var m' := ForkPage(m, k, child, perm);
            Mapped(m') && WritableIsSole(m')
  {
    var m' := ForkPage(m, k, child, perm);
    forall k1 | k1 in m'.pt && k1 in m'.slots && m'.pt[k1].perm.w
      ensures Sole(m', k1)
    {
      assert Sole(m, k1);
      assert k1 != k && k1 != child;
      assert m.slots[k1] != m.slots[k];
    }
  }

  lemma AddSlotView(m: Mem, k: Key, f: Frame)
    requires k !in m.slots
    ensures View(m.(slots := m.slots[k := f])) == View(m)[k := Bytes(m, f)]
  {
    var m1 := m.(slots := m.slots[k := f]);
    forall g
      ensures Bytes(m1, g) == Bytes(m, g)
    {
    }
  }

  lemma ReserveKeeps(m: Mem, k: Key)
    requires Inv(m) && k !in m.slots
    ensures Inv(Reserve(m, k)) && View(Reserve(m, k)) == View(m)[k := ZeroPage()]
    ensures forall i :: 0 <= i < PAGE_SIZE ==> View(Reserve(m, k))[k][i] == 0
  {
    CloneKeepsAccounts(m, k, Unallocated);
    AddSlotView(m, k, Unallocated);
    forall k1 | k1 in m.pt && m.pt[k1].perm.w
      ensures Sole(Reserve(m, k), k1)
    {
      assert Sole(m, k1);
    }
  }

  lemma UnmapOneKeeps(m: Mem, k: Key)
    requires Inv(m) && k in m.slots
    ensures var m' := UnmapOne(m, k);
            && Inv(m')
            && m'.pt == m.pt - {k}
            && m'.slots == (if k in m.pt then m.slots[k := Unallocated] else m.slots)
            && View(m') == (if k in m.pt then View(m)[k := ZeroPage()] else View(m))
  {
    if k in m.pt {
      assert Created(m, m, Unallocated);
      ReplaceKeeps(m, m, k, Unallocated, m.pt - {k});
    }
  }

  lemma ForgetOther(m: Mem, k: Key, k': Key)
    requires Accounted(m, Unallocated) && k in m.slots && k' in m.slots && k' != k
    ensures Bytes(Forget(m, k), m.slots[k']) == Bytes(m, m.slots[k'])
  {
    if m.slots[k'] == m.slots[k] {
      var m1 := m.(slots := m.slots - {k});
      assert k' in m1.slots && m1.slots[k'] == m.slots[k];
      assert Held(m1, m.slots[k]);
    } else {
      ForgetKeepsAccounts(m, k);
    }
  }

  lemma DiscardKeeps(m: Mem, k: Key)
    requires Inv(m) && k in m.slots
    ensures Inv(Discard(m, k)) && View(Discard(m, k)) == View(m) - {k}
    ensures Discard(m, k).slots == m.slots - {k} && Discard(m, k).pt == m.pt - {k}
  {
    hide Accounted, Held, Bytes, Sole;
    var m1 := m.(pt := m.pt - {k});
    AccountsIgnorePt(m, m1.pt);
    SameSlots(m, m1);
    ForgetKeepsAccounts(m1, k);
    DiscardKeepsMapping(m, k, Discard(m, k));
    forall k' | k' in m.slots && k' != k
      ensures Bytes(Discard(m, k), m.slots[k']) == Bytes(m, m.slots[k'])
    {
      ForgetOther(m1, k, k');
      BytesIgnorePt(m, m1.pt, m.slots[k']);
    }
  }

  lemma DiscardKeepsMapping(m: Mem, k: Key, m': Mem)
    requires Mapped(m) && WritableIsSole(m) && k in m.slots
    requires m'.slots == m.slots - {k} && m'.pt == m.pt - {k}
    ensures Mapped(m') && WritableIsSole(m')
  {
    forall k1 | k1 in m'.pt && k1 in m'.slots && m'.pt[k1].perm.w
      ensures Sole(m', k1)
    {
      assert Sole(m, k1);
    }
  }

  /** Dropping a range of pages removes exactly those pages and frees what only they held. */
  lemma {:induction false} DiscardRangeKeeps(m: Mem, a: nat, lo: nat, hi: nat)
    requires Inv(m)
    ensures var m' := DiscardRange(m, a, lo, hi);
            && Inv(m') && View(m') == View(m) - Range(a, lo, hi)
            && m'.slots == m.slots - Range(a, lo, hi) && m'.pt == m.pt - Range(a, lo, hi)
            && m'.foreign == m.foreign && m'.codec == m.codec
    decreases hi - lo
  {
    hide Inv, View, Discard;
    if lo < hi {
      var m1 := if (a, lo) in m.slots then Discard(m, (a, lo)) else m;
      if (a, lo) in m.slots {
        DiscardKeeps(m, (a, lo));
      } else {
        ViewKeys(m);
      }
      DiscardSame(m, (a, lo));
      DiscardRangeKeeps(m1, a, lo + 1, hi);
      assert Range(a, lo, hi) == {(a, lo)} + Range(a, lo + 1, hi);
    } else {
      assert Range(a, lo, hi) == {};
    }
  }

  lemma DiscardSame(m: Mem, k: Key)
    ensures k in m.slots ==> Discard(m, k).foreign == m.foreign && Discard(m, k).codec == m.codec
  {
  }

  lemma ViewKeys(m: Mem)
    requires Inv(m)
    ensures View(m).Keys == m.slots.Keys && m.pt.Keys <= m.slots.Keys
  {
  }

  lemma ReleaseKeeps(m: Mem, k: Key)
    requires Inv(m) && k in m.slots
    ensures var m' := Release(m, k);
            && Inv(m') && View(m') == View(m) - {k}
            && m'.slots == m.slots - {k} && m'.pt == m.pt - {k}
  {
    hide Inv, View, UnmapOne, Discard;
    var m1 := UnmapOne(m, k);
    UnmapOneKeeps(m, k);
    DiscardKeeps(m1, k);
    UpdateThenRemove(View(m), k, ZeroPage());
    UpdateThenRemove(m.slots, k, Unallocated);
  }

  lemma UpdateThenRemove<V>(v: map<Key, V>, k: Key, x: V)
    ensures v[k := x] - {k} == v - {k}
  {
  }

  /** A store through a writable entry changes one byte of one page of one address space. */
  lemma PokeKeeps(m: Mem, k: Key, off: nat, v: byte)
    requires Inv(m) && off < PAGE_SIZE
    ensures var (m', done) := Poke(m, k, off, v);
            && Inv(m')
            && (done ==> k in m.slots && View(m') == View(m)[k := View(m)[k][off := v]])
            && (!done ==> m' == m)
            && (done <==> k in m.pt && m.pt[k].perm.w)
  {
    if k in m.pt && m.pt[k].perm.w {
      LoadSeesView(m, k);
      var m' := Poke(m, k, off, v).0;
      assert Accounted(m', Unallocated) by { HeldSame(m, m'); }
      PokeKeepsMapping(m, m');
      PokeView(m, k, off, v);
    }
  }

  /** A store instruction changes one byte of one page of one space, exactly when `Commits` says so. */
  lemma StoreCommitsIff(m: Mem, k: Key, off: nat, v: byte, perm: Perm, stripped: bool)
    requires Inv(m) && k in m.slots && off < PAGE_SIZE
    ensures var (m', done) := StoreInstr(m, k, off, v, perm, stripped);
            && Inv(m') && (done <==> Commits(m, k, perm, stripped))
            && View(m') == (if done then View(m)[k := View(m)[k][off := v]] else View(m))
  {
    hide Inv, View, Fault, Poke, Sole;
    PokeKeeps(m, k, off, v);
    FaultKeeps(m, k, perm, stripped);
    FaultResolves(m, k, perm, stripped);
    PokeKeeps(Fault(m, k, perm, stripped).0, k, off, v);
  }

  /** A kernel write through a mapped page changes every page that shares its frame, and no other. */
  lemma KernelWriteShared(m: Mem, k: Key, off: nat, data: seq<byte>, perm: Perm)
    requires Inv(m) && k in m.pt && k in m.slots && off + |data| <= PAGE_SIZE
    ensures var m' := KernelWrite(m, k, off, data, perm);
            && Inv(m') && m'.slots == m.slots
            && forall k' :: k' in m.slots ==>
                 View(m')[k'] == if m.slots[k'] == m.slots[k] then Overwritten(View(m)[k'], off, data) else View(m)[k']
  {
    hide Accounted, WritableIsSole, Overwritten;
    LoadSeesView(m, k);
    var m' := KernelWrite(m, k, off, data, perm);
    assert Accounted(m', Unallocated) by { RamOnly(m, m'); }
    PokeKeepsMapping(m, m');
  }

  lemma RamOnly(m: Mem, m': Mem)
    requires Accounted(m, Unallocated) && m' == m.(ram := m'.ram) && m.ram.Keys <= m'.ram.Keys
    ensures Accounted(m', Unallocated)
  {
    HeldSame(m, m');
  }

  /** The kernel's write is private to its own space exactly when the page is unmapped, its frame's only owner,
      or the bytes were there already. An unmapped page takes the write iff a frame is free. */
  lemma KernelWritePrivateIff(m: Mem, k: Key, off: nat, data: seq<byte>, perm: Perm)
    requires Inv(m) && k in m.slots && off + |data| <= PAGE_SIZE
    ensures var m' := KernelWrite(m, k, off, data, perm); var taken := k in m.pt || FA.Unallocated(m.frames) > 0;
            && Inv(m')
            && (View(m') == (if taken then View(m)[k := Overwritten(View(m)[k], off, data)] else View(m))
               <==> Private(m, k, off, data))
  {
    hide Inv, Overwritten, Sole, Fault, KernelWrite, View, Bytes;
    ViewKeys(m);
    if k in m.pt {
      KernelWriteShared(m, k, off, data, perm);
      var m' := KernelWrite(m, k, off, data, perm);
      ViewKeys(m');
      PrivateIff(m, m', k, off, data);
    } else {
      KernelWriteFaults(m, k, off, data, perm);
    }
  }

  /** A kernel write to page `k` stays in its own space. */
  predicate Private(m: Mem, k: Key, off: nat, data: seq<byte>)
    requires k in m.slots && off + |data| <= PAGE_SIZE
  {
    k in m.pt ==> Sole(m, k) || Overwritten(View(m)[k], off, data) == View(m)[k]
  }

  lemma SharedView(m: Mem, k: Key, k': Key)
    requires k in m.slots && k' in m.slots
    ensures View(m).Keys == m.slots.Keys && (m.slots[k'] == m.slots[k] ==> View(m)[k'] == View(m)[k])
  {
  }

  lemma PrivateIff(m: Mem, m': Mem, k: Key, off: nat, data: seq<byte>)
    requires Inv(m) && k in m.slots && off + |data| <= PAGE_SIZE && View(m').Keys == View(m).Keys == m.slots.Keys
    requires forall k' :: k' in m.slots ==>
               View(m')[k'] == if m.slots[k'] == m.slots[k] then Overwritten(View(m)[k'], off, data) else View(m)[k']
    ensures View(m') == View(m)[k := Overwritten(View(m)[k], off, data)] <==>
              Sole(m, k) || Overwritten(View(m)[k], off, data) == View(m)[k]
  {
    hide Inv, Overwritten, View;
    var w := View(m)[k := Overwritten(View(m)[k], off, data)];
    if Sole(m, k) || Overwritten(View(m)[k], off, data) == View(m)[k] {
      forall k' | k' in m.slots
        ensures View(m')[k'] == w[k']
      {
        SharedView(m, k, k');
      }
      assert View(m') == w;
    } else {
      var k' :| k' in m.slots && m.slots[k'] == m.slots[k] && k' != k;
      SharedView(m, k, k');
      assert View(m')[k'] != w[k'];
    }
  }

  lemma KernelWriteFaults(m: Mem, k: Key, off: nat, data: seq<byte>, perm: Perm)
    requires Inv(m) && k in m.slots && k !in m.pt && off + |data| <= PAGE_SIZE
    ensures var m' := KernelWrite(m, k, off, data, perm);
            && Inv(m')
            && View(m') ==
               if FA.Unallocated(m.frames) > 0 then View(m)[k := Overwritten(View(m)[k], off, data)] else View(m)
  {
    hide Inv, Overwritten, Sole, Fault, View;
    FaultKeeps(m, k, perm, false);
    FaultResolves(m, k, perm, false);
    var (m1, r) := Fault(m, k, perm, false);
    if r.Resolved? {
      FaultSole(m, k, perm);
      ViewKeys(m1);
      KernelWriteShared(m1, k, off, data, perm);
      var m' := KernelWrite(m1, k, off, data, perm);
      ViewKeys(m');
      PrivateIff(m1, m', k, off, data);
      assert KernelWrite(m, k, off, data, perm) == m';
    }
  }

  lemma KernelWriteKeys(m: Mem, k: Key, off: nat, data: seq<byte>, perm: Perm)
    requires Inv(m) && k in m.slots && off + |data| <= PAGE_SIZE
    ensures KernelWrite(m, k, off, data, perm).slots.Keys == m.slots.Keys
  {
    hide Inv, View, Fault, Overwritten;
    FaultKeeps(m, k, perm, false);
  }

  // ----- The pool of frames -----

  predicate SamePool(m: Mem, m': Mem) {
    m'.frames.base == m.frames.base && m'.frames.end == m.frames.end && m'.foreign == m.foreign
  }

  lemma PutPool(m: Mem, k: Key, f: Frame)
    requires k in m.slots
    ensures SamePool(m, Put(m, k, f)) && SamePool(m, Forget(m, k))
  {
    hide Held;
  }

  lemma FaultPool(m: Mem, k: Key, perm: Perm, stripped: bool)
    requires k in m.slots
    ensures SamePool(m, Fault(m, k, perm, stripped).0)
  {
    hide Held, Sole, Bytes, Readable, Put;
    forall m1: Mem, f | k in m1.slots
      ensures SamePool(m1, Put(m1, k, f))
    {
      PutPool(m1, k, f);
    }
  }

  lemma EvictPool(m: Mem, k: Key)
    requires Inv(m) && k in m.slots
    ensures SamePool(m, ForceSwap(m, k).0) && SamePool(m, Evict(m, k).0)
  {
    hide Held, Sole, Bytes, Put, Swap.Write, Zram.Insert, Inv;
    forall m1: Mem, f | k in m1.slots
      ensures SamePool(m1, Put(m1, k, f))
    {
      PutPool(m1, k, f);
    }
  }

  lemma ReleasePool(m: Mem, k: Key)
    requires k in m.slots
    ensures SamePool(m, Release(m, k))
  {
    hide Held, Put, Forget;
    PutPool(m, k, Unallocated);
    var m1 := UnmapOne(m, k);
    if k in m1.slots {
      PutPool(m1.(pt := m1.pt - {k}), k, Unallocated);
    }
  }

  /** A page brought in by a fault is its frame's only owner. */
  lemma FaultSole(m: Mem, k: Key, perm: Perm)
    requires Inv(m) && k in m.slots && k !in m.pt && Fault(m, k, perm, false).1.Resolved?
    ensures var (m1, r) := Fault(m, k, perm, false); m1.slots == m.slots[k := InMemory(r.ppn)] && Sole(m1, k)
  {
    hide View, Bytes, Put;
    FaultKeeps(m, k, perm, false);
    FA.AllocTakesOne(m.frames);
    var (m1, r) := Fault(m, k, perm, false);
    assert !Held(m, InMemory(r.ppn));
    assert forall k' :: k' in m.slots ==> m.slots[k'] != InMemory(r.ppn);
  }

  lemma PokeKeepsMapping(m: Mem, m': Mem)
    requires Mapped(m) && WritableIsSole(m) && m'.slots == m.slots && m'.pt == m.pt
    ensures Mapped(m') && WritableIsSole(m')
  {
    forall k | k in m'.pt && k in m'.slots && m'.pt[k].perm.w
      ensures Sole(m', k)
    {
      assert Sole(m, k);
    }
  }

  lemma PokeView(m: Mem, k: Key, off: nat, v: byte)
    requires Mapped(m) && WritableIsSole(m) && off < PAGE_SIZE && Poke(m, k, off, v).1
    requires m.ram[m.pt[k].ppn] == View(m)[k]
    ensures View(Poke(m, k, off, v).0) == View(m)[k := View(m)[k][off := v]]
  {
    var m' := Poke(m, k, off, v).0;
    forall k' | k' in m.slots && k' != k
      ensures Bytes(m', m.slots[k']) == Bytes(m, m.slots[k'])
    {
      assert Sole(m, k);
    }
  }

  /** What the hardware reads through a valid entry is what the view says. */
  lemma LoadSeesView(m: Mem, k: Key)
    requires Inv(m) && k in m.pt
    ensures k in m.slots && m.pt[k].ppn in m.ram && m.ram[m.pt[k].ppn] == View(m)[k]
  {
    assert Held(m, m.slots[k]);
  }

  // ----- Steps confined to a range of one address space -----

  /** Pages outside `[lo, hi)` of space `a` keep their tracker, entry and bytes; no page appears. */
  ghost predicate KeptOutside(m: Mem, m': Mem, a: nat, lo: nat, hi: nat) {
    && m'.slots.Keys <= m.slots.Keys
    && m'.foreign == m.foreign && m'.codec == m.codec
    && (forall k :: k in m.slots && k !in Range(a, lo, hi) ==>
          && k in m'.slots && m'.slots[k] == m.slots[k] && View(m')[k] == View(m)[k]
          && (k in m'.pt <==> k in m.pt) && (k in m'.pt ==> m'.pt[k] == m.pt[k]))
  }

  lemma KeptSelf(m: Mem, a: nat, lo: nat, hi: nat)
    ensures KeptOutside(m, m, a, lo, hi)
  {
  }

  lemma KeptTrans(m: Mem, m1: Mem, m2: Mem, a: nat, lo: nat, hi: nat)
    requires KeptOutside(m, m1, a, lo, hi) && KeptOutside(m1, m2, a, lo, hi)
    ensures KeptOutside(m, m2, a, lo, hi)
  {
    hide View;
  }

  lemma KeptWiden(m: Mem, m': Mem, a: nat, lo: nat, hi: nat, lo': nat, hi': nat)
    requires KeptOutside(m, m', a, lo, hi) && lo' <= lo && hi <= hi'
    ensures KeptOutside(m, m', a, lo', hi')
  {
    hide View;
    assert Range(a, lo, hi) <= Range(a, lo', hi');
  }

  lemma DiscardRangeKept(m: Mem, a: nat, lo: nat, hi: nat)
    requires Inv(m)
    ensures Inv(DiscardRange(m, a, lo, hi)) && KeptOutside(m, DiscardRange(m, a, lo, hi), a, lo, hi)
  {
    hide Inv, DiscardRange, View;
    DiscardRangeKeeps(m, a, lo, hi);
    ViewKeys(m);
    ViewKeys(DiscardRange(m, a, lo, hi));
  }

  /** Some page outside `[lo, hi)` of space `a` owns a clone of the tracker `f`. */
  ghost predicate HeldOutside(m: Mem, a: nat, lo: nat, hi: nat, f: Frame) {
    exists k :: k in m.slots && k !in Range(a, lo, hi) && m.slots[k] == f
  }

  lemma OutsideSame(m: Mem, m': Mem, a: nat, lo: nat, hi: nat)
    requires m.slots == m'.slots
    ensures forall f :: HeldOutside(m, a, lo, hi, f) <==> HeldOutside(m', a, lo, hi, f)
  {
  }

  /** The frame of a mapped page of a dropped range stays out of the allocator exactly when another page owns it. */
  lemma DiscardReleases(m: Mem, a: nat, lo: nat, hi: nat, v: nat)
    requires Inv(m) && (a, v) in m.pt
    ensures FA.Taken(DiscardRange(m, a, lo, hi).frames, m.pt[(a, v)].ppn)
            <==> HeldOutside(m, a, lo, hi, InMemory(m.pt[(a, v)].ppn))
  {
    hide DiscardRange, View, Range, WritableIsSole;
    var m', p := DiscardRange(m, a, lo, hi), m.pt[(a, v)].ppn;
    DiscardRangeKeeps(m, a, lo, hi);
    assert m.slots[(a, v)] == InMemory(p) && Held(m, InMemory(p));
    assert FA.Taken(m'.frames, p) <==> Held(m', InMemory(p));
    if Held(m', InMemory(p)) {
      var k :| k in m'.slots && m'.slots[k] == InMemory(p);
      assert k in m.slots && k !in Range(a, lo, hi);
    }
    if HeldOutside(m, a, lo, hi, InMemory(p)) {
      var k :| k in m.slots && k !in Range(a, lo, hi) && m.slots[k] == InMemory(p);
      assert k in m'.slots && m'.slots[k] == InMemory(p);
    }
  }

  /** A step confined to no page at all changes no tracker and no entry. */
  lemma KeptNothing(m: Mem, m': Mem, a: nat, s: nat)
    requires Inv(m) && Inv(m') && KeptOutside(m, m', a, s, s)
    ensures m'.slots == m.slots && m'.pt == m.pt
  {
    hide View, Accounted, WritableIsSole;
    assert Range(a, s, s) == {};
  }

  lemma UnmapOneKept(m: Mem, a: nat, v: nat)
    requires Inv(m) && (a, v) in m.slots
    ensures var m' := UnmapOne(m, (a, v));
            && Inv(m') && KeptOutside(m, m', a, v, v + 1)
            && m'.slots.Keys == m.slots.Keys && (a, v) !in m'.pt
  {
    hide Inv, View;
    UnmapOneKeeps(m, (a, v));
    ViewKeys(m);
    ViewKeys(UnmapOne(m, (a, v)));
    UnmapSame(m, (a, v));
    assert (a, v) in Range(a, v, v + 1);
  }

  lemma UnmapSame(m: Mem, k: Key)
    requires k in m.slots
    ensures UnmapOne(m, k).foreign == m.foreign && UnmapOne(m, k).codec == m.codec
  {
  }

  /** A confined step that leaves no page in its range removed exactly the range. */
  lemma KeptExact(m: Mem, m': Mem, a: nat, lo: nat, hi: nat)
    requires Inv(m) && Inv(m') && KeptOutside(m, m', a, lo, hi)
    requires forall v: nat :: lo <= v < hi ==> (a, v) !in m'.slots
    ensures m'.slots == m.slots - Range(a, lo, hi)
    ensures m'.pt == m.pt - Range(a, lo, hi)
    ensures View(m') == View(m) - Range(a, lo, hi)
  {
    hide Inv, View;
    ViewKeys(m);
    ViewKeys(m');
  }

  // ----- Reserving a range of pages -----

  function ReserveRange(m: Mem, a: nat, lo: nat, hi: nat): Mem {
    m.(slots := m.slots + map v | lo <= v < hi :: (a, v) := Unallocated)
  }

  lemma RangeHas(a: nat, lo: nat, hi: nat)
    ensures forall v: nat :: lo <= v < hi ==> (a, v) in Range(a, lo, hi)
  {
  }

  /** Fresh lazy pages read as zero and own nothing. */
  lemma ReserveRangeKeeps(m: Mem, a: nat, lo: nat, hi: nat)
    requires Inv(m) && forall k: Key :: k in Range(a, lo, hi) ==> k !in m.slots
    ensures Inv(ReserveRange(m, a, lo, hi))
    ensures forall k: Key :: k in View(ReserveRange(m, a, lo, hi)) <==> k in View(m) || k in Range(a, lo, hi)
    ensures forall k: Key :: k in View(ReserveRange(m, a, lo, hi)) ==>
              View(ReserveRange(m, a, lo, hi))[k] == if k in Range(a, lo, hi) then ZeroPage() else View(m)[k]
  {
    var m' := ReserveRange(m, a, lo, hi);
    forall g | g != Unallocated
      ensures Held(m', g) <==> Held(m, g)
    {
      if Held(m, g) {
        var k :| k in m.slots && m.slots[k] == g;
        assert k in m'.slots && m'.slots[k] == g;
      }
      if Held(m', g) {
        var k :| k in m'.slots && m'.slots[k] == g;
        assert k in m.slots && m.slots[k] == g;
      }
    }
    forall k | k in m'.pt && k in m'.slots && m'.pt[k].perm.w
      ensures Sole(m', k)
    {
      assert Sole(m, k);
    }
    forall f
      ensures Bytes(m', f) == Bytes(m, f)
    {
    }
  }

  // ----- Forking a range of pages -----

  function ForkRange(m: Mem, a: nat, c: nat, lo: nat, hi: nat, perm: Perm): Mem
    decreases hi - lo
  {
    if lo >= hi then m
    else
      var m1 := if (a, lo) in m.slots && (c, lo) !in m.pt then ForkPage(m, (a, lo), (c, lo), perm) else m;
      ForkRange(m1, a, c, lo + 1, hi, perm)
  }

  /** `m'` is `m` after the pages `[lo, hi)` of `a` were forked into `c`: the child has the parent's
      trackers and bytes, both have read-only entries, everything else is untouched. */
  ghost predicate Forked(m: Mem, m': Mem, a: nat, c: nat, lo: nat, hi: nat, perm: Perm) {
    && m'.ram == m.ram && m'.frames == m.frames && m'.zram == m.zram && m'.swap == m.swap
    && m'.foreign == m.foreign && m'.codec == m.codec
    && (forall k: Key :: k in m'.slots <==> k in m.slots || (k.0 == c && lo <= k.1 < hi))
    && (forall k: Key :: k in m.slots ==> m'.slots[k] == m.slots[k])
    && (forall v: nat :: lo <= v < hi ==> (a, v) in m.slots && m'.slots[(c, v)] == m.slots[(a, v)])
    && (forall k: Key :: k in m'.pt <==> k in m.pt || (k.0 == c && lo <= k.1 < hi && (a, k.1) in m.pt))
    && (forall k: Key :: k in m.pt ==>
       m'.pt[k] == if k.0 == a && lo <= k.1 < hi then Pte(m.pt[k].ppn, m.pt[k].perm.WithoutW()) else m.pt[k])
    && (forall v: nat :: lo <= v < hi && (a, v) in m.pt ==> m'.pt[(c, v)] == Pte(m.pt[(a, v)].ppn, perm.WithoutW()))
  }

  lemma {:induction false} ForkRangeKeeps(m: Mem, a: nat, c: nat, lo: nat, hi: nat, perm: Perm)
    requires Inv(m) && a != c && lo <= hi
    requires forall v: nat :: lo <= v < hi ==> (a, v) in m.slots && (c, v) !in m.slots
    ensures Inv(ForkRange(m, a, c, lo, hi, perm))
    ensures Forked(m, ForkRange(m, a, c, lo, hi, perm), a, c, lo, hi, perm)
    decreases hi - lo
  {
    hide Inv, View;
    if lo < hi {
      ViewKeys(m);
      var m1 := ForkPage(m, (a, lo), (c, lo), perm);
      ForkPageKeeps(m, (a, lo), (c, lo), perm);
      ForkOne(m, a, c, lo, perm);
      ForkRangeKeeps(m1, a, c, lo + 1, hi, perm);
      ForkedJoin(m, m1, ForkRange(m, a, c, lo, hi, perm), a, c, lo, hi, perm);
    } else {
      ForkNone(m, a, c, lo, perm);
    }
  }

  lemma ForkNone(m: Mem, a: nat, c: nat, lo: nat, perm: Perm)
    ensures Forked(m, m, a, c, lo, lo, perm)
  {
  }

  lemma ForkOne(m: Mem, a: nat, c: nat, v: nat, perm: Perm)
    requires Inv(m) && a != c && (a, v) in m.slots && (c, v) !in m.slots
    ensures Forked(m, ForkPage(m, (a, v), (c, v), perm), a, c, v, v + 1, perm)
  {
    hide Accounted, WritableIsSole;
  }

  lemma ForkedJoin(m: Mem, m1: Mem, m2: Mem, a: nat, c: nat, lo: nat, hi: nat, perm: Perm)
    requires a != c && lo < hi
    requires Forked(m, m1, a, c, lo, lo + 1, perm) && Forked(m1, m2, a, c, lo + 1, hi, perm)
    ensures Forked(m, m2, a, c, lo, hi, perm)
  {
    forall v: nat | lo < v < hi
      ensures (a, v) in m.slots && m1.slots[(a, v)] == m.slots[(a, v)]
    {
      assert (a, v) in m1.slots;
    }
  }

  /** The child sees exactly the parent's bytes; nobody else sees a change. */
  lemma ForkedView(m: Mem, m': Mem, a: nat, c: nat, lo: nat, hi: nat, perm: Perm)
    requires Forked(m, m', a, c, lo, hi, perm)
    ensures forall k :: k in m.slots ==> View(m')[k] == View(m)[k]
    ensures forall v: nat :: lo <= v < hi ==> View(m')[(c, v)] == View(m)[(a, v)]
  {
    forall f
      ensures Bytes(m', f) == Bytes(m, f)
    {
    }
  }
}
