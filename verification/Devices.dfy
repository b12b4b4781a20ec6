// The frame allocator, the compressed store and the swap device as the objects the kernel locks.
module Devices {
  import opened Types
  import FA = FrameAllocator
  import Zram
  import Swap
  import opened Paging

  class StackFrameAllocator {
    var current: nat
    var end: nat
    var recycled: seq<nat>
    ghost const base: nat

    ghost function State(): FA.Frames
      reads this
    {
      FA.Frames(base, current, end, recycled)
    }

    ghost predicate Valid()
      reads this
    {
      FA.Valid(State())
    }

    /** `new` and `init` */
    constructor (l: nat, r: nat)
      requires l <= r
      ensures Valid() && State() == FA.Frames(l, l, r, [])
    {
      base, current, end, recycled := l, l, r, [];
    }

    method UnallocatedFrames() returns (n: int)
      requires Valid()
      ensures n == FA.Unallocated(State()) == |FA.Free(State())|
    {
      FA.UnallocatedCounts(State());
      n := end - current + |recycled|;
    }

    /** A frame nobody holds, unless every frame is held. */
    method Alloc() returns (r: Option<nat>)
      requires Valid()
      modifies this
      ensures Valid() && end == old(end)
      ensures r.None? <==> FA.Unallocated(old(State())) == 0
      ensures r.None? ==> State() == old(State())
      ensures r.Some? ==>
                && base <= r.value < end && !FA.Taken(old(State()), r.value)
                && (forall q: nat :: FA.Taken(State(), q) <==> q == r.value || FA.Taken(old(State()), q))
                && FA.Unallocated(State()) == FA.Unallocated(old(State())) - 1
    {
      FA.AllocTakesOne(State());
      if |recycled| > 0 {
        r := Some(Last(recycled));
        recycled := DropLast(recycled);
      } else if current == end {
        r := None;
      } else {
        current := current + 1;
        r := Some(current - 1);
      }
    }

    /** `num` adjacent frames nobody holds; returned frames are never looked at. */
    method AllocContiguous(num: nat) returns (r: Option<nat>)
      requires Valid()
      modifies this
      ensures Valid() && end == old(end)
      ensures r.None? <==> old(end - current) < num
      ensures r.None? ==> State() == old(State())
      ensures r.Some? ==>
                && (forall p: nat :: r.value <= p < r.value + num ==> base <= p < end && !FA.Taken(old(State()), p))
                && (forall q: nat ::
                      FA.Taken(State(), q) <==> r.value <= q < r.value + num || FA.Taken(old(State()), q))
                && FA.Unallocated(State()) == FA.Unallocated(old(State())) - num
    {
      if end - current < num {
        return None;
      }
      var start := current;
      current := current + num;
      return Some(start);
    }

    /** A frame already returned makes it panic. The allocator stays sound exactly when the frame was held. */
    method Dealloc(p: nat)
      requires Valid() && p !in recycled
      modifies this
      ensures Valid() <==> FA.Taken(old(State()), p)
      ensures FA.Taken(old(State()), p) ==>
              forall q: nat :: FA.Taken(State(), q) <==> q != p && FA.Taken(old(State()), q)
      ensures FA.Unallocated(State()) == FA.Unallocated(old(State())) + 1
    {
      FA.DeallocSoundIffTaken(State(), p);
      recycled := recycled + [p];
      assert State() == FA.Dealloc(old(State()), p);
    }
  }

  datatype ZramResult<T> = Success(value: T) | Failure(error: Zram.Error)

  class ZramDevice {
    var compressed: seq<Option<Zram.Blob>>
    var recycled: seq<nat>
    var tail: nat
    const codec: Codec

    ghost function State(): Zram.Store
      reads this
    {
      Zram.Store(compressed, recycled, tail)
    }

    ghost predicate Valid()
      reads this
    {
      Zram.Valid(State()) && RoundTrips(codec)
    }

    constructor (capacity: nat, c: Codec)
      requires capacity < 0x1_0000 && RoundTrips(c)
      ensures Valid() && |compressed| == capacity && forall id: nat :: !Zram.Live(State(), id)
    {
      compressed, recycled, tail, codec := seq(capacity, _ => None), [], 0, c;
    }

    method Insert(data: Zram.Blob) returns (r: ZramResult<nat>)
      requires Valid()
      modifies this
      ensures Valid() && |compressed| == old(|compressed|)
      ensures r.Failure? <==> forall id: nat :: id < old(|compressed|) ==> Zram.Live(old(State()), id)
      ensures r.Failure? ==> r.error == Zram.NoSpace && State() == old(State())
      ensures r.Success? ==> Zram.Insert(old(State()), data) == Some((State(), r.value))
    {
      Zram.InsertIssuesFresh(State(), data);
      var id;
      if |recycled| > 0 {
        id := Last(recycled);
        assert id in recycled;
        recycled := DropLast(recycled);
      } else if tail == |compressed| {
        return Failure(Zram.NoSpace);
      } else {
        tail := tail + 1;
        id := tail - 1;
      }
      compressed := compressed[id := Some(data)];
      r := Success(id);
    }

    method Get(id: nat) returns (r: ZramResult<Zram.Blob>)
      ensures r.Success? <==> Zram.Live(State(), id)
      ensures r.Success? ==> compressed[id] == Some(r.value)
      ensures r.Failure? ==> r.error == if id >= |compressed| then Zram.InvalidIndex else Zram.NotAllocated
    {
      if id >= |compressed| {
        return Failure(Zram.InvalidIndex);
      }
      match compressed[id]
      case Some(data) => r := Success(data);
      case None => r := Failure(Zram.NotAllocated);
    }

    /** On a slot that is not live the error is reported after the free list has been damaged. */
    method Remove(id: nat) returns (r: ZramResult<Zram.Blob>)
      requires Valid()
      modifies this
      ensures State() == Zram.Remove(old(State()), id)
      ensures r.Success? <==> Zram.Live(old(State()), id)
      ensures r.Success? ==> old(compressed)[id] == Some(r.value)
      ensures Valid() <==> id >= |compressed| || r.Success?
      ensures r.Success? ==> forall j: nat :: Zram.Live(State(), j) <==> j != id && Zram.Live(old(State()), j)
    {
      Zram.RemoveSoundIffLive(State(), id);
      if Zram.Live(State(), id) {
        Zram.RemoveFreesOne(State(), id);
      }
      if id >= |compressed| {
        return Failure(Zram.InvalidIndex);
      }
      if id == (if tail == 0 then 0xFFFF else tail - 1) {
        tail := id;
      } else {
        recycled := recycled + [id];
      }
      var slot := compressed[id];
      compressed := compressed[id := None];
      match slot
      case Some(data) => r := Success(data);
      case None => r := Failure(Zram.NotAllocated);
    }

    /** Only a live slot can be read. */
    method Read(id: nat) returns (r: ZramResult<Page>)
      ensures r.Success? <==> Zram.Live(State(), id)
      ensures r.Success? ==> compressed[id].Some? && r.value == codec.decompress(compressed[id].value)
    {
      var got := Get(id);
      match got
      case Success(data) => r := Success(codec.decompress(data));
      case Failure(e) => r := Failure(e);
    }

    /** The slot issued was not live, holds a blob that reads back as the page, and no live slot changes. */
    method Write(page: Page) returns (r: ZramResult<nat>)
      requires Valid()
      modifies this
      ensures Valid()
      ensures r.Failure? <==> forall id: nat :: id < old(|compressed|) ==> Zram.Live(old(State()), id)
      ensures r.Failure? ==> State() == old(State())
      ensures r.Success? ==>
                && !Zram.Live(old(State()), r.value) && Zram.Live(State(), r.value)
                && codec.decompress(compressed[r.value].value) == page
                && (forall j: nat :: j != r.value ==> (Zram.Live(State(), j) <==> Zram.Live(old(State()), j)))
                && (forall j: nat :: j != r.value && Zram.Live(State(), j) ==>
                   j < |old(compressed)| && compressed[j] == old(compressed)[j])
    {
      var blob := codec.compress(page);
      Zram.InsertIssuesFresh(State(), blob);
      r := Insert(blob);
    }
  }

  class SwapDevice {
    var bitmap: seq<Swap.Word>
    var disk: map<nat, Block>
    const blockIds: seq<nat>
    const usable: bool
    const blk: nat

    ghost function State(): Swap.Device
      reads this
    {
      Swap.Device(bitmap, blockIds, disk, usable, blk)
    }

    ghost predicate Valid()
      reads this
    {
      Swap.Valid(State())
    }

    /** The `granted` blocks are those the file system gave; anything but all of them is unusable. */
    constructor (pages: nat, perPage: nat, granted: seq<nat>, contents: map<nat, Block>)
      requires pages % Swap.WORD_BITS == 0 && perPage > 0 && PAGE_SIZE % perPage == 0 && Distinct(granted)
      requires forall b: nat :: b in granted ==> b in contents && |contents[b]| == PAGE_SIZE / perPage
      requires Swap.Contiguous(Swap.Device(Swap.Clear(pages), granted, contents, true, perPage))
      ensures Valid() && (usable <==> granted != [] && |granted| == pages * perPage)
      ensures disk == contents && blockIds == granted && blk == perPage
      ensures forall id: nat :: !Swap.InUse(State(), id)
    {
      blockIds, disk, blk := granted, contents, perPage;
      usable := granted != [] && |granted| == pages * perPage;
      bitmap := if granted != [] && |granted| == pages * perPage then Swap.Clear(pages) else [];
      new;
      ghost var clear := Swap.Device(Swap.Clear(pages), granted, contents, true, perPage);
      assert forall x: nat, i: nat :: Swap.IdAt(State(), x, i) == Swap.IdAt(clear, x, i);
    }

    method SetBit(id: nat, v: bool)
      requires Valid() && id / Swap.WORD_BITS < |bitmap|
      modifies this`bitmap
      ensures Valid() && State() == Swap.SetBit(old(State()), id, v)
      ensures forall j: nat :: Swap.InUse(State(), j) <==> if j == id then v else Swap.InUse(old(State()), j)
    {
      Swap.SetBitExact(State(), id, v);
      var w := bitmap[id / Swap.WORD_BITS];
      bitmap := bitmap[id / Swap.WORD_BITS := w[id % Swap.WORD_BITS := v]];
    }

    method AllocPage() returns (r: Option<nat>)
      ensures r == Swap.FirstFree(bitmap, 0)
      ensures r.None? <==> forall k :: 0 <= k < |bitmap| ==> bitmap[k] == Swap.AllSet()
      ensures r.Some? ==> !Swap.InUse(State(), r.value) && forall j: nat :: j < r.value ==> Swap.InUse(State(), j)
    {
      Swap.FirstFreeIsClear(State(), 0);
      var i := 0;
      while i < |bitmap|
        invariant i <= |bitmap| && Swap.FirstFree(bitmap, 0) == Swap.FirstFree(bitmap, i)
      {
        if bitmap[i] != Swap.AllSet() {
          return Some(i * Swap.WORD_BITS + Swap.FirstClear(bitmap[i], 0));
        }
        i := i + 1;
      }
      r := None;
    }

    /** `read`: an unusable device leaves the caller's buffer alone. */
    method Read(id: nat, buf: Page) returns (page: Page)
      requires Valid() && (usable ==> id < |bitmap| * Swap.WORD_BITS)
      ensures page == if usable then Swap.Load(State(), id) else buf
    {
      if !usable {
        return buf;
      }
      Swap.SlotRun(State(), id);
      Swap.PageOfBlocks(State());
      Swap.JoinSize(disk, blockIds[id * blk], blk, PAGE_SIZE / blk);
      page := Swap.Join(disk, blockIds[id * blk], blk);
    }

    /** The slot issued was not in use and reads back as the page; every other slot keeps its page. */
    method Write(page: Page) returns (r: Option<nat>)
      requires Valid()
      modifies this`bitmap, this`disk
      ensures Valid()
      ensures r.None? <==> forall id: nat :: id < |bitmap| * Swap.WORD_BITS ==> Swap.InUse(old(State()), id)
      ensures r.None? ==> State() == old(State())
      ensures r.Some? ==>
                && !Swap.InUse(old(State()), r.value) && Swap.Load(State(), r.value) == page
                && (forall j: nat :: j < r.value ==> Swap.InUse(old(State()), j))
                && (forall j: nat :: Swap.InUse(State(), j) <==> j == r.value || Swap.InUse(old(State()), j))
                && (forall j: nat :: j < |bitmap| * Swap.WORD_BITS && j != r.value ==>
                   Swap.Load(State(), j) == Swap.Load(old(State()), j))
    {
      hide Swap.InUse, Swap.Load, Swap.Valid, Swap.FirstFree;
      Swap.WriteIssuesFresh(State(), page);
      if !usable {
        SwapWriteIs(State(), page);
        return None;
      }
      var slot := AllocPage();
      SwapWriteIs(State(), page);
      if slot.None? {
        return None;
      }
      var id := slot.value;
      Swap.StoreValid(State(), id, page);
      disk := Swap.WriteBlocks(disk, blockIds[id * blk], page, PAGE_SIZE / blk, blk);
      SetBit(id, true);
      return Some(id);
    }

    method Discard(id: nat)
      requires Valid() && Swap.InUse(State(), id)
      modifies this`bitmap
      ensures Valid() && (forall j: nat :: Swap.InUse(State(), j) <==> j != id && Swap.InUse(old(State()), j))
      ensures forall j: nat :: Swap.Load(State(), j) == Swap.Load(old(State()), j)
    {
      Swap.DiscardFreesOne(State(), id);
      SetBit(id, false);
    }
  }

  lemma SwapWriteIs(d: Swap.Device, page: Page)
    requires Swap.Valid(d)
    ensures d.blk > 0 && PAGE_SIZE % d.blk == 0 && d.blk * (PAGE_SIZE / d.blk) == PAGE_SIZE
    ensures var slot := Swap.FirstFree(d.bitmap, 0);
            && (slot.Some? ==> slot.value / Swap.WORD_BITS < |d.bitmap| && slot.value < |d.bitmap| * Swap.WORD_BITS)
            && (slot.Some? && d.usable ==> slot.value * d.blk < |d.blockIds|)
            && Swap.Write(d, page) ==
               if !d.usable || slot.None? then None
               else Some((Swap.SetBit(Swap.Store(d, slot.value, page), slot.value, true), slot.value))
  {
    Swap.PageOfBlocks(d);
    Swap.FirstFreeIsClear(d, 0);
    var slot := Swap.FirstFree(d.bitmap, 0);
    if d.usable && slot.Some? {
      Swap.SlotRun(d, slot.value);
    }
  }
}
