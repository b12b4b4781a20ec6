// The swap device: a bitmap of page slots over disk blocks.
module Swap {
  import opened Types

  const WORD_BITS: nat := 64

  /** A u64 bitmap word as its bits, least significant first. */
  type Word = w: seq<bool> | |w| == WORD_BITS witness seq(WORD_BITS, _ => false)

  /** `blk` is `BLK_PER_PG`, the number of blocks of a page. */
  datatype Device = Device(bitmap: seq<Word>, blockIds: seq<nat>, disk: map<nat, Block>, usable: bool, blk: nat)

  predicate InUse(d: Device, id: nat) {
    id / WORD_BITS < |d.bitmap| && d.bitmap[id / WORD_BITS][id % WORD_BITS]
  }

  /** Block `i` of slot `id`, as `get_block_ids` slices the list. */
  function IdAt(d: Device, id: nat, i: nat): nat {
    if id * d.blk + i < |d.blockIds| then d.blockIds[id * d.blk + i] else 0
  }

  /** The blocks of a slot are consecutive, as `read_page` and `write_page` assert. */
  predicate Contiguous(d: Device) {
    forall id: nat, i: nat :: id < |d.bitmap| * WORD_BITS && i < d.blk ==> IdAt(d, id, i) == IdAt(d, id, 0) + i
  }

  /** The bitmap `new` makes for a usable device. */
  function Clear(pages: nat): seq<Word> {
    seq(pages / WORD_BITS, _ => seq(WORD_BITS, _ => false))
  }

  ghost predicate Valid(d: Device) {
    && d.blk > 0 && PAGE_SIZE % d.blk == 0 && Distinct(d.blockIds) && Contiguous(d)
    && (forall b: nat :: b in d.blockIds ==> b in d.disk && |d.disk[b]| == PAGE_SIZE / d.blk)
    && (if d.usable then |d.blockIds| == |d.bitmap| * WORD_BITS * d.blk else |d.bitmap| == 0)
  }

  /** `u64::MAX`. */
  function AllSet(): Word { seq(WORD_BITS, _ => true) }

  /** `(!w).trailing_zeros()`: the position of the first clear bit at or after `from`. */
  function FirstClear(w: Word, from: nat): nat
    requires from <= WORD_BITS
    decreases WORD_BITS - from
  {
    if from == WORD_BITS || !w[from] then from else FirstClear(w, from + 1)
  }

  lemma {:induction false} FirstClearIsClear(w: Word, from: nat)
    requires from <= WORD_BITS
    ensures from <= FirstClear(w, from) <= WORD_BITS
    ensures FirstClear(w, from) < WORD_BITS ==> !w[FirstClear(w, from)]
    ensures forall k :: from <= k < FirstClear(w, from) ==> w[k]
    ensures FirstClear(w, from) == WORD_BITS <==> w[from..] == AllSet()[from..]
    decreases WORD_BITS - from
  {
    if from < WORD_BITS {
      assert w[from..] == [w[from]] + w[from + 1..] && AllSet()[from..] == [true] + AllSet()[from + 1..];
      if w[from] {
        FirstClearIsClear(w, from + 1);
      }
    }
  }

  function FirstFree(bitmap: seq<Word>, i: nat): Option<nat>
    requires i <= |bitmap|
    decreases |bitmap| - i
  {
    if i == |bitmap| then None
    else if bitmap[i] == AllSet() then FirstFree(bitmap, i + 1)
    else Some(i * WORD_BITS + FirstClear(bitmap[i], 0))
  }

  function SetBit(d: Device, id: nat, v: bool): Device
    requires id / WORD_BITS < |d.bitmap|
  {
    var w := d.bitmap[id / WORD_BITS];
    d.(bitmap := d.bitmap[id / WORD_BITS := w[id % WORD_BITS := v]])
  }

  // ----- Pages as runs of blocks -----

  /** `read_block` of `n` blocks from `first` on. */
  function Join(disk: map<nat, Block>, first: nat, n: nat): seq<byte> {
    if n == 0 then [] else Join(disk, first, n - 1) + (if first + n - 1 in disk then disk[first + n - 1] else [])
  }

  /** `write_block` of the first `n` blocks of size `c` of a page. */
  function WriteBlocks(disk: map<nat, Block>, first: nat, page: Page, c: nat, n: nat): map<nat, Block>
    requires n * c <= PAGE_SIZE
    decreases n
  {
    if n == 0 then disk
    else
      assert n * c == (n - 1) * c + c;
      WriteBlocks(disk, first, page, c, n - 1)[first + n - 1 := page[(n - 1) * c..n * c]]
  }

  lemma {:induction false} BlocksAt(disk: map<nat, Block>, first: nat, page: Page, c: nat, n: nat, b: nat)
    requires n * c <= PAGE_SIZE
    ensures b in WriteBlocks(disk, first, page, c, n) <==> b in disk || first <= b < first + n
    ensures b in disk && !(first <= b < first + n) ==> WriteBlocks(disk, first, page, c, n)[b] == disk[b]
    ensures first <= b < first + n ==> |WriteBlocks(disk, first, page, c, n)[b]| == c
    decreases n
  {
    if n > 0 {
      assert n * c == (n - 1) * c + c;
      BlocksAt(disk, first, page, c, n - 1, b);
    }
  }

  /** Reading a run back gives the bytes written. */
  lemma {:induction false} JoinWritten(disk: map<nat, Block>, first: nat, page: Page, c: nat, n: nat)
    requires n * c <= PAGE_SIZE
    ensures Join(WriteBlocks(disk, first, page, c, n), first, n) == page[..n * c]
    decreases n
  {
    if n > 0 {
      assert n * c == (n - 1) * c + c;
      JoinWritten(disk, first, page, c, n - 1);
      var before := WriteBlocks(disk, first, page, c, n - 1);
      var last := first + n - 1;
      JoinIgnores(before, last, page[(n - 1) * c..n * c], first, n - 1);
      assert page[..(n - 1) * c] + page[(n - 1) * c..n * c] == page[..n * c];
    }
  }

  lemma {:induction false} JoinIgnores(disk: map<nat, Block>, b: nat, x: Block, first: nat, n: nat)
    requires !(first <= b < first + n)
    ensures Join(disk[b := x], first, n) == Join(disk, first, n)
  {
    if n > 0 {
      JoinIgnores(disk, b, x, first, n - 1);
    }
  }

  /** A run elsewhere reads as before. */
  lemma {:induction false} JoinOther(disk: map<nat, Block>, at: nat, page: Page, c: nat, k: nat, first: nat, n: nat)
    requires k * c <= PAGE_SIZE && (first + n <= at || at + k <= first)
    ensures Join(WriteBlocks(disk, at, page, c, k), first, n) == Join(disk, first, n)
    decreases n
  {
    if n > 0 {
      JoinOther(disk, at, page, c, k, first, n - 1);
      BlocksAt(disk, at, page, c, k, first + n - 1);
    }
  }

  lemma {:induction false} JoinSize(disk: map<nat, Block>, first: nat, n: nat, c: nat)
    requires forall b: nat :: first <= b < first + n ==> b in disk && |disk[b]| == c
    ensures |Join(disk, first, n)| == n * c
  {
    if n > 0 {
      JoinSize(disk, first, n - 1, c);
      assert n * c == (n - 1) * c + c;
    }
  }

  /** `read` neither indexes past the block list nor fails its assertion. */
  predicate Readable(d: Device, id: nat) {
    d.usable ==> d.blk > 0 && id * d.blk + d.blk <= |d.blockIds| && IdAt(d, id, 0) + d.blk - 1 == IdAt(d, id, d.blk - 1)
  }

  /** The page stored in a slot. An unusable device leaves the zeroed frame as it is. */
  function Load(d: Device, id: nat): Page {
    var s := if d.usable && Readable(d, id) then Join(d.disk, IdAt(d, id, 0), d.blk) else [];
    if |s| == PAGE_SIZE then s else ZeroPage()
  }

  /** Slot `id` of a usable device is a run of blocks that are there. */
  lemma SlotRun(d: Device, id: nat)
    requires Valid(d) && d.usable && id < |d.bitmap| * WORD_BITS
    ensures id * d.blk + d.blk <= |d.blockIds| && Readable(d, id)
    ensures forall b: nat :: IdAt(d, id, 0) <= b < IdAt(d, id, 0) + d.blk ==>
            b in d.blockIds && b in d.disk && |d.disk[b]| == PAGE_SIZE / d.blk
  {
    RowFits(d.blk, id, |d.bitmap| * WORD_BITS);
    forall b: nat | IdAt(d, id, 0) <= b < IdAt(d, id, 0) + d.blk
      ensures b in d.blockIds && b in d.disk && |d.disk[b]| == PAGE_SIZE / d.blk
    {
      var i := b - IdAt(d, id, 0);
      assert IdAt(d, id, i) == b;
      assert d.blockIds[id * d.blk + i] == b;
    }
    assert IdAt(d, id, d.blk - 1) == IdAt(d, id, 0) + (d.blk - 1);
  }

  /** Different slots have no block in common. */
  lemma SlotsApart(d: Device, id: nat, j: nat)
    requires Valid(d) && d.usable && id < |d.bitmap| * WORD_BITS && j < |d.bitmap| * WORD_BITS && id != j
    ensures IdAt(d, j, 0) + d.blk <= IdAt(d, id, 0) || IdAt(d, id, 0) + d.blk <= IdAt(d, j, 0)
  {
    var x := IdAt(d, j, 0) - IdAt(d, id, 0);
    if x >= 0 {
      StartNotIn(d, id, j, x);
    } else {
      StartNotIn(d, j, id, -x);
    }
  }

  /** No slot starts inside another. */
  lemma StartNotIn(d: Device, id: nat, j: nat, x: nat)
    requires Valid(d) && d.usable && id < |d.bitmap| * WORD_BITS && j < |d.bitmap| * WORD_BITS && id != j
    ensures x < d.blk ==> IdAt(d, id, 0) + x != IdAt(d, j, 0)
  {
    hide Valid, IdAt;
    if x < d.blk {
      SlotBlock(d, id, x);
      SlotBlock(d, j, 0);
      RowsDiffer(d.blk, id, x, j, 0);
    }
  }

  lemma SlotBlock(d: Device, id: nat, x: nat)
    requires Valid(d) && d.usable && id < |d.bitmap| * WORD_BITS && x < d.blk
    ensures Distinct(d.blockIds) && id * d.blk + x < |d.blockIds|
    ensures IdAt(d, id, 0) + x == IdAt(d, id, x) == d.blockIds[id * d.blk + x]
  {
    RowFits(d.blk, id, |d.bitmap| * WORD_BITS);
  }

  lemma InUseReadable(d: Device, id: nat)
    requires Valid(d) && InUse(d, id)
    ensures Readable(d, id)
  {
    if d.usable {
      SlotRun(d, id);
    }
  }

  lemma PageOfBlocks(d: Device)
    requires d.blk > 0 && PAGE_SIZE % d.blk == 0
    ensures d.blk * (PAGE_SIZE / d.blk) == PAGE_SIZE
  {
  }

  /** `write_page` */
  function Store(d: Device, id: nat, page: Page): Device
    requires d.blk > 0 && PAGE_SIZE % d.blk == 0
  {
    PageOfBlocks(d);
    d.(disk := WriteBlocks(d.disk, IdAt(d, id, 0), page, PAGE_SIZE / d.blk, d.blk))
  }

  function Write(d: Device, page: Page): Option<(Device, nat)> {
    if !d.usable then None
    else match FirstFree(d.bitmap, 0)
      case None => None
      case Some(id) =>
        if id / WORD_BITS < |d.bitmap| && d.blk > 0 && PAGE_SIZE % d.blk == 0 && Readable(d, id) then
          Some((SetBit(Store(d, id, page), id, true), id))
        else None
  }

  /** Writing a page changes that slot's page and no other. */
  lemma StoreExact(d: Device, id: nat, page: Page)
    requires Valid(d) && d.usable && id < |d.bitmap| * WORD_BITS
    ensures Valid(Store(d, id, page)) && Load(Store(d, id, page), id) == page
    ensures forall j: nat :: j < |d.bitmap| * WORD_BITS && j != id ==> Load(Store(d, id, page), j) == Load(d, j)
  {
    hide Join, WriteBlocks;
    StoreValid(d, id, page);
    PageOfBlocks(d);
    SlotRun(d, id);
    var d', c := Store(d, id, page), PAGE_SIZE / d.blk;
    JoinWritten(d.disk, IdAt(d, id, 0), page, c, d.blk);
    assert page[..PAGE_SIZE] == page;
    forall j: nat | j < |d.bitmap| * WORD_BITS && j != id
      ensures Load(d', j) == Load(d, j)
    {
      SlotsApart(d, j, id);
      JoinOther(d.disk, IdAt(d, id, 0), page, c, d.blk, IdAt(d, j, 0), d.blk);
    }
  }

  lemma StoreValid(d: Device, id: nat, page: Page)
    requires Valid(d) && d.usable && id < |d.bitmap| * WORD_BITS
    ensures Valid(Store(d, id, page))
  {
    hide WriteBlocks;
    PageOfBlocks(d);
    var d', c := Store(d, id, page), PAGE_SIZE / d.blk;
    forall b: nat | b in d.blockIds
      ensures b in d'.disk && |d'.disk[b]| == c
    {
      BlocksAt(d.disk, IdAt(d, id, 0), page, c, d.blk, b);
    }
    forall x: nat, i: nat
      ensures IdAt(d', x, i) == IdAt(d, x, i)
    {
    }
  }

  function Discard(d: Device, id: nat): Device {
    if id / WORD_BITS < |d.bitmap| then SetBit(d, id, false) else d
  }

  lemma SetBitExact(d: Device, id: nat, v: bool)
    requires Valid(d) && id / WORD_BITS < |d.bitmap|
    ensures Valid(SetBit(d, id, v))
    ensures forall j: nat :: InUse(SetBit(d, id, v), j) <==> if j == id then v else InUse(d, j)
  {
    var d' := SetBit(d, id, v);
    assert forall x: nat, i: nat :: IdAt(d', x, i) == IdAt(d, x, i);
    forall j: nat
      ensures InUse(d', j) <==> if j == id then v else InUse(d, j)
    {
      if j / WORD_BITS == id / WORD_BITS && j % WORD_BITS == id % WORD_BITS {
        assert j == WORD_BITS * (j / WORD_BITS) + j % WORD_BITS == id;
      }
    }
  }

  /** The slot found is the lowest clear one; none is found exactly when every word is full. */
  lemma {:induction false} FirstFreeIsClear(d: Device, i: nat)
    requires i <= |d.bitmap|
    ensures FirstFree(d.bitmap, i).None? <==> forall k :: i <= k < |d.bitmap| ==> d.bitmap[k] == AllSet()
    ensures FirstFree(d.bitmap, i).Some? ==>
              var id := FirstFree(d.bitmap, i).value;
              && id / WORD_BITS < |d.bitmap| && !InUse(d, id) && id < |d.bitmap| * WORD_BITS
              && (forall j: nat :: i * WORD_BITS <= j < id ==> InUse(d, j))
    decreases |d.bitmap| - i
  {
    if i < |d.bitmap| {
      if d.bitmap[i] == AllSet() {
        FirstFreeIsClear(d, i + 1);
        FullWord(d, i);
      } else {
        var k := FirstClear(d.bitmap[i], 0);
        FirstClearIsClear(d.bitmap[i], 0);
        assert d.bitmap[i][0..] == d.bitmap[i] && AllSet()[0..] == AllSet();
        assert (i * WORD_BITS + k) / WORD_BITS == i && (i * WORD_BITS + k) % WORD_BITS == k;
        forall j: nat | i * WORD_BITS <= j < i * WORD_BITS + k
          ensures InUse(d, j)
        {
          assert j / WORD_BITS == i && j % WORD_BITS == j - i * WORD_BITS;
        }
      }
    }
  }

  lemma FullWord(d: Device, i: nat)
    requires i < |d.bitmap| && d.bitmap[i] == AllSet()
    ensures forall j: nat :: i * WORD_BITS <= j < (i + 1) * WORD_BITS ==> InUse(d, j)
  {
    forall j: nat | i * WORD_BITS <= j < (i + 1) * WORD_BITS
      ensures InUse(d, j)
    {
      assert j / WORD_BITS == i;
    }
  }

  /** A write fails exactly when the device is unusable or every slot is in use; otherwise it
      issues a slot that no live tracker names, and every other slot keeps its page. */
  lemma WriteIssuesFresh(d: Device, page: Page)
    requires Valid(d)
    ensures Write(d, page).None? <==> forall id: nat :: id < |d.bitmap| * WORD_BITS ==> InUse(d, id)
    ensures Write(d, page).Some? ==>
              var (d', id) := Write(d, page).value;
              && Valid(d') && !InUse(d, id) && Load(d', id) == page
              && (forall j: nat :: j < id ==> InUse(d, j))
              && (forall j: nat :: InUse(d', j) <==> j == id || InUse(d, j))
              && (forall j: nat :: j < |d.bitmap| * WORD_BITS && j != id ==> Load(d', j) == Load(d, j))
  {
    hide Load;
    FirstFreeIsClear(d, 0);
    match FirstFree(d.bitmap, 0)
    case None =>
      forall id: nat | id < |d.bitmap| * WORD_BITS
        ensures InUse(d, id)
      {
        assert d.bitmap[id / WORD_BITS] == AllSet();
      }
    case Some(id) =>
      if d.usable {
        var d1 := Store(d, id, page);
        SlotRun(d, id);
        StoreExact(d, id, page);
        SetBitExact(d1, id, true);
        forall j: nat
          ensures Load(SetBit(d1, id, true), j) == Load(d1, j)
        {
          LoadIgnoresBits(d1, SetBit(d1, id, true), j);
        }
        assert forall j: nat :: InUse(d1, j) <==> InUse(d, j);
      }
  }

  lemma LoadIgnoresBits(d: Device, d': Device, id: nat)
    requires d' == d.(bitmap := d'.bitmap)
    ensures Load(d', id) == Load(d, id)
  {
    assert IdAt(d', id, 0) == IdAt(d, id, 0);
    assert d.blk > 0 ==> IdAt(d', id, d.blk - 1) == IdAt(d, id, d.blk - 1);
  }

  lemma DiscardFreesOne(d: Device, id: nat)
    requires Valid(d) && InUse(d, id)
    ensures Valid(Discard(d, id))
    ensures forall j: nat :: InUse(Discard(d, id), j) <==> j != id && InUse(d, j)
    ensures forall j: nat :: Load(Discard(d, id), j) == Load(d, j)
  {
    SetBitExact(d, id, false);
  }

  /** The slots no tracker names. */
  ghost function FreeSlots(d: Device): set<nat> {
    set id | id in Below(|d.bitmap| * WORD_BITS) && !InUse(d, id)
  }

  /** A write fails exactly when no slot is free, and otherwise takes exactly one. */
  lemma WriteTakesOne(d: Device, page: Page)
    requires Valid(d)
    ensures Write(d, page).None? <==> |FreeSlots(d)| == 0
    ensures Write(d, page).Some? ==> |FreeSlots(Write(d, page).value.0)| == |FreeSlots(d)| - 1
  {
    hide InUse, Valid;
    BelowSize(|d.bitmap| * WORD_BITS);
    WriteIssuesFresh(d, page);
    WriteInRange(d, page);
    var n := |d.bitmap| * WORD_BITS;
    if Write(d, page).Some? {
      var (d', id) := Write(d, page).value;
      assert FreeSlots(d') == FreeSlots(d) - {id};
      assert id in FreeSlots(d);
    } else {
      assert FreeSlots(d) == {};
    }
    if |FreeSlots(d)| == 0 {
      forall id: nat | id < n
        ensures InUse(d, id)
      {
        assert id !in FreeSlots(d);
      }
    }
  }

  lemma WriteInRange(d: Device, page: Page)
    requires Valid(d)
    ensures Write(d, page).Some? ==>
              Write(d, page).value.1 < |d.bitmap| * WORD_BITS && |Write(d, page).value.0.bitmap| == |d.bitmap|
  {
    FirstFreeIsClear(d, 0);
  }
}
