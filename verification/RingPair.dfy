// The ring half of a split virtqueue: the available and the used ring, with 16-bit indices that wrap.
module RingPair {
  import opened Types

  datatype UsedElem = UsedElem(id: nat, len: nat)

  /** The ring half of the queue. The device is at `fetched` in the available ring and at
      `completed` in the used ring; the four counters never wrap. */
  datatype Rings = Rings(
    size: nat,
    avail: seq<nat>,
    availIdx: nat,
    used: seq<UsedElem>,
    usedIdx: nat,
    lastUsedIdx: nat,
    added: nat,
    fetched: nat,
    completed: nat,
    popped: nat,
    pending: seq<nat>,
    inflight: set<nat>,
    done: seq<nat>,
    lens: seq<nat>)

  predicate PowerOfTwo(n: nat) {
    n == 1 || (n > 1 && n % 2 == 0 && PowerOfTwo(n / 2))
  }

  /** `SIZE.is_power_of_two() && SIZE <= u16::MAX` */
  predicate SizeOk(n: nat) {
    PowerOfTwo(n) && n <= 0xFFFF
  }

  lemma {:induction false} PowerDivides(n: nat, m: nat)
    requires PowerOfTwo(n) && PowerOfTwo(m) && n <= m
    ensures m % n == 0
  {
    if n > 1 {
      PowerDivides(n / 2, m / 2);
      var a, k := n / 2, (m / 2) / (n / 2);
      assert m / 2 == a * k;
      assert m == n * k;
      ModShift(0, n, k);
    }
  }

  /** `&`, bit by bit. */
  function And(a: nat, b: nat): nat {
    if a == 0 || b == 0 then 0 else 2 * And(a / 2, b / 2) + (a % 2) * (b % 2)
  }

  /** Masking with a power of two less one is taking the remainder. */
  lemma {:induction false} MaskIsRemainder(i: nat, n: nat)
    requires PowerOfTwo(n)
    ensures And(i, n - 1) == i % n
    decreases n
  {
    if n == 1 {
      assert And(i, 0) == 0;
    } else {
      MaskIsRemainder(i / 2, n / 2);
      AndHalves(i, n);
      HalfRemainder(i, n / 2);
    }
  }

  lemma AndHalves(i: nat, n: nat)
    requires n > 1 && n % 2 == 0
    ensures And(i, n - 1) == 2 * And(i / 2, n / 2 - 1) + i % 2
  {
    assert (n - 1) / 2 == n / 2 - 1 && (n - 1) % 2 == 1;
  }

  lemma HalfRemainder(i: nat, h: nat)
    requires h > 0
    ensures 2 * ((i / 2) % h) + i % 2 == i % (2 * h)
  {
    var x := i / 2;
    var q, m := x / h, x % h;
    TwiceProduct(h, q);
    ModUnique(i, 2 * h, q, 2 * m + i % 2);
  }

  lemma TwiceProduct(h: nat, q: nat)
    ensures 2 * h * q == 2 * (h * q)
  {
  }

  /** `idx & (SIZE - 1)`, as the driver computes it. */
  function Masked(idx: nat, size: nat): (s: nat)
    requires SizeOk(size)
    ensures s == Slot(idx, size)
  {
    MaskIsRemainder(idx, size);
    And(idx, size - 1)
  }

  /** The place of an index in a ring. */
  function Slot(idx: nat, size: nat): (s: nat)
    requires size > 0
    ensures s < size
  {
    idx % size
  }

  /** A slot is the same whether or not the index has wrapped. */
  lemma SlotWraps(n: nat, size: nat)
    requires SizeOk(size)
    ensures Slot(n % 0x1_0000, size) == Slot(n, size)
  {
    assert PowerOfTwo(0x1_0000);
    PowerDivides(size, 0x1_0000);
    var k, q := 0x1_0000 / size, n / 0x1_0000;
    assert size * k == 0x1_0000;
    ModShift(n % 0x1_0000, size, k * q);
    assert size * (k * q) == 0x1_0000 * q;
  }

  /** Two indices less than a queue size apart have different slots. */
  lemma SlotsDiffer(i: nat, j: nat, size: nat)
    requires size > 0 && i < j < i + size
    ensures Slot(i, size) != Slot(j, size)
  {
    ModStep(i, j - i, size);
  }

  ghost predicate Staged(r: Rings, heads: set<nat>) {
    && Distinct(r.pending) && Distinct(r.done)
    && (forall h :: h in heads <==> h in r.pending || h in r.inflight || h in r.done)
    && (forall h :: h in r.pending ==> h !in r.inflight && h !in r.done)
    && (forall h :: h in r.inflight ==> h !in r.done)
  }

  ghost predicate Indexed(r: Rings) {
    && SizeOk(r.size) && |r.avail| == |r.used| == r.size
    && r.availIdx == r.added % 0x1_0000 && r.usedIdx == r.completed % 0x1_0000 && r.lastUsedIdx == r.popped % 0x1_0000
    && r.popped <= r.completed <= r.fetched <= r.added
    && |r.pending| == r.added - r.fetched && |r.inflight| == r.fetched - r.completed
       && |r.lens| == |r.done| == r.completed - r.popped
    && (forall i :: 0 <= i < |r.pending| ==> r.avail[Slot(r.fetched + i, r.size)] == r.pending[i])
    && (forall i :: 0 <= i < |r.done| ==> r.used[Slot(r.popped + i, r.size)] == UsedElem(r.done[i], r.lens[i]))
  }

  ghost predicate RingInv(r: Rings, heads: set<nat>) {
    Staged(r, heads) && Indexed(r) && |heads| <= r.size
  }

  /** Across wrap-around the distance of the two driver indices is the number of outstanding
      chains, which fits the ring. */
  lemma Window(r: Rings, heads: set<nat>)
    requires RingInv(r, heads)
    ensures r.added - r.popped == |heads| <= r.size
    ensures (r.availIdx + 0x1_0000 - r.lastUsedIdx) % 0x1_0000 == |heads|
    ensures r.lastUsedIdx == r.usedIdx <==> |r.done| == 0
  {
    hide Staged, Slot, PowerOfTwo;
    StagedSize(r, heads);
    WrapDiff(r.added, r.popped);
    WrapDiff(r.completed, r.popped);
  }

  lemma WrapDiff(m: nat, n: nat)
    requires n <= m < n + 0x1_0000
    ensures (m % 0x1_0000 + 0x1_0000 - n % 0x1_0000) % 0x1_0000 == m - n
  {
  }

  lemma StagedSize(r: Rings, heads: set<nat>)
    requires Staged(r, heads)
    ensures |heads| == |r.pending| + |r.inflight| + |r.done|
  {
    var p, d := Elements(r.pending), Elements(r.done);
    ElementsSize(r.pending);
    ElementsSize(r.done);
    assert heads == p + r.inflight + d;
    assert p !! r.inflight && p + r.inflight !! d;
  }

  // ----- Ring steps -----

  /** The driver publishes head `h`. */
  ghost function Publish(r: Rings, h: nat): Rings
    requires r.size > 0 && |r.avail| == r.size
  {
    r.(avail := r.avail[Slot(r.availIdx, r.size) := h], availIdx := (r.availIdx + 1) % 0x1_0000,
       added := r.added + 1, pending := r.pending + [h])
  }

  /** The device takes the next head from the available ring. */
  ghost function Fetch(r: Rings): Rings
    requires |r.pending| > 0
  {
    r.(fetched := r.fetched + 1, pending := r.pending[1..], inflight := r.inflight + {r.pending[0]})
  }

  /** The device reports `h` as used, in any order. */
  ghost function Complete(r: Rings, h: nat, len: nat): Rings
    requires r.size > 0 && |r.used| == r.size
  {
    r.(used := r.used[Slot(r.usedIdx, r.size) := UsedElem(h, len)], usedIdx := (r.usedIdx + 1) % 0x1_0000,
       completed := r.completed + 1, inflight := r.inflight - {h}, done := r.done + [h],
       lens := r.lens + [len])
  }

  /** The driver consumes the next used element. */
  ghost function Pop(r: Rings): Rings
    requires |r.done| > 0 && |r.lens| == |r.done|
  {
    r.(lastUsedIdx := (r.lastUsedIdx + 1) % 0x1_0000, popped := r.popped + 1, done := r.done[1..], lens := r.lens[1..])
  }

  lemma Increment(n: nat)
    ensures (n % 0x1_0000 + 1) % 0x1_0000 == (n + 1) % 0x1_0000
  {
  }

  /** Writing the slot just past a window of fewer than `size` indices misses the window. */
  lemma PastWindow(at: nat, n: nat, i: nat, size: nat)
    requires SizeOk(size) && i < n < size
    ensures Slot((at + n) % 0x1_0000, size) != Slot(at + i, size)
    ensures Slot((at + n) % 0x1_0000, size) == Slot(at + n, size)
  {
    hide Slot, SizeOk;
    SlotWraps(at + n, size);
    SlotsDiffer(at + i, at + n, size);
  }

  lemma PublishIndexed(r: Rings, h: nat)
    requires Indexed(r) && |r.pending| < r.size
    ensures Indexed(Publish(r, h))
  {
    hide Slot, SizeOk;
    SlotWraps(r.added, r.size);
    Increment(r.added);
    var r' := Publish(r, h);
    forall i | 0 <= i < |r'.pending|
      ensures r'.avail[Slot(r.fetched + i, r.size)] == r'.pending[i]
    {
      if i < |r.pending| {
        PastWindow(r.fetched, |r.pending|, i, r.size);
      }
    }
  }

  /** Publishing overwrites no slot the device has yet to read. */
  lemma PublishKeeps(r: Rings, heads: set<nat>, h: nat)
    requires RingInv(r, heads) && h !in heads && |heads| < r.size
    ensures RingInv(Publish(r, h), heads + {h})
  {
    hide Indexed, SizeOk;
    StagedSize(r, heads);
    PublishIndexed(r, h);
    assert forall g :: g in r.pending + [h] <==> g == h || g in r.pending;
  }

  /** The slot the device reads holds the oldest unread head. */
  lemma FetchKeeps(r: Rings, heads: set<nat>)
    requires RingInv(r, heads) && |r.pending| > 0
    ensures RingInv(Fetch(r), heads)
    ensures r.avail[Slot(r.fetched % 0x1_0000, r.size)] == r.pending[0]
  {
    hide Slot, Staged, SizeOk;
    SlotWraps(r.fetched, r.size);
    FetchStaged(r, heads);
    assert r.avail[Slot(r.fetched + 0, r.size)] == r.pending[0];
    var r' := Fetch(r);
    forall i | 0 <= i < |r'.pending|
      ensures r'.avail[Slot(r'.fetched + i, r.size)] == r'.pending[i]
    {
      assert r.avail[Slot(r.fetched + (i + 1), r.size)] == r.pending[i + 1];
    }
  }

  lemma FetchStaged(r: Rings, heads: set<nat>)
    requires Staged(r, heads) && |r.pending| > 0
    ensures Staged(Fetch(r), heads) && r.pending[0] !in r.inflight
  {
    var rest := r.pending[1..];
    assert forall i :: 0 <= i < |rest| ==> rest[i] == r.pending[i + 1];
    assert forall h :: h in r.pending <==> h == r.pending[0] || h in rest by {
      assert r.pending == [r.pending[0]] + rest;
    }
    assert r.pending[0] !in rest;
  }

  lemma CompleteIndexed(r: Rings, h: nat, len: nat)
    requires Indexed(r) && |r.done| < r.size && h in r.inflight
    ensures Indexed(Complete(r, h, len))
  {
    hide Slot, SizeOk;
    SlotWraps(r.completed, r.size);
    Increment(r.completed);
    var r' := Complete(r, h, len);
    forall i | 0 <= i < |r'.done|
      ensures r'.used[Slot(r.popped + i, r.size)] == UsedElem(r'.done[i], r'.lens[i])
    {
      if i < |r.done| {
        PastWindow(r.popped, |r.done|, i, r.size);
      }
    }
  }

  /** Completing overwrites no element the driver has yet to pop. */
  lemma CompleteKeeps(r: Rings, heads: set<nat>, h: nat, len: nat)
    requires RingInv(r, heads) && h in r.inflight
    ensures RingInv(Complete(r, h, len), heads)
  {
    hide SizeOk, Slot;
    StagedSize(r, heads);
    CompleteIndexed(r, h, len);
    assert forall g :: g in r.done + [h] <==> g == h || g in r.done;
  }

  lemma PopIndexed(r: Rings)
    requires Indexed(r) && |r.done| > 0
    ensures Indexed(Pop(r)) && r.used[Slot(r.lastUsedIdx, r.size)] == UsedElem(r.done[0], r.lens[0])
  {
    hide Slot, SizeOk;
    SlotWraps(r.popped, r.size);
    Increment(r.popped);
    assert r.used[Slot(r.popped + 0, r.size)] == UsedElem(r.done[0], r.lens[0]);
    var r' := Pop(r);
    forall i | 0 <= i < |r'.done|
      ensures r'.used[Slot(r'.popped + i, r.size)] == UsedElem(r'.done[i], r'.lens[i])
    {
      assert r.used[Slot(r.popped + (i + 1), r.size)] == UsedElem(r.done[i + 1], r.lens[i + 1]);
    }
  }

  lemma PopKeeps(r: Rings, heads: set<nat>)
    requires RingInv(r, heads) && |r.done| > 0
    ensures |r.lens| == |r.done| && r.done[0] in heads && RingInv(Pop(r), heads - {r.done[0]})
    ensures SizeOk(r.size) && |r.used| == r.size
    ensures r.used[Slot(r.lastUsedIdx, r.size)] == UsedElem(r.done[0], r.lens[0])
  {
    hide SizeOk, Slot;
    PopIndexed(r);
    var rest := r.done[1..];
    assert r.done == [r.done[0]] + rest;
    assert forall i :: 0 <= i < |rest| ==> rest[i] == r.done[i + 1];
    assert r.done[0] !in rest;
    SubsetSize(heads - {r.done[0]}, heads);
  }

  lemma PublishIs(r: Rings, heads: set<nat>, h: nat)
    requires RingInv(r, heads)
    ensures r.size > 0 && |r.avail| == |r.used| == r.size
    ensures SizeOk(r.size)
    ensures Publish(r, h) == r.(avail := r.avail[Slot(r.availIdx, r.size) := h],
            availIdx := (r.availIdx + 1) % 0x1_0000,
                                 added := r.added + 1, pending := r.pending + [h])
  {
  }

  lemma CompleteIs(r: Rings, h: nat, len: nat)
    requires r.size > 0 && |r.used| == r.size
    ensures Complete(r, h, len) == r.(used := r.used[Slot(r.usedIdx, r.size) := UsedElem(h, len)],
                                      usedIdx := (r.usedIdx + 1) % 0x1_0000, completed := r.completed + 1,
                                      inflight := r.inflight - {h}, done := r.done + [h], lens := r.lens + [len])
  {
  }

  lemma PopIs(r: Rings)
    requires |r.done| > 0 && |r.lens| == |r.done|
    ensures Pop(r) == r.(lastUsedIdx := (r.lastUsedIdx + 1) % 0x1_0000, popped := r.popped + 1, done := r.done[1..],
                         lens := r.lens[1..])
  {
  }

  lemma PendingHead(r: Rings, heads: set<nat>)
    requires RingInv(r, heads) && |r.pending| > 0
    ensures r.pending[0] in heads
  {
  }

  lemma SizePositive(n: nat)
    requires SizeOk(n)
    ensures 0 < n <= 0x8000
  {
    assert PowerOfTwo(0x8000);
    if n > 0x8000 {
      PowerDivides(0x8000, n);
      assert false;
    }
  }

  lemma FreshRings(r: Rings)
    requires SizeOk(r.size) && |r.avail| == |r.used| == r.size
    requires r.availIdx == r.usedIdx == r.lastUsedIdx == 0 && r.added == r.fetched == r.completed == r.popped == 0
    requires r.pending == [] && r.inflight == {} && r.done == [] == r.lens
    ensures RingInv(r, {})
  {
  }
}
