// What munmap owes each area, and why the areas it saved for deletion or splitting are still the right ones.
module Unmapping {
  import opened Types
  import opened Paging
  import opened Areas
  import opened Spaces

  datatype Action = Skip | Trimmed | DeleteArea | BreakApart

  /** What the pass over area `x` owes to the range `[s, e)`. */
  ghost predicate ActionDone(act: Action, x: Area, x': Area, s: nat, e: nat) {
    match act
    case Skip => Overlap(x, s, e) == None && x' == x
    case Trimmed => Overlap(x, s, e).Some? && !(x.start < s && e < x.end) && (x'.end <= s || e <= x'.start)
        && x.start <= x'.start && x'.end <= x.end
    case DeleteArea => Overlap(x, s, e).Some? && s <= x.start && x.end <= e && x'.start == x.start && x'.end == x.end
    case BreakApart => x.start < s && e < x.end && x' == x
  }

  // ----- The bookkeeping of munmap -----

  /** An area inside the range whose pages are all unmapped. */
  ghost predicate Doomed(x: Area, pt: map<nat, Pte>, s: nat, e: nat) {
    s <= x.start && x.end <= e && forall v: nat :: Contains(x, v) ==> v !in pt
  }

  ghost predicate Increasing(ds: seq<nat>) {
    forall i, j :: 0 <= i < j < |ds| ==> ds[i] < ds[j]
  }

  /** Every area below `n` is clear of the range, on the delete list, or the one to break apart. */
  ghost predicate Triaged(ms: MemorySet, n: nat, ds: seq<nat>, brk: Option<nat>, s: nat, e: nat) {
    && n <= |ms.areas| && Increasing(ds)
    && (forall i :: 0 <= i < |ds| ==> ds[i] < n)
    && (brk.Some? ==> brk.value < n && ms.areas[brk.value].start < s && e < ms.areas[brk.value].end)
    && (forall i :: 0 <= i < n ==>
          if i in ds then Doomed(ms.areas[i], ms.pt, s, e) else brk == Some(i) || Clear(ms.areas[i], s, e))
  }

  lemma TriagedStep(ms: MemorySet, ms': MemorySet, j: nat, ds: seq<nat>, brk: Option<nat>, act: Action, s: nat, e: nat)
    requires Triaged(ms, j, ds, brk, s, e) && j < |ms.areas| && |ms'.areas| == |ms.areas| && s <= e
    requires forall i :: 0 <= i < |ms.areas| && i != j ==> ms'.areas[i] == ms.areas[i]
    requires ms'.pt.Keys <= ms.pt.Keys
    requires ActionDone(act, ms.areas[j], ms'.areas[j], s, e)
    requires act.DeleteArea? ==> forall v: nat :: Contains(ms'.areas[j], v) ==> v !in ms'.pt
    requires Layout(ms.areas)
    ensures Triaged(ms', j + 1, if act.DeleteArea? then ds + [j] else ds, if act.BreakApart? then Some(j)
            else brk, s, e)
  {
    var ds' := if act.DeleteArea? then ds + [j] else ds;
    assert forall i :: i in ds' <==> i in ds || (act.DeleteArea? && i == j);
    assert j !in ds;
    assert brk.Some? ==> Apart(ms.areas[brk.value], ms.areas[j]);
  }

  lemma TriagedNone(ms: MemorySet, s: nat, e: nat)
    ensures Triaged(ms, 0, [], None, s, e)
  {
  }

  lemma TriagedBound(ms: MemorySet, n: nat, ds: seq<nat>, brk: Option<nat>, s: nat, e: nat)
    requires Triaged(ms, n, ds, brk, s, e)
    ensures brk.Some? ==> brk.value < n
  {
  }

  lemma ActionMeans(act: Action, x: Area, x': Area, s: nat, e: nat)
    requires ActionDone(act, x, x', s, e) && s <= e
    ensures act != Skip <==> Overlap(x, s, e).Some?
    ensures act == BreakApart <==> x.start < s && e < x.end
    ensures act == BreakApart ==> x' == x
  {
  }

  /** A range strictly inside one area meets no other area, so the saved index survives. */
  lemma BreakMeansNoDelete(ms: MemorySet, n: nat, ds: seq<nat>, brk: Option<nat>, s: nat, e: nat)
    requires Layout(ms.areas) && Triaged(ms, n, ds, brk, s, e) && brk.Some? && s <= e
    ensures ds == []
  {
    assert ds != [] ==> ds[0] in ds && Sized(ms.areas[ds[0]]);
  }

  /** Deleting the last listed area leaves the rest triaged. */
  lemma DeleteLast(ms: MemorySet, ds: seq<nat>, s: nat, e: nat)
    requires Triaged(ms, |ms.areas|, ds, None, s, e) && |ds| > 0
    ensures var d := Last(ds); var ms' := WithParts(ms, d, []);
            Triaged(ms', |ms'.areas|, DropLast(ds), None, s, e)
  {
    var d := Last(ds);
    var ms' := WithParts(ms, d, []);
    assert forall i :: 0 <= i < |ms'.areas| ==> ms'.areas[i] == ms.areas[if i < d then i else i + 1];
    forall i | 0 <= i < |ms'.areas|
      ensures if i in DropLast(ds) then Doomed(ms'.areas[i], ms'.pt, s, e) else Clear(ms'.areas[i], s, e)
    {
      if i < d {
        assert i in ds <==> i in DropLast(ds) by { assert ds == DropLast(ds) + [d]; }
      } else {
        assert i + 1 !in ds;
      }
    }
  }

  /** Nothing is covered in the range once every area is clear. */
  lemma ClearUncovers(ms: MemorySet, s: nat, e: nat)
    requires forall i :: 0 <= i < |ms.areas| ==> Clear(ms.areas[i], s, e)
    ensures forall v: nat :: s <= v < e ==> !Covered(ms.areas, v)
  {
  }

  /** `munmap` with an empty range strictly inside an area. */
  ghost predicate Lossy(areas: seq<Area>, s: nat, e: nat) {
    s == e && exists i :: 0 <= i < |areas| && areas[i].start < s < areas[i].end
  }

  /** The entry of the lost page `v` stays as it was, although its frame is free again unless a page outside
      the lost range `[s, e)` owns it. */
  ghost predicate Stale(m: Mem, pt: map<nat, Pte>, pt': map<nat, Pte>, frames: FA.Frames, a: nat, s: nat, e: nat,
      v: nat) {
    v in pt ==>
      && v in pt' && pt'[v] == pt[v]
      && (FA.Taken(frames, pt[v].ppn) <==> HeldOutside(m, a, s, e, InMemory(pt[v].ppn)))
  }

  /** Exactly the pages `[s, e)` of space `a` are gone, with their entries. */
  ghost predicate Removed(m: Mem, m': Mem, a: nat, s: nat, e: nat) {
    && m'.slots == m.slots - Range(a, s, e)
    && m'.pt == m.pt - Range(a, s, e)
    && View(m') == View(m) - Range(a, s, e)
  }

  lemma NewLossy(areas: seq<Area>)
    requires exists idx :: 0 <= idx < |areas| && NewAt([], areas, idx, 0, 2)
    ensures Lossy(areas, 1, 1)
  {
  }

  /** `Removed` in bytes. */
  lemma MunmapBytes(spaces: seq<MemorySet>, m: Mem, m': Mem, a: nat, start: nat, len: nat)
    requires a < |spaces| && start % PAGE_SIZE == 0 && m.slots == Slots(spaces)
    ensures (forall i :: 0 <= i < |spaces[a].areas| ==>
               var x := spaces[a].areas[i]; len > 0 || !(x.start * PAGE_SIZE < start < x.end * PAGE_SIZE)) ==>
              !Lossy(spaces[a].areas, start / PAGE_SIZE, PageCeil(start + len))
    ensures Removed(m, m', a, start / PAGE_SIZE, PageCeil(start + len)) ==>
              forall v: nat ::
                (a, v) in m'.slots <==>
                  (a, v) in m.slots && !(v * PAGE_SIZE < start + len && start < (v + 1) * PAGE_SIZE)
    ensures forall v: nat :: (a, v) in m.slots && v * PAGE_SIZE < start + len && start < (v + 1) * PAGE_SIZE ==>
              exists i :: 0 <= i < |spaces[a].areas| && spaces[a].areas[i].start <= PageCeil(start + len)
                && start / PAGE_SIZE < spaces[a].areas[i].end
  {
    hide Slots, View, PageCeil, Find;
    CeilBounds(start, len);
    var s, e := start / PAGE_SIZE, PageCeil(start + len);
    forall v: nat
      ensures (a, v) in Range(a, s, e) <==> v * PAGE_SIZE < start + len && start < (v + 1) * PAGE_SIZE
    {
      InRangeIff(v, start, len);
    }
    forall v: nat | (a, v) in m.slots && v * PAGE_SIZE < start + len && start < (v + 1) * PAGE_SIZE
      ensures exists i :: 0 <= i < |spaces[a].areas| && spaces[a].areas[i].start <= e && s < spaces[a].areas[i].end
    {
      InRangeIff(v, start, len);
      SlotAt(spaces, (a, v));
      assert Contains(spaces[a].areas[Find(spaces[a].areas, v)], v);
    }
  }

  lemma MunmapExact(m: Mem, spaces: seq<MemorySet>, m': Mem, a: nat, s: nat, e: nat)
    requires Inv(m) && Inv(m') && KeptOutside(m, m', a, s, e) && m'.slots == Slots(spaces) && a < |spaces|
    requires forall i :: 0 <= i < |spaces[a].areas| ==> Clear(spaces[a].areas[i], s, e)
    ensures Removed(m, m', a, s, e)
  {
    hide Inv, View, KeptOutside, Slots, Covered;
    ClearUncovers(spaces[a], s, e);
    forall v: nat | s <= v < e
      ensures (a, v) !in m'.slots
    {
      SlotAt(spaces, (a, v));
    }
    KeptExact(m, m', a, s, e);
  }

  /** Entries of covered pages survive a step confined to an empty range. */
  /** A step that dropped the tail `[s, e)` after one that changed no page removed exactly that tail. */
  lemma TailRemoved(m: Mem, m1: Mem, spaces: seq<MemorySet>, m2: Mem, a: nat, s: nat, e: nat)
    requires Inv(m) && Inv(m1) && KeptOutside(m, m1, a, s, s) && s <= e && a < |spaces|
    requires m2 == DiscardRange(m1, a, s, e) && m2.slots == Slots(spaces)
    requires forall v: nat :: s <= v < e ==> !Covered(spaces[a].areas, v)
    ensures Inv(m2) && Removed(m, m2, a, s, e)
  {
    hide Inv, View, KeptOutside, Slots, Covered, DiscardRange;
    DiscardRangeKept(m1, a, s, e);
    KeptWiden(m, m1, a, s, s, s, e);
    KeptTrans(m, m1, m2, a, s, e);
    forall v: nat | s <= v < e
      ensures (a, v) !in m2.slots
    {
      SlotAt(spaces, (a, v));
    }
    KeptExact(m, m2, a, s, e);
  }

  lemma BelowTail(m: Mem, m': Mem, a: nat, s: nat, e: nat, v: nat)
    requires Removed(m, m', a, s, e) && v < s && (a, v) in m.slots
    ensures (a, v) in m'.slots
  {
    assert (a, v) !in Range(a, s, e);
  }

  lemma StaleAt(spaces: seq<MemorySet>, m: Mem, a: nat, b: nat, s: nat, v: nat)
    requires Inv(m) && m.slots == Slots(spaces) && m.pt == Entries(spaces)
    requires a < |spaces| && b < |spaces[a].areas| && Contains(spaces[a].areas[b], v)
    ensures Stale(m, spaces[a].pt, spaces[a].pt, DiscardRange(m, a, s, spaces[a].areas[b].end).frames, a, s,
            spaces[a].areas[b].end, v)
  {
    hide Slots, Entries, Inv, DiscardRange, HeldOutside, FA.Taken;
    if v in spaces[a].pt {
      EntryAt(spaces, (a, v));
      DiscardReleases(m, a, s, spaces[a].areas[b].end, v);
    }
  }

  lemma KeptEntry(before: seq<MemorySet>, after: seq<MemorySet>, m: Mem, m': Mem, a: nat, s: nat, v: nat)
    requires Inv(m) && Inv(m') && KeptOutside(m, m', a, s, s) && m.slots == Slots(before)
             && m.pt == Entries(before) && m'.pt == Entries(after)
    requires a < |before| == |after| && Covered(before[a].areas, v)
    ensures (a, v) in m.slots && m'.slots == m.slots && m'.pt == m.pt
    ensures v in before[a].pt ==>
            v in after[a].pt && after[a].pt[v] == before[a].pt[v] && (a, v) in m.pt && m.pt[(a, v)] == before[a].pt[v]
  {
    hide Slots, Entries, Covered, View, Inv, KeptOutside;
    KeptNothing(m, m', a, s);
    SlotAt(before, (a, v));
    EntryAt(before, (a, v));
    EntryAt(after, (a, v));
  }
}
