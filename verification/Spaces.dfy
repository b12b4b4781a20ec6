// Address spaces as sequences of areas over the flat page machine: one page, one area or one cut at a time.
module Spaces {
  import opened Types
  import opened Paging
  import opened Areas

  /** Every page-table entry of an anonymous page lies in an area. */
  ghost predicate SpaceOk(s: MemorySet) {
    && Layout(s.areas)
    && (forall j :: 0 <= j < |s.areas| ==> Counted(s.areas[j]))
    && (forall v: nat :: v in s.pt ==> Covered(s.areas, v))
  }

  /** `(index as u16)` */
  function U16(n: nat): nat { n % 0x1_0000 }

  /** `active.retain(|e| e != idx)` */
  function Without(active: seq<nat>, idx: nat): seq<nat> {
    if active == [] then []
    else if active[0] == idx then Without(active[1..], idx)
    else [active[0]] + Without(active[1..], idx)
  }

  lemma {:induction false} WithoutIs(active: seq<nat>, idx: nat)
    ensures forall p: nat :: p in Without(active, idx) <==> p in active && p != idx
  {
    if active != [] {
      WithoutIs(active[1..], idx);
      assert active == [active[0]] + active[1..];
    }
  }

  /** The mapped pages of `[lo, hi)` are off the active list. */
  ghost predicate Unlisted(x: Area, x': Area, pt: map<nat, Pte>, lo: nat, hi: nat) {
    forall p: nat :: p in x'.active <==> p in x.active && !(lo <= x.start + p < hi && x.start + p in pt)
  }

  lemma UnlistedNone(x: Area, pt: map<nat, Pte>, lo: nat)
    ensures Unlisted(x, x, pt, lo, lo)
  {
  }

  lemma UnlistedStep(x: Area, x1: Area, pt: map<nat, Pte>, lo: nat, v: nat)
    requires Unlisted(x, x1, pt, lo, v) && x.start <= lo <= v && x1.start == x.start && v - x.start < |x1.frames|
    ensures v in pt ==> Unlisted(x, Unmapped(x1, v - x.start), pt, lo, v + 1)
    ensures v !in pt ==> Unlisted(x, x1, pt, lo, v + 1)
  {
    hide Without;
    WithoutIs(x1.active, v - x.start);
  }

  /** `do_page_fault`'s search: the first readable user area around the page. */
  function FindUser(areas: seq<Area>, v: nat): (j: nat)
    ensures j <= |areas|
    ensures j < |areas| ==> Contains(areas[j], v) && areas[j].perm.r && areas[j].perm.u
    ensures forall i :: 0 <= i < j ==> !(Contains(areas[i], v) && areas[i].perm.r && areas[i].perm.u)
  {
    if areas == [] then 0
    else if areas[0].perm.r && areas[0].perm.u && Contains(areas[0], v) then 0
    else 1 + FindUser(areas[1..], v)
  }

  /** There is at most one area around a page. */
  lemma OneAround(areas: seq<Area>, v: nat, i: nat, j: nat)
    requires Layout(areas) && i < |areas| && j < |areas| && Contains(areas[i], v) && Contains(areas[j], v)
    ensures i == j
  {
    FindIs(areas, v, i);
    FindIs(areas, v, j);
  }

  /** Area `j` of space `a` replaced, and the page table brought in line with `pt` at page `v`. */
  function WithPage(s: MemorySet, a: nat, j: nat, v: nat, area': Area, pt: map<Key, Pte>): MemorySet
    requires j < |s.areas|
  {
    MemorySet(s.areas[j := area'], if (a, v) in pt then s.pt[v := pt[(a, v)]] else s.pt - {v})
  }

  lemma WithPageOk(s: MemorySet, a: nat, j: nat, i: nat, area': Area, pt: map<Key, Pte>)
    requires SpaceOk(s) && j < |s.areas| && OneSlot(s.areas[j], i, area') && Counted(area')
    ensures var v := s.areas[j].start + i;
            var s' := WithPage(s, a, j, v, area', pt);
            && SpaceOk(s') && Layout(s.areas) && Covered(s.areas, v)
            && (forall w: nat :: Covered(s'.areas, w) <==> Covered(s.areas, w))
  {
    var v := s.areas[j].start + i;
    forall w: nat
      ensures Covered(s.areas[j := area'], w) <==> Covered(s.areas, w)
    {
      SetFrameAt(s.areas, j, i, area', w);
    }
    SetFrameAt(s.areas, j, i, area', v);
  }

  ghost predicate AllOk(spaces: seq<MemorySet>) {
    forall a :: 0 <= a < |spaces| ==> SpaceOk(spaces[a])
  }

  lemma WithPageFlat(spaces: seq<MemorySet>, a: nat, j: nat, i: nat, area': Area, pt: map<Key, Pte>)
    requires AllOk(spaces)
    requires a < |spaces| && j < |spaces[a].areas| && OneSlot(spaces[a].areas[j], i, area') && Counted(area')
    requires var k := (a, spaces[a].areas[j].start + i);
             pt == if k in pt then Entries(spaces)[k := pt[k]] else Entries(spaces) - {k}
    ensures var v := spaces[a].areas[j].start + i;
            var spaces' := spaces[a := WithPage(spaces[a], a, j, v, area', pt)];
            && AllOk(spaces')
            && Slots(spaces') == Slots(spaces)[(a, v) := area'.frames[i]]
            && Entries(spaces') == pt
  {
    hide Slots, Entries, Covered, SpaceOk, Layout, Counted, OneSlot;
    var v := spaces[a].areas[j].start + i;
    var s' := WithPage(spaces[a], a, j, v, area', pt);
    WithPageOk(spaces[a], a, j, i, area', pt);
    SetPageSlots(spaces, a, j, i, area', s'.pt);
    SetPageEntries(spaces, a, v, s');
  }

  /** Only permissions and bookkeeping of an area change. */
  predicate SamePages(area: Area, area': Area) {
    area'.start == area.start && area'.end == area.end && area'.frames == area.frames
  }

  lemma SamePagesAt(areas: seq<Area>, j: nat, area': Area, v: nat)
    requires j < |areas| && SamePages(areas[j], area')
    ensures Covered(areas[j := area'], v) <==> Covered(areas, v)
    ensures FrameAt(areas[j := area'], v) == FrameAt(areas, v)
  {
    FindSame(areas, areas[j := area'], v);
  }

  lemma SamePagesFlat(spaces: seq<MemorySet>, a: nat, j: nat, area': Area)
    requires AllOk(spaces) && a < |spaces| && j < |spaces[a].areas| && SamePages(spaces[a].areas[j], area')
             && Counted(area')
    ensures var spaces' := spaces[a := MemorySet(spaces[a].areas[j := area'], spaces[a].pt)];
            AllOk(spaces') && Slots(spaces') == Slots(spaces) && Entries(spaces') == Entries(spaces)
  {
    hide Slots, Entries, Covered, FrameAt, Counted;
    var areas := spaces[a].areas;
    var spaces' := spaces[a := MemorySet(areas[j := area'], spaces[a].pt)];
    forall v: nat
      ensures Covered(areas[j := area'], v) <==> Covered(areas, v)
      ensures FrameAt(areas[j := area'], v) == FrameAt(areas, v)
    {
      SamePagesAt(areas, j, area', v);
    }
    assert SpaceOk(spaces[a]);
    assert SpaceOk(spaces'[a]);
    forall k: Key
      ensures k in Slots(spaces') <==> k in Slots(spaces)
      ensures k in Slots(spaces) ==> Slots(spaces')[k] == Slots(spaces)[k]
      ensures k in Entries(spaces') <==> k in Entries(spaces)
      ensures k in Entries(spaces) ==> Entries(spaces')[k] == Entries(spaces)[k]
    {
      SlotAt(spaces, k);
      SlotAt(spaces', k);
      EntryAt(spaces, k);
      EntryAt(spaces', k);
    }
  }

  /** Slot `i` of area `j` in the flat table. */
  lemma SlotIs(spaces: seq<MemorySet>, a: nat, j: nat, i: nat)
    requires AllOk(spaces) && a < |spaces| && j < |spaces[a].areas| && i < |spaces[a].areas[j].frames|
    ensures var k := (a, spaces[a].areas[j].start + i);
            k in Slots(spaces) && Slots(spaces)[k] == spaces[a].areas[j].frames[i]
  {
    hide Slots, Find, FrameAt;
    assert SpaceOk(spaces[a]) && Sized(spaces[a].areas[j]);
    SlotAt(spaces, (a, spaces[a].areas[j].start + i));
    FindIs(spaces[a].areas, spaces[a].areas[j].start + i, j);
  }

  lemma AreaOk(spaces: seq<MemorySet>, a: nat, j: nat)
    requires AllOk(spaces) && a < |spaces| && j < |spaces[a].areas|
    ensures Sized(spaces[a].areas[j]) && Counted(spaces[a].areas[j])
  {
    assert SpaceOk(spaces[a]);
  }

  /** The area after a fault on its slot `i` was repaired with frame `ppn`. */
  function Repaired(area: Area, i: nat, wasMapped: bool, ppn: nat): Area
    requires i < |area.frames|
  {
    var active := if wasMapped then Without(area.active, i) else area.active;
    var area1 := area.(frames := area.frames[i := InMemory(ppn)], active := active + [U16(i)]);
    if wasMapped then area1
    else match area.frames[i]
      case Compressed(_) => if area.compressed > 0 then area1.(compressed := area.compressed - 1) else area1
      case SwappedOut(_) => if area.swapped > 0 then area1.(swapped := area.swapped - 1) else area1
      case _ => area1
  }

  /** What the fault handler does for page `v` of area `x`: the flat repair, a panic exactly where it unwraps a frame
      allocation with no frame left, and a repaired page last in the active list. */
  ghost predicate Handled(m: Mem, m': Mem, r: FaultResult, a: nat, v: nat, x: Area, x': Area) {
    && (a, v) in m.slots && (m', r) == Fault(m, (a, v), x.perm, x.stripped)
    && (r == Panicked <==>
          && FA.Unallocated(m.frames) == 0
          && if (a, v) in m.pt then !x.stripped && !Sole(m, (a, v)) else m.slots[(a, v)] != Unallocated)
    && (if r.Resolved? then
          && x' == x.(frames := x'.frames, active := x'.active, compressed := x'.compressed, swapped := x'.swapped)
          && x'.active != [] && Last(x'.active) == (v - x.start) % 0x1_0000
          && (forall p: nat :: p in x'.active <==>
                p == (v - x.start) % 0x1_0000 || (p in x.active && ((a, v) in m.pt ==> p != v - x.start)))
          && x'.compressed == x.compressed - (if (a, v) !in m.pt && m.slots[(a, v)].Compressed? then 1 else 0)
          && x'.swapped == x.swapped - (if (a, v) !in m.pt && m.slots[(a, v)].SwappedOut? then 1 else 0)
        else x' == x)
  }

  lemma RepairedActive(area: Area, i: nat, wasMapped: bool, ppn: nat)
    requires i < |area.frames|
    ensures var x := Repaired(area, i, wasMapped, ppn);
            && OneSlot(area, i, x) && x.frames[i] == InMemory(ppn)
            && x == area.(frames := x.frames, active := x.active, compressed := x.compressed, swapped := x.swapped)
            && x.active != [] && Last(x.active) == i % 0x1_0000
            && (forall p: nat :: p in x.active <==> p == i % 0x1_0000 || (p in area.active && (wasMapped ==> p != i)))
  {
    hide Without;
    WithoutIs(area.active, i);
  }

  /** The decrements on the fault path never underflow and keep the counters sound. */
  lemma RepairedCounted(area: Area, i: nat, wasMapped: bool, ppn: nat)
    requires Counted(area) && i < |area.frames| && (wasMapped ==> area.frames[i].InMemory?)
    ensures Counted(Repaired(area, i, wasMapped, ppn))
    ensures var x := Repaired(area, i, wasMapped, ppn);
            && x.compressed == area.compressed - (if !wasMapped && area.frames[i].Compressed? then 1 else 0)
            && x.swapped == area.swapped - (if !wasMapped && area.frames[i].SwappedOut? then 1 else 0)
  {
    CountUpdate(area.frames, i, InMemory(ppn));
    CountOne(area.frames, i);
  }

  lemma CountOne(s: seq<Frame>, i: nat)
    requires i < |s|
    ensures s[i].Compressed? ==> CountCompressed(s) > 0
    ensures s[i].SwappedOut? ==> CountSwapped(s) > 0
  {
    CountSlice(s, i, i + 1);
    assert s[i..i + 1] == [s[i]];
  }

  /** The area after slot `i` was evicted to `f`. */
  function Evicted(area: Area, i: nat, f: Frame): Area
    requires i < |area.frames|
  {
    var area1 := area.(frames := area.frames[i := f]);
    if f.Compressed? then area1.(compressed := area.compressed + 1) else area1.(swapped := area.swapped + 1)
  }

  lemma EvictedCounted(area: Area, i: nat, f: Frame)
    requires Counted(area) && i < |area.frames| && (f.Compressed? || f.SwappedOut?)
    ensures Counted(Evicted(area, i, f))
  {
    CountUpdate(area.frames, i, f);
  }

  /** `active.pop_front()` */
  function PopActive(area: Area): (r: Area)
    requires |area.active| > 0
    ensures Counted(area) ==> Counted(r)
    ensures r.frames == area.frames && r.start == area.start && r.end == area.end
    ensures r == area.(active := r.active) && |r.active| < |area.active|
  {
    area.(active := area.active[1..])
  }

  /** A successful eviction leaves a compressed or swapped-out tracker in the slot. */
  lemma EvictStores(m: Mem, k: Key)
    requires Inv(m) && k in m.slots
    ensures Evict(m, k).1 ==>
              && k in Evict(m, k).0.slots
              && (Evict(m, k).0.slots[k].Compressed? || Evict(m, k).0.slots[k].SwappedOut?)
    ensures Evict(m, k).0.foreign == m.foreign && Evict(m, k).0.codec == m.codec
  {
  }

  lemma ForceSwapStores(m: Mem, k: Key)
    requires Inv(m) && k in m.slots
    ensures ForceSwap(m, k).1 ==> k in ForceSwap(m, k).0.slots && ForceSwap(m, k).0.slots[k].SwappedOut?
    ensures ForceSwap(m, k).0.foreign == m.foreign && ForceSwap(m, k).0.codec == m.codec
  {
  }

  /** Only area `j` of space `a` and the space's page table may differ. */
  ghost predicate OthersSame(s: seq<MemorySet>, s': seq<MemorySet>, a: nat, j: nat) {
    && |s'| == |s| && a < |s| && j < |s[a].areas| && |s'[a].areas| == |s[a].areas|
    && (forall b :: 0 <= b < |s| && b != a ==> s'[b] == s[b])
    && (forall i :: 0 <= i < |s[a].areas| && i != j ==> s'[a].areas[i] == s[a].areas[i])
  }

  lemma LayoutOf(spaces: seq<MemorySet>, a: nat)
    requires AllOk(spaces) && a < |spaces|
    ensures Layout(spaces[a].areas)
  {
    assert SpaceOk(spaces[a]);
  }

  /** Only slots, the active list and the counters of area `j` of space `a` may differ. */
  ghost predicate OnlyArea(s: seq<MemorySet>, s': seq<MemorySet>, a: nat, j: nat) {
    && OthersSame(s, s', a, j)
    && var x, x' := s[a].areas[j], s'[a].areas[j];
       x'.start == x.start && x'.end == x.end && x'.perm == x.perm && x'.stripped == x.stripped
  }

  /** `remove_in_memory` on slot `i`. */
  function Unmapped(area: Area, i: nat): Area
    requires i < |area.frames|
  {
    area.(frames := area.frames[i := Unallocated], active := Without(area.active, i))
  }

  lemma UnmappedCounted(area: Area, i: nat)
    requires Counted(area) && i < |area.frames|
    ensures Counted(Unmapped(area, i))
  {
    CountUpdate(area.frames, i, Unallocated);
  }

  lemma EntryIs(spaces: seq<MemorySet>, a: nat, j: nat, i: nat)
    requires AllOk(spaces) && a < |spaces| && j < |spaces[a].areas| && i < |spaces[a].areas[j].frames|
    ensures var v := spaces[a].areas[j].start + i; (a, v) in Entries(spaces) <==> v in spaces[a].pt
  {
    hide Slots, Entries, Find, FrameAt;
    SlotIs(spaces, a, j, i);
    SlotAt(spaces, (a, spaces[a].areas[j].start + i));
    EntryAt(spaces, (a, spaces[a].areas[j].start + i));
  }

  // ----- Cutting an area of a space -----

  /** `parts` cover area `x` except for the pages `[lo, hi)`. */
  ghost predicate Leaves(parts: seq<Area>, x: Area, lo: nat, hi: nat) {
    && Pieces(parts, x)
    && (forall i :: 0 <= i < |parts| ==> Counted(parts[i]))
    && x.start <= lo <= hi <= x.end
    && (forall v: nat :: Contains(x, v) ==> (Covered(parts, v) <==> !(lo <= v < hi)))
  }

  function WithParts(s: MemorySet, j: nat, parts: seq<Area>): MemorySet
    requires j < |s.areas|
  {
    MemorySet(Splice(s.areas, j, parts), s.pt)
  }

  lemma WithPartsCovers(areas: seq<Area>, j: nat, parts: seq<Area>, lo: nat, hi: nat, v: nat)
    requires Layout(areas) && j < |areas| && Leaves(parts, areas[j], lo, hi)
    ensures Covered(Splice(areas, j, parts), v) <==> Covered(areas, v) && !(lo <= v < hi)
    ensures Covered(Splice(areas, j, parts), v) ==>
              && FrameAt(Splice(areas, j, parts), v) == FrameAt(areas, v)
              && AttrAt(Splice(areas, j, parts), v) == AttrAt(areas, v)
  {
    hide Splice, Pieces, Find, Layout;
    SpliceAt(areas, j, parts, v);
    if Contains(areas[j], v) {
      FindIs(areas, v, j);
    }
  }

  lemma WithPartsFlat(spaces: seq<MemorySet>, a: nat, j: nat, parts: seq<Area>, lo: nat, hi: nat)
    requires a < |spaces| && Layout(spaces[a].areas) && j < |spaces[a].areas|
             && Leaves(parts, spaces[a].areas[j], lo, hi)
    ensures var spaces' := spaces[a := WithParts(spaces[a], j, parts)];
            && Slots(spaces') == Slots(spaces) - Range(a, lo, hi)
            && Entries(spaces') == Entries(spaces) - Range(a, lo, hi)
  {
    var spaces' := spaces[a := WithParts(spaces[a], j, parts)];
    forall k: Key
      ensures k in Slots(spaces') <==> k in Slots(spaces) && k !in Range(a, lo, hi)
      ensures k in Slots(spaces') ==> Slots(spaces')[k] == Slots(spaces)[k]
      ensures k in Entries(spaces') <==> k in Entries(spaces) && k !in Range(a, lo, hi)
      ensures k in Entries(spaces') ==> Entries(spaces')[k] == Entries(spaces)[k]
    {
      WithPartsAt(spaces, a, j, parts, lo, hi, k);
    }
  }

  lemma WithPartsAt(spaces: seq<MemorySet>, a: nat, j: nat, parts: seq<Area>, lo: nat, hi: nat, k: Key)
    requires a < |spaces| && Layout(spaces[a].areas) && j < |spaces[a].areas|
             && Leaves(parts, spaces[a].areas[j], lo, hi)
    ensures var spaces' := spaces[a := WithParts(spaces[a], j, parts)];
            && (k in Slots(spaces') <==> k in Slots(spaces) && k !in Range(a, lo, hi))
            && (k in Slots(spaces') ==> Slots(spaces')[k] == Slots(spaces)[k])
            && (k in Entries(spaces') <==> k in Entries(spaces) && k !in Range(a, lo, hi))
            && (k in Entries(spaces') ==> Entries(spaces')[k] == Entries(spaces)[k])
  {
    hide Slots, Entries, Covered, FrameAt, AttrAt, Leaves, Layout;
    var spaces' := spaces[a := WithParts(spaces[a], j, parts)];
    SlotAt(spaces, k);
    SlotAt(spaces', k);
    EntryAt(spaces, k);
    EntryAt(spaces', k);
    WithPartsCovers(spaces[a].areas, j, parts, lo, hi, k.1);
  }

  lemma WithPartsOk(s: MemorySet, j: nat, parts: seq<Area>, lo: nat, hi: nat)
    requires SpaceOk(s) && j < |s.areas| && Leaves(parts, s.areas[j], lo, hi)
    requires forall v: nat :: lo <= v < hi ==> v !in s.pt
    ensures SpaceOk(WithParts(s, j, parts))
  {
    hide Covered;
    SpliceLayout(s.areas, j, parts);
    forall v: nat | v in s.pt
      ensures Covered(Splice(s.areas, j, parts), v)
    {
      WithPartsCovers(s.areas, j, parts, lo, hi, v);
    }
  }

  lemma WithPartsAttrs(s: MemorySet, j: nat, parts: seq<Area>, lo: nat, hi: nat)
    requires Layout(s.areas) && j < |s.areas| && Leaves(parts, s.areas[j], lo, hi)
    ensures AttrsKept(s.areas, WithParts(s, j, parts).areas)
  {
    hide Covered, AttrAt, FrameAt, Leaves, Layout, Splice;
    forall v: nat | Covered(WithParts(s, j, parts).areas, v)
      ensures Covered(s.areas, v) && AttrAt(WithParts(s, j, parts).areas, v) == AttrAt(s.areas, v)
    {
      WithPartsCovers(s.areas, j, parts, lo, hi, v);
    }
  }

  lemma OnlyAreaAttrs(s: seq<MemorySet>, s': seq<MemorySet>, a: nat, j: nat)
    requires OnlyArea(s, s', a, j)
    ensures AttrsKept(s[a].areas, s'[a].areas)
  {
    forall v: nat | Covered(s'[a].areas, v)
      ensures Covered(s[a].areas, v) && AttrAt(s'[a].areas, v) == AttrAt(s[a].areas, v)
    {
      FindSame(s[a].areas, s'[a].areas, v);
    }
  }

  lemma AttrsSelf(x: seq<Area>)
    ensures AttrsKept(x, x)
  {
  }

  lemma AttrsTrans(x: seq<Area>, y: seq<Area>, z: seq<Area>)
    requires AttrsKept(x, y) && AttrsKept(y, z)
    ensures AttrsKept(x, z)
  {
    hide Covered, AttrAt;
  }

  /** One surviving part that ends or begins at a cut. */
  lemma OnePartLeaves(p: Area, x: Area, lo: nat, hi: nat)
    requires Sized(x) && Pieces([p], x) && Counted(p) && x.start <= lo <= hi <= x.end
    requires (p.start == x.start && p.end == lo && hi == x.end) || (p.start == hi && p.end == x.end && lo == x.start)
    ensures Leaves([p], x, lo, hi)
  {
    forall v: nat | Contains(x, v)
      ensures Covered([p], v) <==> !(lo <= v < hi)
    {
      assert [p][0] == p;
      assert Find([p], v) < 1 <==> Contains(p, v);
    }
  }

  lemma NoPartLeaves(x: Area)
    requires Sized(x)
    ensures Leaves([], x, x.start, x.end)
  {
  }

  /** Three parts that meet leave nothing out. */
  lemma SplitLeaves(x: Area, y: Area, z: Area, a: Area)
    requires Sized(a) && Pieces([x, y, z], a) && Counted(x) && Counted(y) && Counted(z)
    requires x.start == a.start && x.end == y.start && y.end == z.start && z.end == a.end
    ensures Leaves([x, y, z], a, y.start, y.start)
  {
    hide Covered, Counted;
    var parts := [x, y, z];
    assert parts[0] == x && parts[1] == y && parts[2] == z;
    forall v: nat | Contains(a, v)
      ensures Covered(parts, v)
    {
      CoveredIn(parts, if v < x.end then 0 else if v < y.end then 1 else 2, v);
    }
  }

  lemma FirstPiece(x: Area, y: Area, a: Area)
    requires Pieces([x, y], a)
    ensures Pieces([x], a)
  {
    assert [x, y][0] == x;
  }

  predicate Clear(x: Area, s: nat, e: nat) {
    x.end <= s || e <= x.start
  }

  // ----- New areas -----

  /** A lazy area over `[start, end)` has come in at place `idx`, before the first area that starts no lower. */
  ghost predicate NewAt(areas: seq<Area>, areas': seq<Area>, idx: nat, start: nat, end: nat) {
    && idx <= |areas| && |areas'| == |areas| + 1
    && areas' == areas[..idx] + [areas'[idx]] + areas[idx..]
    && (forall i :: 0 <= i < idx ==> areas[i].start < start) && (idx < |areas| ==> areas[idx].start >= start)
    && var x := areas'[idx];
       && x.start == start && x.end == end && x.active == [] && x.compressed == 0 == x.swapped && !x.stripped
       && |x.frames| == end - start && forall i :: 0 <= i < |x.frames| ==> x.frames[i] == Unallocated
  }

  lemma FreshAt(areas: seq<Area>, idx: nat, x: Area, perm: Perm)
    requires idx <= |areas| && x.start <= x.end && x == FreshArea(x.start, x.end, perm)
    requires (forall i :: 0 <= i < idx ==> areas[i].start < x.start) && (idx < |areas| ==> areas[idx].start >= x.start)
    ensures NewAt(areas, areas[..idx] + [x] + areas[idx..], idx, x.start, x.end)
  {
  }

  function FreshArea(start: nat, end: nat, perm: Perm): Area
    requires start <= end
  {
    Area(start, end, seq(end - start, _ => Unallocated), [], 0, 0, perm, false)
  }

  lemma {:induction false} CountFresh(n: nat)
    ensures CountCompressed(seq(n, _ => Unallocated)) == 0 && CountSwapped(seq(n, _ => Unallocated)) == 0
  {
    if n > 0 {
      var s: seq<Frame> := seq(n, _ => Unallocated);
      assert s[1..] == seq(n - 1, _ => Unallocated);
      CountFresh(n - 1);
    }
  }

  lemma InsertLayout(areas: seq<Area>, idx: nat, x: Area)
    requires Layout(areas) && idx <= |areas| && Sized(x)
    requires forall i :: 0 <= i < |areas| ==> Clear(areas[i], x.start, x.end)
    ensures Layout(areas[..idx] + [x] + areas[idx..])
  {
    var areas' := areas[..idx] + [x] + areas[idx..];
    assert forall i :: 0 <= i < |areas'| ==>
        areas'[i] == if i < idx then areas[i] else if i == idx then x else areas[i - 1];
    forall i, j | 0 <= i < j < |areas'|
      ensures Apart(areas'[i], areas'[j])
    {
      if i == idx {
        assert Clear(areas[j - 1], x.start, x.end);
      } else if j == idx {
        assert Clear(areas[i], x.start, x.end);
      } else {
        assert Apart(areas[if i < idx then i else i - 1], areas[if j < idx then j else j - 1]);
      }
    }
  }

  lemma InsertAt(areas: seq<Area>, idx: nat, x: Area, v: nat)
    requires Layout(areas) && idx <= |areas| && Sized(x)
    requires forall i :: 0 <= i < |areas| ==> Clear(areas[i], x.start, x.end)
    ensures var areas' := areas[..idx] + [x] + areas[idx..];
            && Layout(areas')
            && (Covered(areas', v) <==> Covered(areas, v) || Contains(x, v))
            && (Contains(x, v) ==>
                  && !Covered(areas, v) && FrameAt(areas', v) == x.frames[v - x.start]
                  && AttrAt(areas', v) == (x.perm, x.stripped))
            && (Covered(areas, v) ==> FrameAt(areas', v) == FrameAt(areas, v) && AttrAt(areas', v) == AttrAt(areas, v))
  {
    hide Layout, FrameAt, Find;
    InsertLayout(areas, idx, x);
    var areas' := areas[..idx] + [x] + areas[idx..];
    assert forall i :: 0 <= i < |areas'| ==>
        areas'[i] == if i < idx then areas[i] else if i == idx then x else areas[i - 1];
    var q := Find(areas, v);
    if q < |areas| {
      assert Clear(areas[q], x.start, x.end);
      FindIs(areas', v, if q < idx then q else q + 1);
      FindIs(areas, v, q);
    } else if Contains(x, v) {
      FindIs(areas', v, idx);
    } else {
      assert forall i :: 0 <= i < |areas'| ==> !Contains(areas'[i], v);
    }
  }

  lemma InsertOk(spaces: seq<MemorySet>, a: nat, idx: nat, x: Area)
    requires AllOk(spaces) && a < |spaces| && idx <= |spaces[a].areas| && x.start < x.end
    requires x == FreshArea(x.start, x.end, x.perm)
    requires forall i :: 0 <= i < |spaces[a].areas| ==> Clear(spaces[a].areas[i], x.start, x.end)
    ensures AllOk(spaces[a := MemorySet(spaces[a].areas[..idx] + [x] + spaces[a].areas[idx..], spaces[a].pt)])
  {
    hide Covered, FrameAt, Layout;
    var s := spaces[a];
    var s' := MemorySet(s.areas[..idx] + [x] + s.areas[idx..], s.pt);
    CountFresh(x.end - x.start);
    InsertAt(s.areas, idx, x, 0);
    forall v: nat | v in s.pt
      ensures Covered(s'.areas, v)
    {
      InsertAt(s.areas, idx, x, v);
    }
    assert forall i :: 0 <= i < |s'.areas| ==>
        s'.areas[i] == if i < idx then s.areas[i] else if i == idx then x else s.areas[i - 1];
    assert SpaceOk(s');
  }

  lemma InsertAttrs(spaces: seq<MemorySet>, a: nat, idx: nat, x: Area)
    requires AllOk(spaces) && a < |spaces| && idx <= |spaces[a].areas| && Sized(x)
    requires forall i :: 0 <= i < |spaces[a].areas| ==> Clear(spaces[a].areas[i], x.start, x.end)
    ensures var areas, areas' := spaces[a].areas, spaces[a].areas[..idx] + [x] + spaces[a].areas[idx..];
            && (forall v: nat :: x.start <= v < x.end ==>
               Covered(areas', v) && AttrAt(areas', v) == (x.perm, x.stripped))
            && (forall v: nat :: Covered(areas, v) ==> Covered(areas', v) && AttrAt(areas', v) == AttrAt(areas, v))
  {
    hide Layout, FrameAt, Covered, AttrAt;
    assert SpaceOk(spaces[a]);
    forall v: nat
    {
      InsertAt(spaces[a].areas, idx, x, v);
    }
  }

  lemma InsertFlat(spaces: seq<MemorySet>, m: Mem, a: nat, idx: nat, x: Area)
    requires AllOk(spaces) && a < |spaces| && idx <= |spaces[a].areas| && x.start < x.end
    requires x == FreshArea(x.start, x.end, x.perm) && m.slots == Slots(spaces) && m.pt == Entries(spaces)
    requires forall i :: 0 <= i < |spaces[a].areas| ==> Clear(spaces[a].areas[i], x.start, x.end)
    ensures var spaces' := spaces[a := MemorySet(spaces[a].areas[..idx] + [x] + spaces[a].areas[idx..], spaces[a].pt)];
            ReserveRange(m, a, x.start, x.end).slots == Slots(spaces') && m.pt == Entries(spaces')
    ensures forall k: Key :: k in Range(a, x.start, x.end) ==> k !in m.slots
  {
    hide Slots, Entries, Covered, FrameAt, Layout;
    var spaces' := spaces[a := MemorySet(spaces[a].areas[..idx] + [x] + spaces[a].areas[idx..], spaces[a].pt)];
    assert SpaceOk(spaces[a]);
    forall k: Key
      ensures k in Slots(spaces') <==> k in m.slots || k in Range(a, x.start, x.end)
      ensures k in Slots(spaces') ==>
              Slots(spaces')[k] == if k in Range(a, x.start, x.end) then Unallocated else m.slots[k]
      ensures k in Entries(spaces') <==> k in m.pt
      ensures k in m.pt ==> Entries(spaces')[k] == m.pt[k]
      ensures k in Range(a, x.start, x.end) ==> k !in m.slots
    {
      SlotAt(spaces, k);
      SlotAt(spaces', k);
      EntryAt(spaces, k);
      EntryAt(spaces', k);
      InsertAt(spaces[a].areas, idx, x, k.1);
    }
  }

  lemma PokeOnlyRam(m: Mem, k: Key, off: nat, x: byte)
    requires off < PAGE_SIZE
    ensures Poke(m, k, off, x).0 == m.(ram := Poke(m, k, off, x).0.ram)
  {
  }
}
