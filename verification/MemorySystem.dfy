// The user memory of all address spaces: areas, page tables and the three page stores, changed
// in place by page faults, memory pressure, fork, munmap and mprotect.
module MemorySystems {
  import opened Types
  import opened Paging
  import opened Areas
  import FA = FrameAllocator
  import Zram
  import Swap
  import opened Spaces
  import opened Pressure
  import opened Unmapping
  import opened Protecting
  import opened Forking

  class MemorySystem {
    var spaces: seq<MemorySet>
    var ram: map<nat, Page>
    var frames: FA.Frames
    var zram: Zram.Store
    var swap: Swap.Device
    const foreign: set<nat>
    const codec: Codec

    /** The state as a flat page machine. */
    function Flat(): Mem
      reads this
    {
      Mem(Slots(spaces), Entries(spaces), ram, frames, zram, swap, foreign, codec)
    }

    ghost predicate Valid()
      reads this
    {
      AllOk(spaces) && Inv(Flat())
    }

    /** What every address space sees. */
    ghost function Contents(): map<Key, Page>
      reads this
    {
      View(Flat())
    }

    /** Store the outcome of a page transition on slot `i` of area `j` of space `a`. */
    method StorePage(a: nat, j: nat, i: nat, area': Area, m: Mem)
      requires AllOk(spaces)
      requires a < |spaces| && j < |spaces[a].areas| && OneSlot(spaces[a].areas[j], i, area') && Counted(area')
      requires var k := (a, spaces[a].areas[j].start + i);
               && m.slots == Flat().slots[k := area'.frames[i]]
               && m.pt == (if k in m.pt then Flat().pt[k := m.pt[k]] else Flat().pt - {k})
               && m.foreign == foreign && m.codec == codec
      modifies this
      ensures AllOk(spaces) && Flat() == m
      ensures |spaces| == |old(spaces)|
      ensures forall b :: 0 <= b < |spaces| && b != a ==> spaces[b] == old(spaces)[b]
      ensures spaces[a] == WithPage(old(spaces)[a], a, j, old(spaces)[a].areas[j].start + i, area', m.pt)
    {
      hide Slots, Entries, AllOk, Find, Counted;
      WithPageFlat(spaces, a, j, i, area', m.pt);
      spaces := spaces[a := WithPage(spaces[a], a, j, spaces[a].areas[j].start + i, area', m.pt)];
      ram, frames, zram, swap := m.ram, m.frames, m.zram, m.swap;
    }
  
    /** Store new permissions or bookkeeping of area `j` of space `a`. */
    method StoreArea(a: nat, j: nat, area': Area)
      requires AllOk(spaces) && a < |spaces| && j < |spaces[a].areas| && SamePages(spaces[a].areas[j], area')
               && Counted(area')
      modifies this`spaces
      ensures AllOk(spaces) && Flat() == old(Flat())
      ensures spaces == old(spaces)[a := MemorySet(old(spaces)[a].areas[j := area'], old(spaces)[a].pt)]
    {
      hide Slots, Entries, AllOk, Find, Counted;
      SamePagesFlat(spaces, a, j, area');
      spaces := spaces[a := MemorySet(spaces[a].areas[j := area'], spaces[a].pt)];
    }

    /** A fault in a readable user area is repaired without changing what any space sees; the
        handler panics exactly where it unwraps a frame allocation and no frame is left. */
    method DoPageFault(a: nat, v: nat) returns (r: FaultResult)
      requires Valid() && a < |spaces|
      modifies this
      ensures Valid() && Contents() == old(Contents())
      ensures |spaces| == |old(spaces)| && |spaces[a].areas| == |old(spaces)[a].areas|
      ensures forall i :: 0 <= i < |spaces[a].areas| ==>
                var x := old(spaces)[a].areas[i];
                Contains(x, v) && x.perm.r && x.perm.u ==>
                  Handled(old(Flat()), Flat(), r, a, v, x, spaces[a].areas[i])
      ensures (forall i :: 0 <= i < |old(spaces)[a].areas| ==>
                 var x := old(spaces)[a].areas[i]; !(Contains(x, v) && x.perm.r && x.perm.u)) ==>
                r == Failed(BadAddress) && spaces == old(spaces) && Flat() == old(Flat())
    {
      hide Slots, Entries, Find, FrameAt, Counted, View, Accounted, Mapped, WritableIsSole, Layout, SpaceOk, Fault,
           Sole, Repaired;
      var m := Flat();
      var j := FindUser(spaces[a].areas, v);
      if j == |spaces[a].areas| {
        return Failed(BadAddress);
      }
      var area := spaces[a].areas[j];
      var i := v - area.start;
      LayoutOf(spaces, a);
      forall k: nat | k < |spaces[a].areas| && Contains(spaces[a].areas[k], v)
        ensures k == j
      {
        OneAround(spaces[a].areas, v, k, j);
      }
      AreaOk(spaces, a, j);
      SlotIs(spaces, a, j, i);
      FaultKeeps(m, (a, v), area.perm, area.stripped);
      FaultPanicsIff(m, (a, v), area.perm, area.stripped);
      FaultSame(m, (a, v), area.perm, area.stripped);
      MappedAt(m, (a, v));
      var (m', res) := Fault(m, (a, v), area.perm, area.stripped);
      r := res;
      if res.Resolved? {
        RepairedCounted(area, i, (a, v) in m.pt, res.ppn);
        RepairedActive(area, i, (a, v) in m.pt, res.ppn);
        StorePage(a, j, i, Repaired(area, i, (a, v) in m.pt, res.ppn), m');
      }
    }
  
    /** Compression and swap under memory pressure are invisible, and the result is exactly the
        number of physical frames given back. */
    method DoOom(a: nat, j: nat) returns (released: nat)
      requires Valid() && a < |spaces| && j < |spaces[a].areas|
      modifies this
      ensures Valid() && Contents() == old(Contents())
      ensures OnlyArea(old(spaces), spaces, a, j) && spaces[a].areas[j].active == []
      ensures var x := old(spaces)[a].areas[j]; Flat() == EvictList(old(Flat()), a, x.start, |x.frames|, x.active)
      ensures released == FA.Unallocated(frames) - FA.Unallocated(old(frames))
      ensures var x := old(spaces)[a].areas[j]; released == EvictCount(old(Flat()), a, x.start, |x.frames|, x.active)
    {
      hide Slots, Entries, Find, FrameAt, Counted, View, Inv, Layout, SpaceOk, AllOk, Sole, Evict, EvictList,
           EvictCount, Pass;
      var before := spaces[a].areas[j].compressed + spaces[a].areas[j].swapped;
      AreaOk(spaces, a, j);
      ghost var x := spaces[a].areas[j];
      while |spaces[a].areas[j].active| > 0
        invariant Valid() && Contents() == old(Contents()) && OnlyArea(old(spaces), spaces, a, j)
        invariant EvictList(Flat(), a, x.start, |x.frames|, spaces[a].areas[j].active)
                  == EvictList(old(Flat()), a, x.start, |x.frames|, x.active)
        invariant spaces[a].areas[j].compressed + spaces[a].areas[j].swapped - before
               == FA.Unallocated(frames) - FA.Unallocated(old(frames))
        invariant FA.Unallocated(frames) >= FA.Unallocated(old(frames))
        decreases |spaces[a].areas[j].active|
      {
        AreaOk(spaces, a, j);
        var idx := spaces[a].areas[j].active[0];
        EvictListHead(Flat(), a, x.start, |x.frames|, spaces[a].areas[j].active);
        var area := PopActive(spaces[a].areas[j]);
        if idx < |area.frames| {
          var k := (a, area.start + idx);
          SlotIs(spaces, a, j, idx);
          EvictKeeps(Flat(), k);
          EvictFreesOne(Flat(), k);
          EvictStores(Flat(), k);
          var (m, done) := Evict(Flat(), k);
          if done {
            EvictedCounted(area, idx, m.slots[k]);
            StorePage(a, j, idx, Evicted(area, idx, m.slots[k]), m);
          } else {
            StorePage(a, j, idx, area, m);
          }
        } else {
          StoreArea(a, j, area);
        }
      }
      EvictNone(Flat(), a, x.start, |x.frames|);
      EvictListPass(old(Flat()), a, x.start, |x.frames|, x.active);
      PassFrees(old(Flat()), Flat(), EvictCount(old(Flat()), a, x.start, |x.frames|, x.active),
          EvictCount(old(Flat()), a, x.start, |x.frames|, x.active));
      released := spaces[a].areas[j].compressed + spaces[a].areas[j].swapped - before;
    }
  
    /** Swapping without looking at reference counts is invisible too, but a shared page that is
        counted gives no frame back. */
    method ForceSwapArea(a: nat, j: nat) returns (swapped: nat)
      requires Valid() && a < |spaces| && j < |spaces[a].areas|
      modifies this
      ensures Valid() && Contents() == old(Contents())
      ensures OnlyArea(old(spaces), spaces, a, j) && spaces[a].areas[j].active == []
      ensures var x := old(spaces)[a].areas[j]; Flat() == ForceList(old(Flat()), a, x.start, |x.frames|, x.active)
      ensures var x := old(spaces)[a].areas[j];
              (swapped, FA.Unallocated(frames) - FA.Unallocated(old(frames)))
                  == ForceCounts(old(Flat()), a, x.start, |x.frames|, x.active)
      ensures FA.Unallocated(frames) >= FA.Unallocated(old(frames))
      ensures Pass(old(Flat()), Flat(), swapped, FA.Unallocated(frames) - FA.Unallocated(old(frames)))
    {
      hide Slots, Entries, Find, FrameAt, Counted, View, Inv, Layout, SpaceOk, AllOk, Sole, ForceSwap, ForceList,
           ForceCounts, Pass;
      var before := spaces[a].areas[j].swapped;
      AreaOk(spaces, a, j);
      ghost var x := spaces[a].areas[j];
      while |spaces[a].areas[j].active| > 0
        invariant Valid() && Contents() == old(Contents()) && OnlyArea(old(spaces), spaces, a, j)
        invariant ForceList(Flat(), a, x.start, |x.frames|, spaces[a].areas[j].active)
                  == ForceList(old(Flat()), a, x.start, |x.frames|, x.active)
        invariant spaces[a].areas[j].swapped - before
                  + ForceCounts(Flat(), a, x.start, |x.frames|, spaces[a].areas[j].active).0
               == ForceCounts(old(Flat()), a, x.start, |x.frames|, x.active).0
        invariant spaces[a].areas[j].swapped >= before
        decreases |spaces[a].areas[j].active|
      {
        AreaOk(spaces, a, j);
        var idx := spaces[a].areas[j].active[0];
        ForceListHead(Flat(), a, x.start, |x.frames|, spaces[a].areas[j].active);
        var area := PopActive(spaces[a].areas[j]);
        if idx < |area.frames| {
          var k := (a, area.start + idx);
          SlotIs(spaces, a, j, idx);
          ForceSwapKeeps(Flat(), k);
          ForceSwapStores(Flat(), k);
          var (m, done) := ForceSwap(Flat(), k);
          if done {
            EvictedCounted(area, idx, m.slots[k]);
            StorePage(a, j, idx, Evicted(area, idx, m.slots[k]), m);
          } else {
            StorePage(a, j, idx, area, m);
          }
        } else {
          StoreArea(a, j, area);
        }
      }
      EvictNone(Flat(), a, x.start, |x.frames|);
      ForceListPass(old(Flat()), a, x.start, |x.frames|, x.active);
      PassFrees(old(Flat()), Flat(), ForceCounts(old(Flat()), a, x.start, |x.frames|, x.active).0,
          ForceCounts(old(Flat()), a, x.start, |x.frames|, x.active).1);
      swapped := spaces[a].areas[j].swapped - before;
    }

    /** Memory pressure on the mmap region of one space. */
    method ShallowClean(a: nat) returns (released: nat)
      requires Valid() && a < |spaces|
      modifies this
      ensures Valid() && Contents() == old(Contents())
      ensures Flat() == ShallowFrom(old(Flat()), a, old(spaces)[a].areas, 0)
      ensures |spaces| == |old(spaces)| && forall b :: 0 <= b < |spaces| && b != a ==> spaces[b] == old(spaces)[b]
      ensures |spaces[a].areas| == |old(spaces)[a].areas|
      ensures forall i :: 0 <= i < |spaces[a].areas| ==>
                var was, now := old(spaces)[a].areas[i], spaces[a].areas[i];
                if MMAP_BASE_VPN <= was.start < TASK_SIZE_VPN then now.active == [] else now == was
      ensures released == FA.Unallocated(frames) - FA.Unallocated(old(frames))
    {
      hide View, Inv, AllOk, Slots, Entries, EvictList, ShallowFrom;
      released := 0;
      for j := 0 to |spaces[a].areas|
        invariant Valid() && Contents() == old(Contents())
        invariant |spaces| == |old(spaces)| && |spaces[a].areas| == |old(spaces)[a].areas|
        invariant forall b :: 0 <= b < |spaces| && b != a ==> spaces[b] == old(spaces)[b]
        invariant forall i :: 0 <= i < j ==>
                    var was, now := old(spaces)[a].areas[i], spaces[a].areas[i];
                    if MMAP_BASE_VPN <= was.start < TASK_SIZE_VPN then now.active == [] else now == was
        invariant forall i :: j <= i < |spaces[a].areas| ==> spaces[a].areas[i] == old(spaces)[a].areas[i]
        invariant ShallowFrom(Flat(), a, old(spaces)[a].areas, j)
                  == ShallowFrom(old(Flat()), a, old(spaces)[a].areas, 0)
        invariant released == FA.Unallocated(frames) - FA.Unallocated(old(frames))
      {
        ShallowHead(Flat(), a, old(spaces)[a].areas, j);
        if MMAP_BASE_VPN <= spaces[a].areas[j].start < TASK_SIZE_VPN {
          var n := DoOom(a, j);
          released := released + n;
        }
      }
      CleanNone(Flat(), a, old(spaces)[a].areas);
    }

    /** Memory pressure on a whole sleeping space: low areas are swapped unconditionally. */
    method DeepClean(a: nat) returns (cleaned: nat)
      requires Valid() && a < |spaces|
      modifies this
      ensures Valid() && Contents() == old(Contents())
      ensures Flat() == DeepFrom(old(Flat()), a, old(spaces)[a].areas, 0)
      ensures |spaces| == |old(spaces)| && forall b :: 0 <= b < |spaces| && b != a ==> spaces[b] == old(spaces)[b]
      ensures |spaces[a].areas| == |old(spaces)[a].areas|
      ensures forall i :: 0 <= i < |spaces[a].areas| ==>
                var was, now := old(spaces)[a].areas[i], spaces[a].areas[i];
                if was.start < TASK_SIZE_VPN then now.active == [] else now == was
      ensures (cleaned, FA.Unallocated(frames) - FA.Unallocated(old(frames)))
              == DeepCounts(old(Flat()), a, old(spaces)[a].areas, 0)
      ensures FA.Unallocated(frames) >= FA.Unallocated(old(frames))
      ensures Pass(old(Flat()), Flat(), cleaned, FA.Unallocated(frames) - FA.Unallocated(old(frames)))
    {
      hide View, Inv, AllOk, Slots, Entries, EvictList, ForceList, ForceCounts, EvictCount, DeepFrom, DeepCounts, Pass;
      ghost var m, areas := Flat(), spaces[a].areas;
      cleaned := 0;
      for j := 0 to |spaces[a].areas|
        invariant Valid() && Contents() == old(Contents())
        invariant |spaces| == |old(spaces)| && |spaces[a].areas| == |areas|
        invariant forall b :: 0 <= b < |spaces| && b != a ==> spaces[b] == old(spaces)[b]
        invariant forall i :: 0 <= i < j ==>
                    var was, now := areas[i], spaces[a].areas[i];
                    if was.start < TASK_SIZE_VPN then now.active == [] else now == was
        invariant forall i :: j <= i < |spaces[a].areas| ==> spaces[a].areas[i] == areas[i]
        invariant DeepFrom(Flat(), a, areas, j) == DeepFrom(m, a, areas, 0)
        invariant cleaned + DeepCounts(Flat(), a, areas, j).0 == DeepCounts(m, a, areas, 0).0
      {
        DeepHead(Flat(), a, areas, j);
        DeepCountsHead(Flat(), a, areas, j);
        if spaces[a].areas[j].start < TASK_SIZE_VPN {
          var n;
          if spaces[a].areas[j].start < MMAP_BASE_VPN {
            n := ForceSwapArea(a, j);
          } else {
            n := DoOom(a, j);
          }
          cleaned := cleaned + n;
        }
      }
      CleanNone(Flat(), a, areas);
      DeepPass(m, a, areas, 0);
      PassFrees(m, Flat(), DeepCounts(m, a, areas, 0).0, DeepCounts(m, a, areas, 0).1);
    }
  
    // ----- munmap -----

    /** Replace area `j` by `parts`; the pages they leave out are dropped with their trackers. */
    method CutArea(a: nat, j: nat, parts: seq<Area>, lo: nat, hi: nat)
      requires AllOk(spaces) && a < |spaces| && j < |spaces[a].areas| && Leaves(parts, spaces[a].areas[j], lo, hi)
      modifies this
      ensures spaces == old(spaces)[a := WithParts(old(spaces)[a], j, parts)]
      ensures Inv(old(Flat())) ==> Flat() == DiscardRange(old(Flat()), a, lo, hi)
      ensures (forall v: nat :: lo <= v < hi ==> v !in old(spaces)[a].pt) ==> AllOk(spaces)
    {
      hide Slots, Entries, Covered, Counted, View, Inv, Leaves, DiscardRange, Layout;
      var m := DiscardRange(Flat(), a, lo, hi);
      assert SpaceOk(spaces[a]);
      if Inv(Flat()) {
        DiscardRangeKeeps(Flat(), a, lo, hi);
      }
      WithPartsFlat(spaces, a, j, parts, lo, hi);
      if forall v: nat :: lo <= v < hi ==> v !in spaces[a].pt {
        WithPartsOk(spaces[a], j, parts, lo, hi);
      }
      spaces := spaces[a := WithParts(spaces[a], j, parts)];
      ram, frames, zram, swap := m.ram, m.frames, m.zram, m.swap;
    }

    /** `unmap_one` on each page of `[lo, hi)`; `true` if every page was mapped. */
    method UnmapRange(a: nat, j: nat, lo: nat, hi: nat) returns (all: bool)
      requires Valid() && a < |spaces| && j < |spaces[a].areas|
      requires spaces[a].areas[j].start <= lo <= hi <= spaces[a].areas[j].end
      modifies this
      ensures Valid() && OnlyArea(old(spaces), spaces, a, j)
      ensures Unlisted(old(spaces)[a].areas[j], spaces[a].areas[j], old(spaces)[a].pt, lo, hi)
      ensures KeptOutside(old(Flat()), Flat(), a, lo, hi)
      ensures forall v: nat :: lo <= v < hi ==> v !in spaces[a].pt
      ensures spaces[a].pt.Keys <= old(spaces)[a].pt.Keys
      ensures all <==> forall v: nat :: lo <= v < hi ==> v in old(spaces)[a].pt
    {
      hide Slots, Entries, Find, FrameAt, Counted, View, Accounted, Mapped, WritableIsSole, Layout, SpaceOk, AllOk,
           Sole, KeptOutside, Range, Unlisted, Without;
      UnlistedNone(spaces[a].areas[j], spaces[a].pt, lo);
      all := true;
      assert KeptOutside(Flat(), Flat(), a, lo, hi) by { KeptSelf(Flat(), a, lo, hi); }
      for v := lo to hi
        invariant Valid() && OnlyArea(old(spaces), spaces, a, j)
        invariant Unlisted(old(spaces)[a].areas[j], spaces[a].areas[j], old(spaces)[a].pt, lo, v)
        invariant KeptOutside(old(Flat()), Flat(), a, lo, hi)
        invariant forall w: nat :: lo <= w < v ==> w !in spaces[a].pt
        invariant spaces[a].pt.Keys <= old(spaces)[a].pt.Keys
        invariant forall w: nat :: v <= w < hi ==> (w in spaces[a].pt <==> w in old(spaces)[a].pt)
        invariant all <==> forall w: nat :: lo <= w < v ==> w in old(spaces)[a].pt
      {
        AreaOk(spaces, a, j);
        var area := spaces[a].areas[j];
        var i := v - area.start;
        UnlistedStep(old(spaces)[a].areas[j], area, old(spaces)[a].pt, lo, v);
        if v in spaces[a].pt {
          SlotIs(spaces, a, j, i);
          UnmapOneKeeps(Flat(), (a, v));
          UnmapOneKept(Flat(), a, v);
          EntryIs(spaces, a, j, i);
          KeptWiden(Flat(), UnmapOne(Flat(), (a, v)), a, v, v + 1, lo, hi);
          KeptTrans(old(Flat()), Flat(), UnmapOne(Flat(), (a, v)), a, lo, hi);
          UnmapSame(Flat(), (a, v));
          UnmappedCounted(area, i);
          StorePage(a, j, i, Unmapped(area, i), UnmapOne(Flat(), (a, v)));
        } else {
          all := false;
        }
      }
    }
  
    /** `rshrink_to`: unmap the pages that leave, then drop their slots. */
    method RshrinkTo(a: nat, j: nat, cut: nat) returns (all: bool)
      requires Valid() && a < |spaces| && j < |spaces[a].areas|
      requires cut <= spaces[a].areas[j].end
      modifies this
      ensures Valid() && var x := old(spaces)[a].areas[j]; KeptOutside(old(Flat()), Flat(), a, x.start, cut)
      ensures cut < old(spaces)[a].areas[j].start ==> !all && spaces == old(spaces) && Flat() == old(Flat())
      ensures OthersSame(old(spaces), spaces, a, j) && AttrsKept(old(spaces)[a].areas, spaces[a].areas)
      ensures spaces[a].pt.Keys <= old(spaces)[a].pt.Keys
      ensures cut >= old(spaces)[a].areas[j].start ==>
                && spaces[a].areas[j].start == cut && spaces[a].areas[j].end == old(spaces)[a].areas[j].end
                && (all <==> forall v: nat :: old(spaces)[a].areas[j].start <= v < cut ==> v in old(spaces)[a].pt)
      ensures cut >= old(spaces)[a].areas[j].start ==>
                var x := old(spaces)[a].areas[j];
                Unlisted(x, spaces[a].areas[j], old(spaces)[a].pt, x.start, cut)
    {
      hide Slots, Entries, Find, FrameAt, Counted, View, Accounted, Mapped, WritableIsSole, Layout, SpaceOk, AllOk,
           Sole, KeptOutside, AttrsKept, Leaves, DiscardRange, Range, Resize, Pieces, Piece;
      var lo, hi := spaces[a].areas[j].start, cut;
      AreaOk(spaces, a, j);
      if cut < lo {
        KeptSelf(Flat(), a, lo, cut);
        AttrsSelf(spaces[a].areas);
        return false;
      }
      all := UnmapRange(a, j, lo, hi);
      OnlyAreaAttrs(old(spaces), spaces, a, j);
      AreaOk(spaces, a, j);
      var x := spaces[a].areas[j];
      SetStartPiece(x, cut);
      OnePartLeaves(SetStart(x, cut), x, lo, hi);
      LayoutOf(spaces, a);
      WithPartsAttrs(spaces[a], j, [SetStart(x, cut)], lo, hi);
      AttrsTrans(old(spaces)[a].areas, spaces[a].areas, WithParts(spaces[a], j, [SetStart(x, cut)]).areas);
      DiscardRangeKept(Flat(), a, lo, hi);
      KeptTrans(old(Flat()), Flat(), DiscardRange(Flat(), a, lo, hi), a, lo, hi);
      CutArea(a, j, [SetStart(x, cut)], lo, hi);
    }

    /** `shrink_to`: unmap the pages that leave, then drop their slots. */
    method ShrinkTo(a: nat, j: nat, cut: nat) returns (all: bool)
      requires Valid() && a < |spaces| && j < |spaces[a].areas|
      requires spaces[a].areas[j].start <= cut
      modifies this
      ensures Valid() && var x := old(spaces)[a].areas[j]; KeptOutside(old(Flat()), Flat(), a, cut, x.end)
      ensures cut > old(spaces)[a].areas[j].end ==> !all && spaces == old(spaces) && Flat() == old(Flat())
      ensures OthersSame(old(spaces), spaces, a, j) && AttrsKept(old(spaces)[a].areas, spaces[a].areas)
      ensures spaces[a].pt.Keys <= old(spaces)[a].pt.Keys
      ensures cut <= old(spaces)[a].areas[j].end ==>
                && spaces[a].areas[j].start == old(spaces)[a].areas[j].start && spaces[a].areas[j].end == cut
                && (all <==> forall v: nat :: cut <= v < old(spaces)[a].areas[j].end ==> v in old(spaces)[a].pt)
      ensures cut <= old(spaces)[a].areas[j].end ==>
                var x := old(spaces)[a].areas[j];
                Unlisted(x, spaces[a].areas[j], old(spaces)[a].pt, cut, x.end)
    {
      hide Slots, Entries, Find, FrameAt, Counted, View, Accounted, Mapped, WritableIsSole, Layout, SpaceOk, AllOk,
           Sole, KeptOutside, AttrsKept, Leaves, DiscardRange, Range, Resize, Pieces, Piece;
      var lo, hi := cut, spaces[a].areas[j].end;
      AreaOk(spaces, a, j);
      if cut > hi {
        KeptSelf(Flat(), a, cut, hi);
        AttrsSelf(spaces[a].areas);
        return false;
      }
      all := UnmapRange(a, j, lo, hi);
      OnlyAreaAttrs(old(spaces), spaces, a, j);
      AreaOk(spaces, a, j);
      var x := spaces[a].areas[j];
      SetEndPiece(x, cut);
      OnePartLeaves(SetEnd(x, cut), x, lo, hi);
      LayoutOf(spaces, a);
      WithPartsAttrs(spaces[a], j, [SetEnd(x, cut)], lo, hi);
      AttrsTrans(old(spaces)[a].areas, spaces[a].areas, WithParts(spaces[a], j, [SetEnd(x, cut)]).areas);
      DiscardRangeKept(Flat(), a, lo, hi);
      KeptTrans(old(Flat()), Flat(), DiscardRange(Flat(), a, lo, hi), a, lo, hi);
      CutArea(a, j, [SetEnd(x, cut)], lo, hi);
    }

    /** One step of `munmap`'s pass over the areas. */
    method MunmapArea(a: nat, j: nat, s: nat, e: nat) returns (act: Action)
      requires Valid() && a < |spaces| && j < |spaces[a].areas| && s <= e
      modifies this
      ensures Valid() && KeptOutside(old(Flat()), Flat(), a, s, e)
      ensures OthersSame(old(spaces), spaces, a, j) && AttrsKept(old(spaces)[a].areas, spaces[a].areas)
      ensures spaces[a].pt.Keys <= old(spaces)[a].pt.Keys
      ensures ActionDone(act, old(spaces)[a].areas[j], spaces[a].areas[j], s, e)
      ensures act.DeleteArea? ==> forall v: nat :: Contains(spaces[a].areas[j], v) ==> v !in spaces[a].pt
    {
      hide Slots, Entries, Find, FrameAt, Counted, View, Accounted, Mapped, WritableIsSole, Layout, SpaceOk, AllOk,
           Sole, KeptOutside, AttrsKept, Range;
      var x := spaces[a].areas[j];
      AreaOk(spaces, a, j);
      KeptSelf(Flat(), a, s, e);
      assert AttrsKept(spaces[a].areas, spaces[a].areas) by { OnlyAreaAttrs(spaces, spaces, a, j); }
      match Overlap(x, s, e)
      case None =>
        act := Skip;
      case Some((lo, hi)) =>
        if lo == x.start && hi == x.end {
          var _ := UnmapRange(a, j, x.start, x.end);
          KeptWiden(old(Flat()), Flat(), a, x.start, x.end, s, e);
          OnlyAreaAttrs(old(spaces), spaces, a, j);
          act := DeleteArea;
        } else if lo == x.start {
          var _ := RshrinkTo(a, j, hi);
          KeptWiden(old(Flat()), Flat(), a, lo, hi, s, e);
          act := Trimmed;
        } else if hi == x.end {
          var _ := ShrinkTo(a, j, lo);
          KeptWiden(old(Flat()), Flat(), a, lo, hi, s, e);
          act := Trimmed;
        } else {
          act := BreakApart;
        }
    }
  
    /** The first half of `munmap`: shrink, unmap or mark every area. */
    method MunmapPass(a: nat, s: nat, e: nat) returns (found: bool, ds: seq<nat>, brk: Option<nat>)
      requires Valid() && a < |spaces| && s <= e
      modifies this
      ensures Valid() && KeptOutside(old(Flat()), Flat(), a, s, e)
      ensures |spaces| == |old(spaces)| && forall b :: 0 <= b < |spaces| && b != a ==> spaces[b] == old(spaces)[b]
      ensures AttrsKept(old(spaces)[a].areas, spaces[a].areas)
      ensures Triaged(spaces[a], |spaces[a].areas|, ds, brk, s, e)
      ensures found <==> exists i :: 0 <= i < |old(spaces)[a].areas| && Overlap(old(spaces)[a].areas[i], s, e).Some?
      ensures brk.Some? ==>
                && brk.value < |old(spaces)[a].areas| == |spaces[a].areas|
                && spaces[a].areas[brk.value] == old(spaces)[a].areas[brk.value]
      ensures brk.None? ==> forall i :: 0 <= i < |old(spaces)[a].areas| ==>
                              !(old(spaces)[a].areas[i].start < s && e < old(spaces)[a].areas[i].end)
    {
      hide Slots, Entries, Find, FrameAt, Counted, View, Accounted, Mapped, WritableIsSole, Layout, SpaceOk, Inv,
           AllOk, Sole, KeptOutside, AttrsKept, Range, ActionDone, Triaged, Overlap;
      found, ds, brk := false, [], None;
      KeptSelf(Flat(), a, s, e);
      AttrsSelf(spaces[a].areas);
      ghost var old' := spaces[a].areas;
      TriagedNone(spaces[a], s, e);
      for j := 0 to |spaces[a].areas|
        invariant Valid() && KeptOutside(old(Flat()), Flat(), a, s, e)
        invariant |spaces| == |old(spaces)| && |spaces[a].areas| == |old'|
        invariant forall b :: 0 <= b < |spaces| && b != a ==> spaces[b] == old(spaces)[b]
        invariant forall i :: j <= i < |old'| ==> spaces[a].areas[i] == old'[i]
        invariant AttrsKept(old', spaces[a].areas)
        invariant Triaged(spaces[a], j, ds, brk, s, e)
        invariant found <==> exists i :: 0 <= i < j && Overlap(old'[i], s, e).Some?
        invariant brk.Some? ==> brk.value < j && spaces[a].areas[brk.value] == old'[brk.value]
        invariant brk.None? ==> forall i :: 0 <= i < j ==> !(old'[i].start < s && e < old'[i].end)
      {
        ghost var before, m := spaces[a], Flat();
        LayoutOf(spaces, a);
        var act := MunmapArea(a, j, s, e);
        KeptTrans(old(Flat()), m, Flat(), a, s, e);
        AttrsTrans(old', before.areas, spaces[a].areas);
        TriagedStep(before, spaces[a], j, ds, brk, act, s, e);
        ActionMeans(act, old'[j], spaces[a].areas[j], s, e);
        TriagedBound(before, j, ds, brk, s, e);
        found := found || act != Skip;
        if act == DeleteArea {
          ds := ds + [j];
        } else if act == BreakApart {
          brk := Some(j);
        }
      }
    }
  
    /** Remove the listed areas, last first. */
    method MunmapDelete(a: nat, s: nat, e: nat, ds: seq<nat>)
      requires Valid() && a < |spaces| && Triaged(spaces[a], |spaces[a].areas|, ds, None, s, e)
      modifies this
      ensures Valid() && KeptOutside(old(Flat()), Flat(), a, s, e)
      ensures |spaces| == |old(spaces)| && forall b :: 0 <= b < |spaces| && b != a ==> spaces[b] == old(spaces)[b]
      ensures AttrsKept(old(spaces)[a].areas, spaces[a].areas)
      ensures forall i :: 0 <= i < |spaces[a].areas| ==> Clear(spaces[a].areas[i], s, e)
    {
      hide Slots, Entries, Find, FrameAt, Counted, View, Accounted, Mapped, WritableIsSole, Layout, SpaceOk, Inv,
           AllOk, Sole, KeptOutside, AttrsKept, Range, DiscardRange, Leaves, Splice;
      KeptSelf(Flat(), a, s, e);
      AttrsSelf(spaces[a].areas);
      var rest := ds;
      while |rest| > 0
        invariant Valid() && KeptOutside(old(Flat()), Flat(), a, s, e)
        invariant |spaces| == |old(spaces)| && forall b :: 0 <= b < |spaces| && b != a ==> spaces[b] == old(spaces)[b]
        invariant AttrsKept(old(spaces)[a].areas, spaces[a].areas)
        invariant Triaged(spaces[a], |spaces[a].areas|, rest, None, s, e)
        decreases |rest|
      {
        var d := Last(rest);
        ghost var before, m := spaces[a], Flat();
        var x := spaces[a].areas[d];
        AreaOk(spaces, a, d);
        LayoutOf(spaces, a);
        NoPartLeaves(x);
        DeleteLast(spaces[a], rest, s, e);
        WithPartsAttrs(spaces[a], d, [], x.start, x.end);
        AttrsTrans(old(spaces)[a].areas, before.areas, WithParts(before, d, []).areas);
        DiscardRangeKept(m, a, x.start, x.end);
        assert d in rest;
        KeptWiden(m, DiscardRange(m, a, x.start, x.end), a, x.start, x.end, s, e);
        KeptTrans(old(Flat()), m, DiscardRange(m, a, x.start, x.end), a, s, e);
        CutArea(a, d, [], x.start, x.end);
        rest := DropLast(rest);
      }
    }

    /** Break an area apart around a non-empty range strictly inside it. */
    method MunmapBreak(a: nat, b: nat, s: nat, e: nat)
      requires Valid() && a < |spaces| && b < |spaces[a].areas| && s < e
      requires spaces[a].areas[b].start < s && e < spaces[a].areas[b].end
      requires forall i :: 0 <= i < |spaces[a].areas| && i != b ==> Clear(spaces[a].areas[i], s, e)
      modifies this
      ensures Valid() && KeptOutside(old(Flat()), Flat(), a, s, e)
      ensures |spaces| == |old(spaces)| && forall c :: 0 <= c < |spaces| && c != a ==> spaces[c] == old(spaces)[c]
      ensures AttrsKept(old(spaces)[a].areas, spaces[a].areas)
      ensures forall i :: 0 <= i < |spaces[a].areas| ==> Clear(spaces[a].areas[i], s, e)
    {
      hide Slots, Entries, Find, FrameAt, Counted, View, Accounted, Mapped, WritableIsSole, Layout, SpaceOk, Inv,
           AllOk, Sole, KeptOutside, AttrsKept, Range, DiscardRange, Leaves;
      AreaOk(spaces, a, b);
      LayoutOf(spaces, a);
      IntoThreePieces(spaces[a].areas[b], s, e);
      var (x, rest) := IntoThree(spaces[a].areas[b], s, e);
      var (y, z) := rest.value;
      SplitLeaves(x, y, z, spaces[a].areas[b]);
      WithPartsAttrs(spaces[a], b, [x, y, z], s, s);
      DiscardRangeKept(Flat(), a, s, s);
      KeptWiden(Flat(), DiscardRange(Flat(), a, s, s), a, s, s, s, e);
      CutArea(a, b, [x, y, z], s, s);
      ghost var m1, a1 := Flat(), spaces;
      assert spaces[a].areas[b + 1] == y;
      var _ := UnmapRange(a, b + 1, s, e);
      OnlyAreaAttrs(a1, spaces, a, b + 1);
      AttrsTrans(old(spaces)[a].areas, a1[a].areas, spaces[a].areas);
      KeptTrans(old(Flat()), m1, Flat(), a, s, e);
      ghost var m2, a2 := Flat(), spaces;
      AreaOk(spaces, a, b + 1);
      LayoutOf(spaces, a);
      NoPartLeaves(spaces[a].areas[b + 1]);
      WithPartsAttrs(spaces[a], b + 1, [], s, e);
      AttrsTrans(old(spaces)[a].areas, spaces[a].areas, WithParts(spaces[a], b + 1, []).areas);
      DiscardRangeKept(Flat(), a, s, e);
      KeptTrans(old(Flat()), m2, DiscardRange(m2, a, s, e), a, s, e);
      CutArea(a, b + 1, [], s, e);
      forall i | 0 <= i < |spaces[a].areas|
        ensures Clear(spaces[a].areas[i], s, e)
      {
        assert spaces[a].areas[i] == a2[a].areas[if i <= b then i else i + 1];
        assert a2[a].areas[if i <= b then i else i + 1] == a1[a].areas[if i <= b then i else i + 1];
      }
    }
  
    /** Break an area apart around an empty range: the second cut fails and the tail is lost. */
    method MunmapZero(a: nat, b: nat, s: nat)
      requires Valid() && a < |spaces| && b < |spaces[a].areas|
      requires spaces[a].areas[b].start < s < spaces[a].areas[b].end
      modifies this
      ensures |spaces| == |old(spaces)| && forall c :: 0 <= c < |spaces| && c != a ==> spaces[c] == old(spaces)[c]
      ensures spaces[a].pt == old(spaces)[a].pt
      ensures forall v: nat :: s <= v < old(spaces)[a].areas[b].end ==> !Covered(spaces[a].areas, v)
      ensures Inv(Flat()) && Flat() == DiscardRange(old(Flat()), a, s, old(spaces)[a].areas[b].end)
      ensures (a, s) !in Flat().slots
      ensures var e := old(spaces)[a].areas[b].end;
              forall v: nat :: s <= v < e ==> Stale(old(Flat()), old(spaces)[a].pt, spaces[a].pt, frames, a, s, e, v)
    {
      hide Slots, Entries, Find, FrameAt, Counted, View, Accounted, Mapped, WritableIsSole, Layout, SpaceOk, Inv,
           AllOk, Sole, KeptOutside, AttrsKept, DiscardRange, Leaves, Covered;
      var x := spaces[a].areas[b];
      AreaOk(spaces, a, b);
      LayoutOf(spaces, a);
      IntoTwoPieces(x, s);
      var (first, rest) := IntoThree(x, s, s);
      assert Pieces([first], x) by { FirstPiece(first, IntoTwo(x, s).value.1, x); }
      OnePartLeaves(first, x, s, x.end);
      forall v: nat | s <= v < x.end
        ensures !Covered(Splice(spaces[a].areas, b, [first]), v)
      {
        WithPartsCovers(spaces[a].areas, b, [first], s, x.end, v);
      }
      DiscardRangeKept(Flat(), a, s, x.end);
      forall v: nat | s <= v < x.end
        ensures Stale(Flat(), spaces[a].pt, spaces[a].pt, DiscardRange(Flat(), a, s, x.end).frames, a, s, x.end, v)
      {
        assert Contains(x, v);
        StaleAt(spaces, Flat(), a, b, s, v);
      }
      CutArea(a, b, [first], s, x.end);
      SlotAt(spaces, (a, s));
    }

    /** `munmap` removes exactly the pages of its range, from the areas, the page table and every
        store, unless it is asked for zero bytes strictly inside an area: then everything from
        there to the end of that area is dropped while its page-table entries stay. It reports
        success also when the range only touches the start of an area. */
    method Munmap(a: nat, start: nat, len: nat) returns (ok: bool)
      requires Valid() && a < |spaces|
      modifies this
      ensures |spaces| == |old(spaces)| && forall b :: 0 <= b < |spaces| && b != a ==> spaces[b] == old(spaces)[b]
      ensures start % PAGE_SIZE != 0 ==> !ok && spaces == old(spaces) && Flat() == old(Flat())
      ensures start % PAGE_SIZE == 0 ==>
                var s, e := start / PAGE_SIZE, PageCeil(start + len);
                var areas := old(spaces)[a].areas;
                && (ok <==> exists i :: 0 <= i < |areas| && areas[i].start <= e && s < areas[i].end)
                && (Valid() && Removed(old(Flat()), Flat(), a, s, e) <==> !Lossy(areas, s, e))
                && (!Lossy(areas, s, e) ==> AttrsKept(areas, spaces[a].areas))
                && (Lossy(areas, s, e) ==>
                      exists i :: 0 <= i < |areas| && areas[i].start < s < areas[i].end
                        && Inv(Flat()) && Removed(old(Flat()), Flat(), a, s, areas[i].end)
                        && forall v: nat :: s <= v < areas[i].end ==>
                             Covered(areas, v) && !Covered(spaces[a].areas, v)
                             && Stale(old(Flat()), old(spaces)[a].pt, spaces[a].pt, frames, a, s, areas[i].end, v))
      ensures start % PAGE_SIZE == 0 && (forall i :: 0 <= i < |old(spaces)[a].areas| ==>
                var x := old(spaces)[a].areas[i]; len > 0 || !(x.start * PAGE_SIZE < start < x.end * PAGE_SIZE)) ==>
                Valid() && forall v: nat ::
                  (a, v) in Flat().slots <==>
                    (a, v) in old(Flat()).slots && !(v * PAGE_SIZE < start + len && start < (v + 1) * PAGE_SIZE)
      ensures start % PAGE_SIZE == 0 ==> forall v: nat ::
                (a, v) in old(Flat()).slots && v * PAGE_SIZE < start + len && start < (v + 1) * PAGE_SIZE ==> ok
    {
      hide Slots, Entries, Find, FrameAt, Counted, View, Accounted, Mapped, WritableIsSole, Layout, SpaceOk, Inv,
           AllOk, Sole, KeptOutside, AttrsKept, DiscardRange, Leaves, PageCeil;
      if start % PAGE_SIZE != 0 {
        return false;
      }
      var s, e := start / PAGE_SIZE, PageCeil(start + len);
      CeilBounds(start, len);
      var found, ds, brk := MunmapPass(a, s, e);
      ok := found;
      ghost var m1, spaces1, areas1 := Flat(), spaces, spaces[a].areas;
      LayoutOf(spaces, a);
      if brk.Some? {
        var b := brk.value;
        BreakMeansNoDelete(spaces[a], |spaces[a].areas|, ds, brk, s, e);
        if s < e {
          MunmapBreak(a, b, s, e);
          KeptTrans(old(Flat()), m1, Flat(), a, s, e);
          AttrsTrans(old(spaces)[a].areas, areas1, spaces[a].areas);
          MunmapExact(old(Flat()), spaces, Flat(), a, s, e);
        } else {
          MunmapZero(a, b, s);
          forall v: nat | s <= v < old(spaces)[a].areas[b].end
            ensures Covered(old(spaces)[a].areas, v) && (a, v) in old(Flat()).slots
            ensures Stale(old(Flat()), old(spaces)[a].pt, spaces[a].pt, frames, a, s, old(spaces)[a].areas[b].end, v)
          {
            assert Contains(old(spaces)[a].areas[b], v);
            KeptEntry(old(spaces), spaces1, old(Flat()), m1, a, s, v);
            assert Stale(m1, spaces1[a].pt, spaces[a].pt, frames, a, s, spaces1[a].areas[b].end, v);
            OutsideSame(old(Flat()), m1, a, s, spaces1[a].areas[b].end);
          }
          assert (a, s) !in Range(a, s, s);
          TailRemoved(old(Flat()), m1, spaces, Flat(), a, s, old(spaces)[a].areas[b].end);
        }
      } else {
        MunmapDelete(a, s, e, ds);
        KeptTrans(old(Flat()), m1, Flat(), a, s, e);
        AttrsTrans(old(spaces)[a].areas, areas1, spaces[a].areas);
        MunmapExact(old(Flat()), spaces, Flat(), a, s, e);
      }
      MunmapBytes(old(spaces), old(Flat()), Flat(), a, start, len);
    }
  
    /** `new_bare`: an address space without areas. */
    method NewSpace() returns (a: nat)
      requires Valid()
      modifies this`spaces
      ensures Valid() && a == |old(spaces)| && spaces == old(spaces) + [MemorySet([], map[])]
      ensures Contents() == old(Contents())
    {
      hide Slots, Entries, View, Inv, AllOk;
      NewSpaceFlat(spaces);
      a := |spaces|;
      spaces := spaces + [MemorySet([], map[])];
    }

    /** The lossy `munmap` is reachable: a new space of two pages, asked to unmap no byte at its second page,
        loses that page and keeps the first. */
    method LosesSecondPage(perm: Perm) returns (a: nat, ghost before: seq<Area>)
      requires Valid()
      modifies this
      ensures a == |old(spaces)| && |spaces| == a + 1
      ensures Covered(before, 0) && Covered(before, 1)
      ensures Covered(spaces[a].areas, 0) && !Covered(spaces[a].areas, 1)
    {
      hide Slots, Entries, View, Inv, AllOk, Covered, Stale, AttrsKept, Range;
      a := NewSpace();
      InsertArea(a, 0, 2, perm);
      before := spaces[a].areas;
      NewLossy(before);
      ghost var k: Key := (a, 0);
      SlotAt(spaces, k);
      ghost var m := Flat();
      var _ := Munmap(a, PAGE_SIZE, 0);
      ghost var i :| 0 <= i < |before| && before[i].start < 1 < before[i].end
          && Removed(m, Flat(), a, 1, before[i].end);
      BelowTail(m, Flat(), a, 1, before[i].end, 0);
      SlotAt(spaces, k);
    }

    // ----- mprotect -----

    /** Split area `j` so that the pages `[lo, hi)` are an area of their own, and return its index. */
    method SplitSegment(a: nat, j: nat, lo: nat, hi: nat) returns (k: nat)
      requires Valid() && a < |spaces| && j < |spaces[a].areas|
      requires spaces[a].areas[j].start <= lo < hi <= spaces[a].areas[j].end
      modifies this
      ensures Valid() && Flat() == old(Flat())
      ensures |spaces| == |old(spaces)| && forall b :: 0 <= b < |spaces| && b != a ==> spaces[b] == old(spaces)[b]
      ensures spaces[a].pt == old(spaces)[a].pt
      ensures SameAttrs(old(spaces)[a].areas, spaces[a].areas)
      ensures k < |spaces[a].areas| && spaces[a].areas[k].start == lo && spaces[a].areas[k].end == hi
      ensures spaces[a].areas[k].perm == old(spaces)[a].areas[j].perm
              && spaces[a].areas[k].stripped == old(spaces)[a].areas[j].stripped
      ensures SplitOf(old(spaces)[a].areas, j, spaces[a].areas)
    {
      hide Slots, Entries, Find, FrameAt, Counted, View, Accounted, Mapped, WritableIsSole, Layout, SpaceOk, Inv,
           AllOk, Sole, KeptOutside, SameAttrs, DiscardRange, Leaves, Splice;
      var x := spaces[a].areas[j];
      AreaOk(spaces, a, j);
      LayoutOf(spaces, a);
      var parts;
      if lo == x.start && hi == x.end {
        parts, k := [x], j;
        WholePart(x);
      } else if lo == x.start {
        IntoTwoPieces(x, hi);
        var (y, z) := IntoTwo(x, hi).value;
        parts, k := [y, z], j;
        TwoPartsLeave(y, z, x, lo);
      } else if hi == x.end {
        IntoTwoPieces(x, lo);
        var (y, z) := IntoTwo(x, lo).value;
        parts, k := [y, z], j + 1;
        TwoPartsLeave(y, z, x, lo);
      } else {
        IntoThreePieces(x, lo, hi);
        var (w, rest) := IntoThree(x, lo, hi);
        var (y, z) := rest.value;
        parts, k := [w, y, z], j + 1;
        SplitLeaves(w, y, z, x);
      }
      SpliceShape(spaces[a].areas, j, parts);
      assert Splice(spaces[a].areas, j, parts)[j + (k - j)] == parts[k - j];
      SplitKeepsAttrs(spaces[a], j, parts, lo);
      DiscardNothing(Flat(), a, lo);
      CutArea(a, j, parts, lo, lo);
    }
  
    /** `set_pte_flags` on every page of area `k`, then the area's own permissions. */
    method ProtectArea(a: nat, k: nat, flags: Perm, perm: Perm, strip: bool)
      requires Valid() && a < |spaces| && k < |spaces[a].areas| && !flags.w
      modifies this
      ensures Valid() && Flat().slots == old(Flat()).slots && Contents() == old(Contents())
      ensures OthersSame(old(spaces), spaces, a, k)
      ensures var x := old(spaces)[a].areas[k]; spaces[a].areas[k] == x.(perm := perm, stripped := x.stripped || strip)
      ensures ProtectedRange(old(spaces)[a].pt, spaces[a].pt, old(spaces)[a].areas[k].start,
              old(spaces)[a].areas[k].end, flags)
    {
      hide Slots, Entries, Find, FrameAt, Counted, View, Accounted, Mapped, WritableIsSole, Layout, SpaceOk, Inv,
           AllOk, Sole;
      var x := spaces[a].areas[k];
      AreaOk(spaces, a, k);
      for v := x.start to x.end
        invariant Valid() && Flat().slots == old(Flat()).slots && Contents() == old(Contents())
        invariant OthersSame(old(spaces), spaces, a, k) && spaces[a].areas[k] == x
        invariant ProtectedRange(old(spaces)[a].pt, spaces[a].pt, x.start, v, flags)
      {
        AreaOk(spaces, a, k);
        SlotIs(spaces, a, k, v - x.start);
        EntryIs(spaces, a, k, v - x.start);
        EntryAt(spaces, (a, v));
        ProtectKeeps(Flat(), (a, v), flags);
        var m := Protect(Flat(), (a, v), flags);
        StorePage(a, k, v - x.start, x, m);
      }
      AreaOk(spaces, a, k);
      AttrCounted(x, perm, x.stripped || strip);
      StoreArea(a, k, x.(perm := perm, stripped := x.stripped || strip));
    }
  
    /** One turn of `mprotect`'s loop. */
    method ProtectSegment(a: nat, j: nat, c: nat, h: nat, prot: Perm) returns (ghost middle: MemorySet, ghost k: nat)
      requires Valid() && a < |spaces| && j < |spaces[a].areas|
      requires spaces[a].areas[j].start <= c < h <= spaces[a].areas[j].end
      modifies this
      ensures Valid() && Flat().slots == old(Flat()).slots && Contents() == old(Contents())
      ensures |spaces| == |old(spaces)| && forall b :: 0 <= b < |spaces| && b != a ==> spaces[b] == old(spaces)[b]
      ensures Layout(middle.areas) && Layout(spaces[a].areas)
      ensures SegmentDone(old(spaces)[a], middle, spaces[a], c, h, j, k, prot)
    {
      hide Slots, Entries, Find, FrameAt, Counted, View, Accounted, Mapped, WritableIsSole, Layout, SpaceOk, Inv,
           AllOk, Sole, SameAttrs, SplitOf, ProtectedRange, Applied, Ahead;
      var x := spaces[a].areas[j];
      var realX := if c in spaces[a].pt then spaces[a].pt[c].perm.x else x.perm.x;
      var perm := prot.(x := prot.x || realX);
      var seg := SplitSegment(a, j, c, h);
      k, middle := seg, spaces[a];
      LayoutOf(spaces, a);
      ProtectArea(a, seg, perm.WithoutW(), perm, x.perm.w && !perm.w);
      LayoutOf(spaces, a);
    }

    /** `mprotect` moves no page and changes no byte. It succeeds exactly when the whole range is
        covered; then every page in it has the requested permissions plus the X bit its segment
        had, and no page outside changed. */
    method Mprotect(a: nat, addr: nat, len: nat, prot: Perm) returns (r: MprotectResult)
      requires Valid() && a < |spaces|
      modifies this
      ensures Valid() && Flat().slots == old(Flat()).slots && Contents() == old(Contents())
      ensures |spaces| == |old(spaces)| && forall b :: 0 <= b < |spaces| && b != a ==> spaces[b] == old(spaces)[b]
      ensures addr % PAGE_SIZE != 0 ==> r == EINVAL && spaces == old(spaces)
      ensures addr % PAGE_SIZE == 0 && len == 0 ==> r == Done && spaces == old(spaces)
      ensures addr % PAGE_SIZE == 0 && len > 0 ==>
                var s, e := addr / PAGE_SIZE, PageCeil(addr + len);
                && r != EINVAL
                && (r == Done <==> forall v: nat :: s <= v < e ==> Covered(old(spaces)[a].areas, v))
                && (r == Done ==> Applied(old(spaces)[a], spaces[a], s, e, prot))
                && (r == ENOMEM ==>
                      exists c :: s <= c < e && !Covered(old(spaces)[a].areas, c)
                        && (forall v: nat :: s <= v < c ==> Covered(old(spaces)[a].areas, v))
                        && Applied(old(spaces)[a], spaces[a], s, c, prot))
      ensures addr % PAGE_SIZE == 0 ==>
                (r == Done <==> forall v: nat :: v * PAGE_SIZE < addr + len && addr < (v + 1) * PAGE_SIZE ==>
                   Covered(old(spaces)[a].areas, v))
      ensures r == Done ==> forall v: nat :: Covered(old(spaces)[a].areas, v) ==>
                Protected(old(spaces)[a], spaces[a], addr, len, prot, v)
    {
      hide Slots, Entries, Find, FrameAt, Counted, View, Accounted, Mapped, WritableIsSole, Layout, SpaceOk, Inv,
           AllOk, Sole, Applied, SegmentDone, Ahead, PageCeil, Protected;
      if addr % PAGE_SIZE != 0 {
        return EINVAL;
      }
      LayoutOf(spaces, a);
      if len == 0 {
        NoBytes(spaces[a], addr, prot);
        return Done;
      }
      var s, e := addr / PAGE_SIZE, PageCeil(addr + len);
      CeilBounds(addr, len);
      ProtectedBytes(spaces[a], addr, len);
      var cur := s;
      MprotectStart(spaces[a], s, e, prot);
      LayoutOf(spaces, a);
      while cur < e
        invariant s <= cur <= e
        invariant Valid() && Flat().slots == old(Flat()).slots && Contents() == old(Contents())
        invariant |spaces| == |old(spaces)| && forall b :: 0 <= b < |spaces| && b != a ==> spaces[b] == old(spaces)[b]
        invariant Applied(old(spaces)[a], spaces[a], s, cur, prot) && Ahead(old(spaces)[a], spaces[a], s, cur, e)
        invariant forall v: nat :: s <= v < cur ==> Covered(old(spaces)[a].areas, v)
        decreases e - cur
      {
        ghost var before := spaces[a];
        AppliedCovers(old(spaces)[a], before, s, cur, prot);
        var j := Find(spaces[a].areas, cur);
        if j == |spaces[a].areas| {
          return ENOMEM;
        }
        var x := spaces[a].areas[j];
        var segEnd := if e < x.end then e else x.end;
        ghost var middle, k := ProtectSegment(a, j, cur, segEnd, prot);
        MprotectStep(old(spaces)[a], before, middle, spaces[a], s, cur, e, j, k, prot);
        cur := segEnd;
      }
      r := Done;
      forall v: nat | Covered(old(spaces)[a].areas, v)
        ensures Protected(old(spaces)[a], spaces[a], addr, len, prot, v)
      {
        AppliedProtects(old(spaces)[a], spaces[a], addr, len, prot, v);
      }
    }
  
    // ----- fork -----

    /** Fork area `i` of space `a` into the last space. */
    method ForkArea(a: nat, i: nat)
      requires Valid() && a < |spaces| - 1 && i < |spaces[a].areas|
      requires spaces[|spaces| - 1].areas == spaces[a].areas[..i]
      modifies this`spaces
      ensures Valid() && |spaces| == |old(spaces)|
      ensures forall b :: 0 <= b < |spaces| - 1 && b != a ==> spaces[b] == old(spaces)[b]
      ensures spaces[a].areas == old(spaces)[a].areas && spaces[|spaces| - 1].areas == spaces[a].areas[..i + 1]
      ensures var x := spaces[a].areas[i]; Forked(old(Flat()), Flat(), a, |spaces| - 1, x.start, x.end, x.perm)
      ensures var x, c := spaces[a].areas[i], |spaces| - 1;
              EntriesForked(old(spaces)[a].pt, old(spaces)[c].pt, spaces[a].pt, spaces[c].pt, x.start, x.end, x.perm)
    {
      hide Slots, Entries, Find, FrameAt, Counted, View, Accounted, Mapped, WritableIsSole, Layout, SpaceOk, Inv,
           AllOk, Sole, Forked, ForkRange, HalfForked, EntriesForked;
      var c := |spaces| - 1;
      var x := spaces[a].areas[i];
      HalfForkedOf(spaces, a, i);
      ForkAreaRange(spaces, Flat(), a, i);
      var ppt, cpt, ok := MapFromExisting(spaces[a].pt, spaces[c].pt, x.start, x.end, x.perm);
      ForkRangeKeeps(Flat(), a, c, x.start, x.end, x.perm);
      ghost var m := ForkRange(Flat(), a, c, x.start, x.end, x.perm);
      ForkAreaFlat(spaces, Flat(), m, a, i, ppt, cpt);
      ForkAreaOk(spaces, a, i, ppt, cpt);
      ForkedSame(Flat(), m, a, c, x.start, x.end, x.perm);
      ForkAllOk(spaces, a, i, ppt, cpt);
      spaces := ForkSpaces(spaces, a, i, ppt, cpt);
      assert Flat() == m;
    }

    /** `from_existing_user`: the child is a new space that sees exactly what its parent sees. */
    method Fork(a: nat) returns (child: nat)
      requires Valid() && a < |spaces|
      modifies this`spaces
      ensures Valid() && child == |old(spaces)| && |spaces| == child + 1
      ensures forall b :: 0 <= b < child && b != a ==> spaces[b] == old(spaces)[b]
      ensures spaces[a].areas == old(spaces)[a].areas && spaces[child].areas == spaces[a].areas
      ensures ForkContents(old(Contents()), Contents(), a, child)
      ensures spaces[a].pt.Keys == spaces[child].pt.Keys == old(spaces)[a].pt.Keys
      ensures forall v :: v in spaces[a].pt ==>
                var was := old(spaces)[a].pt[v]; spaces[a].pt[v] == Pte(was.ppn, was.perm.(w := false))
      ensures forall i, v: nat :: 0 <= i < |spaces[a].areas| && Contains(spaces[a].areas[i], v)
                                  && v in spaces[child].pt ==>
                spaces[child].pt[v] == Pte(old(spaces)[a].pt[v].ppn, spaces[a].areas[i].perm.(w := false))
    {
      hide Slots, Entries, Find, FrameAt, Counted, View, Accounted, Mapped, WritableIsSole, Layout, SpaceOk, Inv,
           AllOk, Sole, Forked, EntriesForked, EntriesSoFar;
      child := |spaces|;
      NewSpaceFlat(spaces);
      spaces := spaces + [MemorySet([], map[])];
      ghost var contents := Contents();
      NoPageOf(spaces, child);
      SameFlat(contents, old(Flat()), Flat());
      EntriesStart(spaces[a].pt);
      for i := 0 to |spaces[a].areas|
        invariant Valid() && |spaces| == child + 1
        invariant forall b :: 0 <= b < child && b != a ==> spaces[b] == old(spaces)[b]
        invariant spaces[a].areas == old(spaces)[a].areas && spaces[child].areas == spaces[a].areas[..i]
        invariant ForkSoFar(contents, Contents(), a, child)
        invariant EntriesSoFar(old(spaces)[a].pt, spaces[a].pt, spaces[child].pt, spaces[a].areas[..i])
      {
        ghost var m, s := Flat(), spaces;
        ForkArea(a, i);
        PrefixLayout(spaces, a, i + 1);
        assert s[a].areas[..i + 1] == s[a].areas[..i] + [s[a].areas[i]];
        EntriesStep(old(spaces)[a].pt, s[a].pt, s[child].pt, spaces[a].pt, spaces[child].pt, s[a].areas[..i],
            s[a].areas[i]);
        ForkStep(contents, m, Flat(), a, child, spaces[a].areas[i]);
      }
      ForkDone(contents, spaces, Flat(), a, child);
      assert spaces[a].areas[..|spaces[a].areas|] == spaces[a].areas;
      EntriesDone(old(spaces)[a].pt, spaces, a, child);
    }
  
    // ----- user accesses and new areas -----

    /** A user store: if the entry is not writable the fault handler runs and the store retries.
        It changes one byte of one page of one space, or nothing, and takes effect exactly when the
        entry was writable or the repair makes it so. */
    method UserStore(a: nat, v: nat, off: nat, x: byte) returns (done: bool)
      requires Valid() && a < |spaces| && off < PAGE_SIZE
      modifies this
      ensures Valid()
      ensures done ==>
                && (a, v) in old(Contents())
                && Contents() == old(Contents())[(a, v) := old(Contents())[(a, v)][off := x]]
      ensures !done ==> Contents() == old(Contents())
      ensures forall i :: 0 <= i < |old(spaces)[a].areas| ==>
                var y := old(spaces)[a].areas[i];
                Contains(y, v) && y.perm.r && y.perm.u ==>
                  (a, v) in old(Flat()).slots && (done <==> Commits(old(Flat()), (a, v), y.perm, y.stripped))
      ensures (forall i :: 0 <= i < |old(spaces)[a].areas| ==>
                 var y := old(spaces)[a].areas[i]; !(Contains(y, v) && y.perm.r && y.perm.u)) ==>
                (done <==> (a, v) in old(Flat()).pt && old(Flat()).pt[(a, v)].perm.w)
    {
      hide Slots, Entries, Find, FrameAt, Counted, View, Accounted, Mapped, WritableIsSole, Layout, SpaceOk, Inv,
           AllOk, Sole, Fault;
      forall i: nat | i < |spaces[a].areas| && Contains(spaces[a].areas[i], v)
        ensures (a, v) in Flat().slots
      {
        SlotAt(spaces, (a, v));
      }
      PokeKeeps(Flat(), (a, v), off, x);
      ViewKeys(Flat());
      var (m, now) := Poke(Flat(), (a, v), off, x);
      PokeOnlyRam(Flat(), (a, v), off, x);
      if now {
        ram := m.ram;
        return true;
      }
      ghost var areas, m0 := spaces[a].areas, Flat();
      var r := DoPageFault(a, v);
      forall i: nat | i < |areas| && Contains(areas[i], v) && areas[i].perm.r && areas[i].perm.u
        ensures r.Resolved? <==> Fault(m0, (a, v), areas[i].perm, areas[i].stripped).1.Resolved?
        ensures (a, v) in Flat().pt && Flat().pt[(a, v)].perm.w
                <==> Commits(m0, (a, v), areas[i].perm, areas[i].stripped)
      {
        FaultKeeps(m0, (a, v), areas[i].perm, areas[i].stripped);
        FaultResolves(m0, (a, v), areas[i].perm, areas[i].stripped);
      }
      PokeKeeps(Flat(), (a, v), off, x);
      ViewKeys(Flat());
      PokeOnlyRam(Flat(), (a, v), off, x);
      var (m', again) := Poke(Flat(), (a, v), off, x);
      if again {
        ram := m'.ram;
      }
      done := again;
    }

    /** The end of `mmap`: a fresh lazy area, inserted before the first area that starts higher. */
    method InsertArea(a: nat, start: nat, end: nat, perm: Perm)
      requires Valid() && a < |spaces| && start < end
      requires forall i :: 0 <= i < |spaces[a].areas| ==> Clear(spaces[a].areas[i], start, end)
      modifies this
      ensures Valid() && |spaces| == |old(spaces)|
      ensures forall b :: 0 <= b < |spaces| && b != a ==> spaces[b] == old(spaces)[b]
      ensures forall k: Key :: k in Contents() <==> k in old(Contents()) || k in Range(a, start, end)
      ensures forall k: Key :: k in Contents() ==>
              Contents()[k] == if k in Range(a, start, end) then ZeroPage() else old(Contents())[k]
      ensures forall v: nat, i :: start <= v < end && 0 <= i < PAGE_SIZE ==>
                (a, v) in Contents() && Contents()[(a, v)][i] == 0
      ensures exists idx ::
                0 <= idx < |spaces[a].areas| && NewAt(old(spaces)[a].areas, spaces[a].areas, idx, start, end)
      ensures forall v: nat :: start <= v < end ==>
              Covered(spaces[a].areas, v) && AttrAt(spaces[a].areas, v) == (perm, false)
      ensures forall v: nat :: Covered(old(spaces)[a].areas, v) ==>
                Covered(spaces[a].areas, v) && AttrAt(spaces[a].areas, v) == AttrAt(old(spaces)[a].areas, v)
    {
      hide Slots, Entries, Find, FrameAt, Counted, View, Accounted, Mapped, WritableIsSole, Layout, SpaceOk, Inv,
           AllOk, Sole, Range;
      var idx := 0;
      while idx < |spaces[a].areas| && spaces[a].areas[idx].start < start
        invariant idx <= |spaces[a].areas| && forall i :: 0 <= i < idx ==> spaces[a].areas[i].start < start
      {
        idx := idx + 1;
      }
      var x := FreshArea(start, end, perm);
      FreshAt(spaces[a].areas, idx, x, perm);
      InsertOk(spaces, a, idx, x);
      InsertFlat(spaces, Flat(), a, idx, x);
      ReserveRangeKeeps(Flat(), a, start, end);
      RangeHas(a, start, end);
      InsertAttrs(spaces, a, idx, x);
      spaces := spaces[a := MemorySet(spaces[a].areas[..idx] + [x] + spaces[a].areas[idx..], spaces[a].pt)];
      assert NewAt(old(spaces)[a].areas, spaces[a].areas, idx, start, end);
    }

    /** No address space and every frame in the allocator. */
    constructor (base: nat, end: nat, ram: map<nat, Page>, zramSlots: nat, swap: Swap.Device, codec: Codec)
      requires base <= end && (forall p: nat :: base <= p < end ==> p in ram)
      requires zramSlots < 0x1_0000 && RoundTrips(codec)
      requires Swap.Valid(swap) && forall id: nat :: !Swap.InUse(swap, id)
      ensures Valid() && spaces == [] && Contents() == map[]
    {
      spaces, foreign := [], {};
      this.ram, this.swap, this.codec := ram, swap, codec;
      frames, zram := FA.Frames(base, base, end, []), Zram.New(zramSlots);
      new;
      Zram.NewIsEmpty(zramSlots);
      assert Flat().slots == map[] && Flat().pt == map[];
    }
  }
}
