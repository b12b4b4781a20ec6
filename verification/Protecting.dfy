// The permissions mprotect must leave, segment by segment.
module Protecting {
  import opened Types
  import opened Paging
  import opened Areas
  import opened Spaces

  /** The same pages are covered, with the same permissions. */
  ghost predicate SameAttrs(areas: seq<Area>, areas': seq<Area>) {
    forall v: nat :: (Covered(areas', v) <==> Covered(areas, v))
        && (Covered(areas, v) ==> AttrAt(areas', v) == AttrAt(areas, v))
  }

  lemma SplitKeepsAttrs(s: MemorySet, j: nat, parts: seq<Area>, lo: nat)
    requires Layout(s.areas) && j < |s.areas| && Leaves(parts, s.areas[j], lo, lo)
    ensures SameAttrs(s.areas, WithParts(s, j, parts).areas)
  {
    hide Covered, AttrAt, FrameAt, Leaves, Layout, Splice;
    forall v: nat
      ensures Covered(WithParts(s, j, parts).areas, v) <==> Covered(s.areas, v)
      ensures Covered(s.areas, v) ==> AttrAt(WithParts(s, j, parts).areas, v) == AttrAt(s.areas, v)
    {
      WithPartsCovers(s.areas, j, parts, lo, lo, v);
    }
  }

  lemma WholePart(x: Area)
    requires Sized(x) && Counted(x)
    ensures Leaves([x], x, x.start, x.start)
  {
    assert x.frames == x.frames[0..|x.frames|];
    OnePartLeaves(x, x, x.start, x.start);
  }

  lemma TwoPartsLeave(y: Area, z: Area, a: Area, at: nat)
    requires Sized(a) && Pieces([y, z], a) && Counted(y) && Counted(z) && a.start <= at <= a.end
    requires y.start == a.start && y.end == z.start && z.end == a.end
    ensures Leaves([y, z], a, at, at)
  {
    hide Pieces, Counted;
    var parts := [y, z];
    forall v: nat | Contains(a, v)
      ensures Covered(parts, v)
    {
      assert Contains(parts[0], v) || Contains(parts[1], v);
    }
  }

  lemma DiscardNothing(m: Mem, a: nat, at: nat)
    ensures DiscardRange(m, a, at, at) == m
  {
  }

  lemma AttrCounted(x: Area, perm: Perm, stripped: bool)
    requires Counted(x)
    ensures Counted(x.(perm := perm, stripped := stripped))
  {
  }

  /** The entries in `[lo, hi)` have the given flags, nothing else about the table changed. */
  ghost predicate ProtectedRange(pt: map<nat, Pte>, pt': map<nat, Pte>, lo: nat, hi: nat, flags: Perm) {
    && pt'.Keys == pt.Keys
    && forall v: nat :: v in pt ==> pt'[v] == if lo <= v < hi then Pte(pt[v].ppn, flags) else pt[v]
  }

  /** `areas'` is `areas` with area `j` replaced by parts inside it. */
  ghost predicate SplitOf(areas: seq<Area>, j: nat, areas': seq<Area>) {
    && j < |areas|
    && forall i :: 0 <= i < |areas'| ==>
         areas'[i] in areas || (areas[j].start <= areas'[i].start && areas'[i].end <= areas[j].end)
  }

  lemma SpliceShape(areas: seq<Area>, j: nat, parts: seq<Area>)
    requires j < |areas| && Pieces(parts, areas[j])
    ensures SplitOf(areas, j, Splice(areas, j, parts))
    ensures |Splice(areas, j, parts)| == |areas| - 1 + |parts|
    ensures forall p :: 0 <= p < |parts| ==> Splice(areas, j, parts)[j + p] == parts[p]
    ensures forall p :: 0 <= p < |parts| ==> parts[p].perm == areas[j].perm && parts[p].stripped == areas[j].stripped
  {
    var areas' := Splice(areas, j, parts);
    forall i | 0 <= i < |areas'|
      ensures areas'[i] in areas || (areas[j].start <= areas'[i].start && areas'[i].end <= areas[j].end)
    {
      assert areas'[i] == if i < j then areas[i] else if i < j + |parts| then parts[i - j] else areas[i - |parts| + 1];
    }
  }

  datatype MprotectResult = Done | EINVAL | ENOMEM

  /** The X bit a page's segment shows: the hardware entry of the segment's first page, or the
      area's own bit when that page is not mapped. A segment is an area cut at the range start. */
  function SegmentX(ms: MemorySet, s: nat, v: nat): bool
    requires Covered(ms.areas, v)
  {
    var x := ms.areas[Find(ms.areas, v)];
    var first := if s > x.start then s else x.start;
    if first in ms.pt then ms.pt[first].perm.x else x.perm.x
  }

  function NewPerm(ms: MemorySet, s: nat, v: nat, prot: Perm): Perm
    requires Covered(ms.areas, v)
  {
    prot.(x := prot.x || SegmentX(ms, s, v))
  }

  /** `ms` is `ms0` after `mprotect` over `[s, c)`. */
  ghost predicate Applied(ms0: MemorySet, ms: MemorySet, s: nat, c: nat, prot: Perm) {
    && (forall v: nat :: Covered(ms.areas, v) <==> Covered(ms0.areas, v))
    && (forall v: nat :: Covered(ms0.areas, v) ==> AttrAt(ms.areas, v) == NewAttr(ms0, s, c, v, prot))
    && ms.pt.Keys == ms0.pt.Keys
    && (forall v: nat :: v in ms0.pt && Covered(ms0.areas, v) ==>
          ms.pt[v] == if s <= v < c then Pte(ms0.pt[v].ppn, NewPerm(ms0, s, v, prot).WithoutW()) else ms0.pt[v])
  }

  function NewAttr(ms0: MemorySet, s: nat, c: nat, v: nat, prot: Perm): (Perm, bool)
    requires Covered(ms0.areas, v)
  {
    var (perm, stripped) := AttrAt(ms0.areas, v);
    if s <= v < c then
      (NewPerm(ms0, s, v, prot), stripped || (perm.w && !prot.w))
    else (perm, stripped)
  }

  /** The areas beyond `c` are still the original ones, and none of them straddles `c`. */
  ghost predicate Ahead(ms0: MemorySet, ms: MemorySet, s: nat, c: nat, e: nat) {
    c < e ==> forall i :: 0 <= i < |ms.areas| && ms.areas[i].end > c ==>
                ms.areas[i] in ms0.areas && (c == s || ms.areas[i].start >= c)
  }

  lemma MprotectStart(ms: MemorySet, s: nat, e: nat, prot: Perm)
    ensures Applied(ms, ms, s, s, prot) && Ahead(ms, ms, s, s, e)
  {
  }

  lemma AppliedCovers(ms0: MemorySet, ms: MemorySet, s: nat, c: nat, prot: Perm)
    requires Applied(ms0, ms, s, c, prot)
    ensures Covered(ms.areas, c) <==> Covered(ms0.areas, c)
  {
  }

  /** One segment of `mprotect`: `ms1` is `ms` with the segment split off as area `k`, `ms2` is
      `ms1` with the new permissions. */
  ghost predicate SegmentDone(ms: MemorySet, ms1: MemorySet, ms2: MemorySet, c: nat, h: nat, j: nat, k: nat,
      prot: Perm) {
    && j < |ms.areas| && Contains(ms.areas[j], c) && c < h <= ms.areas[j].end
    && ms1.pt == ms.pt && SameAttrs(ms.areas, ms1.areas) && SplitOf(ms.areas, j, ms1.areas)
    && k < |ms1.areas| == |ms2.areas| && ms1.areas[k].start == c && ms1.areas[k].end == h
    && ms1.areas[k].stripped == ms.areas[j].stripped
    && (forall i :: 0 <= i < |ms1.areas| && i != k ==> ms2.areas[i] == ms1.areas[i])
    && var realX := if c in ms.pt then ms.pt[c].perm.x else ms.areas[j].perm.x;
       var perm := prot.(x := prot.x || realX);
       && ms2.areas[k] == ms1.areas[k].(
            perm := perm, stripped := ms1.areas[k].stripped || (ms.areas[j].perm.w && !perm.w))
       && ProtectedRange(ms1.pt, ms2.pt, c, h, perm.WithoutW())
  }

  /** Inside the segment the first page of the original area at or after `s` is `c`. */
  lemma SegmentOrigin(ms0: MemorySet, ms: MemorySet, s: nat, c: nat, e: nat, j: nat, v: nat)
    requires Layout(ms0.areas) && Ahead(ms0, ms, s, c, e) && s <= c < e
    requires j < |ms.areas| && Contains(ms.areas[j], c) && c <= v < ms.areas[j].end
    ensures Covered(ms0.areas, v) && ms0.areas[Find(ms0.areas, v)] == ms.areas[j]
    ensures c == if s > ms.areas[j].start then s else ms.areas[j].start
  {
    var x := ms.areas[j];
    var p :| 0 <= p < |ms0.areas| && ms0.areas[p] == x;
    FindIs(ms0.areas, v, p);
  }

  lemma SegmentAttr(ms: MemorySet, ms1: MemorySet, ms2: MemorySet, c: nat, h: nat, j: nat, k: nat, prot: Perm, v: nat)
    requires Layout(ms1.areas) && SegmentDone(ms, ms1, ms2, c, h, j, k, prot)
    ensures Covered(ms2.areas, v) <==> Covered(ms.areas, v)
    ensures c <= v < h ==> Covered(ms2.areas, v) && AttrAt(ms2.areas, v) == (ms2.areas[k].perm, ms2.areas[k].stripped)
    ensures !(c <= v < h) && Covered(ms.areas, v) ==> AttrAt(ms2.areas, v) == AttrAt(ms.areas, v)
  {
    hide SplitOf, ProtectedRange;
    FindSame(ms1.areas, ms2.areas, v);
    if c <= v < h {
      FindIs(ms1.areas, v, k);
    }
  }

  lemma MprotectAttr(ms0: MemorySet, ms: MemorySet, ms1: MemorySet, ms2: MemorySet,
                     s: nat, c: nat, e: nat, h: nat, j: nat, k: nat, prot: Perm, v: nat)
    requires Layout(ms0.areas) && Layout(ms1.areas) && s <= c < e
    requires Applied(ms0, ms, s, c, prot) && Ahead(ms0, ms, s, c, e) && SegmentDone(ms, ms1, ms2, c, h, j, k, prot)
    ensures Covered(ms2.areas, v) <==> Covered(ms0.areas, v)
    ensures Covered(ms0.areas, v) ==> AttrAt(ms2.areas, v) == NewAttr(ms0, s, h, v, prot)
    ensures v in ms2.pt <==> v in ms0.pt
    ensures v in ms0.pt && Covered(ms0.areas, v) ==>
              ms2.pt[v] == if s <= v < h then Pte(ms0.pt[v].ppn, NewPerm(ms0, s, v, prot).WithoutW()) else ms0.pt[v]
  {
    hide Layout, SplitOf, SameAttrs, Find;
    SegmentAttr(ms, ms1, ms2, c, h, j, k, prot, v);
    SegmentOrigin(ms0, ms, s, c, e, j, c);
    if c <= v < h {
      SegmentOrigin(ms0, ms, s, c, e, j, v);
    }
  }

  lemma MprotectAhead(ms0: MemorySet, ms: MemorySet, ms1: MemorySet, ms2: MemorySet,
                      s: nat, c: nat, e: nat, h: nat, j: nat, k: nat, prot: Perm)
    requires Layout(ms2.areas) && s <= c < e && j < |ms.areas|
             && h == (if e < ms.areas[j].end then e else ms.areas[j].end)
    requires Ahead(ms0, ms, s, c, e) && SegmentDone(ms, ms1, ms2, c, h, j, k, prot)
    ensures Ahead(ms0, ms2, s, h, e)
  {
    if h < e {
      forall i | 0 <= i < |ms2.areas| && ms2.areas[i].end > h
        ensures ms2.areas[i] in ms0.areas && ms2.areas[i].start >= h
      {
        assert i != k && ms2.areas[i] == ms1.areas[i];
        assert ms1.areas[i] in ms.areas;
        assert Apart(ms2.areas[if i < k then i else k], ms2.areas[if i < k then k else i]);
      }
    }
  }

  lemma MprotectStep(ms0: MemorySet, ms: MemorySet, ms1: MemorySet, ms2: MemorySet,
                     s: nat, c: nat, e: nat, j: nat, k: nat, prot: Perm)
    requires Layout(ms0.areas) && Layout(ms1.areas) && Layout(ms2.areas) && s <= c < e
    requires j < |ms.areas|
    requires Applied(ms0, ms, s, c, prot) && Ahead(ms0, ms, s, c, e)
    requires SegmentDone(ms, ms1, ms2, c, if e < ms.areas[j].end then e else ms.areas[j].end, j, k, prot)
    ensures var h := if e < ms.areas[j].end then e else ms.areas[j].end;
            && Applied(ms0, ms2, s, h, prot) && Ahead(ms0, ms2, s, h, e)
            && (forall v: nat :: c <= v < h ==> Covered(ms0.areas, v))
  {
    hide Layout, Find, Ahead, SegmentDone, AttrAt, NewAttr, NewPerm, Covered;
    var h := if e < ms.areas[j].end then e else ms.areas[j].end;
    MprotectAhead(ms0, ms, ms1, ms2, s, c, e, h, j, k, prot);
    forall v: nat
      ensures Covered(ms2.areas, v) <==> Covered(ms0.areas, v)
      ensures Covered(ms0.areas, v) ==> AttrAt(ms2.areas, v) == NewAttr(ms0, s, h, v, prot)
      ensures v in ms2.pt <==> v in ms0.pt
      ensures v in ms0.pt && Covered(ms0.areas, v) ==>
                ms2.pt[v] == if s <= v < h then Pte(ms0.pt[v].ppn, NewPerm(ms0, s, v, prot).WithoutW()) else ms0.pt[v]
      ensures c <= v < h ==> Covered(ms0.areas, v)
    {
      MprotectAttr(ms0, ms, ms1, ms2, s, c, e, h, j, k, prot, v);
      MprotectCovered(ms0, ms, ms1, ms2, s, c, e, h, j, k, prot, v);
    }
  }

  lemma MprotectCovered(ms0: MemorySet, ms: MemorySet, ms1: MemorySet, ms2: MemorySet,
                        s: nat, c: nat, e: nat, h: nat, j: nat, k: nat, prot: Perm, v: nat)
    requires Layout(ms0.areas) && s <= c < e
    requires Ahead(ms0, ms, s, c, e) && SegmentDone(ms, ms1, ms2, c, h, j, k, prot)
    ensures c <= v < h ==> Covered(ms0.areas, v)
  {
    if c <= v < h {
      SegmentOrigin(ms0, ms, s, c, e, j, v);
    }
  }

  // ----- In bytes -----

  /** What a successful `mprotect` of `len` bytes at `addr` leaves at page `v`: if it holds one of the bytes, the
      requested R, W and U, the requested X or the X its segment showed, W off in the entry; otherwise what it had. */
  ghost predicate Protected(ms0: MemorySet, ms: MemorySet, addr: nat, len: nat, prot: Perm, v: nat) {
    && Covered(ms.areas, v)
    && (v in ms.pt <==> v in ms0.pt)
    && forall i :: 0 <= i < |ms0.areas| && Contains(ms0.areas[i], v) ==>
         var x, now := ms0.areas[i], AttrAt(ms.areas, v);
         if v * PAGE_SIZE < addr + len && addr < (v + 1) * PAGE_SIZE then
           var first := if addr / PAGE_SIZE > x.start then addr / PAGE_SIZE else x.start;
           var realX := if first in ms0.pt then ms0.pt[first].perm.x else x.perm.x;
           && now == (Perm(prot.r, prot.w, prot.x || realX, prot.u), x.stripped || (x.perm.w && !prot.w))
           && (v in ms0.pt ==> ms.pt[v] == Pte(ms0.pt[v].ppn, Perm(prot.r, false, prot.x || realX, prot.u)))
         else now == (x.perm, x.stripped) && (v in ms0.pt ==> ms.pt[v] == ms0.pt[v])
  }

  lemma NoBytes(ms: MemorySet, addr: nat, prot: Perm)
    requires Layout(ms.areas)
    ensures addr % PAGE_SIZE == 0 ==>
              && (forall v: nat :: !(v * PAGE_SIZE < addr + 0 && addr < (v + 1) * PAGE_SIZE))
              && (forall v: nat :: Covered(ms.areas, v) ==> Protected(ms, ms, addr, 0, prot, v))
  {
    forall v: nat | addr % PAGE_SIZE == 0
      ensures !(v * PAGE_SIZE < addr + 0 && addr < (v + 1) * PAGE_SIZE)
    {
      InRangeIff(v, addr, 0);
      CeilBounds(addr, 0);
    }
    forall v: nat, i: nat | i < |ms.areas| && Contains(ms.areas[i], v)
      ensures Covered(ms.areas, v) && AttrAt(ms.areas, v) == (ms.areas[i].perm, ms.areas[i].stripped)
    {
      FindIs(ms.areas, v, i);
    }
  }

  lemma ProtectedBytes(ms: MemorySet, addr: nat, len: nat)
    requires addr % PAGE_SIZE == 0
    ensures (forall v: nat :: v * PAGE_SIZE < addr + len && addr < (v + 1) * PAGE_SIZE ==> Covered(ms.areas, v))
            <==> (forall v: nat :: addr / PAGE_SIZE <= v < PageCeil(addr + len) ==> Covered(ms.areas, v))
  {
    hide Covered, PageCeil;
    var bytes := forall v: nat :: v * PAGE_SIZE < addr + len && addr < (v + 1) * PAGE_SIZE ==> Covered(ms.areas, v);
    var pages := forall v: nat :: addr / PAGE_SIZE <= v < PageCeil(addr + len) ==> Covered(ms.areas, v);
    forall v: nat | bytes && addr / PAGE_SIZE <= v < PageCeil(addr + len)
      ensures Covered(ms.areas, v)
    {
      InRangeIff(v, addr, len);
    }
    forall v: nat | pages && v * PAGE_SIZE < addr + len && addr < (v + 1) * PAGE_SIZE
      ensures Covered(ms.areas, v)
    {
      InRangeIff(v, addr, len);
    }
  }

  lemma AppliedProtects(ms0: MemorySet, ms: MemorySet, addr: nat, len: nat, prot: Perm, v: nat)
    requires Layout(ms0.areas) && addr % PAGE_SIZE == 0 && Covered(ms0.areas, v)
    requires Applied(ms0, ms, addr / PAGE_SIZE, PageCeil(addr + len), prot)
    ensures Protected(ms0, ms, addr, len, prot, v)
  {
    hide PageCeil, Layout, Find;
    InRangeIff(v, addr, len);
    forall i: nat | i < |ms0.areas| && Contains(ms0.areas[i], v)
      ensures Find(ms0.areas, v) == i
    {
      FindIs(ms0.areas, v, i);
    }
  }
}
