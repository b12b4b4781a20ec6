// Map areas: intervals of virtual pages with one frame slot per page, and how a list of areas
// reads as a flat table of pages.
module Areas {
  import opened Types
  import opened Paging

  /** A `MapArea` without file, of type `Framed`, with its `LinearMap` inlined. */
  datatype Area = Area(
    start: nat,
    end: nat,
    frames: seq<Frame>,
    active: seq<nat>,
    compressed: nat,
    swapped: nat,
    perm: Perm,
    stripped: bool)

  datatype MemorySet = MemorySet(areas: seq<Area>, pt: map<nat, Pte>)

  predicate Contains(a: Area, v: nat) {
    a.start <= v < a.end
  }

  predicate Sized(a: Area) {
    a.start <= a.end && |a.frames| == a.end - a.start
  }

  predicate Apart(a: Area, b: Area) {
    a.end <= b.start || b.end <= a.start
  }

  ghost predicate Layout(areas: seq<Area>) {
    && (forall i :: 0 <= i < |areas| ==> Sized(areas[i]))
    && (forall i, j :: 0 <= i < j < |areas| ==> Apart(areas[i], areas[j]))
  }

  /** `areas.iter().position(contains v)`, or the length. */
  function Find(areas: seq<Area>, v: nat): (j: nat)
    ensures j <= |areas|
    ensures j < |areas| ==> Contains(areas[j], v)
    ensures forall i :: 0 <= i < j ==> !Contains(areas[i], v)
  {
    if areas == [] then 0
    else if Contains(areas[0], v) then 0
    else 1 + Find(areas[1..], v)
  }

  predicate Covered(areas: seq<Area>, v: nat) {
    Find(areas, v) < |areas|
  }

  function FrameAt(areas: seq<Area>, v: nat): Frame {
    var j := Find(areas, v);
    if j < |areas| && v - areas[j].start < |areas[j].frames| then areas[j].frames[v - areas[j].start] else Unallocated
  }

  /** Permissions and the stripped flag of the area around a page. */
  function AttrAt(areas: seq<Area>, v: nat): (Perm, bool)
    requires Covered(areas, v)
  {
    var a := areas[Find(areas, v)];
    (a.perm, a.stripped)
  }

  lemma FindIs(areas: seq<Area>, v: nat, j: nat)
    requires Layout(areas) && j < |areas| && Contains(areas[j], v)
    ensures Find(areas, v) == j
    ensures FrameAt(areas, v) == areas[j].frames[v - areas[j].start]
  {
    var i := Find(areas, v);
    assert i < j ==> Apart(areas[i], areas[j]);
  }

  lemma CoveredIn(areas: seq<Area>, i: nat, v: nat)
    requires i < |areas| && Contains(areas[i], v)
    ensures Covered(areas, v)
  {
  }

  // ----- The flat table -----

  function Pages(spaces: seq<MemorySet>): set<Key> {
    set a, j, v | 0 <= a < |spaces| && 0 <= j < |spaces[a].areas|
        && spaces[a].areas[j].start <= v < spaces[a].areas[j].end :: (a, v)
  }

  function Slots(spaces: seq<MemorySet>): map<Key, Frame> {
    map k | k in Pages(spaces) :: if k.0 < |spaces| then FrameAt(spaces[k.0].areas, k.1) else Unallocated
  }

  function Entries(spaces: seq<MemorySet>): map<Key, Pte> {
    map k | k in Pages(spaces) && k.0 < |spaces| && k.1 in spaces[k.0].pt :: spaces[k.0].pt[k.1]
  }

  lemma PagesIff(spaces: seq<MemorySet>, k: Key)
    ensures k in Pages(spaces) <==> k.0 < |spaces| && Covered(spaces[k.0].areas, k.1)
  {
    if k.0 < |spaces| && Covered(spaces[k.0].areas, k.1) {
      var j := Find(spaces[k.0].areas, k.1);
      assert spaces[k.0].areas[j].start <= k.1 < spaces[k.0].areas[j].end;
    }
    if k in Pages(spaces) {
      var j :| 0 <= j < |spaces[k.0].areas| && spaces[k.0].areas[j].start <= k.1 < spaces[k.0].areas[j].end;
      assert Contains(spaces[k.0].areas[j], k.1);
    }
  }

  lemma SlotAt(spaces: seq<MemorySet>, k: Key)
    ensures k in Slots(spaces) <==> k.0 < |spaces| && Covered(spaces[k.0].areas, k.1)
    ensures k in Slots(spaces) ==> Slots(spaces)[k] == FrameAt(spaces[k.0].areas, k.1)
  {
    PagesIff(spaces, k);
  }

  lemma EntryAt(spaces: seq<MemorySet>, k: Key)
    ensures k in Entries(spaces) <==> k.0 < |spaces| && Covered(spaces[k.0].areas, k.1) && k.1 in spaces[k.0].pt
    ensures k in Entries(spaces) ==> Entries(spaces)[k] == spaces[k.0].pt[k.1]
  {
    PagesIff(spaces, k);
  }

  // ----- Changing one page -----

  lemma FindSame(areas: seq<Area>, areas': seq<Area>, v: nat)
    requires |areas'| == |areas|
    requires forall i :: 0 <= i < |areas| ==> areas'[i].start == areas[i].start && areas'[i].end == areas[i].end
    ensures Find(areas', v) == Find(areas, v)
  {
    if areas != [] {
      FindSame(areas[1..], areas'[1..], v);
    }
  }

  /** `area'` is `area` with slot `i` changed (its bookkeeping may change too). */
  predicate OneSlot(area: Area, i: nat, area': Area) {
    && area'.start == area.start && area'.end == area.end
    && |area'.frames| == |area.frames| && i < |area.frames|
    && area'.frames == area.frames[i := area'.frames[i]]
  }

  lemma SetFrameAt(areas: seq<Area>, j: nat, i: nat, area': Area, v: nat)
    requires Layout(areas) && j < |areas| && OneSlot(areas[j], i, area')
    ensures Covered(areas[j := area'], v) <==> Covered(areas, v)
    ensures v == areas[j].start + i ==> Covered(areas, v)
    ensures FrameAt(areas[j := area'], v) == if v == areas[j].start + i then area'.frames[i] else FrameAt(areas, v)
  {
    FindSame(areas, areas[j := area'], v);
    if Contains(areas[j], v) {
      FindIs(areas, v, j);
    }
  }

  lemma SetPageSlots(spaces: seq<MemorySet>, a: nat, j: nat, i: nat, area': Area, pt': map<nat, Pte>)
    requires a < |spaces| && Layout(spaces[a].areas) && j < |spaces[a].areas| && OneSlot(spaces[a].areas[j], i, area')
    ensures i < |area'.frames|
    ensures var v := spaces[a].areas[j].start + i;
            var spaces' := spaces[a := MemorySet(spaces[a].areas[j := area'], pt')];
            Slots(spaces') == Slots(spaces)[(a, v) := area'.frames[i]]
  {
    hide Slots, Layout, Covered, FrameAt;
    var v := spaces[a].areas[j].start + i;
    var spaces' := spaces[a := MemorySet(spaces[a].areas[j := area'], pt')];
    var target := Slots(spaces)[(a, v) := area'.frames[i]];
    forall k: Key
      ensures k in Slots(spaces') <==> k in target
      ensures k in target ==> Slots(spaces')[k] == target[k]
    {
      SlotAt(spaces, k);
      SlotAt(spaces', k);
      SetFrameAt(spaces[a].areas, j, i, area', k.1);
    }
  }

  /** The entries of a page table that changed at one covered page. */
  lemma SetPageEntries(spaces: seq<MemorySet>, a: nat, v: nat, ms': MemorySet)
    requires a < |spaces| && Covered(spaces[a].areas, v)
    requires forall w :: Covered(ms'.areas, w) <==> Covered(spaces[a].areas, w)
    requires ms'.pt == if v in ms'.pt then spaces[a].pt[v := ms'.pt[v]] else spaces[a].pt - {v}
    ensures Entries(spaces[a := ms']) == if v in ms'.pt then Entries(spaces)[(a, v) := ms'.pt[v]]
            else Entries(spaces) - {(a, v)}
  {
    hide Entries, Covered;
    var target := if v in ms'.pt then Entries(spaces)[(a, v) := ms'.pt[v]] else Entries(spaces) - {(a, v)};
    forall k: Key
      ensures k in Entries(spaces[a := ms']) <==> k in target
      ensures k in target ==> Entries(spaces[a := ms'])[k] == target[k]
    {
      EntryAt(spaces, k);
      EntryAt(spaces[a := ms'], k);
    }
  }

  // ----- Cutting areas into pieces -----

  /** `p` is the part of `a` over an interval. */
  predicate Piece(p: Area, a: Area) {
    && a.start <= p.start <= p.end <= a.end && |a.frames| == a.end - a.start
    && p.frames == a.frames[p.start - a.start..p.end - a.start]
    && p.perm == a.perm && p.stripped == a.stripped
  }

  /** The list with area `j` replaced by `parts`. */
  function Splice(areas: seq<Area>, j: nat, parts: seq<Area>): seq<Area>
    requires j < |areas|
  {
    areas[..j] + parts + areas[j + 1..]
  }

  /** `parts` are disjoint pieces of `a`. */
  ghost predicate Pieces(parts: seq<Area>, a: Area) {
    && Layout(parts)
    && (forall i :: 0 <= i < |parts| ==> Piece(parts[i], a))
  }

  lemma SpliceLayout(areas: seq<Area>, j: nat, parts: seq<Area>)
    requires Layout(areas) && j < |areas| && Pieces(parts, areas[j])
    ensures Layout(Splice(areas, j, parts))
  {
    var areas' := Splice(areas, j, parts);
    forall i, k | 0 <= i < k < |areas'|
      ensures Apart(areas'[i], areas'[k])
    {
      var n := |parts|;
      assert areas'[i] == if i < j then areas[i] else if i < j + n then parts[i - j] else areas[i - n + 1];
      assert areas'[k] == if k < j then areas[k] else if k < j + n then parts[k - j] else areas[k - n + 1];
      if j <= i < k < j + n {
        assert Apart(parts[i - j], parts[k - j]);
      } else {
        var i0 := if i < j then i else if i < j + n then j else i - n + 1;
        var k0 := if k < j then k else if k < j + n then j else k - n + 1;
        assert Apart(areas[i0], areas[k0]);
      }
    }
  }

  /** After a splice the pages outside area `j` are covered as before, the pages inside it exactly
      by the parts, and every covered page keeps its frame and attributes. */
  lemma SpliceAt(areas: seq<Area>, j: nat, parts: seq<Area>, v: nat)
    requires Layout(areas) && j < |areas| && Pieces(parts, areas[j])
    ensures var areas' := Splice(areas, j, parts);
            && (Covered(areas', v) <==> if Contains(areas[j], v) then Covered(parts, v) else Covered(areas, v))
            && (Covered(areas', v) ==>
                  Covered(areas, v) && FrameAt(areas', v) == FrameAt(areas, v) && AttrAt(areas', v) == AttrAt(areas, v))
  {
    hide Layout, Pieces, Splice, FrameAt;
    SpliceLayout(areas, j, parts);
    if Contains(areas[j], v) {
      SpliceInside(areas, j, parts, v);
    } else {
      SpliceOutside(areas, j, parts, v);
    }
  }

  lemma SpliceInside(areas: seq<Area>, j: nat, parts: seq<Area>, v: nat)
    requires Layout(areas) && j < |areas| && Pieces(parts, areas[j]) && Contains(areas[j], v)
             && Layout(Splice(areas, j, parts))
    ensures var areas' := Splice(areas, j, parts);
            && (Covered(areas', v) <==> Covered(parts, v)) && Covered(areas, v)
            && (Covered(areas', v) ==> FrameAt(areas', v) == FrameAt(areas, v) && AttrAt(areas', v) == AttrAt(areas, v))
  {
    hide FrameAt, Apart;
    var areas' := Splice(areas, j, parts);
    FindIs(areas, v, j);
    var p := Find(parts, v);
    if p < |parts| {
      assert areas'[j + p] == parts[p];
      FindIs(areas', v, j + p);
      assert Piece(parts[p], areas[j]);
    } else {
      forall i | 0 <= i < |areas| && i != j
        ensures !Contains(areas[i], v)
      {
        ApartAt(areas, i, j, v);
      }
      SpliceMiss(areas, j, parts, v);
    }
  }

  lemma ApartAt(areas: seq<Area>, i: nat, j: nat, v: nat)
    requires Layout(areas) && i < |areas| && j < |areas| && i != j && Contains(areas[j], v)
    ensures !Contains(areas[i], v)
  {
    assert i < j ==> Apart(areas[i], areas[j]);
    assert j < i ==> Apart(areas[j], areas[i]);
  }

  lemma SpliceOutside(areas: seq<Area>, j: nat, parts: seq<Area>, v: nat)
    requires Layout(areas) && j < |areas| && Pieces(parts, areas[j]) && !Contains(areas[j], v)
             && Layout(Splice(areas, j, parts))
    ensures var areas' := Splice(areas, j, parts);
            && (Covered(areas', v) <==> Covered(areas, v))
            && (Covered(areas', v) ==> FrameAt(areas', v) == FrameAt(areas, v) && AttrAt(areas', v) == AttrAt(areas, v))
  {
    hide FrameAt, Apart, Layout;
    var areas' := Splice(areas, j, parts);
    var i := Find(areas, v);
    if i < |areas| {
      var i' := if i < j then i else i - 1 + |parts|;
      assert areas'[i'] == areas[i];
      FindIs(areas', v, i');
      FindIs(areas, v, i);
    } else {
      SpliceMiss(areas, j, parts, v);
    }
  }

  lemma SpliceMiss(areas: seq<Area>, j: nat, parts: seq<Area>, v: nat)
    requires j < |areas| && Pieces(parts, areas[j])
    requires forall p :: 0 <= p < |parts| ==> !Contains(parts[p], v)
    requires forall i :: 0 <= i < |areas| && i != j ==> !Contains(areas[i], v)
    ensures !Covered(Splice(areas, j, parts), v)
  {
    var areas' := Splice(areas, j, parts);
    forall i | 0 <= i < |areas'|
      ensures !Contains(areas'[i], v)
    {
      assert areas'[i] == if i < j then areas[i] else if i < j + |parts| then parts[i - j] else areas[i - |parts| + 1];
    }
  }

  // ----- Counters -----

  function CountCompressed(frames: seq<Frame>): nat {
    if frames == [] then 0 else (if frames[0].Compressed? then 1 else 0) + CountCompressed(frames[1..])
  }

  function CountSwapped(frames: seq<Frame>): nat {
    if frames == [] then 0 else (if frames[0].SwappedOut? then 1 else 0) + CountSwapped(frames[1..])
  }

  /** `compressed` and `swapped` never undercount the slots. */
  predicate Counted(a: Area) {
    CountCompressed(a.frames) <= a.compressed && CountSwapped(a.frames) <= a.swapped
  }

  lemma {:induction false} CountConcat(s: seq<Frame>, t: seq<Frame>)
    ensures CountCompressed(s + t) == CountCompressed(s) + CountCompressed(t)
    ensures CountSwapped(s + t) == CountSwapped(s) + CountSwapped(t)
  {
    if s == [] {
      assert s + t == t;
    } else {
      assert (s + t)[1..] == s[1..] + t;
      CountConcat(s[1..], t);
    }
  }

  lemma CountUpdate(s: seq<Frame>, i: nat, f: Frame)
    requires i < |s|
    ensures CountCompressed(s[i := f])
            == CountCompressed(s) - (if s[i].Compressed? then 1 else 0) + (if f.Compressed? then 1 else 0)
    ensures CountSwapped(s[i := f])
            == CountSwapped(s) - (if s[i].SwappedOut? then 1 else 0) + (if f.SwappedOut? then 1 else 0)
  {
    assert s == s[..i] + ([s[i]] + s[i + 1..]);
    assert s[i := f] == s[..i] + ([f] + s[i + 1..]);
    CountConcat(s[..i], [s[i]] + s[i + 1..]);
    CountConcat(s[..i], [f] + s[i + 1..]);
    assert ([s[i]] + s[i + 1..])[1..] == ([f] + s[i + 1..])[1..];
  }

  lemma CountSlice(s: seq<Frame>, lo: nat, hi: nat)
    requires lo <= hi <= |s|
    ensures CountCompressed(s[lo..hi]) <= CountCompressed(s) && CountSwapped(s[lo..hi]) <= CountSwapped(s)
  {
    assert s == s[..lo] + s[lo..];
    assert s[lo..] == s[lo..hi] + s[hi..];
    CountConcat(s[..lo], s[lo..]);
    CountConcat(s[lo..hi], s[hi..]);
  }

  // ----- LinearMap operations -----

  /** `Vec::resize(n, Unallocated)` */
  function Resize(s: seq<Frame>, n: nat): seq<Frame> {
    if n <= |s| then s[..n] else s + seq(n - |s|, _ => Unallocated)
  }

  function SetEnd(a: Area, end: nat): Area
    requires a.start <= end
  {
    a.(end := end, frames := Resize(a.frames, end - a.start))
  }

  /** Rotate the leading slots to the back, then cut them off. */
  function SetStart(a: Area, start: nat): Area
    requires a.start <= start <= a.end && |a.frames| == a.end - a.start
  {
    var n := start - a.start;
    a.(start := start, frames := Resize(a.frames[n..] + a.frames[..n], a.end - start))
  }

  lemma SetEndPiece(a: Area, cut: nat)
    requires Sized(a) && Counted(a) && a.start <= cut <= a.end
    ensures Pieces([SetEnd(a, cut)], a) && Counted(SetEnd(a, cut))
    ensures SetEnd(a, cut) == a.(end := cut, frames := a.frames[..cut - a.start])
  {
    hide CountCompressed, CountSwapped;
    CountSlice(a.frames, 0, cut - a.start);
    assert SetEnd(a, cut).frames == a.frames[0..cut - a.start];
  }

  /** Rotating `n` frames to the back and cutting them off leaves the others. */
  lemma RotateCut(s: seq<Frame>, n: nat)
    requires n <= |s|
    ensures Resize(s[n..] + s[..n], |s| - n) == s[n..|s|]
  {
  }

  lemma SetStartPiece(a: Area, cut: nat)
    requires Sized(a) && Counted(a) && a.start <= cut <= a.end
    ensures Pieces([SetStart(a, cut)], a) && Counted(SetStart(a, cut))
    ensures SetStart(a, cut) == a.(start := cut, frames := a.frames[cut - a.start..])
  {
    hide CountCompressed, CountSwapped;
    var n := cut - a.start;
    CountSlice(a.frames, n, |a.frames|);
    RotateCut(a.frames, n);
    assert SetStart(a, cut).frames == a.frames[n..|a.frames|];
  }

  /** Indices below the cut stay, the others move to the second part, rebased. */
  function SplitActive(active: seq<nat>, cut: nat): (seq<nat>, seq<nat>) {
    if active == [] then ([], [])
    else
      var (x, y) := SplitActive(active[1..], cut);
      if active[0] < cut then ([active[0]] + x, y) else (x, [active[0] - cut % 0x1_0000] + y)
  }

  /** The pages that stay are listed as before. */
  ghost predicate ListedAsBefore(a: Area, a': Area) {
    forall v: nat :: Contains(a', v) ==> (v - a'.start in a'.active <==> v - a.start in a.active)
  }

  /** `set_start` moves the slots and leaves the list as it is. Once the pages that go are off the list, it is right
      for the pages that stay exactly when no page goes or none of them is listed. */
  lemma SetStartListed(a: Area, start: nat)
    requires Sized(a) && a.start <= start <= a.end
    requires forall i :: i in a.active ==> i >= start - a.start
    ensures ListedAsBefore(a, SetStart(a, start)) <==>
            start == a.start || forall i :: i in a.active ==> i >= a.end - a.start
  {
    if start > a.start && ListedAsBefore(a, SetStart(a, start)) {
      forall i | i in a.active
        ensures i >= a.end - a.start
      {
        NoneListed(a, start, i);
      }
    }
  }

  lemma {:induction false} NoneListed(a: Area, start: nat, i: nat)
    requires Sized(a) && a.start < start <= a.end && ListedAsBefore(a, SetStart(a, start))
    requires forall p :: p in a.active ==> p >= start - a.start
    ensures i in a.active ==> i >= a.end - a.start
    decreases i
  {
    var n := start - a.start;
    if n <= i < a.end - a.start {
      NoneListed(a, start, i - n);
      assert Contains(SetStart(a, start), a.start + i);
    }
  }

  /** A page is listed after a cut exactly if it was before, in the part it went to. */
  lemma {:induction false} SplitActiveIs(active: seq<nat>, cut: nat)
    requires forall i :: i in active ==> i < 0x1_0000
    ensures var (x, y) := SplitActive(active, cut);
            && |x| + |y| == |active|
            && (forall p: nat :: p in x <==> p in active && p < cut)
            && (forall p: nat :: p in y <==> p + cut in active)
  {
    if active != [] {
      var h, rest := active[0], active[1..];
      assert active == [h] + rest && h in active;
      assert forall i :: i in rest ==> i in active;
      SplitActiveIs(rest, cut);
      assert h >= cut ==> cut % 0x1_0000 == cut;
      assert forall p: nat :: p in active <==> p == h || p in rest;
      var (x, y) := SplitActive(rest, cut);
      assert forall p: nat :: p in [h - cut] + y <==> p == h - cut || p in y;
    }
  }

  /** Both parts keep the order of the list. */
  lemma {:induction false} SplitActiveConcat(a: seq<nat>, b: seq<nat>, cut: nat)
    ensures var (x, y) := SplitActive(a, cut); var (x', y') := SplitActive(b, cut);
            SplitActive(a + b, cut) == (x + x', y + y')
  {
    var (x', y') := SplitActive(b, cut);
    if a == [] {
      assert a + b == b && [] + x' == x' && [] + y' == y';
    } else {
      assert (a + b)[1..] == a[1..] + b;
      SplitActiveConcat(a[1..], b, cut);
      var (x, y) := SplitActive(a[1..], cut);
      assert forall h: nat :: ([h] + x) + x' == [h] + (x + x') && ([h] + y) + y' == [h] + (y + y');
    }
  }

  function CountUpTo(a: Area, n: nat): (nat, nat)
    requires n <= |a.frames|
  {
    if a.compressed == 0 && a.swapped == 0 then (0, 0)
    else (CountCompressed(a.frames[..n]), CountSwapped(a.frames[..n]))
  }

  lemma CountUpToIs(a: Area, n: nat)
    requires Counted(a) && n <= |a.frames|
    ensures CountUpTo(a, n) == (CountCompressed(a.frames[..n]), CountSwapped(a.frames[..n]))
    ensures CountCompressed(a.frames[..n]) + CountCompressed(a.frames[n..]) == CountCompressed(a.frames)
    ensures CountSwapped(a.frames[..n]) + CountSwapped(a.frames[n..]) == CountSwapped(a.frames)
  {
    assert a.frames == a.frames[..n] + a.frames[n..];
    CountConcat(a.frames[..n], a.frames[n..]);
  }

  function IntoTwo(a: Area, cut: nat): Option<(Area, Area)>
    requires Sized(a) && Counted(a)
  {
    if cut <= a.start || cut >= a.end then None
    else
      var n := cut - a.start;
      var (x, y) := SplitActive(a.active, n);
      var (c, w) := CountUpTo(a, n);
      CountUpToIs(a, n);
      Some((a.(end := cut, frames := a.frames[..n], active := x, compressed := c, swapped := w),
            a.(start := cut, frames := a.frames[n..], active := y, compressed := a.compressed - c,
                swapped := a.swapped - w)))
  }

  lemma IntoTwoPieces(a: Area, cut: nat)
    requires Sized(a) && Counted(a) && a.start < cut < a.end
    ensures IntoTwo(a, cut).Some?
    ensures var (x, y) := IntoTwo(a, cut).value;
            && Pieces([x, y], a) && Counted(x) && Counted(y)
            && x.start == a.start && x.end == cut == y.start && y.end == a.end
  {
    hide CountCompressed, CountSwapped, SplitActive, CountUpTo;
    CountUpToIs(a, cut - a.start);
    var (x, y) := IntoTwo(a, cut).value;
    assert x.frames == a.frames[0..cut - a.start];
    assert y.frames == a.frames[cut - a.start..|a.frames|];
  }

  /** The pages the pressure passes will look at are the same ones as before the cut. */
  lemma IntoTwoListed(a: Area, cut: nat, v: nat)
    requires Sized(a) && Counted(a) && a.start < cut < a.end && Contains(a, v)
    requires forall i :: i in a.active ==> i < 0x1_0000
    ensures IntoTwo(a, cut).Some?
    ensures var (x, y) := IntoTwo(a, cut).value;
            && (v < cut ==> (v - x.start in x.active <==> v - a.start in a.active))
            && (v >= cut ==> (v - y.start in y.active <==> v - a.start in a.active))
            && |x.active| + |y.active| == |a.active|
  {
    hide CountCompressed, CountSwapped, SplitActive, CountUpTo;
    SplitActiveIs(a.active, cut - a.start);
    IntoTwoPieces(a, cut);
  }

  /** What `into_three` leaves behind: the area itself, cut, and the other two parts if both cuts
      succeed. When the second cut fails the split-off tail is lost. */
  function IntoThree(a: Area, cut: nat, cut2: nat): (Area, Option<(Area, Area)>)
    requires Sized(a) && Counted(a)
  {
    match IntoTwo(a, cut)
    case None => (a, None)
    case Some((x, y)) =>
      IntoTwoPieces(a, cut);
      match IntoTwo(y, cut2)
      case None => (x, None)
      case Some((y', z)) => (x, Some((y', z)))
  }

  lemma IntoThreePieces(a: Area, cut: nat, cut2: nat)
    requires Sized(a) && Counted(a) && a.start < cut < cut2 < a.end
    ensures IntoThree(a, cut, cut2).1.Some?
    ensures var (x, (y, z)) := (IntoThree(a, cut, cut2).0, IntoThree(a, cut, cut2).1.value);
            && Pieces([x, y, z], a) && Counted(x) && Counted(y) && Counted(z)
            && x.start == a.start && x.end == cut == y.start && y.end == cut2 == z.start && z.end == a.end
  {
    hide CountCompressed, CountSwapped, SplitActive, CountUpTo, Counted;
    IntoTwoPieces(a, cut);
    var (x, t) := IntoTwo(a, cut).value;
    IntoTwoPieces(t, cut2);
    var (y, z) := IntoTwo(t, cut2).value;
    PiecePiece(y, t, a);
    PiecePiece(z, t, a);
  }

  lemma PiecePiece(p: Area, q: Area, a: Area)
    requires Piece(p, q) && Piece(q, a)
    ensures Piece(p, a)
  {
    assert p.frames == a.frames[p.start - a.start..p.end - a.start];
  }

  /** `check_overlapping`: an area that begins where the range ends counts as overlapping. */
  function Overlap(a: Area, s: nat, e: nat): Option<(nat, nat)> {
    if e < a.start || s >= a.end then None
    else Some((if s > a.start then s else a.start, if e < a.end then e else a.end))
  }

  /** Pages that are still covered kept their permissions. */
  ghost predicate AttrsKept(areas: seq<Area>, areas': seq<Area>) {
    forall v: nat :: Covered(areas', v) ==> Covered(areas, v) && AttrAt(areas', v) == AttrAt(areas, v)
  }

  /** Appending an area adds exactly its pages. */
  lemma AppendArea(areas: seq<Area>, x: Area, v: nat)
    requires Layout(areas + [x])
    ensures Covered(areas + [x], v) <==> Covered(areas, v) || Contains(x, v)
    ensures Covered(areas, v) ==> FrameAt(areas + [x], v) == FrameAt(areas, v)
    ensures Contains(x, v) ==> !Covered(areas, v) && FrameAt(areas + [x], v) == x.frames[v - x.start]
  {
    var all := areas + [x];
    var i := Find(areas, v);
    assert forall p :: 0 <= p < |areas| ==> all[p] == areas[p];
    if i < |areas| {
      assert Apart(all[i], all[|areas|]);
      FindIs(all, v, i);
    } else if Contains(x, v) {
      assert all[|areas|] == x;
      FindIs(all, v, |areas|);
    } else {
      assert forall p :: 0 <= p < |all| ==> !Contains(all[p], v);
    }
  }
}
