// The half-built states of a fork, area by area.
module Forking {
  import opened Types
  import opened Paging
  import opened Areas
  import opened Spaces

  /** `map_from_existing_page_table`: revoke W in the parent's entries of `[lo, hi)` and copy them
      to the child; fails on a page the child already maps. */
  method MapFromExisting(src: map<nat, Pte>, dst: map<nat, Pte>, lo: nat, hi: nat, perm: Perm)
    returns (src': map<nat, Pte>, dst': map<nat, Pte>, ok: bool)
    requires lo <= hi
    ensures ok <==> forall v: nat :: lo <= v < hi && v in src ==> v !in dst
    ensures ok ==> EntriesForked(src, dst, src', dst', lo, hi, perm)
  {
    src', dst', ok := src, dst, true;
    for v := lo to hi
      invariant src'.Keys == src.Keys
      invariant forall w: nat :: v <= w && w in src ==> src'[w] == src[w]
      invariant forall w: nat :: v <= w ==> (w in dst' <==> w in dst)
      invariant forall w: nat :: lo <= w < v && w in src ==> w !in dst
      invariant EntriesForked(src, dst, src', dst', lo, v, perm)
    {
      if v in src' {
        src' := src'[v := Pte(src'[v].ppn, src'[v].perm.WithoutW())];
        if v in dst' {
          ok := false;
          return;
        }
        dst' := dst'[v := Pte(src'[v].ppn, perm.WithoutW())];
      }
    }
  }

  ghost predicate EntriesForked(src: map<nat, Pte>, dst: map<nat, Pte>, src': map<nat, Pte>, dst': map<nat, Pte>,
      lo: nat, hi: nat, perm: Perm) {
    && src'.Keys == src.Keys
    && (forall v: nat :: v in src ==>
       src'[v] == if lo <= v < hi then Pte(src[v].ppn, src[v].perm.WithoutW()) else src[v])
    && (forall v: nat :: v in dst' <==> v in dst || (lo <= v < hi && v in src))
    && (forall v: nat :: v in dst' ==>
          dst'[v] == if lo <= v < hi && v in src then Pte(src[v].ppn, perm.WithoutW())
              else if v in dst then dst[v] else dst'[v])
  }

  /** The spaces after area `i` of `a` was forked into the last space. */
  function ForkSpaces(spaces: seq<MemorySet>, a: nat, i: nat, ppt: map<nat, Pte>, cpt: map<nat, Pte>): seq<MemorySet>
    requires a < |spaces| - 1 && i < |spaces[a].areas|
  {
    var c := |spaces| - 1;
    spaces[a := MemorySet(spaces[a].areas, ppt)][c := MemorySet(spaces[c].areas + [spaces[a].areas[i]], cpt)]
  }

  /** The child holds a prefix of the parent's areas. */
  ghost predicate HalfForked(spaces: seq<MemorySet>, a: nat, i: nat) {
    && a < |spaces| - 1 && i < |spaces[a].areas|
    && SpaceOk(spaces[a]) && SpaceOk(spaces[|spaces| - 1])
    && spaces[|spaces| - 1].areas == spaces[a].areas[..i]
  }

  lemma HalfForkedAt(spaces: seq<MemorySet>, a: nat, i: nat, v: nat)
    requires HalfForked(spaces, a, i)
    ensures var x, c := spaces[a].areas[i], |spaces| - 1;
            && Sized(x) && Counted(x) && Layout(spaces[c].areas + [x])
            && (Contains(x, v) ==> v !in spaces[c].pt && Covered(spaces[a].areas, v) && !Covered(spaces[c].areas, v)
                                   && FrameAt(spaces[a].areas, v) == x.frames[v - x.start])
            && (v in spaces[a].pt ==> Covered(spaces[a].areas, v))
            && (v in spaces[c].pt ==> Covered(spaces[c].areas, v))
  {
    var x, c := spaces[a].areas[i], |spaces| - 1;
    assert spaces[c].areas + [x] == spaces[a].areas[..i + 1];
    if Contains(x, v) {
      FindIs(spaces[a].areas, v, i);
      AppendArea(spaces[c].areas, x, v);
    }
  }

  lemma ForkAreaOk(spaces: seq<MemorySet>, a: nat, i: nat, ppt: map<nat, Pte>, cpt: map<nat, Pte>)
    requires HalfForked(spaces, a, i)
    requires var x, c := spaces[a].areas[i], |spaces| - 1;
             EntriesForked(spaces[a].pt, spaces[c].pt, ppt, cpt, x.start, x.end, x.perm)
    ensures var fs := ForkSpaces(spaces, a, i, ppt, cpt); SpaceOk(fs[a]) && SpaceOk(fs[|spaces| - 1])
  {
    hide Covered, FrameAt, Layout;
    var c := |spaces| - 1;
    var x := spaces[a].areas[i];
    HalfForkedAt(spaces, a, i, 0);
    forall v: nat | v in cpt
      ensures Covered(spaces[c].areas + [x], v)
    {
      HalfForkedAt(spaces, a, i, v);
      AppendArea(spaces[c].areas, x, v);
    }
    assert forall p :: 0 <= p < i ==> (spaces[c].areas + [x])[p] == spaces[a].areas[p];
  }

  lemma ForkAreaFlat(spaces: seq<MemorySet>, m: Mem, m': Mem, a: nat, i: nat, ppt: map<nat, Pte>, cpt: map<nat, Pte>)
    requires HalfForked(spaces, a, i) && m.slots == Slots(spaces) && m.pt == Entries(spaces)
    requires var x, c := spaces[a].areas[i], |spaces| - 1;
             EntriesForked(spaces[a].pt, spaces[c].pt, ppt, cpt, x.start, x.end, x.perm)
                 && Forked(m, m', a, c, x.start, x.end, x.perm)
    ensures var fs := ForkSpaces(spaces, a, i, ppt, cpt); Slots(fs) == m'.slots && Entries(fs) == m'.pt
  {
    hide Slots, Entries, Forked, SpaceOk, EntriesForked, ForkSpaces;
    var fs := ForkSpaces(spaces, a, i, ppt, cpt);
    forall k: Key
      ensures k in Slots(fs) <==> k in m'.slots
      ensures k in m'.slots ==> Slots(fs)[k] == m'.slots[k]
      ensures k in Entries(fs) <==> k in m'.pt
      ensures k in m'.pt ==> Entries(fs)[k] == m'.pt[k]
    {
      ForkAreaAt(spaces, m, m', a, i, ppt, cpt, k);
    }
  }

  lemma ForkAreaAt(spaces: seq<MemorySet>, m: Mem, m': Mem, a: nat, i: nat, ppt: map<nat, Pte>, cpt: map<nat, Pte>,
      k: Key)
    requires HalfForked(spaces, a, i) && m.slots == Slots(spaces) && m.pt == Entries(spaces)
    requires var x, c := spaces[a].areas[i], |spaces| - 1;
             EntriesForked(spaces[a].pt, spaces[c].pt, ppt, cpt, x.start, x.end, x.perm)
                 && Forked(m, m', a, c, x.start, x.end, x.perm)
    ensures var fs := ForkSpaces(spaces, a, i, ppt, cpt);
            && (k in Slots(fs) <==> k in m'.slots) && (k in m'.slots ==> Slots(fs)[k] == m'.slots[k])
            && (k in Entries(fs) <==> k in m'.pt) && (k in m'.pt ==> Entries(fs)[k] == m'.pt[k])
  {
    hide Slots, Entries, Covered, FrameAt, SpaceOk, Layout;
    var fs := ForkSpaces(spaces, a, i, ppt, cpt);
    var x, c := spaces[a].areas[i], |spaces| - 1;
    SlotAt(fs, k);
    EntryAt(fs, k);
    SlotAt(spaces, k);
    EntryAt(spaces, k);
    SlotAt(spaces, (a, k.1));
    EntryAt(spaces, (a, k.1));
    HalfForkedAt(spaces, a, i, k.1);
    AppendArea(spaces[c].areas, x, k.1);
  }

  lemma ForkAreaRange(spaces: seq<MemorySet>, m: Mem, a: nat, i: nat)
    requires HalfForked(spaces, a, i) && m.slots == Slots(spaces)
    ensures var x, c := spaces[a].areas[i], |spaces| - 1;
            && (forall v: nat :: x.start <= v < x.end ==> (a, v) in m.slots && (c, v) !in m.slots)
            && (forall v: nat :: x.start <= v < x.end && v in spaces[a].pt ==> v !in spaces[c].pt)
            && x.start <= x.end
  {
    hide Slots, Covered, FrameAt, SpaceOk, Layout;
    var x, c := spaces[a].areas[i], |spaces| - 1;
    HalfForkedAt(spaces, a, i, x.start);
    forall v: nat | x.start <= v < x.end
      ensures (a, v) in m.slots && (c, v) !in m.slots && v !in spaces[c].pt
    {
      HalfForkedAt(spaces, a, i, v);
      SlotAt(spaces, (a, v));
      SlotAt(spaces, (c, v));
    }
  }

  lemma ForkAllOk(spaces: seq<MemorySet>, a: nat, i: nat, ppt: map<nat, Pte>, cpt: map<nat, Pte>)
    requires AllOk(spaces) && a < |spaces| - 1 && i < |spaces[a].areas|
    requires var fs := ForkSpaces(spaces, a, i, ppt, cpt); SpaceOk(fs[a]) && SpaceOk(fs[|spaces| - 1])
    ensures AllOk(ForkSpaces(spaces, a, i, ppt, cpt))
  {
    hide SpaceOk;
  }

  lemma ForkedSame(m: Mem, m': Mem, a: nat, c: nat, lo: nat, hi: nat, perm: Perm)
    requires Forked(m, m', a, c, lo, hi, perm)
    ensures m' == Mem(m'.slots, m'.pt, m.ram, m.frames, m.zram, m.swap, m.foreign, m.codec)
  {
  }

  lemma HalfForkedOf(spaces: seq<MemorySet>, a: nat, i: nat)
    requires AllOk(spaces) && a < |spaces| - 1 && i < |spaces[a].areas|
             && spaces[|spaces| - 1].areas == spaces[a].areas[..i]
    ensures HalfForked(spaces, a, i)
  {
  }

  /** An empty space adds no page. */
  lemma NewSpaceFlat(spaces: seq<MemorySet>)
    requires AllOk(spaces)
    ensures var fs := spaces + [MemorySet([], map[])];
            AllOk(fs) && Slots(fs) == Slots(spaces) && Entries(fs) == Entries(spaces)
  {
    hide Slots, Entries, FrameAt, SpaceOk, Layout;
    var fs := spaces + [MemorySet([], map[])];
    assert SpaceOk(MemorySet([], map[])) by { EmptyOk(); }
    forall k: Key
      ensures k in Slots(fs) <==> k in Slots(spaces)
      ensures k in Slots(fs) ==> Slots(fs)[k] == Slots(spaces)[k]
      ensures k in Entries(fs) <==> k in Entries(spaces)
      ensures k in Entries(fs) ==> Entries(fs)[k] == Entries(spaces)[k]
    {
      SlotAt(fs, k);
      EntryAt(fs, k);
      SlotAt(spaces, k);
      EntryAt(spaces, k);
    }
  }

  lemma EmptyOk()
    ensures SpaceOk(MemorySet([], map[]))
  {
  }

  /** Space `c` holds a copy of every page of `a`, and no other page changed. */
  ghost predicate ForkContents(v: map<Key, Page>, v': map<Key, Page>, a: nat, c: nat) {
    && (forall k: Key :: k in v' <==> k in v || (k.0 == c && (a, k.1) in v))
    && (forall k: Key :: k in v ==> v'[k] == v[k])
    && (forall p: nat :: (a, p) in v ==> v'[(c, p)] == v[(a, p)])
  }

  ghost predicate ForkSoFar(v: map<Key, Page>, v': map<Key, Page>, a: nat, c: nat) {
    && (forall k: Key :: k in v ==> k in v' && v'[k] == v[k])
    && (forall k: Key :: k in v' ==> k in v || (k.0 == c && (a, k.1) in v && v'[k] == v[(a, k.1)]))
  }

  lemma ForkStep(v: map<Key, Page>, m: Mem, m': Mem, a: nat, c: nat, x: Area)
    requires ForkSoFar(v, View(m), a, c) && Forked(m, m', a, c, x.start, x.end, x.perm) && a != c
    ensures ForkSoFar(v, View(m'), a, c)
  {
    ForkedView(m, m', a, c, x.start, x.end, x.perm);
    forall k: Key | k in View(m')
      ensures k in v || (k.0 == c && (a, k.1) in v && View(m')[k] == v[(a, k.1)])
    {
      if k !in m.slots {
        assert (a, k.1) in View(m);
      }
    }
  }

  lemma ForkDone(v: map<Key, Page>, spaces: seq<MemorySet>, m: Mem, a: nat, c: nat)
    requires ForkSoFar(v, View(m), a, c) && m.slots == Slots(spaces)
    requires a < c == |spaces| - 1 && spaces[c].areas == spaces[a].areas
    requires forall k: Key :: k in v ==> k.0 != c
    ensures ForkContents(v, View(m), a, c)
  {
    hide Slots, Covered, FrameAt;
    forall p: nat | (a, p) in v
      ensures (c, p) in View(m) && View(m)[(c, p)] == v[(a, p)]
    {
      SlotAt(spaces, (a, p));
      SlotAt(spaces, (c, p));
    }
  }

  /** The two page tables when the areas `done` are shared: W is gone on both sides, the child's entry has the other
      permissions of its area, and pages outside are not touched. */
  ghost predicate EntriesSoFar(was: map<nat, Pte>, ppt: map<nat, Pte>, cpt: map<nat, Pte>, done: seq<Area>) {
    && ppt.Keys == was.Keys
    && (forall v: nat :: v in was ==>
          ppt[v] == if Covered(done, v) then Pte(was[v].ppn, was[v].perm.(w := false)) else was[v])
    && (forall v: nat :: v in cpt <==> v in was && Covered(done, v))
    && (forall i, v: nat :: 0 <= i < |done| && Contains(done[i], v) && v in cpt ==>
          v in was && cpt[v] == Pte(was[v].ppn, done[i].perm.(w := false)))
  }

  lemma EntriesStep(was: map<nat, Pte>, src: map<nat, Pte>, dst: map<nat, Pte>, src': map<nat, Pte>,
      dst': map<nat, Pte>, done: seq<Area>, x: Area)
    requires EntriesSoFar(was, src, dst, done) && EntriesForked(src, dst, src', dst', x.start, x.end, x.perm)
    requires Layout(done + [x])
    ensures EntriesSoFar(was, src', dst', done + [x])
  {
    hide Covered, FrameAt;
    forall v: nat
      ensures Covered(done + [x], v) <==> Covered(done, v) || Contains(x, v)
      ensures Contains(x, v) ==> !Covered(done, v)
    {
      AppendArea(done, x, v);
    }
    forall i, v: nat | 0 <= i < |done| && Contains(done[i], v)
      ensures Covered(done, v)
    {
      CoveredIn(done, i, v);
    }
  }

  lemma EntriesStart(was: map<nat, Pte>)
    ensures EntriesSoFar(was, was, map[], [])
  {
  }

  lemma PrefixLayout(spaces: seq<MemorySet>, a: nat, n: nat)
    requires AllOk(spaces) && a < |spaces| && n <= |spaces[a].areas|
    ensures Layout(spaces[a].areas[..n])
  {
    assert SpaceOk(spaces[a]);
  }

  lemma EntriesDone(was: map<nat, Pte>, spaces: seq<MemorySet>, a: nat, c: nat)
    requires AllOk(spaces) && a < |spaces| && c < |spaces|
    requires EntriesSoFar(was, spaces[a].pt, spaces[c].pt, spaces[a].areas)
    ensures spaces[a].pt.Keys == spaces[c].pt.Keys == was.Keys
    ensures forall v: nat :: v in was ==> spaces[a].pt[v] == Pte(was[v].ppn, was[v].perm.(w := false))
    ensures forall i, v: nat :: 0 <= i < |spaces[a].areas| && Contains(spaces[a].areas[i], v) && v in was ==>
              spaces[c].pt[v] == Pte(was[v].ppn, spaces[a].areas[i].perm.(w := false))
  {
    hide Covered, Layout;
    assert SpaceOk(spaces[a]);
  }

  lemma SameFlat(v: map<Key, Page>, m: Mem, m': Mem)
    requires m == m' && v == View(m')
    ensures View(m) == v && v.Keys == m.slots.Keys
  {
  }

  lemma NoPageOf(spaces: seq<MemorySet>, c: nat)
    requires c < |spaces| && spaces[c].areas == []
    ensures forall k: Key :: k in Slots(spaces) ==> k.0 != c
  {
    hide Slots, FrameAt;
    forall k: Key | k in Slots(spaces)
      ensures k.0 != c
    {
      SlotAt(spaces, k);
    }
  }

  /** Two spaces with the same trackers have no writable entry. */
  lemma SharedReadOnly(spaces: seq<MemorySet>, m: Mem, a: nat, c: nat, v: nat)
    requires AllOk(spaces) && m.slots == Slots(spaces) && m.pt == Entries(spaces) && Inv(m)
    requires a < |spaces| && c < |spaces| && a != c && spaces[a].areas == spaces[c].areas && v in spaces[a].pt
    ensures !spaces[a].pt[v].perm.w
  {
    hide Slots, Entries, Covered, FrameAt, Layout, Accounted, Mapped;
    assert SpaceOk(spaces[a]);
    EntryAt(spaces, (a, v));
    SlotAt(spaces, (a, v));
    SlotAt(spaces, (c, v));
  }
}
