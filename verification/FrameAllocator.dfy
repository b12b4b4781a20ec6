// The stack frame allocator: a bump pointer plus a stack of returned frames.
module FrameAllocator {
  import opened Types

  /** `base` is the first frame handed to `init`; the source keeps only the other three. */
  datatype Frames = Frames(base: nat, current: nat, end: nat, recycled: seq<nat>)

  ghost predicate Valid(fa: Frames) {
    && fa.base <= fa.current <= fa.end
    && Distinct(fa.recycled)
    && forall p: nat :: p in fa.recycled ==> fa.base <= p < fa.current
  }

  /** The frame is handed out and not yet returned. */
  predicate Taken(fa: Frames, p: nat) {
    fa.base <= p < fa.current && p !in fa.recycled
  }

  function Unallocated(fa: Frames): int {
    fa.end - fa.current + |fa.recycled|
  }

  function Alloc(fa: Frames): Option<(Frames, nat)> {
    if |fa.recycled| > 0 then
      Some((fa.(recycled := DropLast(fa.recycled)), Last(fa.recycled)))
    else if fa.current == fa.end then None
    else Some((fa.(current := fa.current + 1), fa.current))
  }

  function Dealloc(fa: Frames, p: nat): Frames {
    fa.(recycled := fa.recycled + [p])
  }

  /** The frames of the range nobody holds. */
  ghost function Free(fa: Frames): set<nat> {
    set p | p in Below(fa.end) && fa.base <= p && !Taken(fa, p)
  }

  lemma UnallocatedCounts(fa: Frames)
    requires Valid(fa)
    ensures Unallocated(fa) == |Free(fa)|
  {
    BelowSize(fa.current);
    BelowSize(fa.end);
    ElementsSize(fa.recycled);
    var rest := Below(fa.end) - Below(fa.current);
    assert Below(fa.end) == Below(fa.current) + rest;
    assert Free(fa) == Elements(fa.recycled) + rest;
  }

  ghost function Used(fa: Frames): set<nat> {
    set p | p in Below(fa.end) && Taken(fa, p)
  }

  /** Every frame of the range is free or held. */
  lemma FreePlusUsed(fa: Frames)
    requires Valid(fa)
    ensures Unallocated(fa) + |Used(fa)| == fa.end - fa.base
  {
    hide Valid, Unallocated, Below;
    UnallocatedCounts(fa);
    RangeSize(fa);
    BelowSize(fa.end);
    BelowSize(fa.base);
    assert Below(fa.end) - Below(fa.base) == Free(fa) + Used(fa);
  }

  lemma RangeSize(fa: Frames)
    requires Valid(fa)
    ensures |Below(fa.end) - Below(fa.base)| == fa.end - fa.base
  {
    BelowSize(fa.end);
    BelowSize(fa.base);
    assert Below(fa.end) == Below(fa.base) + (Below(fa.end) - Below(fa.base));
  }

  /** An allocation fails exactly when nothing is free; otherwise it hands out one frame that
      nobody held, and changes no other frame's state. */
  lemma AllocTakesOne(fa: Frames)
    requires Valid(fa)
    ensures Alloc(fa).None? <==> Unallocated(fa) == 0
    ensures Alloc(fa).Some? ==>
              var (fa', p) := Alloc(fa).value;
              && Valid(fa') && fa'.base == fa.base && fa'.end == fa.end
              && fa.base <= p < fa.end
              && !Taken(fa, p)
              && (forall q: nat :: Taken(fa', q) <==> q == p || Taken(fa, q))
              && Unallocated(fa') == Unallocated(fa) - 1
  {
    if |fa.recycled| > 0 {
      PopLast(fa.recycled);
    }
  }

  lemma DeallocReturnsOne(fa: Frames, p: nat)
    requires Valid(fa) && Taken(fa, p)
    ensures Valid(Dealloc(fa, p))
    ensures forall q: nat :: Taken(Dealloc(fa, p), q) <==> q != p && Taken(fa, q)
    ensures Unallocated(Dealloc(fa, p)) == Unallocated(fa) + 1
  {
    PushDistinct(fa.recycled, p);
  }

  /** Returning a frame keeps the allocator sound exactly when the frame is held. */
  lemma DeallocSoundIffTaken(fa: Frames, p: nat)
    requires Valid(fa)
    ensures Valid(Dealloc(fa, p)) <==> Taken(fa, p)
  {
    PushDistinct(fa.recycled, p);
  }

  /** The frame returned last is handed out next. */
  lemma DeallocThenAlloc(fa: Frames, p: nat)
    ensures Alloc(Dealloc(fa, p)) == Some((fa, p))
  {
    assert DropLast(fa.recycled + [p]) == fa.recycled;
  }
}
