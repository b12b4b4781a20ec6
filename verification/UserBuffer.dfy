// Scatter/gather over user memory, against flat copying.
module UserBuffers {
  import opened Types

  /** A byte of physical memory. */
  datatype Pos = Pos(ppn: nat, off: nat)

  /** Part of one frame. */
  datatype Slice = Slice(ppn: nat, lo: nat, hi: nat)

  type Memory = map<nat, Page>

  /** Where the pages of an address space are: mapped, or given by the fault handler. */
  datatype Space = Space(pt: map<nat, nat>, repair: map<nat, nat>)

  function PageOf(a: nat): nat { a / PAGE_SIZE }

  function Resolve(s: Space, vpn: nat): Option<nat> {
    if vpn in s.pt then Some(s.pt[vpn]) else if vpn in s.repair then Some(s.repair[vpn]) else None
  }

  // ----- Flat views -----

  predicate SliceOk(s: Slice) { s.lo <= s.hi <= PAGE_SIZE }

  predicate SlicesOk(v: seq<Slice>) { forall i :: 0 <= i < |v| ==> SliceOk(v[i]) }

  function Part(s: Slice): (ps: seq<Pos>)
    requires SliceOk(s)
    ensures |ps| == s.hi - s.lo
  {
    seq(s.hi - s.lo, j requires 0 <= j < s.hi - s.lo => Pos(s.ppn, s.lo + j))
  }

  /** The bytes of a list of slices, in order. */
  function Flat(v: seq<Slice>): seq<Pos>
    requires SlicesOk(v)
  {
    if v == [] then [] else Flat(v[..|v| - 1]) + Part(v[|v| - 1])
  }

  lemma FlatSnoc(v: seq<Slice>, s: Slice)
    requires SlicesOk(v) && SliceOk(s)
    ensures SlicesOk(v + [s]) && Flat(v + [s]) == Flat(v) + Part(s)
  {
    assert (v + [s])[..|v|] == v;
  }

  lemma {:induction false} FlatPrefix(v: seq<Slice>, i: nat)
    requires SlicesOk(v) && i <= |v|
    ensures SlicesOk(v[..i]) && Flat(v[..i]) <= Flat(v)
    decreases |v|
  {
    if i < |v| {
      FlatPrefix(v[..|v| - 1], i);
      assert v[..|v| - 1][..i] == v[..i];
    } else {
      assert v[..i] == v;
    }
  }

  /** Slice `i` is the part of the flat view from the end of those before it. */
  lemma FlatAt(v: seq<Slice>, i: nat)
    requires SlicesOk(v) && i < |v|
    ensures SliceOk(v[i]) && SlicesOk(v[..i]) && SlicesOk(v[..i + 1]) && Flat(v[..i + 1]) == Flat(v[..i]) + Part(v[i])
    ensures |Flat(v[..i])| + |Part(v[i])| <= |Flat(v)|
    ensures Flat(v)[|Flat(v[..i])|..|Flat(v[..i])| + |Part(v[i])|] == Part(v[i])
  {
    hide Flat;
    FlatPrefix(v, i + 1);
    assert v[..i + 1] == v[..i] + [v[i]];
    FlatSnoc(v[..i], v[i]);
  }

  lemma SliceOfSlice(ps: seq<Pos>, a: nat, b: nat, from: nat, to: nat)
    requires a <= b <= |ps| && from <= to <= b - a
    ensures ps[a..b][from..to] == ps[a + from..a + to]
  {
    var x, y := ps[a..b][from..to], ps[a + from..a + to];
    assert |x| == |y|;
    forall i | 0 <= i < |x|
      ensures x[i] == y[i]
    {
      assert x[i] == ps[a..b][from + i] == ps[a + from + i];
    }
  }

  /** Part of slice `i`, as a stretch of the flat view. */
  lemma FlatPart(v: seq<Slice>, i: nat, from: nat, to: nat)
    requires SlicesOk(v) && i < |v| && from <= to <= v[i].hi - v[i].lo
    ensures SlicesOk(v[..i]) && |Flat(v[..i])| + to <= |Flat(v)|
    ensures Flat(v)[|Flat(v[..i])| + from..|Flat(v[..i])| + to] == Part(Slice(v[i].ppn, v[i].lo + from, v[i].lo + to))
  {
    hide Flat;
    FlatAt(v, i);
    var at, flat := |Flat(v[..i])|, Flat(v);
    SliceOfSlice(flat, at, at + |Part(v[i])|, from, to);
    assert Part(v[i])[from..to] == Part(Slice(v[i].ppn, v[i].lo + from, v[i].lo + to));
  }

  ghost predicate In(mem: Memory, ps: seq<Pos>) {
    forall i :: 0 <= i < |ps| ==> ps[i].ppn in mem && ps[i].off < PAGE_SIZE
  }

  ghost function Bytes(mem: Memory, ps: seq<Pos>): (r: seq<byte>)
    requires In(mem, ps)
    ensures |r| == |ps|
  {
    seq(|ps|, i requires 0 <= i < |ps| => mem[ps[i].ppn][ps[i].off])
  }

  lemma BytesPart(mem: Memory, ps: seq<Pos>, x: nat, y: nat, s: Slice)
    requires In(mem, ps) && x < y <= |ps| && SliceOk(s) && ps[x..y] == Part(s)
    ensures s.ppn in mem && Bytes(mem, ps)[x..y] == mem[s.ppn][s.lo..s.hi]
  {
    assert forall j :: x <= j < y ==> ps[j] == ps[x..y][j - x];
    assert ps[x] == Pos(s.ppn, s.lo);
  }

  function Poke(mem: Memory, p: Pos, x: byte): Memory
    requires p.ppn in mem && p.off < PAGE_SIZE
  {
    mem[p.ppn := mem[p.ppn][p.off := x]]
  }

  /** Byte-at-a-time writing, in order. */
  ghost function PokeAll(mem: Memory, ps: seq<Pos>, data: seq<byte>): (r: Memory)
    requires In(mem, ps) && |data| == |ps|
    ensures r.Keys == mem.Keys
  {
    if ps == [] then mem else
      var n := |ps| - 1;
      assert In(mem, ps[..n]);
      Poke(PokeAll(mem, ps[..n], data[..n]), ps[n], data[n])
  }

  lemma PokeAllSnoc(mem: Memory, ps: seq<Pos>, data: seq<byte>, p: Pos, x: byte)
    requires In(mem, ps) && |data| == |ps| && p.ppn in mem && p.off < PAGE_SIZE
    ensures In(mem, ps + [p]) && PokeAll(mem, ps + [p], data + [x]) == Poke(PokeAll(mem, ps, data), p, x)
  {
    hide Poke;
    assert (ps + [p])[..|ps|] == ps && (data + [x])[..|ps|] == data;
  }

  lemma {:induction false} PokeAllConcat(mem: Memory, ps: seq<Pos>, data: seq<byte>, ps': seq<Pos>, data': seq<byte>)
    requires In(mem, ps) && In(mem, ps') && |data| == |ps| && |data'| == |ps'|
    ensures In(mem, ps + ps') && In(PokeAll(mem, ps, data), ps')
    ensures PokeAll(PokeAll(mem, ps, data), ps', data') == PokeAll(mem, ps + ps', data + data')
    decreases |ps'|
  {
    hide Poke, PokeAll;
    if ps' == [] {
      assert ps + ps' == ps && data + data' == data;
      PokeNone(PokeAll(mem, ps, data));
    } else {
      var n := |ps'| - 1;
      var p, x := ps'[n], data'[n];
      PokeAllConcat(mem, ps, data, ps'[..n], data'[..n]);
      assert ps' == ps'[..n] + [p] && data' == data'[..n] + [x];
      PokeAllSnoc(PokeAll(mem, ps, data), ps'[..n], data'[..n], p, x);
      PokeAllSnoc(mem, ps + ps'[..n], data + data'[..n], p, x);
      assert ps + ps' == ps + ps'[..n] + [p] && data + data' == data + data'[..n] + [x];
    }
  }

  lemma InNone(mem: Memory)
    ensures In(mem, [])
  {
  }

  lemma PokeNone(mem: Memory)
    ensures PokeAll(mem, [], []) == mem
  {
  }

  /** Copying into part of a page is writing its bytes one by one. */
  lemma {:induction false} CopyIsPokes(mem: Memory, ppn: nat, at: nat, data: seq<byte>)
    requires ppn in mem && at + |data| <= PAGE_SIZE
    ensures var ps := Part(Slice(ppn, at, at + |data|));
            In(mem, ps) && PokeAll(mem, ps, data) == mem[ppn := mem[ppn][..at] + data + mem[ppn][at + |data|..]]
    decreases |data|
  {
    hide PokeAll;
    var ps := Part(Slice(ppn, at, at + |data|));
    if data == [] {
      PokeNone(mem);
      assert mem[ppn][..at] + data + mem[ppn][at..] == mem[ppn];
      assert mem[ppn := mem[ppn]] == mem;
    } else {
      var n := |data| - 1;
      var ps' := Part(Slice(ppn, at, at + n));
      CopyIsPokes(mem, ppn, at, data[..n]);
      assert ps == ps' + [Pos(ppn, at + n)] && data == data[..n] + [data[n]];
      PokeAllSnoc(mem, ps', data[..n], Pos(ppn, at + n), data[n]);
      assert (mem[ppn][..at] + data[..n] + mem[ppn][at + n..])[at + n := data[n]]
          == mem[ppn][..at] + data + mem[ppn][at + |data|..];
    }
  }

  /** A byte not written keeps its value; one written by exactly one position gets that datum. */
  lemma {:induction false} PokeAllAt(mem: Memory, ps: seq<Pos>, data: seq<byte>, p: Pos)
    requires In(mem, ps) && |data| == |ps| && p.ppn in mem && p.off < PAGE_SIZE
    ensures p !in ps ==> PokeAll(mem, ps, data)[p.ppn][p.off] == mem[p.ppn][p.off]
    ensures Distinct(ps) ==> forall i :: 0 <= i < |ps| && ps[i] == p ==> PokeAll(mem, ps, data)[p.ppn][p.off] == data[i]
    decreases |ps|
  {
    if ps != [] {
      var n := |ps| - 1;
      PokeAllAt(mem, ps[..n], data[..n], p);
      if Distinct(ps) {
        assert Distinct(ps[..n]);
        assert forall i :: 0 <= i < n ==> ps[i] == ps[..n][i] && ps[i] != ps[n];
      }
    }
  }

  /** Where no two slices overlap, writing a stretch is slice update on the flat view. */
  lemma FlatWrite(mem: Memory, ps: seq<Pos>, at: nat, data: seq<byte>)
    requires In(mem, ps) && Distinct(ps) && at + |data| <= |ps|
    ensures In(mem, ps[at..at + |data|]) && In(PokeAll(mem, ps[at..at + |data|], data), ps)
    ensures Bytes(PokeAll(mem, ps[at..at + |data|], data), ps)
            == Bytes(mem, ps)[..at] + data + Bytes(mem, ps)[at + |data|..]
  {
    var mid := ps[at..at + |data|];
    assert forall j :: 0 <= j < |mid| ==> mid[j] == ps[at + j];
    assert Distinct(mid);
    var mem' := PokeAll(mem, mid, data);
    forall i | 0 <= i < |ps|
      ensures mem'[ps[i].ppn][ps[i].off] == if at <= i < at + |data| then data[i - at] else mem[ps[i].ppn][ps[i].off]
    {
      PokeAllAt(mem, mid, data, ps[i]);
      assert at <= i < at + |data| ==> mid[i - at] == ps[i];
    }
  }

  // ----- Translation -----

  /** The virtual bytes from `start` on, one by one. */
  ghost predicate Virtual(s: Space, start: nat, ps: seq<Pos>) {
    forall i :: 0 <= i < |ps| ==>
        Resolve(s, PageOf(start + i)) == Some(ps[i].ppn) && ps[i].off == (start + i) % PAGE_SIZE
  }

  ghost predicate Resolved(s: Space, start: nat, len: nat) {
    forall a: nat :: start <= a < start + len ==> Resolve(s, PageOf(a)).Some?
  }

  lemma VirtualConcat(s: Space, start: nat, a: seq<Pos>, b: seq<Pos>)
    requires Virtual(s, start, a) && Virtual(s, start + |a|, b)
    ensures Virtual(s, start, a + b)
  {
    forall i | 0 <= i < |a + b|
      ensures Resolve(s, PageOf(start + i)) == Some((a + b)[i].ppn) && (a + b)[i].off == (start + i) % PAGE_SIZE
    {
      if i >= |a| {
        assert start + i == start + |a| + (i - |a|);
      }
    }
  }

  lemma PartVirtual(s: Space, start: nat, ppn: nat, n: nat)
    requires Resolve(s, PageOf(start)) == Some(ppn) && start % PAGE_SIZE + n <= PAGE_SIZE
    ensures Virtual(s, start, Part(Slice(ppn, start % PAGE_SIZE, start % PAGE_SIZE + n)))
  {
  }

  /** The page table has the frame, or has none and the fault handler brings it. */
  ghost predicate Backs(s: Space, vpn: nat, ppn: nat) {
    if vpn in s.pt then s.pt[vpn] == ppn else vpn in s.repair && s.repair[vpn] == ppn
  }

  lemma ResolvedPlain(s: Space, ptr: nat, len: nat)
    ensures !Resolved(s, ptr, len) <==>
              exists a: nat :: ptr <= a < ptr + len && a / PAGE_SIZE !in s.pt && a / PAGE_SIZE !in s.repair
  {
    if !Resolved(s, ptr, len) {
      var a: nat :| ptr <= a < ptr + len && Resolve(s, PageOf(a)).None?;
      assert a / PAGE_SIZE !in s.pt && a / PAGE_SIZE !in s.repair;
    } else {
      forall a: nat | ptr <= a < ptr + len
        ensures a / PAGE_SIZE in s.pt || a / PAGE_SIZE in s.repair
      {
        assert Resolve(s, PageOf(a)).Some?;
      }
    }
  }

  lemma VirtualPlain(s: Space, ptr: nat, ps: seq<Pos>)
    requires Virtual(s, ptr, ps)
    ensures forall i :: 0 <= i < |ps| ==>
              ps[i].off == (ptr + i) % PAGE_SIZE && Backs(s, (ptr + i) / PAGE_SIZE, ps[i].ppn)
  {
  }

  method TranslatedByteBuffer(s: Space, ptr: nat, len: nat) returns (r: Option<seq<Slice>>)
    ensures r.Some? <==> Resolved(s, ptr, len)
    ensures r.Some? ==> SlicesOk(r.value) && |Flat(r.value)| == len && Virtual(s, ptr, Flat(r.value))
    ensures r.None? <==>
              exists a: nat :: ptr <= a < ptr + len && a / PAGE_SIZE !in s.pt && a / PAGE_SIZE !in s.repair
    ensures r.Some? ==> forall i :: 0 <= i < len ==>
              && Flat(r.value)[i].off == (ptr + i) % PAGE_SIZE
              && Backs(s, (ptr + i) / PAGE_SIZE, Flat(r.value)[i].ppn)
  {
    hide Virtual, Part, Flat, Resolve;
    ResolvedPlain(s, ptr, len);
    var start, end := ptr, ptr + len;
    var v: seq<Slice> := [];
    VirtualEmpty(s, ptr);
    while start < end
      invariant ptr <= start <= end && SlicesOk(v) && |Flat(v)| == start - ptr && Virtual(s, ptr, Flat(v))
      invariant Resolved(s, ptr, start - ptr)
    {
      var vpn := PageOf(start);
      var ppn := Resolve(s, vpn);
      if ppn.None? {
        return None;
      }
      var next := (vpn + 1) * PAGE_SIZE;
      var endVa := if next < end then next else end;
      var slice := if endVa % PAGE_SIZE == 0
        then Slice(ppn.value, start % PAGE_SIZE, PAGE_SIZE)
        else Slice(ppn.value, start % PAGE_SIZE, endVa % PAGE_SIZE);
      assert slice.hi - slice.lo == endVa - start;
      PartVirtual(s, start, ppn.value, endVa - start);
      VirtualConcat(s, ptr, Flat(v), Part(slice));
      FlatSnoc(v, slice);
      ResolvedMore(s, ptr, start, endVa);
      v := v + [slice];
      start := endVa;
    }
    VirtualPlain(s, ptr, Flat(v));
    return Some(v);
  }

  lemma VirtualEmpty(s: Space, start: nat)
    ensures Flat([]) == [] && Virtual(s, start, [])
  {
  }

  lemma ResolvedMore(s: Space, ptr: nat, start: nat, end: nat)
    requires ptr <= start <= end && Resolved(s, ptr, start - ptr) && Resolve(s, PageOf(start)).Some?
    requires end <= (start / PAGE_SIZE + 1) * PAGE_SIZE
    ensures Resolved(s, ptr, end - ptr)
  {
    hide Resolve;
    forall a: nat | ptr <= a < end
      ensures Resolve(s, PageOf(a)).Some?
    {
      if a >= start {
        assert PageOf(a) == PageOf(start);
      }
    }
  }

  // ----- User buffers -----

  function Max(a: nat, b: nat): nat { if a > b then a else b }

  /** How much of the stretch of `want` bytes at `offset` lies in the first `have` bytes. */
  function Overlapping(offset: nat, want: nat, have: nat): nat {
    Max(Min(have, offset + want), offset) - offset
  }

  /** The first `n` bytes of `was` are replaced by those of `c` at `offset`. */
  ghost predicate Copied(c: seq<byte>, was: seq<byte>, now: seq<byte>, offset: nat, n: nat) {
    n <= |was| && offset + n <= |c| && now == c[offset..offset + n] + was[n..]
  }

  class Ram {
    var frames: Memory

    constructor (mem: Memory)
      ensures frames == mem
    {
      frames := mem;
    }
  }

  class UserBuffer {
    const buffers: seq<Slice>
    const len: nat
    const ram: Ram

    ghost predicate Valid()
      reads this, ram
    {
      SlicesOk(buffers) && len == |Flat(buffers)| && In(ram.frames, Flat(buffers))
    }

    /** The buffer as one sequence of bytes. */
    ghost function Contents(): (r: seq<byte>)
      requires Valid()
      reads this, ram
      ensures |r| == len
    {
      Bytes(ram.frames, Flat(buffers))
    }

    constructor (v: seq<Slice>, r: Ram)
      requires SlicesOk(v) && In(r.frames, Flat(v))
      ensures Valid() && buffers == v && ram == r
    {
      hide Flat;
      var total := 0;
      FlatNone(v);
      for i := 0 to |v|
        invariant SlicesOk(v[..i]) && total == |Flat(v[..i])|
      {
        FlatAt(v, i);
        total := total + (v[i].hi - v[i].lo);
      }
      assert v[..|v|] == v;
      buffers, len, ram := v, total, r;
    }

    /** `buffer[from..to]` of buffer `i`, for a copy out of it. */
    method Peek(i: nat, from: nat, to: nat) returns (data: seq<byte>)
      requires Valid() && i < |buffers| && from <= to <= buffers[i].hi - buffers[i].lo
      ensures SlicesOk(buffers[..i])
      ensures var at := |Flat(buffers[..i])|; at + to <= len && data == Contents()[at + from..at + to]
    {
      hide Flat;
      FlatPart(buffers, i, from, to);
      var b := buffers[i];
      ghost var at := |Flat(buffers[..i])|;
      if from == to {
        return [];
      }
      BytesPart(ram.frames, Flat(buffers), at + from, at + to, Slice(b.ppn, b.lo + from, b.lo + to));
      data := ram.frames[b.ppn][b.lo + from..b.lo + to];
    }

    /** `buffer[from..to]` of buffer `i` goes to `dst` at `at`, after the `at` bytes copied before it. */
    method CopyOut(i: nat, from: nat, to: nat, dst: array<byte>, at: nat, ghost was: seq<byte>, ghost offset: nat)
      requires Valid() && i < |buffers| && from <= to <= buffers[i].hi - buffers[i].lo
               && at + (to - from) <= dst.Length == |was|
      requires SlicesOk(buffers[..i]) && offset + at == |Flat(buffers[..i])| + from
               && Copied(Contents(), was, dst[..], offset, at)
      modifies dst
      ensures Copied(Contents(), was, dst[..], offset, at + (to - from))
    {
      hide Flat, Bytes, In, Copied, SlicesOk;
      var data := Peek(i, from, to);
      ghost var now := dst[..];
      forall j | 0 <= j < |data| {
        dst[at + j] := data[j];
      }
      CopiedStep(Contents(), was, now, dst[..], offset, at, at + (to - from));
    }

    /** `copy_from_slice` into `buffer[from..]` of buffer `i`. */
    method Copy(i: nat, from: nat, data: seq<byte>)
      requires Valid() && i < |buffers| && from + |data| <= buffers[i].hi - buffers[i].lo
      modifies ram
      ensures SlicesOk(buffers[..i]) && Valid()
      ensures var at := |Flat(buffers[..i])|;
              && at + from + |data| <= len && In(old(ram.frames), Flat(buffers)[at + from..at + from + |data|])
              && ram.frames == PokeAll(old(ram.frames), Flat(buffers)[at + from..at + from + |data|], data)
    {
      hide Flat, PokeAll;
      var to := from + |data|;
      FlatPart(buffers, i, from, to);
      var b := buffers[i];
      ghost var at := |Flat(buffers[..i])|;
      if data == [] {
        PokeNone(ram.frames);
        assert Flat(buffers)[at + from..at + to] == [];
        return;
      }
      BytesPart(ram.frames, Flat(buffers), at + from, at + to, Slice(b.ppn, b.lo + from, b.lo + to));
      CopyIsPokes(ram.frames, b.ppn, b.lo + from, data);
      ram.frames := ram.frames[b.ppn := ram.frames[b.ppn][..b.lo + from] + data + ram.frames[b.ppn][b.lo + to..]];
    }

    method Read(dst: array<byte>) returns (n: nat)
      requires Valid()
      modifies dst
      ensures n == Min(len, dst.Length) && Copied(Contents(), old(dst[..]), dst[..], 0, n)
    {
      hide Flat, Bytes, In, SlicesOk, Part, Copied;
      FlatNone(buffers);
      ghost var was := dst[..];
      CopiedStart(Contents(), was, 0);
      var start := 0;
      for i := 0 to |buffers|
        invariant SlicesOk(buffers[..i]) && start == |Flat(buffers[..i])| <= dst.Length && start <= len
        invariant Copied(Contents(), was, dst[..], 0, start)
      {
        FlatAt(buffers, i);
        var end := start + (buffers[i].hi - buffers[i].lo);
        if end > dst.Length {
          CopyOut(i, 0, dst.Length - start, dst, start, was, 0);
          return dst.Length;
        }
        CopyOut(i, 0, buffers[i].hi - buffers[i].lo, dst, start, was, 0);
        start := end;
      }
      assert buffers[..|buffers|] == buffers;
      return len;
    }

    /** Whatever the slices share, the effect is that of writing the flat view byte by byte. */
    method Write(src: seq<byte>) returns (n: nat)
      requires Valid()
      modifies ram
      ensures Valid() && n == Min(len, |src|) && In(old(ram.frames), Flat(buffers)[0..n])
      ensures ram.frames == PokeAll(old(ram.frames), Flat(buffers)[0..n], src[..n])
    {
      hide Flat, PokeAll, Bytes, In, SlicesOk, Part;
      FlatNone(buffers);
      PokeNone(ram.frames);
      InNone(ram.frames);
      ghost var mem, flat := ram.frames, Flat(buffers);
      assert flat[0..0] == [] && src[..0] == [];
      var start := 0;
      for i := 0 to |buffers|
        invariant SlicesOk(buffers[..i]) && start == |Flat(buffers[..i])| <= |src| && start <= len && Valid()
        invariant In(mem, flat[0..0 + start]) && ram.frames == PokeAll(mem, flat[0..0 + start], src[..start])
      {
        FlatAt(buffers, i);
        var end := start + (buffers[i].hi - buffers[i].lo);
        if end > |src| {
          Copy(i, 0, src[start..|src|]);
          PokeOn(mem, flat, src, 0, start, |src|);
          return |src|;
        }
        Copy(i, 0, src[start..end]);
        PokeOn(mem, flat, src, 0, start, end);
        start := end;
      }
      assert buffers[..|buffers|] == buffers;
      return len;
    }

    method ReadAt(offset: nat, dst: array<byte>) returns (n: nat)
      requires Valid()
      modifies dst
      ensures n == if offset >= len then 0 else Min(dst.Length, len - offset)
      ensures if offset >= len then dst[..] == old(dst[..]) else Copied(Contents(), old(dst[..]), dst[..], offset, n)
    {
      hide Flat, Bytes, In, SlicesOk, Part, Copied;
      if offset >= len {
        return 0;
      }
      FlatNone(buffers);
      ghost var was := dst[..];
      CopiedStart(Contents(), was, offset);
      n := 0;
      var start := 0;
      for i := 0 to |buffers|
        invariant SlicesOk(buffers[..i]) && start == |Flat(buffers[..i])| <= len
        invariant n == Overlapping(offset, dst.Length, start) <= dst.Length && offset + n <= len
        invariant Copied(Contents(), was, dst[..], offset, n)
      {
        FlatAt(buffers, i);
        var end := start + (buffers[i].hi - buffers[i].lo);
        var from, to := Max(start, offset), Min(end, dst.Length + offset);
        OverlapStep(offset, dst.Length, start, end);
        if from >= to {
          start := end;
          continue;
        }
        CopyOut(i, from - start, to - start, dst, from - offset, was, offset);
        n := n + (to - from);
        start := end;
      }
      assert buffers[..|buffers|] == buffers;
    }

    method WriteAt(offset: nat, src: seq<byte>) returns (n: nat)
      requires Valid()
      modifies ram
      ensures Valid() && n == if offset >= len then 0 else Min(|src|, len - offset)
      ensures n > 0 ==> In(old(ram.frames), Flat(buffers)[offset..offset + n])
      ensures ram.frames == if n == 0 then old(ram.frames)
              else PokeAll(old(ram.frames), Flat(buffers)[offset..offset + n], src[..n])
    {
      hide Flat, PokeAll, Bytes, In, SlicesOk, Part;
      if offset >= len {
        return 0;
      }
      FlatNone(buffers);
      PokeNone(ram.frames);
      InNone(ram.frames);
      ghost var mem, flat := ram.frames, Flat(buffers);
      assert flat[offset..offset] == [] && src[..0] == [];
      n := 0;
      var start := 0;
      for i := 0 to |buffers|
        invariant SlicesOk(buffers[..i]) && start == |Flat(buffers[..i])| <= len && Valid()
        invariant n == Overlapping(offset, |src|, start) <= |src| && offset + n <= len
        invariant In(mem, flat[offset..offset + n]) && ram.frames == PokeAll(mem, flat[offset..offset + n], src[..n])
      {
        FlatAt(buffers, i);
        var end := start + (buffers[i].hi - buffers[i].lo);
        var from, to := Max(start, offset), Min(end, |src| + offset);
        OverlapStep(offset, |src|, start, end);
        if from >= to {
          start := end;
          continue;
        }
        Copy(i, from - start, src[from - offset..to - offset]);
        assert n == from - offset;
        PokeOn(mem, flat, src, offset, n, n + (to - from));
        n := n + (to - from);
        start := end;
      }
      assert buffers[..|buffers|] == buffers;
    }
  }

  lemma OverlapStep(offset: nat, want: nat, start: nat, end: nat)
    requires start <= end
    ensures var from, to := Max(start, offset), Min(end, want + offset);
            if from >= to then Overlapping(offset, want, end) == Overlapping(offset, want, start)
            else Overlapping(offset, want, start) == from - offset && Overlapping(offset, want, end) == to - offset
  {
  }

  lemma CopiedStart(c: seq<byte>, was: seq<byte>, offset: nat)
    requires offset <= |c|
    ensures Copied(c, was, was, offset, 0)
  {
  }

  lemma CopiedStep(c: seq<byte>, was: seq<byte>, now: seq<byte>, now': seq<byte>, offset: nat, a: nat, b: nat)
    requires a <= b <= |was| && offset + b <= |c| && Copied(c, was, now, offset, a) && |now| == |was|
    requires now' == now[..a] + c[offset + a..offset + b] + now[b..]
    ensures Copied(c, was, now', offset, b)
  {
    assert now[..a] == c[offset..offset + a] && now[b..] == was[b..];
    assert c[offset..offset + a] + c[offset + a..offset + b] == c[offset..offset + b];
  }

  lemma PokeOn(mem: Memory, flat: seq<Pos>, src: seq<byte>, offset: nat, a: nat, b: nat)
    requires In(mem, flat) && a <= b <= |src| && offset + b <= |flat|
    ensures In(mem, flat[offset..offset + a]) && In(mem, flat[offset..offset + b])
    ensures var mem1 := PokeAll(mem, flat[offset..offset + a], src[..a]);
            && In(mem1, flat[offset + a..offset + b])
            && PokeAll(mem1, flat[offset + a..offset + b], src[a..b])
               == PokeAll(mem, flat[offset..offset + b], src[..b])
  {
    hide PokeAll;
    PokeAllConcat(mem, flat[offset..offset + a], src[..a], flat[offset + a..offset + b], src[a..b]);
    assert flat[offset..offset + a] + flat[offset + a..offset + b] == flat[offset..offset + b];
    assert src[..a] + src[a..b] == src[..b];
  }

  lemma FlatNone(v: seq<Slice>)
    ensures SlicesOk(v[..0]) && Flat(v[..0]) == []
  {
  }
}
