// Copying between two address spaces through lists of (address, length) pairs.
module ProcessVm {
  import opened Types
  import opened UserBuffers

  datatype IoVec = IoVec(addr: nat, len: nat)

  /** `iovec_total_len` */
  function Total(iovs: seq<IoVec>): nat {
    if iovs == [] then 0 else iovs[0].len + Total(iovs[1..])
  }

  ghost predicate Backed(s: Space, mem: Memory) {
    forall vpn: nat :: Resolve(s, vpn).Some? ==> Resolve(s, vpn).value in mem
  }

  /** The physical bytes behind a virtual range. */
  ghost function BytesBehind(s: Space, addr: nat, len: nat): (ps: seq<Pos>)
    requires Resolved(s, addr, len)
    ensures |ps| == len && Virtual(s, addr, ps)
  {
    seq(len, i requires 0 <= i < len => Pos(Resolve(s, PageOf(addr + i)).value, (addr + i) % PAGE_SIZE))
  }

  lemma BytesBehindIs(s: Space, addr: nat, ps: seq<Pos>)
    requires Virtual(s, addr, ps)
    ensures Resolved(s, addr, |ps|) && ps == BytesBehind(s, addr, |ps|)
  {
    forall a: nat | addr <= a < addr + |ps|
      ensures Resolve(s, PageOf(a)).Some?
    {
      assert a == addr + (a - addr);
      assert Resolve(s, PageOf(addr + (a - addr))) == Some(ps[a - addr].ppn);
    }
    var r := BytesBehind(s, addr, |ps|);
    forall i | 0 <= i < |ps|
      ensures ps[i] == r[i]
    {
    }
  }

  lemma BackedIn(s: Space, mem: Memory, addr: nat, ps: seq<Pos>)
    requires Backed(s, mem) && Virtual(s, addr, ps)
    ensures In(mem, ps)
  {
  }

  /** The first `n` bytes the list reaches before a page that cannot be had. */
  ghost function Spread(s: Space, iovs: seq<IoVec>, n: nat): (ps: seq<Pos>)
    ensures |ps| <= n
  {
    if iovs == [] || n == 0 then [] else
      var take := Min(iovs[0].len, n);
      if !Resolved(s, iovs[0].addr, take) then []
          else BytesBehind(s, iovs[0].addr, take) + Spread(s, iovs[1..], n - take)
  }

  lemma InConcat(mem: Memory, a: seq<Pos>, b: seq<Pos>)
    requires In(mem, a) && In(mem, b)
    ensures In(mem, a + b)
  {
  }

  /** How many leading entries have all their pages, as far as the first `n` bytes go. */
  ghost function Leading(s: Space, iovs: seq<IoVec>, n: nat): (k: nat)
    ensures k <= |iovs|
  {
    if iovs == [] || n == 0 || !Resolved(s, iovs[0].addr, Min(iovs[0].len, n)) then 0
    else 1 + Leading(s, iovs[1..], n - Min(iovs[0].len, n))
  }

  /** How far the list reaches, from the page maps alone: the leading entries, capped. */
  ghost function Reach(s: Space, iovs: seq<IoVec>, n: nat): nat {
    Min(n, Total(iovs[..Leading(s, iovs, n)]))
  }

  lemma {:induction false} SpreadReaches(s: Space, iovs: seq<IoVec>, n: nat)
    ensures |Spread(s, iovs, n)| == Reach(s, iovs, n)
  {
    if iovs != [] && n > 0 && Resolved(s, iovs[0].addr, Min(iovs[0].len, n)) {
      var take := Min(iovs[0].len, n);
      SpreadReaches(s, iovs[1..], n - take);
      var k := Leading(s, iovs[1..], n - take);
      assert iovs[..k + 1][1..] == iovs[1..][..k];
    }
  }

  /** No page of the first `n` bytes is missing. */
  ghost predicate Faultless(s: Space, iovs: seq<IoVec>, n: nat) {
    iovs == [] || n == 0 ||
    (var take := Min(iovs[0].len, n); Resolved(s, iovs[0].addr, take) && Faultless(s, iovs[1..], n - take))
  }

  /** The list reaches all `n` bytes exactly when no page of them is missing. */
  lemma {:induction false} SpreadFullIff(s: Space, iovs: seq<IoVec>, n: nat)
    requires n <= Total(iovs)
    ensures |Spread(s, iovs, n)| == n <==> Faultless(s, iovs, n)
  {
    if iovs != [] && n > 0 && Resolved(s, iovs[0].addr, Min(iovs[0].len, n)) {
      SpreadFullIff(s, iovs[1..], n - Min(iovs[0].len, n));
    }
  }

  ghost predicate AllResolved(s: Space, iovs: seq<IoVec>) {
    forall i :: 0 <= i < |iovs| ==> Resolved(s, iovs[i].addr, iovs[i].len)
  }

  /** The whole list as one range of bytes. */
  ghost function AllBytes(s: Space, iovs: seq<IoVec>): (ps: seq<Pos>)
    requires AllResolved(s, iovs)
    ensures |ps| == Total(iovs)
  {
    if iovs == [] then [] else
      assert Resolved(s, iovs[0].addr, iovs[0].len);
      assert forall i :: 0 <= i < |iovs[1..]| ==> iovs[1..][i] == iovs[i + 1];
      BytesBehind(s, iovs[0].addr, iovs[0].len) + AllBytes(s, iovs[1..])
  }

  /** Without a missing page, the bytes reached are a prefix of the whole list. */
  lemma {:induction false} SpreadIsPrefix(s: Space, iovs: seq<IoVec>, n: nat)
    requires AllResolved(s, iovs) && n <= Total(iovs)
    ensures Faultless(s, iovs, n) && Spread(s, iovs, n) == AllBytes(s, iovs)[..n]
  {
    if iovs != [] && n > 0 {
      var addr, take := iovs[0].addr, Min(iovs[0].len, n);
      assert Resolved(s, addr, iovs[0].len);
      assert Resolved(s, addr, take);
      assert forall i :: 0 <= i < |iovs[1..]| ==> iovs[1..][i] == iovs[i + 1];
      SpreadIsPrefix(s, iovs[1..], n - take);
      assert BytesBehind(s, addr, take) == BytesBehind(s, addr, iovs[0].len)[..take];
    }
  }

  // ----- The copy -----

  ghost function Zeros(n: nat): seq<byte> { seq(n, _ => 0) }

  /** The kernel buffer after gathering. */
  ghost function Gathered(mem: Memory, ps: seq<Pos>, n: nat): (r: seq<byte>)
    requires In(mem, ps) && |ps| <= n
    ensures |r| == n
  {
    Bytes(mem, ps) + Zeros(n - |ps|)
  }

  method TotalLen(iovs: seq<IoVec>) returns (n: nat)
    ensures n == Total(iovs)
  {
    n := 0;
    for i := 0 to |iovs|
      invariant n + Total(iovs[i..]) == Total(iovs)
    {
      assert iovs[i..][1..] == iovs[i + 1..];
      n := n + iovs[i].len;
    }
    assert iovs[|iovs|..] == [];
  }

  /** The inner gathering loop: all of one translated range, into `temp` at `copied`. */
  method GatherOne(ram: Ram, slices: seq<Slice>, temp: seq<byte>, copied: nat, take: nat) returns (temp': seq<byte>)
    requires SlicesOk(slices) && In(ram.frames, Flat(slices)) && |Flat(slices)| == take && copied + take <= |temp|
    ensures temp' == temp[..copied] + Bytes(ram.frames, Flat(slices)) + temp[copied + take..]
  {
    hide Flat, Bytes, In, Part, SlicesOk;
    var buf := new UserBuffer(slices, ram);
    temp' := temp;
    var off := 0;
    FlatNone(slices);
    for j := 0 to |slices|
      invariant SlicesOk(slices[..j]) && off == |Flat(slices[..j])| <= take && |temp'| == |temp|
      invariant temp' == temp[..copied] + Bytes(ram.frames, Flat(slices))[..off] + temp[copied + off..]
    {
      FlatAt(slices, j);
      var size := slices[j].hi - slices[j].lo;
      var part := Min(size, take - off);
      assert part == size;
      var data := buf.Peek(j, 0, part);
      temp' := temp'[..copied + off] + data + temp'[copied + off + part..];
      GatherStep(temp, Bytes(ram.frames, Flat(slices)), copied, off, part);
      off := off + part;
    }
    assert slices[..|slices|] == slices;
  }

  lemma GatherStep(temp: seq<byte>, c: seq<byte>, copied: nat, off: nat, n: nat)
    requires off + n <= |c| && copied + |c| <= |temp|
    ensures var t := temp[..copied] + c[..off] + temp[copied + off..];
            t[..copied + off] + c[off + 0..off + n] + t[copied + off + n..]
                == temp[..copied] + c[..off + n] + temp[copied + off + n..]
  {
    var t := temp[..copied] + c[..off] + temp[copied + off..];
    assert t[..copied + off] == temp[..copied] + c[..off];
    assert t[copied + off + n..] == temp[copied + off + n..];
    assert c[..off] + c[off..off + n] == c[..off + n];
  }

  /** One more entry of the list, as the loops see it. */
  lemma SpreadStep(s: Space, iovs: seq<IoVec>, i: nat, n: nat)
    requires i <= |iovs|
    ensures i == |iovs| || n == 0 ==> Spread(s, iovs[i..], n) == []
    ensures i < |iovs| && n > 0 ==>
              var take := Min(iovs[i].len, n);
              Spread(s, iovs[i..], n) ==
                if !Resolved(s, iovs[i].addr, take) then []
                else BytesBehind(s, iovs[i].addr, take) + Spread(s, iovs[i + 1..], n - take)
  {
    if i < |iovs| {
      assert iovs[i..][1..] == iovs[i + 1..];
    }
  }

  /** The first loop: the bytes reached, and zeros after them. */
  method Gather(ram: Ram, s: Space, iovs: seq<IoVec>, n: nat) returns (temp: seq<byte>)
    requires Backed(s, ram.frames)
    ensures In(ram.frames, Spread(s, iovs, n)) && temp == Gathered(ram.frames, Spread(s, iovs, n), n)
  {
    hide Spread, Bytes, Flat, BytesBehind, Gathered, In, Backed, Virtual, Resolved, SlicesOk;
    temp := seq(n, _ => 0);
    var copied := 0;
    ghost var got: seq<Pos> := [];
    GatheredNone(ram.frames, n);
    InNone(ram.frames);
    var i := 0;
    assert iovs[0..] == iovs;
    while i < |iovs|
      invariant i <= |iovs| && copied == |got| <= n && In(ram.frames, got)
      invariant Spread(s, iovs, n) == got + Spread(s, iovs[i..], n - copied)
      invariant temp == Gathered(ram.frames, got, n)
    {
      SpreadStep(s, iovs, i, n - copied);
      if copied >= n {
        break;
      }
      var take := Min(iovs[i].len, n - copied);
      var r := TranslatedByteBuffer(s, iovs[i].addr, take);
      if r.None? {
        break;
      }
      ghost var ps := Flat(r.value);
      BytesBehindIs(s, iovs[i].addr, ps);
      BackedIn(s, ram.frames, iovs[i].addr, ps);
      temp := GatherOne(ram, r.value, temp, copied, take);
      GatheredMore(ram.frames, got, ps, n);
      InConcat(ram.frames, got, ps);
      SpreadAssoc(got, ps, Spread(s, iovs[i + 1..], n - copied - take));
      got := got + ps;
      copied := copied + take;
      i := i + 1;
    }
    SpreadStep(s, iovs, i, n - copied);
    assert got + [] == got;
  }

  lemma SpreadAssoc(a: seq<Pos>, b: seq<Pos>, c: seq<Pos>)
    ensures a + (b + c) == a + b + c
  {
  }

  lemma GatheredNone(mem: Memory, n: nat)
    ensures In(mem, []) && Gathered(mem, [], n) == Zeros(n)
  {
  }

  lemma GatheredMore(mem: Memory, a: seq<Pos>, b: seq<Pos>, n: nat)
    requires In(mem, a) && In(mem, b) && |a| + |b| <= n
    ensures In(mem, a + b)
    ensures var t := Gathered(mem, a, n);
            t[..|a|] + Bytes(mem, b) + t[|a| + |b|..] == Gathered(mem, a + b, n)
  {
    assert Bytes(mem, a + b) == Bytes(mem, a) + Bytes(mem, b);
    assert Gathered(mem, a, n)[..|a|] == Bytes(mem, a);
    assert Gathered(mem, a, n)[|a| + |b|..] == Zeros(n - |a + b|);
  }

  /** The second loop: the kernel buffer goes to the bytes reached. */
  method Scatter(ram: Ram, s: Space, iovs: seq<IoVec>, temp: seq<byte>) returns (written: nat)
    requires Backed(s, ram.frames)
    modifies ram
    ensures In(old(ram.frames), Spread(s, iovs, |temp|)) && written == |Spread(s, iovs, |temp|)|
    ensures ram.frames == PokeAll(old(ram.frames), Spread(s, iovs, |temp|), temp[..written])
  {
    hide Spread, Bytes, Flat, BytesBehind, PokeAll, In, Backed, Virtual, Resolved, SlicesOk;
    ghost var mem := ram.frames;
    written := 0;
    ghost var got: seq<Pos> := [];
    PokeNone(mem);
    InNone(mem);
    var i := 0;
    assert iovs[0..] == iovs && temp[..0] == [];
    while i < |iovs|
      invariant i <= |iovs| && written == |got| <= |temp| && In(mem, got) && Backed(s, ram.frames)
      invariant Spread(s, iovs, |temp|) == got + Spread(s, iovs[i..], |temp| - written)
      invariant ram.frames == PokeAll(mem, got, temp[..written])
    {
      SpreadStep(s, iovs, i, |temp| - written);
      if written >= |temp| {
        break;
      }
      var take := Min(iovs[i].len, |temp| - written);
      var r := TranslatedByteBuffer(s, iovs[i].addr, take);
      if r.None? {
        break;
      }
      ghost var ps := Flat(r.value);
      BytesBehindIs(s, iovs[i].addr, ps);
      BackedIn(s, ram.frames, iovs[i].addr, ps);
      SameFrames(mem, ram.frames, ps);
      var buf := new UserBuffer(r.value, ram);
      var n := buf.Write(temp[written..written + take]);
      assert ps[0..n] == ps && temp[written..written + take][..n] == temp[written..written + take];
      ScatterMore(mem, got, ps, temp, written);
      StaysBacked(s, mem, got + ps, temp[..written + take]);
      SpreadAssoc(got, ps, Spread(s, iovs[i + 1..], |temp| - written - take));
      got := got + ps;
      written := written + take;
      i := i + 1;
    }
    SpreadStep(s, iovs, i, |temp| - written);
    assert got + [] == got;
  }

  lemma SameFrames(mem: Memory, mem': Memory, ps: seq<Pos>)
    requires mem.Keys == mem'.Keys && In(mem', ps)
    ensures In(mem, ps)
  {
  }

  lemma ScatterMore(mem: Memory, a: seq<Pos>, b: seq<Pos>, temp: seq<byte>, w: nat)
    requires In(mem, a) && In(mem, b) && w == |a| && w + |b| <= |temp|
    ensures In(mem, a + b) && In(PokeAll(mem, a, temp[..w]), b)
    ensures PokeAll(PokeAll(mem, a, temp[..w]), b, temp[w..w + |b|]) == PokeAll(mem, a + b, temp[..w + |b|])
  {
    hide PokeAll;
    PokeAllConcat(mem, a, temp[..w], b, temp[w..w + |b|]);
    assert temp[..w] + temp[w..w + |b|] == temp[..w + |b|];
  }

  lemma StaysBacked(s: Space, mem: Memory, ps: seq<Pos>, data: seq<byte>)
    requires In(mem, ps) && |data| == |ps|
    ensures Backed(s, mem) ==> Backed(s, PokeAll(mem, ps, data))
  {
    hide PokeAll;
  }

  /** What the source list reaches, padded with zeros, went to what the target list reaches, and `n` is the
      size of the latter. */
  ghost predicate Copied(mem: Memory, mem': Memory, src: Space, srcIovs: seq<IoVec>, dst: Space,
      dstIovs: seq<IoVec>, n: nat) {
    var size := Min(Total(srcIovs), Total(dstIovs));
    var from, to := Spread(src, srcIovs, size), Spread(dst, dstIovs, size);
    && In(mem, from) && In(mem, to) && n == |to|
    && mem' == PokeAll(mem, to, Gathered(mem, from, size)[..n])
  }

  /** `process_vm_copy`, faults included: what the source list reaches, padded with zeros, goes to what
      the target list reaches, and the size of the latter is reported. */
  method ProcessVmCopy(ram: Ram, src: Space, srcIovs: seq<IoVec>, dst: Space, dstIovs: seq<IoVec>) returns (n: nat)
    requires Backed(src, ram.frames) && Backed(dst, ram.frames)
    modifies ram
    ensures Copied(old(ram.frames), ram.frames, src, srcIovs, dst, dstIovs, n)
  {
    hide Spread, Bytes, Gathered, PokeAll, In, Backed;
    var srcTotal := TotalLen(srcIovs);
    var dstTotal := TotalLen(dstIovs);
    var size := Min(srcTotal, dstTotal);
    if size == 0 {
      SpreadNothing(src, srcIovs);
      SpreadNothing(dst, dstIovs);
      InNone(ram.frames);
      PokeNone(ram.frames);
      assert Gathered(ram.frames, [], 0)[..0] == [];
      return 0;
    }
    var temp := Gather(ram, src, srcIovs, size);
    n := Scatter(ram, dst, dstIovs, temp);
  }

  lemma SpreadNothing(s: Space, iovs: seq<IoVec>)
    ensures Spread(s, iovs, 0) == []
  {
  }

  /** With every page there and no target byte named twice, the copy is a flat copy of the smaller
      total, even where source and target overlap. */
  lemma CopyIsFlat(mem: Memory, mem': Memory, src: Space, srcIovs: seq<IoVec>, dst: Space, dstIovs: seq<IoVec>, n: nat)
    requires Backed(src, mem) && Backed(dst, mem) && AllResolved(src, srcIovs) && AllResolved(dst, dstIovs)
    requires Distinct(AllBytes(dst, dstIovs)) && Copied(mem, mem', src, srcIovs, dst, dstIovs, n)
    ensures var size := Min(Total(srcIovs), Total(dstIovs));
            && n == size
            && In(mem, AllBytes(src, srcIovs)[..size]) && In(mem', AllBytes(dst, dstIovs)[..size])
            && Bytes(mem', AllBytes(dst, dstIovs)[..size]) == Bytes(mem, AllBytes(src, srcIovs)[..size])
  {
    hide Spread, AllBytes, PokeAll, AllResolved;
    var size := Min(Total(srcIovs), Total(dstIovs));
    SpreadIsPrefix(src, srcIovs, size);
    SpreadIsPrefix(dst, dstIovs, size);
    var from, to := Spread(src, srcIovs, size), Spread(dst, dstIovs, size);
    var data := Gathered(mem, from, size);
    assert data == Bytes(mem, from) && data[..size] == data;
    assert Distinct(to);
    FlatWrite(mem, to, 0, data);
    assert to[0..0 + |data|] == to;
    assert Bytes(mem, to)[..0] + data + Bytes(mem, to)[0 + |data|..] == data;
  }

  /** Every byte of `data` is the byte of the source list at its place. */
  ghost predicate FromSource(mem: Memory, from: seq<Pos>, data: seq<byte>)
    requires In(mem, from)
  {
    forall i :: 0 <= i < |data| ==> i < |from| && data[i] == Bytes(mem, from)[i]
  }

  /** The bytes reported as copied all came from the source exactly when the target list reaches no further
      than the source list, which the two page maps tell. Past that the target is filled with zeros. */
  lemma ReportIsHonestIff(mem: Memory, mem': Memory, src: Space, srcIovs: seq<IoVec>, dst: Space,
      dstIovs: seq<IoVec>, n: nat)
    requires Copied(mem, mem', src, srcIovs, dst, dstIovs, n)
    ensures var size := Min(Total(srcIovs), Total(dstIovs));
            var from, to := Spread(src, srcIovs, size), Spread(dst, dstIovs, size);
            var r := Reach(src, srcIovs, size);
            && n == Reach(dst, dstIovs, size) && r == |from|
            && (FromSource(mem, from, Gathered(mem, from, size)[..n]) <==> n <= r)
            && (Distinct(to) ==>
                  && In(mem', to)
                  && Bytes(mem', to) == Bytes(mem, from)[..Min(n, r)] + Zeros(n - Min(n, r)))
  {
    hide Spread, Reach, PokeAll, FromSource, Gathered;
    var size := Min(Total(srcIovs), Total(dstIovs));
    var from, to := Spread(src, srcIovs, size), Spread(dst, dstIovs, size);
    SpreadReaches(src, srcIovs, size);
    SpreadReaches(dst, dstIovs, size);
    PaddedFrom(mem, from, size, n);
    if Distinct(to) {
      var data := Gathered(mem, from, size)[..n];
      FlatWrite(mem, to, 0, data);
      assert to[0..0 + |data|] == to;
      assert Bytes(mem, to)[..0] + data + Bytes(mem, to)[0 + |data|..] == data;
    }
  }

  lemma PaddedFrom(mem: Memory, from: seq<Pos>, size: nat, n: nat)
    requires In(mem, from) && |from| <= size && n <= size
    ensures FromSource(mem, from, Gathered(mem, from, size)[..n]) <==> n <= |from|
    ensures Gathered(mem, from, size)[..n] == Bytes(mem, from)[..Min(n, |from|)] + Zeros(n - Min(n, |from|))
  {
    var data := Gathered(mem, from, size)[..n];
    if n > |from| {
      assert data[|from|] == 0;
    }
  }

  /** Where the target takes everything, that is when no page of the source is missing. */
  lemma FullReportHonestIff(src: Space, srcIovs: seq<IoVec>, dst: Space, dstIovs: seq<IoVec>)
    ensures var size := Min(Total(srcIovs), Total(dstIovs));
            Faultless(dst, dstIovs, size) ==>
              (Reach(dst, dstIovs, size) <= Reach(src, srcIovs, size) <==> Faultless(src, srcIovs, size))
  {
    hide Spread, Reach, Faultless;
    var size := Min(Total(srcIovs), Total(dstIovs));
    SpreadReaches(src, srcIovs, size);
    SpreadReaches(dst, dstIovs, size);
    SpreadFullIff(src, srcIovs, size);
    SpreadFullIff(dst, dstIovs, size);
  }

  /** A missing source page alone does not make the report wrong: the target may stop at the same place. */
  lemma PartialReportHonest()
    ensures var src, dst := Space(map[0 := 0], map[]), Space(map[1 := 1], map[]);
            var si, di := [IoVec(0, 1), IoVec(8192, 1)], [IoVec(4096, 1), IoVec(12288, 1)];
            !Faultless(src, si, 2) && Reach(dst, di, 2) == 1 == Reach(src, si, 2)
  {
    var src, dst := Space(map[0 := 0], map[]), Space(map[1 := 1], map[]);
    var si, di := [IoVec(0, 1), IoVec(8192, 1)], [IoVec(4096, 1), IoVec(12288, 1)];
    assert Resolve(src, PageOf(8192)).None? && Resolve(dst, PageOf(12288)).None?;
    assert Resolved(src, 0, 1) && !Resolved(src, 8192, 1) && Resolved(dst, 4096, 1) && !Resolved(dst, 12288, 1);
    assert si[1..] == [IoVec(8192, 1)] && di[1..] == [IoVec(12288, 1)];
    assert Leading(src, si[1..], 1) == 0 && Leading(dst, di[1..], 1) == 0;
    assert si[..1] == [si[0]] && di[..1] == [di[0]];
    assert Total([si[0]]) == 1 && Total([di[0]]) == 1;
  }

  /** A source page is missing, yet the full count is reported and the target is zeroed. */
  lemma FaultReportedAsCopy(mem: Memory)
    requires 0 in mem && mem[0][0] == 7
    ensures var src, dst := Space(map[], map[]), Space(map[1 := 0], map[]);
            var from, to := Spread(src, [IoVec(0, 1)], 1), Spread(dst, [IoVec(4096, 1)], 1);
            && In(mem, from) && In(mem, to) && |to| == 1
            && PokeAll(mem, to, Gathered(mem, from, 1)[..1])[0][0] == 0
  {
    var src, dst := Space(map[], map[]), Space(map[1 := 0], map[]);
    assert Resolve(src, PageOf(0)).None?;
    assert !Resolved(src, 0, 1);
    assert Resolved(dst, 4096, 1);
    assert Spread(src, [IoVec(0, 1)], 1) == [];
    var to := Spread(dst, [IoVec(4096, 1)], 1);
    assert Spread(dst, [IoVec(4096, 1)][1..], 0) == [];
    assert to == BytesBehind(dst, 4096, 1) == [Pos(0, 0)];
    assert Gathered(mem, [], 1)[..1] == [0];
    PokeAllAt(mem, to, [0], Pos(0, 0));
  }
}
