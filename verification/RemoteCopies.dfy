// The scatter loop of `process_vm_copy` over the page machine: the target space is translated page by page, and a
// page it does not map is faulted in by the handler of the running task.
module RemoteCopies {
  import opened Types
  import opened Paging
  import FA = FrameAllocator
  import ProcessVm
  import Swap
  import Zram

  /** Bytes for one stretch of one page. */
  datatype Piece = Piece(v: nat, off: nat, data: seq<byte>)

  /** Permissions and the stripped flag of the readable user areas of the running task, by page. */
  type Attrs = map<nat, (Perm, bool)>

  predicate InPage(p: Piece) { p.off + |p.data| <= PAGE_SIZE }

  ghost predicate InPages(ps: seq<Piece>) { forall i :: 0 <= i < |ps| ==> InPage(ps[i]) }

  /** The page a write to page `v` of space `a` goes to while space `c` runs: its own if it is mapped, else the one of
      the running task at the same address. */
  function Land(m: Mem, a: nat, c: nat, v: nat): Key {
    if (a, v) in m.pt then (a, v) else (c, v)
  }

  /** One turn of `translated_byte_buffer`. */
  function Translate(m: Mem, a: nat, c: nat, v: nat, attrs: Attrs): (Mem, bool) {
    if (a, v) in m.pt then (m, true)
    else if v in attrs && (c, v) in m.slots then
      var (m', r) := Fault(m, (c, v), attrs[v].0, attrs[v].1);
      (m', r.Resolved?)
    else (m, false)
  }

  function TranslateAll(m: Mem, a: nat, c: nat, ps: seq<Piece>, attrs: Attrs): (Mem, bool)
    decreases |ps|
  {
    if ps == [] then (m, true)
    else
      var (m1, ok) := Translate(m, a, c, ps[0].v, attrs);
      if ok then TranslateAll(m1, a, c, ps[1..], attrs) else (m1, false)
  }

  /** `UserBuffer::write` through frames that have been translated. */
  function WritePiece(m: Mem, a: nat, c: nat, p: Piece): Mem
    requires InPage(p)
  {
    var k := Land(m, a, c, p.v);
    if k in m.pt && k in m.slots then KernelWrite(m, k, p.off, p.data, m.pt[k].perm) else m
  }

  ghost function WritePieces(m: Mem, a: nat, c: nat, ps: seq<Piece>): Mem
    requires InPages(ps)
    decreases |ps|
  {
    if ps == [] then m else WritePieces(WritePiece(m, a, c, ps[0]), a, c, ps[1..])
  }

  // ----- Translation is invisible -----

  /** Every page still has its slot; the pages mapped before still are, and where writes land is the same. */
  ghost predicate Steady(m: Mem, m': Mem, a: nat, c: nat) {
    && m'.slots.Keys == m.slots.Keys && m.pt.Keys <= m'.pt.Keys
    && (forall v :: Land(m', a, c, v) == Land(m, a, c, v))
  }

  lemma TranslateKeeps(m: Mem, a: nat, c: nat, v: nat, attrs: Attrs)
    requires Inv(m)
    ensures var (m', ok) := Translate(m, a, c, v, attrs);
            && Inv(m') && View(m') == View(m) && Steady(m, m', a, c)
            && m'.pt.Keys <= m.pt.Keys + (if (a, v) in m.pt then {} else {(c, v)})
            && (ok ==> Land(m, a, c, v) in m'.pt)
  {
    hide Inv, View, Fault;
    if (a, v) !in m.pt && v in attrs && (c, v) in m.slots {
      FaultKeeps(m, (c, v), attrs[v].0, attrs[v].1);
    }
  }

  lemma {:induction false} TranslateAllKeeps(m: Mem, a: nat, c: nat, ps: seq<Piece>, attrs: Attrs)
    requires Inv(m)
    ensures var (m', ok) := TranslateAll(m, a, c, ps, attrs);
            && Inv(m') && View(m') == View(m) && Steady(m, m', a, c)
            && (ok ==> forall i :: 0 <= i < |ps| ==> Land(m, a, c, ps[i].v) in m'.pt)
    decreases |ps|
  {
    hide Inv, View, Translate;
    if ps != [] {
      TranslateKeeps(m, a, c, ps[0].v, attrs);
      var m1 := Translate(m, a, c, ps[0].v, attrs).0;
      TranslateAllKeeps(m1, a, c, ps[1..], attrs);
    }
  }

  // ----- Writing -----

  /** No page of another space changed. */
  ghost predicate Unseen(m: Mem, m': Mem, a: nat) {
    forall k :: k in View(m) && k.0 != a ==> k in View(m') && View(m')[k] == View(m)[k]
  }

  /** The frame of the page belongs to pages of space `a` alone. */
  ghost predicate Own(m: Mem, a: nat, k: Key)
    requires k in m.slots
  {
    forall k' :: k' in m.slots && m.slots[k'] == m.slots[k] ==> k'.0 == a
  }

  /** The bytes are there already. */
  predicate There(m: Mem, k: Key, p: Piece)
    requires InPage(p) && k in m.slots
  {
    Overwritten(View(m)[k], p.off, p.data) == View(m)[k]
  }

  /** The piece has been translated. */
  ghost predicate LandedAt(m: Mem, a: nat, c: nat, p: Piece) {
    Land(m, a, c, p.v) in m.pt && Land(m, a, c, p.v) in m.slots
  }

  ghost predicate Landed(m: Mem, a: nat, c: nat, ps: seq<Piece>) {
    forall i :: 0 <= i < |ps| ==> LandedAt(m, a, c, ps[i])
  }

  /** What one piece does to every view. */
  lemma PieceShared(m: Mem, a: nat, c: nat, p: Piece)
    requires Inv(m) && InPage(p) && LandedAt(m, a, c, p)
    ensures var m', k := WritePiece(m, a, c, p), Land(m, a, c, p.v);
            && Inv(m') && m'.slots == m.slots && m'.pt == m.pt && View(m').Keys == View(m).Keys == m.slots.Keys
            && forall k' :: k' in m.slots ==>
                 View(m')[k'] == if m.slots[k'] == m.slots[k] then Overwritten(View(m)[k'], p.off, p.data)
                     else View(m)[k']
  {
    hide Inv, View, Overwritten;
    var k := Land(m, a, c, p.v);
    KernelWriteShared(m, k, p.off, p.data, m.pt[k].perm);
    ViewKeys(m);
    ViewKeys(WritePiece(m, a, c, p));
    MappedWritePt(m, k, p.off, p.data, m.pt[k].perm);
  }

  lemma MappedWritePt(m: Mem, k: Key, off: nat, data: seq<byte>, perm: Perm)
    requires k in m.pt && k in m.slots && off + |data| <= PAGE_SIZE
    ensures KernelWrite(m, k, off, data, perm).pt == m.pt
  {
    hide Overwritten;
  }

  /** The piece lands on a frame of the target's own, or its bytes are there already. */
  ghost predicate Harmless(m: Mem, a: nat, c: nat, p: Piece) {
    var k := Land(m, a, c, p.v);
    InPage(p) && k in m.slots && (Own(m, a, k) || There(m, k, p))
  }

  /** One piece stays out of every other space's sight exactly when it is harmless. */
  lemma PieceUnseenIff(m: Mem, a: nat, c: nat, p: Piece)
    requires Inv(m) && InPage(p) && LandedAt(m, a, c, p)
    ensures Unseen(m, WritePiece(m, a, c, p), a) <==> Harmless(m, a, c, p)
  {
    hide Inv, View, Overwritten, WritePiece;
    PieceShared(m, a, c, p);
    var k, m' := Land(m, a, c, p.v), WritePiece(m, a, c, p);
    forall k' | k' in m.slots && m.slots[k'] == m.slots[k]
      ensures View(m)[k'] == View(m)[k]
    {
      SharedView(m, k, k');
    }
    if !Own(m, a, k) && !There(m, k, p) {
      var k' :| k' in m.slots && m.slots[k'] == m.slots[k] && k'.0 != a;
      assert View(m')[k'] != View(m)[k'];
    }
  }

  /** A harmless piece leaves the test of every other piece as it was. */
  lemma PieceKeepsTest(m: Mem, a: nat, c: nat, p: Piece, q: Piece)
    requires Inv(m) && InPage(p) && InPage(q) && LandedAt(m, a, c, p) && LandedAt(m, a, c, q) && Harmless(m, a, c, p)
    ensures var m' := WritePiece(m, a, c, p); LandedAt(m', a, c, q) && (Harmless(m', a, c, q) <==> Harmless(m, a, c, q))
  {
    hide Inv, View, Overwritten, WritePiece;
    PieceShared(m, a, c, p);
    SharedView(m, Land(m, a, c, p.v), Land(m, a, c, q.v));
  }

  lemma UnseenSelf(m: Mem, a: nat)
    ensures Unseen(m, m, a)
  {
  }

  lemma UnseenThen(m: Mem, m1: Mem, m2: Mem, a: nat)
    requires View(m1).Keys == View(m).Keys && Unseen(m, m1, a)
    ensures Unseen(m, m2, a) <==> Unseen(m1, m2, a)
  {
    hide View;
  }

  ghost predicate AlwaysUnseen(m: Mem, a: nat, c: nat, ps: seq<Piece>)
    requires InPages(ps)
  {
    forall n :: 0 <= n <= |ps| ==> Unseen(m, WritePieces(m, a, c, ps[..n]), a)
  }

  /** The moments of the writing of a list are its start and the moments of the rest. */
  lemma UnseenCons(m: Mem, a: nat, c: nat, ps: seq<Piece>)
    requires InPages(ps) && ps != []
    ensures InPage(ps[0]) && InPages(ps[1..])
    ensures AlwaysUnseen(m, a, c, ps) <==>
              forall n :: 0 <= n <= |ps[1..]| ==>
                  Unseen(m, WritePieces(WritePiece(m, a, c, ps[0]), a, c, ps[1..][..n]), a)
  {
    hide WritePiece, Unseen, InPage;
    var rest, m1 := ps[1..], WritePiece(m, a, c, ps[0]);
    forall n | 0 <= n <= |rest|
      ensures WritePieces(m, a, c, ps[..n + 1]) == WritePieces(m1, a, c, rest[..n])
    {
      assert ps[..n + 1][1..] == rest[..n];
    }
    UnseenSelf(m, a);
    assert ps[..0] == [];
    if AlwaysUnseen(m, a, c, ps) {
      forall n | 0 <= n <= |rest|
        ensures Unseen(m, WritePieces(m1, a, c, rest[..n]), a)
      {
        assert Unseen(m, WritePieces(m, a, c, ps[..n + 1]), a);
      }
    }
    if forall n :: 0 <= n <= |rest| ==> Unseen(m, WritePieces(m1, a, c, rest[..n]), a) {
      forall n | 0 <= n <= |ps|
        ensures Unseen(m, WritePieces(m, a, c, ps[..n]), a)
      {
        assert n > 0 ==> Unseen(m, WritePieces(m1, a, c, rest[..n - 1]), a);
      }
    }
  }

  /** No other space sees anything at any moment of the writing, exactly when every piece is harmless; all of it is
      decided by the state after translation. */
  lemma {:induction false} PiecesUnseenIff(m: Mem, a: nat, c: nat, ps: seq<Piece>)
    requires Inv(m) && InPages(ps) && Landed(m, a, c, ps)
    ensures AlwaysUnseen(m, a, c, ps) <==> forall i :: 0 <= i < |ps| ==> Harmless(m, a, c, ps[i])
    decreases |ps|
  {
    hide Inv, View, WritePiece, Unseen, Harmless, InPage, LandedAt, AlwaysUnseen;
    if ps == [] {
      NothingUnseen(m, a, c);
    } else {
      var p, rest, m1 := ps[0], ps[1..], WritePiece(m, a, c, ps[0]);
      UnseenCons(m, a, c, ps);
      PieceUnseenIff(m, a, c, p);
      PieceShared(m, a, c, p);
      RestHarmless(m, a, c, ps);
      if Harmless(m, a, c, p) {
        PiecesUnseenIff(m1, a, c, rest);
        RestUnseen(m, m1, a, c, rest);
      } else {
        assert WritePieces(m1, a, c, rest[..0]) == m1;
      }
    }
  }

  lemma NothingUnseen(m: Mem, a: nat, c: nat)
    ensures AlwaysUnseen(m, a, c, [])
  {
    hide View, WritePiece;
  }

  lemma RestUnseen(m: Mem, m1: Mem, a: nat, c: nat, rest: seq<Piece>)
    requires InPages(rest) && View(m1).Keys == View(m).Keys && Unseen(m, m1, a)
    ensures AlwaysUnseen(m1, a, c, rest) <==>
              forall n :: 0 <= n <= |rest| ==> Unseen(m, WritePieces(m1, a, c, rest[..n]), a)
  {
    hide View, WritePiece, WritePieces, Unseen, InPage;
    forall n | 0 <= n <= |rest|
      ensures Unseen(m, WritePieces(m1, a, c, rest[..n]), a) <==> Unseen(m1, WritePieces(m1, a, c, rest[..n]), a)
    {
      UnseenThen(m, m1, WritePieces(m1, a, c, rest[..n]), a);
    }
  }

  lemma RestHarmless(m: Mem, a: nat, c: nat, ps: seq<Piece>)
    requires Inv(m) && InPages(ps) && Landed(m, a, c, ps) && ps != []
    ensures InPages(ps[1..])
    ensures Harmless(m, a, c, ps[0]) ==>
              var m1 := WritePiece(m, a, c, ps[0]);
              && Landed(m1, a, c, ps[1..])
              && ((forall i :: 0 <= i < |ps| ==> Harmless(m, a, c, ps[i]))
                  <==> forall i :: 0 <= i < |ps[1..]| ==> Harmless(m1, a, c, ps[1..][i]))
  {
    hide Inv, View, WritePiece, Harmless, InPage, LandedAt;
    var rest := ps[1..];
    assert InPage(ps[0]) && LandedAt(m, a, c, ps[0]);
    assert forall i :: 0 <= i < |rest| ==> rest[i] == ps[i + 1];
    if Harmless(m, a, c, ps[0]) {
      var m1 := WritePiece(m, a, c, ps[0]);
      forall i | 0 <= i < |rest|
        ensures LandedAt(m1, a, c, rest[i]) && (Harmless(m1, a, c, rest[i]) <==> Harmless(m, a, c, ps[i + 1]))
      {
        PieceKeepsTest(m, a, c, ps[0], ps[i + 1]);
      }
      if forall i :: 0 <= i < |rest| ==> Harmless(m1, a, c, rest[i]) {
        forall i | 0 <= i < |ps|
          ensures Harmless(m, a, c, ps[i])
        {
          assert i > 0 ==> Harmless(m1, a, c, rest[i - 1]);
        }
      }
    }
  }

  // ----- Read off the state before the call -----

  /** The pages of the running task that the translation faults in. */
  ghost function Hits(m: Mem, a: nat, c: nat, ps: seq<Piece>): set<Key> {
    set i | 0 <= i < |ps| && (a, ps[i].v) !in m.pt :: (c, ps[i].v)
  }

  /** The pages of `hit` have frames of their own, all others the trackers they had. */
  ghost predicate Separated(m: Mem, m': Mem, hit: set<Key>) {
    && m'.slots.Keys == m.slots.Keys
    && (forall k :: k in m.slots && k in hit ==> Sole(m', k))
    && (forall k :: k in m.slots && k !in hit ==> m'.slots[k] == m.slots[k])
  }

  lemma FaultSeparates(m: Mem, k: Key, perm: Perm, stripped: bool)
    requires Inv(m) && k in m.slots && Fault(m, k, perm, stripped).1.Resolved?
    ensures Separated(m, Fault(m, k, perm, stripped).0, {k})
  {
    hide Inv, View, Fault;
    FaultKeeps(m, k, perm, stripped);
    if k in m.pt && Sole(m, k) {
      FaultRegrants(m, k, perm, stripped);
    } else {
      FaultFresh(m, k, perm, stripped);
    }
  }

  lemma FaultRegrants(m: Mem, k: Key, perm: Perm, stripped: bool)
    requires k in m.slots && k in m.pt && Sole(m, k)
    ensures Fault(m, k, perm, stripped).0.slots == m.slots
  {
  }

  lemma FaultFresh(m: Mem, k: Key, perm: Perm, stripped: bool)
    requires Inv(m) && k in m.slots && (k in m.pt ==> !Sole(m, k)) && Fault(m, k, perm, stripped).1.Resolved?
    ensures !Held(m, InMemory(Fault(m, k, perm, stripped).1.ppn))
  {
    hide View, Bytes, Readable, Paging.Put, WritableIsSole, Sole, Mapped;
    FA.AllocTakesOne(m.frames);
  }

  lemma SeparatedNone(m: Mem)
    ensures Separated(m, m, {})
  {
  }

  lemma SeparatedThen(m: Mem, m1: Mem, m2: Mem, hit1: set<Key>, hit2: set<Key>)
    requires Separated(m, m1, hit1) && Separated(m1, m2, hit2)
    ensures Separated(m, m2, hit1 + hit2)
  {
    forall j | j in m.slots && j in hit1 + hit2
      ensures Sole(m2, j)
    {
      if j !in hit2 {
        assert Sole(m1, j);
        forall k | k in m2.slots && m2.slots[k] == m2.slots[j]
          ensures k == j
        {
          assert k in hit2 ==> Sole(m2, k);
        }
      }
    }
  }

  lemma TranslateSeparates(m: Mem, a: nat, c: nat, v: nat, attrs: Attrs)
    requires Inv(m) && Translate(m, a, c, v, attrs).1
    ensures Separated(m, Translate(m, a, c, v, attrs).0, if (a, v) in m.pt then {} else {(c, v)})
  {
    hide Inv, Fault, Sole;
    if (a, v) !in m.pt {
      FaultSeparates(m, (c, v), attrs[v].0, attrs[v].1);
    }
  }

  /** After a translation the pages it faulted in are alone on their frames and nothing else has moved. */
  lemma {:induction false} TranslateAllSeparates(m: Mem, a: nat, c: nat, ps: seq<Piece>, attrs: Attrs)
    requires Inv(m) && TranslateAll(m, a, c, ps, attrs).1
    ensures Separated(m, TranslateAll(m, a, c, ps, attrs).0, Hits(m, a, c, ps))
    decreases |ps|
  {
    hide Inv, View, Translate, Separated;
    if ps == [] {
      assert Hits(m, a, c, ps) == {};
      SeparatedNone(m);
    } else {
      var v, rest := ps[0].v, ps[1..];
      var m1 := Translate(m, a, c, v, attrs).0;
      TranslateKeeps(m, a, c, v, attrs);
      TranslateSeparates(m, a, c, v, attrs);
      TranslateAllSeparates(m1, a, c, rest, attrs);
      var m2 := TranslateAll(m1, a, c, rest, attrs).0;
      var hit := if (a, v) in m.pt then {} else {(c, v)};
      HitsCons(m, m1, a, c, ps);
      SeparatedThen(m, m1, m2, hit, Hits(m1, a, c, rest));
    }
  }

  lemma HitsCons(m: Mem, m1: Mem, a: nat, c: nat, ps: seq<Piece>)
    requires ps != [] && Steady(m, m1, a, c)
    requires m1.pt.Keys <= m.pt.Keys + if (a, ps[0].v) in m.pt then {} else {(c, ps[0].v)}
    ensures Hits(m, a, c, ps) == (if (a, ps[0].v) in m.pt then {} else {(c, ps[0].v)}) + Hits(m1, a, c, ps[1..])
  {
    var v, rest := ps[0].v, ps[1..];
    var hit := if (a, v) in m.pt then {} else {(c, v)};
    forall k
      ensures k in Hits(m, a, c, ps) <==> k in hit + Hits(m1, a, c, rest)
    {
      if k in Hits(m, a, c, ps) && k !in hit {
        var i :| 0 <= i < |ps| && (a, ps[i].v) !in m.pt && k == (c, ps[i].v);
        assert i > 0 && rest[i - 1] == ps[i];
        assert Land(m1, a, c, ps[i].v) == Land(m, a, c, ps[i].v);
        assert (a, rest[i - 1].v) !in m1.pt;
      }
      if k in Hits(m1, a, c, rest) {
        var i :| 0 <= i < |rest| && (a, rest[i].v) !in m1.pt && k == (c, rest[i].v);
        assert rest[i] == ps[i + 1];
      }
    }
  }

  /** The target alone sees the piece, judged before the call: a page it maps is shared with no other space, other than
      by pages the translation is about to separate; a page it does not map must be the running task's own. */
  ghost predicate Safe(m: Mem, a: nat, c: nat, ps: seq<Piece>, p: Piece) {
    if (a, p.v) in m.pt && (a, p.v) in m.slots then
      forall k :: k in m.slots && m.slots[k] == m.slots[(a, p.v)] && k !in Hits(m, a, c, ps) ==> k.0 == a
    else a == c
  }

  lemma OwnIffSafe(m: Mem, m1: Mem, a: nat, c: nat, ps: seq<Piece>, i: nat)
    requires Inv(m) && Separated(m, m1, Hits(m, a, c, ps)) && i < |ps|
    requires Land(m, a, c, ps[i].v) in m1.slots
    ensures Own(m1, a, Land(m, a, c, ps[i].v)) <==> Safe(m, a, c, ps, ps[i])
  {
    hide Accounted, WritableIsSole, View;
    var k, hit := Land(m, a, c, ps[i].v), Hits(m, a, c, ps);
    if (a, ps[i].v) !in m.pt {
      assert k in hit && Sole(m1, k);
    }
  }

  /** No other space sees anything at any moment of the delivery of an entry, exactly when each piece is safe or its
      bytes are where it lands already: all judged before the call. */
  lemma EntryUnseenIff(m: Mem, a: nat, c: nat, ps: seq<Piece>, attrs: Attrs)
    requires Inv(m) && InPages(ps) && TranslateAll(m, a, c, ps, attrs).1
    ensures var m1 := TranslateAll(m, a, c, ps, attrs).0;
            && View(m1) == View(m) && (forall i :: 0 <= i < |ps| ==> Land(m, a, c, ps[i].v) in m.slots)
            && (AlwaysUnseen(m1, a, c, ps) <==>
                forall i :: 0 <= i < |ps| ==> Safe(m, a, c, ps, ps[i]) || There(m, Land(m, a, c, ps[i].v), ps[i]))
  {
    hide Inv, View, TranslateAll, Safe, Own, Separated, AlwaysUnseen, Overwritten;
    var m1 := TranslateAll(m, a, c, ps, attrs).0;
    TranslateAllKeeps(m, a, c, ps, attrs);
    TranslateAllSeparates(m, a, c, ps, attrs);
    ViewKeys(m);
    ViewKeys(m1);
    PiecesUnseenIff(m1, a, c, ps);
    forall i | 0 <= i < |ps|
      ensures Harmless(m1, a, c, ps[i]) <==> Safe(m, a, c, ps, ps[i]) || There(m, Land(m, a, c, ps[i].v), ps[i])
    {
      assert InPage(ps[i]) && Land(m1, a, c, ps[i].v) == Land(m, a, c, ps[i].v);
      OwnIffSafe(m, m1, a, c, ps, i);
    }
  }

  /** A page can be had exactly if the target maps it, or the running task has a readable area there and its own page
      can be repaired. */
  lemma TranslatesIff(m: Mem, a: nat, c: nat, v: nat, attrs: Attrs)
    requires Inv(m)
    ensures Translate(m, a, c, v, attrs).1 <==>
              || (a, v) in m.pt
              || (&& v in attrs && (c, v) in m.slots
                  && if (c, v) in m.pt then !attrs[v].1 && (Sole(m, (c, v)) || FA.Unallocated(m.frames) > 0)
                     else FA.Unallocated(m.frames) > 0)
  {
    hide Inv, Fault, Sole;
    if (a, v) !in m.pt && v in attrs && (c, v) in m.slots {
      FaultResolves(m, (c, v), attrs[v].0, attrs[v].1);
    }
  }

  // ----- Whole copies -----

  /** The stretches of consecutive pages that `data` at `addr` falls into. */
  function PiecesOf(addr: nat, data: seq<byte>): (ps: seq<Piece>)
    ensures InPages(ps)
    decreases |data|
  {
    if data == [] then []
    else
      var n := Min(|data|, PAGE_SIZE - addr % PAGE_SIZE);
      [Piece(addr / PAGE_SIZE, addr % PAGE_SIZE, data[..n])] + PiecesOf(addr + n, data[n..])
  }

  /** One entry of the list: all its pages are translated before the first byte is written. */
  ghost function Deliver(m: Mem, a: nat, c: nat, addr: nat, data: seq<byte>, attrs: Attrs): (Mem, bool) {
    var ps := PiecesOf(addr, data);
    var (m1, ok) := TranslateAll(m, a, c, ps, attrs);
    if ok then (WritePieces(m1, a, c, ps), true) else (m1, false)
  }

  /** The second loop of `process_vm_copy`: the kernel buffer goes out entry by entry until a page cannot be had. */
  ghost function Scatter(m: Mem, a: nat, c: nat, iovs: seq<ProcessVm.IoVec>, temp: seq<byte>, attrs: Attrs): (Mem, nat)
    decreases |iovs|
  {
    if iovs == [] || temp == [] then (m, 0)
    else
      var take := Min(iovs[0].len, |temp|);
      var (m1, ok) := Deliver(m, a, c, iovs[0].addr, temp[..take], attrs);
      if !ok then (m1, 0)
      else
        var (m2, n) := Scatter(m1, a, c, iovs[1..], temp[take..], attrs);
        (m2, take + n)
  }

  /** No page space `a` maps is shared with another space. */
  ghost predicate Unshared(m: Mem, a: nat) {
    forall k :: k in m.pt && k in m.slots && k.0 == a ==> Own(m, a, k)
  }

  lemma {:induction false} PiecesKeep(m: Mem, a: nat, c: nat, ps: seq<Piece>)
    requires Inv(m) && InPages(ps) && Landed(m, a, c, ps)
    ensures var m' := WritePieces(m, a, c, ps);
            Inv(m') && m'.slots == m.slots && m'.pt == m.pt && View(m').Keys == View(m).Keys
    decreases |ps|
  {
    hide Inv, View, WritePiece, InPage;
    if ps != [] {
      assert InPage(ps[0]) && LandedAt(m, a, c, ps[0]);
      PieceShared(m, a, c, ps[0]);
      PiecesKeep(WritePiece(m, a, c, ps[0]), a, c, ps[1..]);
    }
  }

  /** Delivering an entry keeps every resource accounted for, whether or not it succeeds. */
  lemma DeliverKeeps(m: Mem, a: nat, c: nat, addr: nat, data: seq<byte>, attrs: Attrs)
    requires Inv(m)
    ensures var (m', ok) := Deliver(m, a, c, addr, data, attrs);
            && Inv(m') && Steady(m, m', a, c) && View(m').Keys == View(m).Keys && (!ok ==> View(m') == View(m))
  {
    hide Inv, View, TranslateAll, WritePieces, PiecesOf, InPage, LandedAt;
    var ps := PiecesOf(addr, data);
    TranslateAllKeeps(m, a, c, ps, attrs);
    var (m1, ok) := TranslateAll(m, a, c, ps, attrs);
    ViewKeys(m);
    ViewKeys(m1);
    if ok {
      LandedAfter(m, m1, a, c, ps);
      PiecesKeep(m1, a, c, ps);
    }
  }

  lemma LandedAfter(m: Mem, m1: Mem, a: nat, c: nat, ps: seq<Piece>)
    requires Inv(m1) && Steady(m, m1, a, c) && forall i :: 0 <= i < |ps| ==> Land(m, a, c, ps[i].v) in m1.pt
    ensures Landed(m1, a, c, ps)
  {
    hide View;
    ViewKeys(m1);
  }

  /** A task that shares no mapped page with another space writes to its own space unseen. */
  lemma OwnDeliverUnseen(m: Mem, a: nat, addr: nat, data: seq<byte>, attrs: Attrs)
    requires Inv(m) && Unshared(m, a)
    ensures Unseen(m, Deliver(m, a, a, addr, data, attrs).0, a) && Unshared(Deliver(m, a, a, addr, data, attrs).0, a)
  {
    hide Inv, View, TranslateAll, WritePieces, PiecesOf, InPage, LandedAt, Unseen, AlwaysUnseen, Safe, There, Separated;
    var ps := PiecesOf(addr, data);
    var (m1, ok) := TranslateAll(m, a, a, ps, attrs);
    TranslateAllKeeps(m, a, a, ps, attrs);
    TranslateUnshared(m, a, ps, attrs);
    SameUnseen(m, m1, a);
    if ok {
      LandedAfter(m, m1, a, a, ps);
      PiecesKeep(m1, a, a, ps);
      EntryUnseenIff(m, a, a, ps, attrs);
      forall i | 0 <= i < |ps|
        ensures Safe(m, a, a, ps, ps[i])
      {
        UnsharedSafe(m, a, ps, i);
      }
      LastUnseen(m1, a, ps);
      UnseenThen(m, m1, WritePieces(m1, a, a, ps), a);
    }
  }

  lemma SameUnseen(m: Mem, m1: Mem, a: nat)
    requires View(m1) == View(m)
    ensures Unseen(m, m1, a)
  {
  }

  lemma LastUnseen(m: Mem, a: nat, ps: seq<Piece>)
    requires InPages(ps) && AlwaysUnseen(m, a, a, ps)
    ensures Unseen(m, WritePieces(m, a, a, ps), a)
  {
    hide View, WritePiece, WritePieces, Unseen, InPage;
    assert ps[..|ps|] == ps;
  }

  lemma UnsharedSafe(m: Mem, a: nat, ps: seq<Piece>, i: nat)
    requires Unshared(m, a) && i < |ps|
    ensures Safe(m, a, a, ps, ps[i])
  {
  }

  lemma {:induction false} TranslateUnshared(m: Mem, a: nat, ps: seq<Piece>, attrs: Attrs)
    requires Inv(m) && Unshared(m, a)
    ensures Unshared(TranslateAll(m, a, a, ps, attrs).0, a)
    decreases |ps|
  {
    hide Inv, View, Translate, Unshared;
    if ps != [] {
      TranslateKeeps(m, a, a, ps[0].v, attrs);
      OneUnshared(m, a, ps[0].v, attrs);
      TranslateUnshared(Translate(m, a, a, ps[0].v, attrs).0, a, ps[1..], attrs);
    }
  }

  lemma OneUnshared(m: Mem, a: nat, v: nat, attrs: Attrs)
    requires Inv(m) && Unshared(m, a)
    ensures Unshared(Translate(m, a, a, v, attrs).0, a)
  {
    hide Inv, View, Fault;
    if (a, v) !in m.pt && v in attrs && (a, v) in m.slots {
      FaultKeeps(m, (a, v), attrs[v].0, attrs[v].1);
      var (m', r) := Fault(m, (a, v), attrs[v].0, attrs[v].1);
      if r.Resolved? {
        FaultSeparates(m, (a, v), attrs[v].0, attrs[v].1);
        forall k | k in m'.pt && k in m'.slots && k.0 == a
          ensures Own(m', a, k)
        {
          assert k != (a, v) ==> Own(m, a, k);
          assert k == (a, v) ==> Sole(m', k);
        }
      }
    }
  }

  /** A whole copy into the running task's own space is unseen by every other space if it shares no mapped page. */
  lemma {:induction false} OwnScatterUnseen(m: Mem, a: nat, iovs: seq<ProcessVm.IoVec>, temp: seq<byte>, attrs: Attrs)
    requires Inv(m) && Unshared(m, a)
    ensures var m' := Scatter(m, a, a, iovs, temp, attrs).0;
            Inv(m') && Unseen(m, m', a) && View(m').Keys == View(m).Keys
    decreases |iovs|
  {
    hide Inv, View, Deliver, Unseen, Unshared;
    UnseenSelf(m, a);
    if iovs != [] && temp != [] {
      var take := Min(iovs[0].len, |temp|);
      var addr := iovs[0].addr;
      DeliverKeeps(m, a, a, addr, temp[..take], attrs);
      OwnDeliverUnseen(m, a, addr, temp[..take], attrs);
      var (m1, ok) := Deliver(m, a, a, addr, temp[..take], attrs);
      if ok {
        OwnScatterUnseen(m1, a, iovs[1..], temp[take..], attrs);
        UnseenThen(m, m1, Scatter(m1, a, a, iovs[1..], temp[take..], attrs).0, a);
      }
    }
  }

  // ----- The target's own view -----

  /** The pieces on plain memory. */
  ghost function PlainPieces(view: map<Key, Page>, a: nat, ps: seq<Piece>): map<Key, Page>
    requires InPages(ps)
    decreases |ps|
  {
    if ps == [] then view
    else
      var k, p := (a, ps[0].v), ps[0];
      PlainPieces(if k in view then view[k := Overwritten(view[k], p.off, p.data)] else view, a, ps[1..])
  }

  /** Pieces that land on the target's own pages, each alone on its frame, write what they would to plain memory. */
  lemma {:induction false} PiecesPlain(m: Mem, a: nat, c: nat, ps: seq<Piece>)
    requires Inv(m) && InPages(ps) && Landed(m, a, c, ps)
    requires forall i :: 0 <= i < |ps| ==>
               Land(m, a, c, ps[i].v) == (a, ps[i].v) && (a, ps[i].v) in m.slots && Sole(m, (a, ps[i].v))
    ensures View(WritePieces(m, a, c, ps)) == PlainPieces(View(m), a, ps)
    decreases |ps|
  {
    hide Inv, View, WritePiece, InPage, Sole, Overwritten;
    if ps != [] {
      var p, m1, k := ps[0], WritePiece(m, a, c, ps[0]), (a, ps[0].v);
      assert InPage(p) && LandedAt(m, a, c, p) && Land(m, a, c, p.v) == k;
      PieceShared(m, a, c, p);
      SolePiece(m, m1, k, p);
      forall i | 0 <= i < |ps[1..]|
        ensures (a, ps[1..][i].v) in m1.slots && Sole(m1, (a, ps[1..][i].v))
      {
        assert ps[1..][i] == ps[i + 1];
        SoleSame(m, m1, (a, ps[i + 1].v));
      }
      PiecesPlain(m1, a, c, ps[1..]);
    }
  }

  lemma SolePiece(m: Mem, m1: Mem, k: Key, p: Piece)
    requires InPage(p) && k in m.slots && Sole(m, k) && View(m1).Keys == View(m).Keys == m.slots.Keys
    requires forall k' :: k' in m.slots ==>
               View(m1)[k'] == if m.slots[k'] == m.slots[k] then Overwritten(View(m)[k'], p.off, p.data)
                   else View(m)[k']
    ensures View(m1) == View(m)[k := Overwritten(View(m)[k], p.off, p.data)]
  {
    hide View, Overwritten;
  }

  lemma SoleSame(m: Mem, m1: Mem, k: Key)
    requires m1.slots == m.slots && k in m.slots
    ensures Sole(m1, k) <==> Sole(m, k)
  {
  }

  /** On plain memory the pieces of an entry are one flat write. */
  lemma {:induction false} PlainIsFlat(view: map<Key, Page>, a: nat, addr: nat, data: seq<byte>, k: Key)
    requires k in view && forall x: nat :: addr <= x < addr + |data| ==> (a, x / PAGE_SIZE) in view
    ensures k in PlainPieces(view, a, PiecesOf(addr, data))
    ensures k.0 != a ==> PlainPieces(view, a, PiecesOf(addr, data))[k] == view[k]
    ensures k.0 == a ==> forall o :: 0 <= o < PAGE_SIZE ==>
              var x := k.1 * PAGE_SIZE + o;
              PlainPieces(view, a, PiecesOf(addr, data))[k][o]
                  == if addr <= x < addr + |data| then data[x - addr] else view[k][o]
    decreases |data|
  {
    hide Overwritten, PlainPieces, PiecesOf;
    if data == [] {
      NoPieces(view, a, addr);
    } else {
      var n := Min(|data|, PAGE_SIZE - addr % PAGE_SIZE);
      var l := (a, addr / PAGE_SIZE);
      var view1 := PlainCons(view, a, addr, data);
      PlainIsFlat(view1, a, addr + n, data[n..], k);
      if k.0 == a {
        forall o | 0 <= o < PAGE_SIZE
          ensures var x := k.1 * PAGE_SIZE + o;
                  PlainPieces(view, a, PiecesOf(addr, data))[k][o]
                  == if addr <= x < addr + |data| then data[x - addr] else view[k][o]
        {
          FlatStep(view, view1, k, l, addr, data, n, o);
        }
      }
    }
  }

  lemma NoPieces(view: map<Key, Page>, a: nat, addr: nat)
    ensures PlainPieces(view, a, PiecesOf(addr, [])) == view
  {
  }

  lemma PlainCons(view: map<Key, Page>, a: nat, addr: nat, data: seq<byte>) returns (view1: map<Key, Page>)
    requires data != [] && (a, addr / PAGE_SIZE) in view
    ensures var n := Min(|data|, PAGE_SIZE - addr % PAGE_SIZE); var l := (a, addr / PAGE_SIZE);
            && view1 == view[l := Overwritten(view[l], addr % PAGE_SIZE, data[..n])]
            && PlainPieces(view, a, PiecesOf(addr, data)) == PlainPieces(view1, a, PiecesOf(addr + n, data[n..]))
  {
    hide Overwritten;
    var n := Min(|data|, PAGE_SIZE - addr % PAGE_SIZE);
    var l := (a, addr / PAGE_SIZE);
    view1 := view[l := Overwritten(view[l], addr % PAGE_SIZE, data[..n])];
    assert PiecesOf(addr, data)[1..] == PiecesOf(addr + n, data[n..]);
  }

  lemma OverwrittenAt(page: Page, off: nat, data: seq<byte>)
    requires off + |data| <= PAGE_SIZE
    ensures forall o :: 0 <= o < PAGE_SIZE ==>
            Overwritten(page, off, data)[o] == if off <= o < off + |data| then data[o - off] else page[o]
  {
  }

  lemma FlatStep(view: map<Key, Page>, view1: map<Key, Page>, k: Key, l: Key, addr: nat, data: seq<byte>, n: nat,
      o: nat)
    requires o < PAGE_SIZE && 0 < n <= |data| && n <= PAGE_SIZE - addr % PAGE_SIZE && k in view && l in view
    requires l == (k.0, addr / PAGE_SIZE)
    requires view1 == view[l := Overwritten(view[l], addr % PAGE_SIZE, data[..n])]
    ensures var x := k.1 * PAGE_SIZE + o;
            (if addr + n <= x < addr + |data| then data[n..][x - addr - n] else view1[k][o])
            == if addr <= x < addr + |data| then data[x - addr] else view[k][o]
  {
    hide Overwritten;
    OverwrittenAt(view[l], addr % PAGE_SIZE, data[..n]);
    var q, r := addr / PAGE_SIZE, addr % PAGE_SIZE;
    assert addr == q * PAGE_SIZE + r;
  }

  /** An entry delivered to the running task's own space, none of whose mapped pages in range is shared, is one flat
      write to that space and changes nothing else. */
  lemma OwnDeliverIsFlat(m: Mem, a: nat, addr: nat, data: seq<byte>, attrs: Attrs, k: Key)
    requires Inv(m) && Deliver(m, a, a, addr, data, attrs).1 && k in m.slots
    requires forall x: nat ::
               addr <= x < addr + |data| && (a, x / PAGE_SIZE) in m.pt && (a, x / PAGE_SIZE) in m.slots ==>
                 Sole(m, (a, x / PAGE_SIZE))
    ensures var view := View(Deliver(m, a, a, addr, data, attrs).0);
            && k in View(m) && k in view && (k.0 != a ==> view[k] == View(m)[k])
            && (k.0 == a ==> forall o :: 0 <= o < PAGE_SIZE ==>
                  var x := k.1 * PAGE_SIZE + o;
                  view[k][o] == if addr <= x < addr + |data| then data[x - addr] else View(m)[k][o])
  {
    hide Inv, View, TranslateAll, WritePieces, PiecesOf, InPage, LandedAt, Sole, PlainPieces;
    var ps := PiecesOf(addr, data);
    TranslateAllKeeps(m, a, a, ps, attrs);
    TranslateAllSeparates(m, a, a, ps, attrs);
    var m1 := TranslateAll(m, a, a, ps, attrs).0;
    LandedAfter(m, m1, a, a, ps);
    ViewKeys(m);
    forall i | 0 <= i < |ps|
      ensures Land(m1, a, a, ps[i].v) == (a, ps[i].v) && (a, ps[i].v) in m1.slots && Sole(m1, (a, ps[i].v))
    {
      PieceInRange(addr, data, i);
      LandedSlot(m1, a, ps, i);
      SoleAfter(m, m1, a, ps, i);
    }
    PiecesPlain(m1, a, a, ps);
    forall x: nat | addr <= x < addr + |data|
      ensures (a, x / PAGE_SIZE) in View(m)
    {
      var i := PieceOf(addr, data, x);
      LandedSlot(m1, a, ps, i);
    }
    PlainIsFlat(View(m), a, addr, data, k);
  }

  lemma LandedSlot(m: Mem, a: nat, ps: seq<Piece>, i: nat)
    requires Landed(m, a, a, ps) && i < |ps|
    ensures (a, ps[i].v) in m.slots && Land(m, a, a, ps[i].v) == (a, ps[i].v)
  {
    assert LandedAt(m, a, a, ps[i]);
  }

  lemma SoleAfter(m: Mem, m1: Mem, a: nat, ps: seq<Piece>, i: nat)
    requires Inv(m) && Separated(m, m1, Hits(m, a, a, ps)) && i < |ps| && (a, ps[i].v) in m.slots
    requires (a, ps[i].v) in m.pt ==> Sole(m, (a, ps[i].v))
    ensures Sole(m1, (a, ps[i].v))
  {
    hide Inv;
    var k, hit := (a, ps[i].v), Hits(m, a, a, ps);
    if k in m.pt {
      forall k' | k' in m1.slots && m1.slots[k'] == m1.slots[k]
        ensures k' == k
      {
        assert k' in hit ==> Sole(m1, k');
      }
    } else {
      assert k in hit;
    }
  }

  /** Every piece of an entry holds some byte of its range. */
  lemma {:induction false} PieceInRange(addr: nat, data: seq<byte>, i: nat)
    requires i < |PiecesOf(addr, data)|
    ensures exists x: nat :: addr <= x < addr + |data| && x / PAGE_SIZE == PiecesOf(addr, data)[i].v
    decreases |data|
  {
    var n := Min(|data|, PAGE_SIZE - addr % PAGE_SIZE);
    if i == 0 {
      assert addr / PAGE_SIZE == PiecesOf(addr, data)[0].v;
    } else {
      PieceInRange(addr + n, data[n..], i - 1);
      var x: nat :| addr + n <= x < addr + n + |data[n..]| && x / PAGE_SIZE == PiecesOf(addr + n, data[n..])[i - 1].v;
      assert PiecesOf(addr, data)[i] == PiecesOf(addr + n, data[n..])[i - 1];
    }
  }

  /** Every byte of the range is in some piece. */
  lemma {:induction false} PieceOf(addr: nat, data: seq<byte>, x: nat) returns (i: nat)
    requires addr <= x < addr + |data|
    ensures i < |PiecesOf(addr, data)| && PiecesOf(addr, data)[i].v == x / PAGE_SIZE
    decreases |data|
  {
    var n := Min(|data|, PAGE_SIZE - addr % PAGE_SIZE);
    if x < addr + n {
      i := 0;
    } else {
      var j := PieceOf(addr + n, data[n..], x);
      i := j + 1;
    }
  }

  // ----- What a whole copy reports -----

  /** Every page space `a` maps is alone on its frame. */
  ghost predicate AllSole(m: Mem, a: nat) {
    forall k :: k in m.pt && k in m.slots && k.0 == a ==> Sole(m, k)
  }

  lemma AllSoleAfter(m: Mem, m1: Mem, a: nat, hit: set<Key>)
    requires Inv(m) && Inv(m1) && AllSole(m, a) && Separated(m, m1, hit)
    ensures AllSole(m1, a)
  {
    hide View, Accounted, WritableIsSole;
    forall k | k in m1.pt && k in m1.slots && k.0 == a
      ensures Sole(m1, k)
    {
      forall k' | k' in m1.slots && m1.slots[k'] == m1.slots[k]
        ensures k' == k
      {
        assert k' in hit ==> Sole(m1, k');
        assert k in hit ==> Sole(m1, k);
        assert k !in hit ==> k in m.pt && Sole(m, k);
      }
    }
  }

  /** A delivered entry is its pieces on plain memory. */
  lemma DeliverIsPlain(m: Mem, a: nat, addr: nat, data: seq<byte>, attrs: Attrs)
    requires Inv(m) && AllSole(m, a) && Deliver(m, a, a, addr, data, attrs).1
    ensures var m' := Deliver(m, a, a, addr, data, attrs).0;
            Inv(m') && AllSole(m', a) && View(m') == PlainPieces(View(m), a, PiecesOf(addr, data))
  {
    hide Inv, View, TranslateAll, WritePieces, PiecesOf, InPage, LandedAt, Sole, PlainPieces, Separated;
    var ps := PiecesOf(addr, data);
    TranslateAllKeeps(m, a, a, ps, attrs);
    TranslateAllSeparates(m, a, a, ps, attrs);
    var m1 := TranslateAll(m, a, a, ps, attrs).0;
    LandedAfter(m, m1, a, a, ps);
    AllSoleAfter(m, m1, a, Hits(m, a, a, ps));
    forall i | 0 <= i < |ps|
      ensures Land(m1, a, a, ps[i].v) == (a, ps[i].v) && (a, ps[i].v) in m1.slots && Sole(m1, (a, ps[i].v))
    {
      LandedSlot(m1, a, ps, i);
    }
    PiecesPlain(m1, a, a, ps);
    PiecesKeep(m1, a, a, ps);
    forall k | k in m1.slots
      ensures Sole(WritePieces(m1, a, a, ps), k) <==> Sole(m1, k)
    {
      SoleSame(m1, WritePieces(m1, a, a, ps), k);
    }
  }

  /** The bytes of the buffer, entry by entry, on plain memory. */
  ghost function PlainScatter(view: map<Key, Page>, a: nat, iovs: seq<ProcessVm.IoVec>, data: seq<byte>): map<Key, Page>
    decreases |iovs|
  {
    if iovs == [] || data == [] then view
    else
      var take := Min(iovs[0].len, |data|);
      PlainScatter(PlainPieces(view, a, PiecesOf(iovs[0].addr, data[..take])), a, iovs[1..], data[take..])
  }

  /** A copy into the running task's own space writes exactly the bytes it reports, as plain memory would take them. */
  lemma {:induction false} ReportedIsWritten(m: Mem, a: nat, iovs: seq<ProcessVm.IoVec>, temp: seq<byte>, attrs: Attrs)
    requires Inv(m) && AllSole(m, a)
    ensures var (m', n) := Scatter(m, a, a, iovs, temp, attrs);
            n <= |temp| && View(m') == PlainScatter(View(m), a, iovs, temp[..n])
    decreases |iovs|
  {
    hide Inv, View, Deliver, AllSole, PlainPieces, PiecesOf;
    if iovs != [] && temp != [] {
      var take, addr := Min(iovs[0].len, |temp|), iovs[0].addr;
      DeliverKeeps(m, a, a, addr, temp[..take], attrs);
      var (m1, ok) := Deliver(m, a, a, addr, temp[..take], attrs);
      if ok {
        DeliverIsPlain(m, a, addr, temp[..take], attrs);
        ReportedIsWritten(m1, a, iovs[1..], temp[take..], attrs);
        var (m', n) := Scatter(m1, a, a, iovs[1..], temp[take..], attrs);
        assert temp[..take + n][..take] == temp[..take] && temp[..take + n][take..] == temp[take..][..n];
        if take + n == 0 {
          NoPieces(View(m), a, addr);
          assert temp[..take] == [] && temp[take..][..n] == [];
        }
      }
    }
  }

  /** If the target maps every page of its list, the copy reports all it can: the list or the buffer is used up. */
  lemma {:induction false} MappedReportsAll(m: Mem, a: nat, c: nat, iovs: seq<ProcessVm.IoVec>, temp: seq<byte>,
      attrs: Attrs)
    requires Inv(m)
    requires forall i, x: nat :: 0 <= i < |iovs| && iovs[i].addr <= x < iovs[i].addr + iovs[i].len ==>
               (a, x / PAGE_SIZE) in m.pt
    ensures Scatter(m, a, c, iovs, temp, attrs).1 == Min(ProcessVm.Total(iovs), |temp|)
    decreases |iovs|
  {
    hide Inv, Deliver;
    if iovs != [] && temp != [] {
      var take, addr := Min(iovs[0].len, |temp|), iovs[0].addr;
      MappedDelivers(m, a, c, addr, temp[..take], attrs);
      var m1 := Deliver(m, a, c, addr, temp[..take], attrs).0;
      DeliverKeeps(m, a, c, addr, temp[..take], attrs);
      forall i, x: nat | 0 <= i < |iovs[1..]| && iovs[1..][i].addr <= x < iovs[1..][i].addr + iovs[1..][i].len
        ensures (a, x / PAGE_SIZE) in m1.pt
      {
        assert iovs[1..][i] == iovs[i + 1];
      }
      MappedReportsAll(m1, a, c, iovs[1..], temp[take..], attrs);
    }
  }

  lemma MappedDelivers(m: Mem, a: nat, c: nat, addr: nat, data: seq<byte>, attrs: Attrs)
    requires Inv(m) && forall x: nat :: addr <= x < addr + |data| ==> (a, x / PAGE_SIZE) in m.pt
    ensures Deliver(m, a, c, addr, data, attrs).1 && Deliver(m, a, c, addr, data, attrs).0.pt == m.pt
  {
    hide Inv, View, TranslateAll, WritePieces, PiecesOf, InPage;
    var ps := PiecesOf(addr, data);
    ViewKeys(m);
    forall i | 0 <= i < |ps|
      ensures (a, ps[i].v) in m.pt && LandedAt(m, a, c, ps[i])
    {
      PieceInRange(addr, data, i);
    }
    MappedTranslates(m, a, c, ps, attrs);
    PiecesKeep(m, a, c, ps);
  }

  lemma {:induction false} MappedTranslates(m: Mem, a: nat, c: nat, ps: seq<Piece>, attrs: Attrs)
    requires forall i :: 0 <= i < |ps| ==> (a, ps[i].v) in m.pt
    ensures TranslateAll(m, a, c, ps, attrs) == (m, true)
    decreases |ps|
  {
    if ps != [] {
      assert (a, ps[0].v) in m.pt;
      MappedTranslates(m, a, c, ps[1..], attrs);
    }
  }

  // ----- A page the target has not touched yet -----

  /** Space 0 runs and has written its page 0; space 1 has reserved its page 0 and never touched it. */
  ghost function FreshTarget(): Mem {
    Mem(map[(0, 0) := InMemory(0), (1, 0) := Unallocated], map[(0, 0) := Pte(0, Perm(true, true, false, true))],
        map[0 := ZeroPage()], FA.Frames(0, 1, 1, []), Zram.New(0), Swap.Device([], [], map[], false, 1), {},
        Codec((p: Page) => p, (b: Zram.Blob) => if |b| == PAGE_SIZE then b else ZeroPage()))
  }

  lemma FreshTargetInv()
    ensures Inv(FreshTarget())
  {
    hide Accounted;
    FreshTargetAccounted();
  }

  lemma FreshTargetAccounted()
    ensures Accounted(FreshTarget(), Unallocated)
  {
    hide Swap.Valid, Swap.InUse, Zram.Valid;
    var m := FreshTarget();
    NoDevice();
    Zram.NewIsEmpty(0);
    assert m.slots[(0, 0)] == InMemory(0) && Held(m, InMemory(0));
    assert forall f :: Held(m, f) ==> f == InMemory(0) || f == Unallocated;
  }

  lemma NoDevice()
    ensures var d := Swap.Device([], [], map[], false, 1); Swap.Valid(d) && forall id: nat :: !Swap.InUse(d, id)
  {
  }

  /** A write by space 0 to page 0 of space 1 changes page 0 of space 0 instead. */
  lemma RemoteWriteLandsHere()
    ensures var m, attrs := FreshTarget(), map[0 := (Perm(true, true, false, true), false)];
            var ps := PiecesOf(0, [1]); var (m1, ok) := TranslateAll(m, 1, 0, ps, attrs);
            && Inv(m) && ok && var m' := WritePieces(m1, 1, 0, ps);
               && (0, 0) in View(m') && (1, 0) in View(m')
               && View(m')[(1, 0)] == View(m)[(1, 0)] && View(m')[(0, 0)] != View(m)[(0, 0)]
  {
    FreshTargetInv();
    var m, perm := FreshTarget(), Perm(true, true, false, true);
    var attrs := map[0 := (perm, false)];
    var p := Piece(0, 0, [1]);
    assert [1][..1] == [1] && [1][1..] == [];
    assert PiecesOf(0, [1]) == [p] + PiecesOf(1, []);
    assert PiecesOf(0, [1]) == [p];
    assert Sole(m, (0, 0)) && View(m)[(0, 0)] == ZeroPage() && Overwritten(ZeroPage(), 0, [1])[0] == 1;
    var m1 := Translate(m, 1, 0, 0, attrs).0;
    assert m1.slots == m.slots && Translate(m, 1, 0, 0, attrs).1 && (1, 0) !in m1.pt;
    assert [p][1..] == [];
    assert TranslateAll(m1, 1, 0, [], attrs) == (m1, true);
    hide Inv, View, Overwritten, WritePiece, Translate, Sole;
    TranslateKeeps(m, 1, 0, 0, attrs);
    PieceShared(m1, 1, 0, p);
    assert WritePieces(WritePiece(m1, 1, 0, p), 1, 0, []) == WritePiece(m1, 1, 0, p);
  }
}
