// Page I/O that merges consecutive block numbers into one device request, against block-at-a-time I/O.
// A page is an array of block-sized slots; the device is an array of blocks.
module PageIo {
  import opened Types

  /** One device request: `src` over the blocks from `start` on. */
  function WriteRun(disk: seq<Block>, start: nat, src: seq<Block>): (r: seq<Block>)
    requires start + |src| <= |disk|
    ensures |r| == |disk|
  {
    disk[..start] + src + disk[start + |src|..]
  }

  /** Block-at-a-time writing: slot `i` of the page to block `ids[i]`, in order. */
  function WriteEach(disk: seq<Block>, ids: seq<nat>, page: seq<Block>): (r: seq<Block>)
    requires |ids| <= |page| && forall i :: 0 <= i < |ids| ==> ids[i] < |disk|
    ensures |r| == |disk|
  {
    if ids == [] then disk else
      var n := |ids| - 1;
      assert forall i :: 0 <= i < n ==> ids[..n][i] == ids[i];
      WriteEach(disk, ids[..n], page)[ids[n] := page[n]]
  }

  lemma RunOne(disk: seq<Block>, start: nat, x: Block)
    requires start < |disk|
    ensures WriteRun(disk, start, [x]) == disk[start := x]
  {
  }

  lemma RunSnoc(disk: seq<Block>, start: nat, src: seq<Block>, x: Block)
    requires start + |src| < |disk|
    ensures WriteRun(disk, start, src)[start + |src| := x] == WriteRun(disk, start, src + [x])
  {
  }

  /** A run of consecutive numbers written at once equals its blocks written one by one. */
  lemma {:induction false} RunIsEach(disk: seq<Block>, ids: seq<nat>, page: seq<Block>, from: nat)
    requires from < |ids| <= |page| && forall i :: 0 <= i < |ids| ==> ids[i] < |disk|
    requires forall i :: from <= i < |ids| ==> ids[i] == ids[from] + (i - from)
    ensures forall i :: 0 <= i < from ==> ids[..from][i] < |disk|
    ensures ids[from] + |page[from..|ids|]| <= |disk|
    ensures WriteRun(WriteEach(disk, ids[..from], page), ids[from], page[from..|ids|]) == WriteEach(disk, ids, page)
    decreases |ids|
  {
    hide WriteRun;
    var n := |ids| - 1;
    assert ids[n] == ids[from] + (n - from);
    var before := WriteEach(disk, ids[..from], page);
    if n == from {
      assert page[from..|ids|] == [page[from]];
      RunOne(before, ids[from], page[from]);
    } else {
      assert ids[..n][..from] == ids[..from];
      RunIsEach(disk, ids[..n], page, from);
      assert page[from..|ids|] == page[from..n] + [page[n]];
      RunSnoc(before, ids[from], page[from..n], page[n]);
    }
  }

  /** A block no id names keeps its contents; a block some id names holds the slot of its last id. */
  lemma {:induction false} WriteEachAt(disk: seq<Block>, ids: seq<nat>, page: seq<Block>, b: nat)
    requires |ids| <= |page| && b < |disk| && forall i :: 0 <= i < |ids| ==> ids[i] < |disk|
    ensures b !in ids ==> WriteEach(disk, ids, page)[b] == disk[b]
    ensures forall k :: 0 <= k < |ids| && ids[k] == b && b !in ids[k + 1..] ==> WriteEach(disk, ids, page)[b] == page[k]
  {
    if ids != [] {
      var n := |ids| - 1;
      WriteEachAt(disk, ids[..n], page, b);
      forall k | 0 <= k < |ids| && ids[k] == b && b !in ids[k + 1..]
        ensures WriteEach(disk, ids, page)[b] == page[k]
      {
        if k < n {
          assert ids[n] == ids[k + 1..][n - k - 1];
          assert ids[..n][k + 1..] == ids[k + 1..][..n - k - 1];
        }
      }
    }
  }

  lemma {:induction false} LastUse(ids: seq<nat>, i: nat) returns (k: nat)
    requires i < |ids|
    ensures i <= k < |ids| && ids[k] == ids[i] && ids[i] !in ids[k + 1..]
    decreases |ids| - i
  {
    if ids[i] in ids[i + 1..] {
      var d :| 0 <= d < |ids[i + 1..]| && ids[i + 1..][d] == ids[i];
      k := LastUse(ids, i + 1 + d);
    } else {
      k := i;
    }
  }

  /** Reading back what was written restores the page's block slots exactly when slots written to the
      same block agree. */
  lemma RoundTripIff(disk: seq<Block>, ids: seq<nat>, page: seq<Block>)
    requires |ids| <= |page| && forall i :: 0 <= i < |ids| ==> ids[i] < |disk|
    ensures (forall i :: 0 <= i < |ids| ==> WriteEach(disk, ids, page)[ids[i]] == page[i])
            <==> (forall i, j :: 0 <= i < j < |ids| && ids[i] == ids[j] ==> page[i] == page[j])
  {
    var written := WriteEach(disk, ids, page);
    forall i | 0 <= i < |ids| && forall i, j :: 0 <= i < j < |ids| && ids[i] == ids[j] ==> page[i] == page[j]
      ensures written[ids[i]] == page[i]
    {
      var k := LastUse(ids, i);
      WriteEachAt(disk, ids, page, ids[i]);
    }
  }

  /** Distinct block numbers always restore the page, and no other block changes. */
  lemma RoundTrip(disk: seq<Block>, ids: seq<nat>, page: seq<Block>)
    requires |ids| <= |page| && Distinct(ids) && forall i :: 0 <= i < |ids| ==> ids[i] < |disk|
    ensures forall i :: 0 <= i < |ids| ==> WriteEach(disk, ids, page)[ids[i]] == page[i]
    ensures forall b :: 0 <= b < |disk| && b !in ids ==> WriteEach(disk, ids, page)[b] == disk[b]
  {
    RoundTripIff(disk, ids, page);
    forall b | 0 <= b < |disk| && b !in ids
      ensures WriteEach(disk, ids, page)[b] == disk[b]
    {
      WriteEachAt(disk, ids, page, b);
    }
  }

  lemma {:induction false} WriteEachSame(disk: seq<Block>, ids: seq<nat>, mem: seq<Block>, mem': seq<Block>)
    requires |ids| <= |mem| && |ids| <= |mem'| && mem[..|ids|] == mem'[..|ids|]
    requires forall i :: 0 <= i < |ids| ==> ids[i] < |disk|
    ensures WriteEach(disk, ids, mem) == WriteEach(disk, ids, mem')
  {
    if ids != [] {
      var n := |ids| - 1;
      assert mem[n] == mem[..|ids|][n] == mem'[n];
      assert mem[..n] == mem[..|ids|][..n] == mem'[..n];
      WriteEachSame(disk, ids[..n], mem, mem');
    }
  }

  /** The disk is written from the page's own `slots` alone, whatever lies behind the page in memory, exactly when
      there are no more block numbers than slots. */
  lemma WritesPageOnlyIff(disk: seq<Block>, ids: seq<nat>, mem: seq<Block>, slots: nat)
    requires |ids| <= |mem| && slots <= |mem| && forall i :: 0 <= i < |ids| ==> ids[i] < |disk|
    ensures (forall mem': seq<Block> :: |mem'| == |mem| && mem'[..slots] == mem[..slots] ==>
               WriteEach(disk, ids, mem') == WriteEach(disk, ids, mem))
            <==> |ids| <= slots
  {
    hide WriteEach;
    if |ids| <= slots {
      forall mem': seq<Block> | |mem'| == |mem| && mem'[..slots] == mem[..slots]
        ensures WriteEach(disk, ids, mem') == WriteEach(disk, ids, mem)
      {
        assert mem'[..|ids|] == mem'[..slots][..|ids|] == mem[..|ids|];
        WriteEachSame(disk, ids, mem, mem');
      }
    } else {
      var mem' := BehindShows(disk, ids, mem, slots);
    }
  }

  lemma BehindShows(disk: seq<Block>, ids: seq<nat>, mem: seq<Block>, slots: nat) returns (mem': seq<Block>)
    requires slots < |ids| <= |mem| && forall i :: 0 <= i < |ids| ==> ids[i] < |disk|
    ensures |mem'| == |mem| && mem'[..slots] == mem[..slots] && WriteEach(disk, ids, mem') != WriteEach(disk, ids, mem)
  {
    hide WriteEach;
    var n := |ids| - 1;
    mem' := mem[n := mem[n] + [0]];
    LastWritten(disk, ids, mem);
    LastWritten(disk, ids, mem');
  }

  lemma LastWritten(disk: seq<Block>, ids: seq<nat>, mem: seq<Block>)
    requires 0 < |ids| <= |mem| && forall i :: 0 <= i < |ids| ==> ids[i] < |disk|
    ensures WriteEach(disk, ids, mem)[ids[|ids| - 1]] == mem[|ids| - 1]
  {
  }

  /** The device fills `n` slots of the page from block `start` on. */
  method ReadBlocks(disk: seq<Block>, start: nat, page: array<Block>, at: nat, n: nat)
    requires start + n <= |disk| && at + n <= page.Length
    modifies page
    ensures page[..] == old(page[..at]) + disk[start..start + n] + old(page[at + n..])
  {
    forall i | 0 <= i < n {
      page[at + i] := disk[start + i];
    }
  }

  method WriteBlocks(disk: array<Block>, start: nat, mem: array<Block>, at: nat, n: nat)
    requires start + n <= disk.Length && at + n <= mem.Length && disk != mem
    modifies disk
    ensures disk[..] == WriteRun(old(disk[..]), start, mem[at..at + n])
  {
    forall i | 0 <= i < n {
      disk[start + i] := mem[at + i];
    }
  }

  /** `read_in`: an empty list leaves the page as it was. */
  method ReadIn(page: array<Block>, ids: seq<nat>, disk: seq<Block>, zero: Block)
    requires |ids| <= page.Length && forall i :: 0 <= i < |ids| ==> ids[i] < |disk|
    modifies page
    ensures ids == [] ==> page[..] == old(page[..])
    ensures ids != [] ==> forall i :: 0 <= i < page.Length ==> page[i] == if i < |ids| then disk[ids[i]] else zero
  {
    if ids == [] {
      return;
    }
    var startBlock: nat, run: nat, startBuf: nat := 0, 0, 0;
    for i := 0 to |ids|
      invariant startBuf + run == i && (i > 0 ==> run > 0)
      invariant forall k :: startBuf <= k < i ==> ids[k] == startBlock + (k - startBuf)
      invariant forall k :: 0 <= k < startBuf ==> page[k] == disk[ids[k]]
    {
      if run == 0 {
        startBlock, run := ids[i], 1;
      } else if ids[i] != startBlock + run {
        assert ids[i - 1] == startBlock + (run - 1);
        ReadRun(page, disk, ids[..i], startBlock, startBuf, run);
        startBuf, startBlock, run := startBuf + run, ids[i], 1;
      } else {
        run := run + 1;
      }
    }
    assert ids[|ids| - 1] == startBlock + (run - 1);
    assert ids[..|ids|] == ids;
    ReadRun(page, disk, ids, startBlock, startBuf, run);
    forall k | |ids| <= k < page.Length {
      page[k] := zero;
    }
  }

  method ReadRun(page: array<Block>, disk: seq<Block>, ids: seq<nat>, start: nat, at: nat, n: nat)
    requires at + n == |ids| <= page.Length && start + n <= |disk|
    requires forall k :: 0 <= k < |ids| ==> ids[k] < |disk|
    requires forall k :: at <= k < |ids| ==> ids[k] == start + (k - at)
    requires forall k :: 0 <= k < at ==> page[k] == disk[ids[k]]
    modifies page
    ensures forall k :: 0 <= k < |ids| ==> page[k] == disk[ids[k]]
  {
    ghost var was := page[..];
    ReadBlocks(disk, start, page, at, n);
    forall k | 0 <= k < |ids|
      ensures page[k] == disk[ids[k]]
    {
      assert page[k] == page[..][k];
      assert k < at ==> was[..at][k] == was[k];
    }
  }

  /** `write_back`: the merged requests write what the blocks would, one at a time. `mem` is the memory from the
      page on; the code tests nothing against the page's size. */
  method WriteBack(mem: array<Block>, ids: seq<nat>, disk: array<Block>)
    requires |ids| <= mem.Length && mem != disk && forall i :: 0 <= i < |ids| ==> ids[i] < disk.Length
    modifies disk
    ensures disk[..] == WriteEach(old(disk[..]), ids, mem[..])
  {
    if ids == [] {
      return;
    }
    ghost var was := disk[..];
    var startBlock: nat, run: nat, startBuf: nat := 0, 0, 0;
    for i := 0 to |ids|
      invariant startBuf + run == i && (i > 0 ==> run > 0)
      invariant forall k :: startBuf <= k < i ==> ids[k] == startBlock + (k - startBuf)
      invariant forall k :: 0 <= k < startBuf ==> ids[..startBuf][k] < |was|
      invariant disk[..] == WriteEach(was, ids[..startBuf], mem[..])
    {
      if run == 0 {
        startBlock, run := ids[i], 1;
      } else if ids[i] != startBlock + run {
        assert ids[i - 1] == startBlock + (run - 1);
        assert ids[..i][..startBuf] == ids[..startBuf];
        WriteRunBack(mem, disk, was, ids[..i], startBlock, startBuf, run);
        startBuf, startBlock, run := startBuf + run, ids[i], 1;
      } else {
        run := run + 1;
      }
    }
    assert ids[|ids| - 1] == startBlock + (run - 1);
    WriteRunBack(mem, disk, was, ids, startBlock, startBuf, run);
  }

  method WriteRunBack(mem: array<Block>, disk: array<Block>, ghost was: seq<Block>, ids: seq<nat>, start: nat,
      at: nat, n: nat)
    requires at + n == |ids| <= mem.Length && 0 < n && mem != disk && |was| == disk.Length
    requires forall k :: 0 <= k < |ids| ==> ids[k] < |was|
    requires forall k :: at <= k < |ids| ==> ids[k] == start + (k - at)
    requires forall k :: 0 <= k < at ==> ids[..at][k] < |was|
    requires disk[..] == WriteEach(was, ids[..at], mem[..])
    modifies disk
    ensures disk[..] == WriteEach(was, ids, mem[..])
  {
    RunIsEach(was, ids, mem[..], at);
    assert mem[at..at + n] == mem[..][at..|ids|];
    WriteBlocks(disk, start, mem, at, n);
  }
}
