/** The free counts kept beside the bitmaps (src/kernel/fs/ext2.c:67-99, 398-443, 602-627). */
module Ext2Counts {
  import opened Words
  import opened Ext2Bitmap
  import opened Ext2Layout
  import opened Ext2Owner

  function Sum(s: seq<nat>): nat {
    if |s| == 0 then 0 else Sum(s[..|s| - 1]) + s[|s| - 1]
  }

  lemma {:induction false} SumUpdate(s: seq<nat>, i: nat, v: nat)
    requires i < |s|
    ensures Sum(s[i := v]) == Sum(s) - s[i] + v
    decreases |s|
  {
    var n := |s| - 1;
    if i == n {
      assert s[i := v][..n] == s[..n];
    } else {
      SumUpdate(s[..n], i, v);
      assert s[i := v][..n] == s[..n][i := v];
    }
  }

  lemma {:induction false} SumAtLeast(s: seq<nat>, i: nat)
    requires i < |s|
    ensures s[i] <= Sum(s)
    decreases |s|
  {
    if i < |s| - 1 {
      SumAtLeast(s[..|s| - 1], i);
    }
  }

  /** Each group's count is the number of clear bits in its bitmap. */
  ghost predicate BlockCounts(g: Geometry, d: Disk, free: seq<nat>)
    requires g.Sizes() && Sized(g, d)
  {
    |free| == |g.groups| && forall gr :: 0 <= gr < |free| ==> free[gr] == CountClear(d[g.groups[gr].blockBitmap], g.bpg)
  }

  ghost predicate InodeCounts(g: Geometry, d: Disk, free: seq<nat>)
    requires g.Sizes() && Sized(g, d)
  {
    |free| == |g.groups| && forall gr :: 0 <= gr < |free| ==> free[gr] == CountClear(d[g.groups[gr].inodeBitmap], g.ipg)
  }

  /** A block that holds no bitmap. */
  ghost predicate NoBitmap(g: Geometry, blk: nat) {
    forall gr :: 0 <= gr < |g.groups| ==> blk != g.groups[gr].blockBitmap && blk != g.groups[gr].inodeBitmap
  }

  lemma CountsFrame(g: Geometry, d: Disk, blk: nat, x: seq<byte>, freeBlocks: seq<nat>, freeInodes: seq<nat>)
    requires g.Sizes() && Sized(g, d) && |x| == g.bs && NoBitmap(g, blk)
    ensures BlockCounts(g, d, freeBlocks) ==> BlockCounts(g, d[blk := x], freeBlocks)
    ensures InodeCounts(g, d, freeInodes) ==> InodeCounts(g, d[blk := x], freeInodes)
  {
    hide CountClear;
  }

  lemma DataNoBitmap(g: Geometry, blk: nat)
    requires g.Sizes() && !g.Reserved(blk)
    ensures NoBitmap(g, blk)
  {
    hide Geometry.InTable;
  }

  lemma TableNoBitmap(g: Geometry, ino: nat)
    requires g.Valid() && g.ValidIno(ino)
    ensures NoBitmap(g, g.InodeBlock(ino))
  {
    InodeInTable(g, ino);
    hide Geometry.InodeBlock, Geometry.InoGroup, Geometry.InTable;
  }

  lemma SystemNoBitmap(g: Geometry, blk: nat)
    requires g.Valid() && blk in g.system
    ensures NoBitmap(g, blk)
  {
    hide Geometry.InTable;
  }

  /** Marking a clear block takes one from its group's count, which cannot be zero. */
  lemma MarkCounts(g: Geometry, d: Disk, b: nat, freeBlocks: seq<nat>, freeInodes: seq<nat>)
    requires g.Valid() && Sized(g, d) && g.InRange(b) && !Used(g, d, b)
    requires BlockCounts(g, d, freeBlocks) && InodeCounts(g, d, freeInodes)
    ensures freeBlocks[g.GroupOf(b)] > 0
    ensures BlockCounts(g, Mark(g, d, b), freeBlocks[g.GroupOf(b) := freeBlocks[g.GroupOf(b)] - 1])
    ensures InodeCounts(g, Mark(g, d, b), freeInodes)
  {
    hide TestBit, SetBit, CountClear, Geometry.BitOf, Geometry.GroupOf, Geometry.InTable, Geometry.InRange;
    var bm := d[BitmapBlock(g, b)];
    CountAfterSet(bm, g.BitOf(b), g.bpg);
  }

  lemma UnmarkCounts(g: Geometry, d: Disk, b: nat, freeBlocks: seq<nat>, freeInodes: seq<nat>)
    requires g.Valid() && Sized(g, d) && g.InRange(b) && Used(g, d, b)
    requires BlockCounts(g, d, freeBlocks) && InodeCounts(g, d, freeInodes)
    ensures BlockCounts(g, Unmark(g, d, b), freeBlocks[g.GroupOf(b) := freeBlocks[g.GroupOf(b)] + 1])
    ensures InodeCounts(g, Unmark(g, d, b), freeInodes)
  {
    hide TestBit, ClearBit, CountClear, Geometry.BitOf, Geometry.GroupOf, Geometry.InTable, Geometry.InRange;
    var bm := d[BitmapBlock(g, b)];
    CountAfterClear(bm, g.BitOf(b), g.bpg);
  }

  /** Marking an inode in its bitmap. */
  lemma MarkInodeCounts(g: Geometry, d: Disk, gr: nat, bit: nat, freeBlocks: seq<nat>, freeInodes: seq<nat>)
    requires g.Valid() && Sized(g, d) && gr < |g.groups| && bit < g.ipg && !TestBit(d[g.groups[gr].inodeBitmap], bit)
    requires BlockCounts(g, d, freeBlocks) && InodeCounts(g, d, freeInodes)
    ensures freeInodes[gr] > 0
    ensures var e := d[g.groups[gr].inodeBitmap := SetBit(d[g.groups[gr].inodeBitmap], bit)];
            Sized(g, e) && BlockCounts(g, e, freeBlocks) && InodeCounts(g, e, freeInodes[gr := freeInodes[gr] - 1])
  {
    hide TestBit, SetBit, CountClear, Geometry.InTable;
    CountAfterSet(d[g.groups[gr].inodeBitmap], bit, g.ipg);
  }
}
