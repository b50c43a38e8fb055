/** A mounted ext2 volume: block reads and journaled writes, the allocators, inode access (src/kernel/fs/ext2.c). */
module Ext2Volume {
  import opened Errno
  import opened Words
  import opened Ext2Bitmap
  import opened Ext2Layout
  import opened Ext2Inode
  import opened Ext2Owner
  import opened Ext2File
  import opened Ext2Counts

  /** Every disk state from index k on keeps the ownership rule. */
  ghost predicate OwnedSince(g: Geometry, history: seq<Disk>, k: nat) {
    forall i :: k <= i < |history| ==> Owned(g, history[i])
  }

  /** Block blk was clear, and is now marked; nothing else changed. */
  ghost predicate Taken(g: Geometry, d: Disk, e: Disk, blk: nat) {
    g.Valid() && Sized(g, d) && g.InRange(blk) && !Used(g, d, blk) && e == Mark(g, d, blk)
  }

  /** Block blk is in group gr, and every bit before it there is set. */
  ghost predicate FirstIn(g: Geometry, d: Disk, gr: nat, blk: nat) {
    && g.Valid() && Sized(g, d) && g.InRange(blk) && g.GroupOf(blk) == gr
    && forall c :: 0 <= c < g.BitOf(blk) ==> TestBit(d[g.groups[gr].blockBitmap], c)
  }

  /** No block below blk is free. */
  ghost predicate Lowest(g: Geometry, d: Disk, blk: nat) {
    g.Valid() && Sized(g, d) && forall b: nat :: g.InRange(b) && b < blk ==> Used(g, d, b)
  }

  lemma FirstIsLowest(g: Geometry, d: Disk, free: seq<nat>, gr: nat, blk: nat)
    requires FirstIn(g, d, gr, blk) && BlockCounts(g, d, free) && forall k :: 0 <= k < gr && k < |free| ==> free[k] == 0
    ensures Lowest(g, d, blk)
  {
    hide TestBit, Geometry.Disjoint, CountClear;
    forall b: nat | g.InRange(b) && b < blk
      ensures Used(g, d, b)
    {
      var k := g.GroupOf(b);
      InOrder(g, b, blk);
      if k < gr && !Used(g, d, b) {
        CountPositive(d[g.groups[k].blockBitmap], g.BitOf(b), g.bpg);
        assert false;
      }
    }
  }

  /** Blocks are numbered by group, and by bit within it. */
  lemma InOrder(g: Geometry, b: nat, c: nat)
    requires g.bpg > 0 && g.InRange(b) && g.InRange(c) && b < c
    ensures g.GroupOf(b) < g.GroupOf(c) || (g.GroupOf(b) == g.GroupOf(c) && g.BitOf(b) < g.BitOf(c))
  {
    var x, y := b - g.firstData, c - g.firstData;
    assert x == x / g.bpg * g.bpg + x % g.bpg && y == y / g.bpg * g.bpg + y % g.bpg;
    if y / g.bpg < x / g.bpg {
      MulBelow(y / g.bpg, x / g.bpg, g.bpg);
      assert false;
    }
  }

  /** What changing system blocks leaves alone. */
  ghost predicate Unharmed(g: Geometry, d: Disk, e: Disk) {
    && g.Valid() && Sized(g, d) && Sized(g, e)
    && (forall b: nat :: b !in g.system ==> e[b] == d[b])
    && (Owned(g, d) ==> Owned(g, e) && SameContent(g, d, e) && SameInodes(g, d, e))
  }

  /** A block write that succeeded, as a journal transaction or, for the superblock, past the journal. */
  datatype BlockWrite = BlockWrite(blk: nat, bytes: seq<byte>, journaled: bool)

  /** The disk after each of the writes. */
  ghost function States(d: Disk, log: seq<BlockWrite>): (h: seq<Disk>)
    ensures |h| == |log|
    decreases |log|
  {
    if |log| == 0 then []
    else
      var before, w := States(d, log[..|log| - 1]), log[|log| - 1];
      before + [Latest(d, before)[w.blk := w.bytes]]
  }

  ghost function Latest(d: Disk, states: seq<Disk>): Disk {
    if |states| == 0 then d else states[|states| - 1]
  }

  lemma StatesSnoc(d: Disk, log: seq<BlockWrite>, w: BlockWrite)
    ensures States(d, log + [w]) == States(d, log) + [Latest(d, States(d, log))[w.blk := w.bytes]]
  {
    assert (log + [w])[..|log|] == log;
  }

  /** The free counts of the volume or of a group. */
  datatype Counts = Counts(blocks: nat, inodes: nat)

  function BlockPart(cs: seq<Counts>): (s: seq<nat>)
    ensures |s| == |cs| && forall i :: 0 <= i < |cs| ==> s[i] == cs[i].blocks
  {
    seq(|cs|, i requires 0 <= i < |cs| => cs[i].blocks)
  }

  function InodePart(cs: seq<Counts>): (s: seq<nat>)
    ensures |s| == |cs| && forall i :: 0 <= i < |cs| ==> s[i] == cs[i].inodes
  {
    seq(|cs|, i requires 0 <= i < |cs| => cs[i].inodes)
  }

  /** The counts are those of the bitmaps. */
  ghost predicate Accurate(g: Geometry, d: Disk, sup: Counts, desc: seq<Counts>)
    requires g.Valid() && Sized(g, d)
  {
    && BlockCounts(g, d, BlockPart(desc)) && InodeCounts(g, d, InodePart(desc))
    && sup == Counts(Sum(BlockPart(desc)), Sum(InodePart(desc)))
  }

  /** The bitmaps determine the counts. */
  lemma OneCount(g: Geometry, d: Disk, a: seq<nat>, b: seq<nat>, m: seq<nat>, n: seq<nat>)
    requires g.Valid() && Sized(g, d)
    requires BlockCounts(g, d, a) && BlockCounts(g, d, b) && InodeCounts(g, d, m) && InodeCounts(g, d, n)
    ensures a == b && m == n
  {
  }

  /** The stored counts, with those of descriptor block i replaced by the ones in memory. */
  function Refreshed(g: Geometry, stored: seq<Counts>, fb: seq<nat>, fi: seq<nat>, i: nat): (r: seq<Counts>)
    requires g.bs > 0 && |stored| == |fb| == |fi|
    ensures |r| == |stored|
  {
    seq(|stored|, gr requires 0 <= gr < |stored| => if g.DescOf(gr) == i then Counts(fb[gr], fi[gr]) else stored[gr])
  }

  class Volume {
    const g: Geometry
    var disk: Disk
    var freeBlocks: seq<nat>      // g_gdt[].bg_free_blocks_count
    var freeInodes: seq<nat>      // g_gdt[].bg_free_inodes_count
    var sbFreeBlocks: nat         // g_sb.s_free_blocks_count
    var sbFreeInodes: nat         // g_sb.s_free_inodes_count
    var dirtySuper: bool          // g_dirty_sb
    var dirtyDesc: bool           // g_dirty_gdt
    var storedSuper: Counts       // the free counts in the superblock on the disk
    var storedDesc: seq<Counts>   // the free counts in the descriptors on the disk, one per group
    ghost const start: Disk       // the disk at the mount
    ghost var log: seq<BlockWrite>
    ghost var history: seq<Disk>  // the disk after each write
    ghost var lost: nat           // reads and writes that failed
    ghost var missedSuper: bool   // the last store of the superblock failed
    ghost var missedDesc: set<nat> // the descriptor blocks whose last store failed

    /**
     * The mount: the counts in memory are those read from the disk, sup and desc. Replay comes after that and may put
     * other descriptors on the disk, nowDesc. The volume is valid if and only if the counts are those of the bitmaps and
     * replay has left the descriptors as they were read.
     */
    constructor (geometry: Geometry, d: Disk, sup: Counts, desc: seq<Counts>, nowDesc: seq<Counts>)
      requires geometry.Valid() && Sized(geometry, d) && |desc| == |geometry.groups| == |nowDesc|
      ensures g == geometry && disk == d && history == [] && lost == 0 && !dirtySuper && !dirtyDesc
      ensures freeBlocks == BlockPart(desc) && freeInodes == InodePart(desc)
      ensures storedSuper == sup == Counts(sbFreeBlocks, sbFreeInodes) && storedDesc == nowDesc
      ensures Valid() <==> Accurate(geometry, d, sup, desc) && desc == nowDesc
    {
      g, disk, freeBlocks, freeInodes := geometry, d, BlockPart(desc), InodePart(desc);
      sbFreeBlocks, sbFreeInodes := sup.blocks, sup.inodes;
      dirtySuper, dirtyDesc := false, false;
      storedSuper, storedDesc := sup, nowDesc;
      start, log, history, lost := d, [], [], 0;
      missedSuper, missedDesc := false, {};
      new;
      if desc != nowDesc {
        var gr :| 0 <= gr < |desc| && desc[gr] != nowDesc[gr];
        assert !StoredGroup(gr);
      }
    }

    /**
     * Free-count conservation: group counts match the bitmaps, and the totals match the groups. The counts on the disk
     * match those in memory where they are clean and have been stored.
     */
    ghost predicate Valid()
      reads this
    {
      && g.Valid() && Sized(g, disk)
      && BlockCounts(g, disk, freeBlocks) && InodeCounts(g, disk, freeInodes)
      && sbFreeBlocks == Sum(freeBlocks) && sbFreeInodes == Sum(freeInodes)
      && Tracked() && Logged()
    }

    /** What is clean agrees with the disk, unless its last store failed. */
    ghost predicate Tracked()
      reads this`lost, this`storedSuper, this`storedDesc, this`missedSuper, this`missedDesc, this`dirtySuper,
        this`dirtyDesc, this`freeBlocks, this`freeInodes, this`sbFreeBlocks, this`sbFreeInodes
    {
      && |storedDesc| == |g.groups| && (missedSuper || missedDesc != {} ==> lost > 0)
      && (!dirtySuper && !missedSuper ==> StoredTotals())
      && (!dirtyDesc ==> StoredBut(missedDesc))
    }

    /** The disk is what the logged writes have made of it. */
    ghost predicate Logged()
      reads this`disk, this`log, this`history
    {
      && history == States(start, log) && disk == Latest(start, history)
      && forall i :: 0 <= i < |log| && !log[i].journaled ==> log[i].blk == g.SuperBlock()
    }

    /** The counts of group gr in memory. */
    function GroupCounts(gr: nat): Counts
      requires gr < |freeBlocks| && gr < |freeInodes|
      reads this`freeBlocks, this`freeInodes
    {
      Counts(freeBlocks[gr], freeInodes[gr])
    }

    predicate StoredGroup(gr: nat)
      reads this`storedDesc, this`freeBlocks, this`freeInodes
    {
      gr < |storedDesc| && gr < |freeBlocks| && gr < |freeInodes| && storedDesc[gr] == GroupCounts(gr)
    }

    predicate StoredTotals()
      reads this`storedSuper, this`sbFreeBlocks, this`sbFreeInodes
    {
      storedSuper == Counts(sbFreeBlocks, sbFreeInodes)
    }

    /** The descriptors outside the given blocks agree with memory. */
    ghost predicate StoredBut(blocks: set<nat>)
      reads this`storedDesc, this`freeBlocks, this`freeInodes
    {
      forall gr: nat :: gr < |g.groups| && DescIn(gr) !in blocks ==> StoredGroup(gr)
    }

    function DescIn(gr: nat): nat {
      if g.bs > 0 then g.DescOf(gr) else 0
    }

    /** The counts on the disk are those in memory. */
    ghost predicate Stored()
      reads this
    {
      StoredTotals() && StoredBut({})
    }

    /** Nothing waits to be stored. */
    predicate Clean()
      reads this`dirtySuper, this`dirtyDesc
    {
      !dirtySuper && !dirtyDesc
    }

    /** On a clean volume that no request has failed on, the counts on the disk are those in memory. */
    lemma CleanIsStored()
      requires Valid() && Clean() && lost == 0
      ensures Stored()
    {
    }

    /** A crash now, and a mount that reads desc: it makes a valid volume if and only if the disk has the counts. */
    lemma RebootValidIff(desc: seq<Counts>)
      requires Valid() && |desc| == |g.groups|
      ensures Accurate(g, disk, storedSuper, desc) && desc == storedDesc <==> Stored() && desc == storedDesc
    {
      hide BlockCounts, InodeCounts, Sum, Volume.Logged, Geometry.Valid, Volume.Tracked, Volume.StoredBut;
      CountLengths();
      StoredParts();
      if Accurate(g, disk, storedSuper, desc) {
        OneCount(g, disk, freeBlocks, BlockPart(desc), freeInodes, InodePart(desc));
      }
    }

    lemma StoredParts()
      requires |freeBlocks| == |freeInodes| == |g.groups| == |storedDesc|
      ensures StoredBut({}) <==> BlockPart(storedDesc) == freeBlocks && InodePart(storedDesc) == freeInodes
    {
      if StoredBut({}) {
        forall gr: nat | gr < |g.groups|
          ensures BlockPart(storedDesc)[gr] == freeBlocks[gr] && InodePart(storedDesc)[gr] == freeInodes[gr]
        {
          assert StoredGroup(gr);
        }
        assert BlockPart(storedDesc) == freeBlocks && InodePart(storedDesc) == freeInodes;
      }
      if BlockPart(storedDesc) == freeBlocks && InodePart(storedDesc) == freeInodes {
        forall gr: nat | gr < |g.groups|
          ensures StoredGroup(gr)
        {
          assert storedDesc[gr] == Counts(BlockPart(storedDesc)[gr], InodePart(storedDesc)[gr]);
        }
      }
    }

    /** read_block. */
    method ReadBlock(blk: nat) returns (rc: int, b: seq<byte>)
      requires Sized(g, disk)
      modifies this`lost
      ensures rc <= 0 && |b| == g.bs && (old(Tracked()) ==> Tracked())
      ensures rc == 0 ==> b == disk[blk] && lost == old(lost)
      ensures rc < 0 ==> lost == old(lost) + 1
    {
      rc := *;
      b := disk[blk];
      if rc < 0 {
        b := Zeros(g.bs);
        lost := lost + 1;
        return;
      }
      rc := 0;
    }

    /** journaled_write: one block changes, or nothing does. */
    method JournaledWrite(blk: nat, x: seq<byte>) returns (rc: int)
      requires Sized(g, disk) && |x| == g.bs
      modifies this`disk, this`history, this`log, this`lost
      ensures rc <= 0 && Sized(g, disk) && (old(Logged()) ==> Logged()) && (old(Tracked()) ==> Tracked())
      ensures rc == 0 ==> disk == old(disk)[blk := x] && history == old(history) + [disk] && lost == old(lost)
      ensures rc == 0 ==> log == old(log) + [BlockWrite(blk, x, true)]
      ensures rc < 0 ==> disk == old(disk) && history == old(history) && lost == old(lost) + 1
    {
      rc := Write(blk, x, true);
    }

    /** A block write, through the journal or past it. */
    method Write(blk: nat, x: seq<byte>, journaled: bool) returns (rc: int)
      requires Sized(g, disk) && |x| == g.bs && (journaled || blk == g.SuperBlock())
      modifies this`disk, this`history, this`log, this`lost
      ensures rc <= 0 && Sized(g, disk) && (old(Logged()) ==> Logged()) && (old(Tracked()) ==> Tracked())
      ensures rc == 0 ==> disk == old(disk)[blk := x] && history == old(history) + [disk] && lost == old(lost)
      ensures rc == 0 ==> log == old(log) + [BlockWrite(blk, x, journaled)]
      ensures rc < 0 ==> disk == old(disk) && history == old(history) && lost == old(lost) + 1
    {
      hide States, Volume.StoredBut, Volume.StoredTotals;
      rc := *;
      if rc < 0 {
        lost := lost + 1;
        return;
      }
      rc := 0;
      StatesSnoc(start, log, BlockWrite(blk, x, journaled));
      disk := disk[blk := x];
      history := history + [disk];
      log := log + [BlockWrite(blk, x, journaled)];
    }

    /**
     * ext2_sync_locked: what is dirty is stored. A failed write is passed over and what it should have stored counts as
     * clean all the same. The totals, and the counts of each group, agree with the disk afterwards if and only if they
     * did before or have now been stored.
     */
    method Sync()
      requires Valid()
      modifies this`disk, this`history, this`log, this`lost, this`dirtySuper, this`dirtyDesc, this`storedSuper,
        this`storedDesc, this`missedSuper, this`missedDesc
      ensures Valid() && Unharmed(g, old(disk), disk) && lost >= old(lost)
      ensures old(history) <= history && (Owned(g, old(disk)) ==> OwnedSince(g, history, |old(history)|))
      ensures Clean()
      ensures StoredTotals() <==> old(StoredTotals()) || (old(dirtySuper) && !missedSuper)
      ensures forall gr: nat :: gr < |g.groups| ==>
                (StoredGroup(gr) <==> old(StoredGroup(gr)) || (old(dirtyDesc) && DescIn(gr) !in missedDesc))
      ensures lost == old(lost) && old(dirtySuper) ==> !missedSuper
      ensures lost == old(lost) && old(dirtyDesc) ==> forall gr: nat :: gr < |g.groups| ==> DescIn(gr) !in missedDesc
    {
      hide BlockCounts, InodeCounts, Owned, Unharmed, Geometry.Valid, Sized, Sum, Volume.Logged, Volume.DescIn,
        Volume.StoredTotals, Volume.StoredGroup;
      ghost var d := disk;
      UnharmedRefl(g, disk);
      if dirtySuper {
        SyncSuper(d, |old(history)|);
      }
      if dirtyDesc {
        SyncDesc(d, |old(history)|);
      }
    }

    /** The superblock, which is not journaled. */
    method SyncSuper(ghost d: Disk, ghost k: nat)
      requires Valid() && Unharmed(g, d, disk) && k <= |history| && (Owned(g, d) ==> OwnedSince(g, history, k))
      modifies this`disk, this`history, this`log, this`lost, this`dirtySuper, this`storedSuper, this`missedSuper
      ensures Valid() && Unharmed(g, d, disk) && lost >= old(lost) && !dirtySuper
      ensures old(history) <= history && (Owned(g, d) ==> OwnedSince(g, history, k))
      ensures (StoredTotals() <==> old(StoredTotals()) || !missedSuper) && (lost == old(lost) ==> !missedSuper)
      ensures !missedSuper ==> |log| > 0 && log[|log| - 1].blk == g.SuperBlock() && !log[|log| - 1].journaled
    {
      hide BlockCounts, InodeCounts, Owned, Unharmed, Geometry.Disjoint, Sum, Geometry.DescBlocks, OwnedSince,
        Volume.Logged, Volume.StoredBut;
      var ok := PutSystem(d, k, g.SuperBlock(), false);
      if ok {
        storedSuper := Counts(sbFreeBlocks, sbFreeInodes);
      }
      missedSuper, dirtySuper := !ok, false;
    }

    /** The descriptor blocks. */
    method SyncDesc(ghost d: Disk, ghost k: nat)
      requires Valid() && dirtyDesc && Unharmed(g, d, disk) && k <= |history|
               && (Owned(g, d) ==> OwnedSince(g, history, k))
      modifies this`disk, this`history, this`log, this`lost, this`dirtyDesc, this`storedDesc, this`missedDesc
      ensures Valid() && Unharmed(g, d, disk) && lost >= old(lost) && !dirtyDesc
      ensures old(history) <= history && (Owned(g, d) ==> OwnedSince(g, history, k))
      ensures forall gr: nat :: gr < |g.groups| ==>
                (StoredGroup(gr) <==> old(StoredGroup(gr)) || DescIn(gr) !in missedDesc)
      ensures lost == old(lost) ==> forall gr: nat :: gr < |g.groups| ==> DescIn(gr) !in missedDesc
    {
      hide BlockCounts, InodeCounts, Owned, Unharmed, Geometry.Disjoint, Sum, Geometry.DescBlocks, Volume.Logged,
        Volume.StoredGroup, OwnedSince;
      var i := 0;
      while i < g.DescBlocks()
        invariant Valid() && dirtyDesc && Unharmed(g, d, disk) && lost >= old(lost) && i <= g.DescBlocks()
        invariant old(history) <= history && (Owned(g, d) ==> OwnedSince(g, history, k))
        invariant forall gr: nat :: gr < |g.groups| && DescIn(gr) < i ==>
                    (StoredGroup(gr) <==> old(StoredGroup(gr)) || DescIn(gr) !in missedDesc)
        invariant forall gr: nat :: gr < |g.groups| && DescIn(gr) >= i ==> (StoredGroup(gr) <==> old(StoredGroup(gr)))
        invariant lost == old(lost) ==> forall gr: nat :: gr < |g.groups| && DescIn(gr) < i ==> DescIn(gr) !in missedDesc
      {
        PutDesc(d, k, i);
        i := i + 1;
      }
      DescsCovered(g);
      dirtyDesc := false;
    }

    /** One descriptor block. */
    method PutDesc(ghost d: Disk, ghost k: nat, i: nat)
      requires Valid() && dirtyDesc && i < g.DescBlocks() && Unharmed(g, d, disk) && k <= |history|
               && (Owned(g, d) ==> OwnedSince(g, history, k))
      modifies this`disk, this`history, this`log, this`lost, this`storedDesc, this`missedDesc
      ensures Valid() && Unharmed(g, d, disk) && lost >= old(lost)
      ensures old(history) <= history && (Owned(g, d) ==> OwnedSince(g, history, k))
      ensures missedDesc == old(missedDesc) + {i} || (missedDesc == old(missedDesc) - {i})
      ensures lost == old(lost) ==> i !in missedDesc
      ensures forall gr: nat :: gr < |g.groups| ==>
                (StoredGroup(gr) <==> old(StoredGroup(gr)) || (DescIn(gr) == i && i !in missedDesc))
    {
      hide Owned, Unharmed, Geometry.Disjoint, Sum, Geometry.DescBlocks, OwnedSince, Volume.Logged;
      CountLengths();
      hide BlockCounts, InodeCounts;
      var ok := PutSystem(d, k, g.DescBlock() + i, true);
      if ok {
        storedDesc := Refreshed(g, storedDesc, freeBlocks, freeInodes, i);
      }
      missedDesc := if ok then missedDesc - {i} else missedDesc + {i};
    }

    lemma CountLengths()
      requires Valid()
      ensures |freeBlocks| == |freeInodes| == |g.groups| == |storedDesc|
    {
    }

    /** One of the writes of Sync. */
    method PutSystem(ghost d: Disk, ghost k: nat, blk: nat, journaled: bool) returns (ok: bool)
      requires Valid() && blk in g.system && Unharmed(g, d, disk) && k <= |history|
               && (Owned(g, d) ==> OwnedSince(g, history, k)) && (journaled || blk == g.SuperBlock())
      modifies this`disk, this`history, this`log, this`lost
      ensures Valid() && Unharmed(g, d, disk) && lost >= old(lost) && (ok <==> lost == old(lost))
      ensures old(history) <= history && (Owned(g, d) ==> OwnedSince(g, history, k))
      ensures ok ==> |log| > 0 && log[|log| - 1].blk == blk && log[|log| - 1].journaled == journaled
    {
      hide BlockCounts, InodeCounts, Owned, Geometry.Disjoint, Sum, SameContent, SameInodes, Volume.Logged,
        Volume.StoredBut, Volume.StoredTotals;
      var x: seq<byte> := *;
      if |x| != g.bs {
        x := Zeros(g.bs);
      }
      var rc := Write(blk, x, journaled);
      ok := rc == 0;
      if ok {
        SystemNoBitmap(g, blk);
        CountsFrame(g, old(disk), blk, x, freeBlocks, freeInodes);
        UnharmedWrite(g, d, old(disk), blk, x);
      }
    }

    /** One free block less or more in group gr: its count and the total change and are dirty. */
    method Account(gr: nat, change: int)
      requires g.Valid() && Sized(g, disk) && Tracked() && Logged() && gr < |freeBlocks| && freeBlocks[gr] + change >= 0
      requires sbFreeBlocks == Sum(freeBlocks) && sbFreeInodes == Sum(freeInodes)
      requires BlockCounts(g, disk, freeBlocks[gr := freeBlocks[gr] + change]) && InodeCounts(g, disk, freeInodes)
      modifies this`freeBlocks, this`sbFreeBlocks, this`dirtyDesc, this`dirtySuper
      ensures Valid() && dirtyDesc && dirtySuper && sbFreeBlocks == old(sbFreeBlocks) + change
      ensures freeBlocks == old(freeBlocks)[gr := old(freeBlocks)[gr] + change]
    {
      hide BlockCounts, InodeCounts, Sum, Geometry.Valid, Volume.Logged;
      SumUpdate(freeBlocks, gr, freeBlocks[gr] + change);
      freeBlocks := freeBlocks[gr := freeBlocks[gr] + change];
      sbFreeBlocks := sbFreeBlocks + change;
      dirtyDesc, dirtySuper := true, true;
    }

    /** One free inode less in group gr. */
    method AccountInode(gr: nat)
      requires g.Valid() && Sized(g, disk) && Tracked() && Logged() && gr < |freeInodes| && freeInodes[gr] > 0
      requires sbFreeBlocks == Sum(freeBlocks) && sbFreeInodes == Sum(freeInodes)
      requires BlockCounts(g, disk, freeBlocks) && InodeCounts(g, disk, freeInodes[gr := freeInodes[gr] - 1])
      modifies this`freeInodes, this`sbFreeInodes, this`dirtyDesc, this`dirtySuper
      ensures Valid() && dirtyDesc && dirtySuper && sbFreeInodes == old(sbFreeInodes) - 1
      ensures freeInodes == old(freeInodes)[gr := old(freeInodes)[gr] - 1]
    {
      hide BlockCounts, InodeCounts, Sum, Geometry.Valid, Volume.Logged;
      SumUpdate(freeInodes, gr, freeInodes[gr] - 1);
      freeInodes := freeInodes[gr := freeInodes[gr] - 1];
      sbFreeInodes := sbFreeInodes - 1;
      dirtyDesc, dirtySuper := true, true;
    }

    /** alloc_block_in_group_locked: the first clear bit. */
    method AllocBlock(gr: nat) returns (rc: int, blk: nat)
      requires Valid() && gr < |g.groups|
      modifies this
      ensures Valid() && (rc == 0 || rc == -EIO || rc == -ENOSPC)
      ensures rc == -ENOSPC <==> old(freeBlocks)[gr] == 0
      ensures rc == 0 ==> Taken(g, old(disk), disk, blk) && FirstIn(g, old(disk), gr, blk) && history == old(history) + [disk]
      ensures rc != 0 ==> disk == old(disk) && history == old(history) && freeBlocks == old(freeBlocks)
      ensures rc == -EIO ==> lost > old(lost)
      ensures lost >= old(lost)
      ensures rc == 0 ==> dirtySuper && dirtyDesc && (old(StoredTotals()) ==> !StoredTotals())
      ensures sbFreeInodes == old(sbFreeInodes) && freeInodes == old(freeInodes)
      ensures sbFreeBlocks == old(sbFreeBlocks) - if rc == 0 then 1 else 0
    {
      hide Volume.Logged, Volume.Tracked, TestBit, SetBit, Taken, FirstIn, BlockCounts, InodeCounts, Sum, Geometry.Disjoint, Geometry.DescBlocks;
      BlockCountsLength(g, disk, freeBlocks);
      blk := 0;
      if freeBlocks[gr] == 0 {
        return -ENOSPC, 0;
      }
      var bm;
      rc, bm := ReadBlock(g.groups[gr].blockBitmap);
      if rc != 0 {
        return -EIO, 0;
      }
      var bit := 0;
      while bit < g.bpg && TestBit(bm, bit)
        invariant bit <= g.bpg && forall c :: 0 <= c < bit ==> TestBit(bm, c)
      {
        bit := bit + 1;
      }
      if bit == g.bpg {
        ScanFails(g, disk, gr, freeBlocks);
        assert false;
      }
      rc := JournaledWrite(g.groups[gr].blockBitmap, SetBit(bm, bit));
      if rc != 0 {
        return -EIO, 0;
      }
      blk := g.BlockAt(gr, bit);
      TakeBit(g, old(disk), gr, bit, freeBlocks, freeInodes);
      Account(gr, -1);
    }

    /**
     * An allocation on a volume whose totals are right on the disk, and the sync after it: nothing is dirty then, but the
     * totals on the disk are wrong again if the store of the superblock failed, and only then.
     */
    method AllocAndSync(gr: nat) returns (rc: int, blk: nat)
      requires Valid() && gr < |g.groups| && StoredTotals()
      modifies this
      ensures Valid() && !dirtySuper && !dirtyDesc
      ensures rc == 0 ==> (StoredTotals() <==> !missedSuper)
    {
      hide Volume.Logged, Volume.Tracked, Taken, FirstIn, BlockCounts, InodeCounts, Sum, Geometry.Valid, Sized, Unharmed,
        OwnedSince, Volume.StoredGroup, Volume.StoredTotals;
      rc, blk := AllocBlock(gr);
      Sync();
    }

    /** The search of ext2_inode_write_data: group after group until one yields a block. */
    method AllocBlockAnywhere() returns (rc: int, blk: nat)
      requires Valid() && |g.groups| > 0
      modifies this
      ensures Valid() && (rc == 0 || rc == -EIO || rc == -ENOSPC)
      ensures rc == 0 ==> Taken(g, old(disk), disk, blk) && history == old(history) + [disk]
      ensures rc != 0 ==> disk == old(disk) && history == old(history)
      ensures lost >= old(lost) && (rc != 0 && lost == old(lost) ==> rc == -ENOSPC && sbFreeBlocks == 0)
      ensures rc == 0 && lost == old(lost) ==> Lowest(g, old(disk), blk)
      ensures sbFreeBlocks == old(sbFreeBlocks) - (if rc == 0 then 1 else 0) && sbFreeInodes == old(sbFreeInodes)
    {
      hide Volume.Logged, Volume.Tracked, Taken, FirstIn, BlockCounts, InodeCounts, Sum, Geometry.Disjoint, Geometry.DescBlocks,
           Lowest;
      BlockCountsLength(g, disk, freeBlocks);
      rc, blk := AllocBlock(0);
      if rc == 0 {
        FirstIsLowest(g, old(disk), old(freeBlocks), 0, blk);
      }
      var gr := 1;
      while rc != 0 && gr < |g.groups|
        invariant 1 <= gr <= |g.groups|
        invariant Valid() && (rc == 0 || rc == -EIO || rc == -ENOSPC)
        invariant rc == 0 ==> Taken(g, old(disk), disk, blk) && history == old(history) + [disk]
        invariant rc != 0 ==> disk == old(disk) && history == old(history) && freeBlocks == old(freeBlocks)
        invariant lost >= old(lost)
        invariant rc != 0 && lost == old(lost) ==> rc == -ENOSPC && forall k :: 0 <= k < gr ==> freeBlocks[k] == 0
        invariant rc == 0 && lost == old(lost) ==> Lowest(g, old(disk), blk)
        invariant sbFreeBlocks == old(sbFreeBlocks) - (if rc == 0 then 1 else 0) && sbFreeInodes == old(sbFreeInodes)
        decreases |g.groups| - gr
      {
        ghost var before := lost;
        rc, blk := AllocBlock(gr);
        if rc == 0 && before == old(lost) {
          FirstIsLowest(g, old(disk), old(freeBlocks), gr, blk);
        }
        gr := gr + 1;
      }
      if rc != 0 && lost == old(lost) {
        SumZero(freeBlocks);
      }
    }

    /** The search of ext2_dir_add_entry, which gives up at the first I/O error. */
    method AllocBlockUnlessError() returns (rc: int, blk: nat)
      requires Valid()
      modifies this
      ensures Valid() && (rc == 0 || rc == -EIO || rc == -ENOSPC)
      ensures rc == 0 ==> Taken(g, old(disk), disk, blk) && history == old(history) + [disk]
      ensures rc != 0 ==> disk == old(disk) && history == old(history)
      ensures rc == -ENOSPC <==> Sum(old(freeBlocks)) == 0
      ensures lost >= old(lost) && (rc == -EIO ==> lost > old(lost)) && (rc == -ENOSPC ==> sbFreeBlocks == 0)
      ensures rc == 0 ==> Lowest(g, old(disk), blk)
      ensures sbFreeBlocks == old(sbFreeBlocks) - (if rc == 0 then 1 else 0) && sbFreeInodes == old(sbFreeInodes)
    {
      hide Volume.Logged, Volume.Tracked, Taken, FirstIn, BlockCounts, InodeCounts, Sum, Geometry.Disjoint, Geometry.DescBlocks,
           Lowest;
      BlockCountsLength(g, disk, freeBlocks);
      rc, blk := -ENOSPC, 0;
      var gr := 0;
      while gr < |g.groups|
        invariant gr <= |g.groups| && rc == -ENOSPC
        invariant Valid() && disk == old(disk) && history == old(history) && freeBlocks == old(freeBlocks)
        invariant lost >= old(lost) && forall k :: 0 <= k < gr ==> freeBlocks[k] == 0
        invariant sbFreeBlocks == old(sbFreeBlocks) && sbFreeInodes == old(sbFreeInodes)
      {
        rc, blk := AllocBlock(gr);
        if rc == 0 {
          FirstIsLowest(g, old(disk), old(freeBlocks), gr, blk);
        }
        if rc == 0 || rc == -EIO {
          SumAtLeast(old(freeBlocks), gr);
          return;
        }
        gr := gr + 1;
      }
      SumZero(freeBlocks);
    }

    /** One step of ext2_reserve_blocks. */
    method ReserveBlock(blk: nat) returns (done: bool)
      requires Valid()
      modifies this
      ensures Valid() && lost >= old(lost)
      ensures done ==> Taken(g, old(disk), disk, blk) && history == old(history) + [disk] && sbFreeBlocks == old(sbFreeBlocks) - 1
      ensures !done ==> disk == old(disk) && history == old(history) && sbFreeBlocks == old(sbFreeBlocks)
      ensures sbFreeInodes == old(sbFreeInodes)
      ensures !done && lost == old(lost) ==> !g.InRange(blk) || Used(g, disk, blk)
    {
      hide Volume.Logged, Volume.Tracked, Mark, BlockCounts, InodeCounts, Sum, Geometry.Disjoint, Geometry.DescBlocks, Geometry.GroupOf,
           Geometry.BitOf, TestBit, SetBit;
      if !g.InRange(blk) {
        return false;
      }
      var rc, bm := ReadBlock(BitmapBlock(g, blk));
      if rc != 0 || TestBit(bm, g.BitOf(blk)) {
        return false;
      }
      rc := JournaledWrite(BitmapBlock(g, blk), SetBit(bm, g.BitOf(blk)));
      if rc != 0 {
        return false;
      }
      TakeBlock(g, old(disk), disk, blk, freeBlocks, freeInodes);
      Account(g.GroupOf(blk), -1);
      done := true;
    }

    /** The body of the loop of ext2_inode_truncate: the bit of a dropped block is cleared. */
    method ReleaseBlock(blk: nat) returns (done: bool)
      requires Valid()
      modifies this
      ensures Valid() && lost >= old(lost)
      ensures done ==> g.InRange(blk) && Used(g, old(disk), blk) && disk == Unmark(g, old(disk), blk) && history == old(history) + [disk]
      ensures done ==> sbFreeBlocks == old(sbFreeBlocks) + 1
      ensures !done ==> disk == old(disk) && history == old(history) && sbFreeBlocks == old(sbFreeBlocks)
      ensures sbFreeInodes == old(sbFreeInodes)
      ensures !done && lost == old(lost) ==> !g.InRange(blk) || !Used(g, disk, blk)
    {
      hide Volume.Logged, Volume.Tracked, Unmark, BlockCounts, InodeCounts, Sum, Geometry.Disjoint, Geometry.DescBlocks, Geometry.GroupOf,
           Geometry.BitOf, TestBit, ClearBit;
      if !g.InRange(blk) {
        return false;
      }
      var rc, bm := ReadBlock(BitmapBlock(g, blk));
      if rc != 0 || !TestBit(bm, g.BitOf(blk)) {
        return false;
      }
      rc := JournaledWrite(BitmapBlock(g, blk), ClearBit(bm, g.BitOf(blk)));
      if rc != 0 {
        return false;
      }
      DropBlock(g, old(disk), disk, blk, freeBlocks, freeInodes);
      Account(g.GroupOf(blk), 1);
      done := true;
    }

    /** read_inode. */
    method ReadInode(ino: nat) returns (rc: int, n: Inode)
      requires Valid()
      modifies this`lost
      ensures Valid() && lost >= old(lost) && (rc == 0 ==> g.ValidIno(ino) && n == InodeAt(g, disk, ino) && lost == old(lost))
      ensures rc != 0 ==> !g.ValidIno(ino) || lost > old(lost)
    {
      hide Volume.Logged, Volume.Tracked;
      n := Zeros(INODE_BYTES);
      if ino == 0 || ino > g.inodes {
        return -ENOENT, n;
      }
      if (ino - 1) / g.ipg >= |g.groups| {
        return -EIO, n;
      }
      var b;
      rc, b := ReadBlock(g.InodeBlock(ino));
      if rc != 0 {
        return -EIO, n;
      }
      InodeInTable(g, ino);
      n := b[g.InodeOffset(ino)..g.InodeOffset(ino) + INODE_BYTES];
    }

    /** write_inode_locked. */
    method WriteInode(ino: nat, n: Inode) returns (rc: int)
      requires Valid()
      modifies this`disk, this`history, this`log, this`lost
      ensures Valid() && lost >= old(lost) && rc <= 0
      ensures rc == 0 ==> g.ValidIno(ino) && disk == PutInode(g, old(disk), ino, n) && history == old(history) + [disk]
      ensures rc != 0 ==> disk == old(disk) && history == old(history)
      ensures rc != 0 && lost == old(lost) ==> !g.ValidIno(ino) && (rc == -EINVAL || rc == -EIO)
    {
      hide Volume.Logged, Volume.Tracked;
      if ino == 0 || ino > g.inodes {
        return -EINVAL;
      }
      if (ino - 1) / g.ipg >= |g.groups| {
        return -EIO;
      }
      var b;
      rc, b := ReadBlock(g.InodeBlock(ino));
      if rc != 0 {
        return -EIO;
      }
      InodeInTable(g, ino);
      hide Volume.Logged, Volume.Tracked, BlockCounts, InodeCounts, Sum, Geometry.Disjoint, Geometry.DescBlocks, Geometry.InodeBlock,
           Geometry.InodeOffset, Geometry.InTable;
      rc := JournaledWrite(g.InodeBlock(ino), Splice(b, g.InodeOffset(ino), n));
      TableNoBitmap(g, ino);
      CountsFrame(g, old(disk), g.InodeBlock(ino), Splice(b, g.InodeOffset(ino), n), freeBlocks, freeInodes);
    }

    /** Store a block that holds no bitmap. */
    method WriteData(blk: nat, x: seq<byte>) returns (rc: int)
      requires Valid() && |x| == g.bs && !g.Reserved(blk)
      modifies this`disk, this`history, this`log, this`lost
      ensures Valid() && rc <= 0 && lost >= old(lost)
      ensures rc == 0 ==> disk == old(disk)[blk := x] && history == old(history) + [disk]
      ensures rc != 0 ==> disk == old(disk) && history == old(history)
      ensures rc != 0 ==> lost > old(lost)
    {
      hide Volume.Logged, Volume.Tracked, BlockCounts, InodeCounts, Sum, Geometry.Disjoint, Geometry.DescBlocks, Geometry.Reserved;
      rc := JournaledWrite(blk, x);
      DataNoBitmap(g, blk);
      CountsFrame(g, old(disk), blk, x, freeBlocks, freeInodes);
    }
  }

  lemma BlockCountsLength(g: Geometry, d: Disk, freeBlocks: seq<nat>)
    requires g.Sizes() && Sized(g, d) && BlockCounts(g, d, freeBlocks)
    ensures |freeBlocks| == |g.groups|
  {
  }

  /** Only a group with count zero has no clear bit. */
  lemma ScanFails(g: Geometry, d: Disk, gr: nat, freeBlocks: seq<nat>)
    requires g.Sizes() && Sized(g, d) && BlockCounts(g, d, freeBlocks) && gr < |g.groups|
    requires forall c :: 0 <= c < g.bpg ==> TestBit(d[g.groups[gr].blockBitmap], c)
    ensures freeBlocks[gr] == 0
  {
    hide TestBit;
    CountZeroIfFull(d[g.groups[gr].blockBitmap], g.bpg);
  }

  lemma {:induction false} SumZero(s: seq<nat>)
    requires forall i :: 0 <= i < |s| ==> s[i] == 0
    ensures Sum(s) == 0
    decreases |s|
  {
    if |s| > 0 {
      SumZero(s[..|s| - 1]);
    }
  }

  lemma TakeBlock(g: Geometry, d: Disk, e: Disk, blk: nat, freeBlocks: seq<nat>, freeInodes: seq<nat>)
    requires g.Valid() && Sized(g, d) && g.InRange(blk) && !TestBit(d[BitmapBlock(g, blk)], g.BitOf(blk))
    requires e == d[BitmapBlock(g, blk) := SetBit(d[BitmapBlock(g, blk)], g.BitOf(blk))]
    requires BlockCounts(g, d, freeBlocks) && InodeCounts(g, d, freeInodes)
    ensures Taken(g, d, e, blk) && Sized(g, e) && |freeBlocks| == |g.groups| && freeBlocks[g.GroupOf(blk)] > 0
    ensures BlockCounts(g, e, freeBlocks[g.GroupOf(blk) := freeBlocks[g.GroupOf(blk)] - 1])
            && InodeCounts(g, e, freeInodes)
  {
    hide TestBit, SetBit, InodeCounts, Geometry.InRange, Geometry.GroupOf, Geometry.BitOf, Geometry.Disjoint,
         CountClear;
    MarkCounts(g, d, blk, freeBlocks, freeInodes);
  }

  lemma DropBlock(g: Geometry, d: Disk, e: Disk, blk: nat, freeBlocks: seq<nat>, freeInodes: seq<nat>)
    requires g.Valid() && Sized(g, d) && g.InRange(blk) && TestBit(d[BitmapBlock(g, blk)], g.BitOf(blk))
    requires e == d[BitmapBlock(g, blk) := ClearBit(d[BitmapBlock(g, blk)], g.BitOf(blk))]
    requires BlockCounts(g, d, freeBlocks) && InodeCounts(g, d, freeInodes)
    ensures Used(g, d, blk) && e == Unmark(g, d, blk) && |freeBlocks| == |g.groups|
    ensures BlockCounts(g, e, freeBlocks[g.GroupOf(blk) := freeBlocks[g.GroupOf(blk)] + 1])
            && InodeCounts(g, e, freeInodes)
  {
    hide TestBit, ClearBit, InodeCounts, Geometry.InRange, Geometry.GroupOf, Geometry.BitOf, Geometry.Disjoint,
         CountClear;
    UnmarkCounts(g, d, blk, freeBlocks, freeInodes);
  }

  lemma TakeBit(g: Geometry, d: Disk, gr: nat, bit: nat, freeBlocks: seq<nat>, freeInodes: seq<nat>)
    requires g.Valid() && Sized(g, d) && gr < |g.groups| && bit < g.bpg
    requires !TestBit(d[g.groups[gr].blockBitmap], bit)
    requires forall c :: 0 <= c < bit ==> TestBit(d[g.groups[gr].blockBitmap], c)
    requires BlockCounts(g, d, freeBlocks) && InodeCounts(g, d, freeInodes)
    ensures var e := d[g.groups[gr].blockBitmap := SetBit(d[g.groups[gr].blockBitmap], bit)];
            && Taken(g, d, e, g.BlockAt(gr, bit)) && FirstIn(g, d, gr, g.BlockAt(gr, bit))
            && freeBlocks[gr] > 0 && Sized(g, e)
            && BlockCounts(g, e, freeBlocks[gr := freeBlocks[gr] - 1]) && InodeCounts(g, e, freeInodes)
  {
    BlockAtInverse(g, gr, bit);
    hide TestBit, SetBit, BlockCounts, InodeCounts, Geometry.InRange, Geometry.GroupOf, Geometry.BitOf,
         Geometry.BlockAt, Geometry.Disjoint;
    MarkCounts(g, d, g.BlockAt(gr, bit), freeBlocks, freeInodes);
  }

  lemma UnharmedRefl(g: Geometry, d: Disk)
    requires g.Valid() && Sized(g, d)
    ensures Unharmed(g, d, d)
  {
  }

  lemma UnharmedWrite(g: Geometry, d: Disk, e: Disk, blk: nat, x: seq<byte>)
    requires Unharmed(g, d, e) && blk in g.system && |x| == g.bs
    ensures Unharmed(g, d, e[blk := x])
  {
    hide Content, InodeAt, Refs, Used, Geometry.InRange, Geometry.Disjoint, Geometry.Reserved, Marked, Single,
         MetaMarked;
    if Owned(g, d) {
      SystemWriteOwned(g, e, blk, x);
      SystemKeeps(g, e, blk, x);
    }
  }

  /** The descriptor of every group is in one of the descriptor blocks. */
  lemma DescsCovered(g: Geometry)
    requires g.bs > 0
    ensures forall gr: nat :: gr < |g.groups| ==> g.DescOf(gr) < g.DescBlocks()
  {
    forall gr: nat | gr < |g.groups|
      ensures g.DescOf(gr) < g.DescBlocks()
    {
      CeilingAbove(gr * 32, |g.groups| * 32, g.bs);
    }
  }
}
