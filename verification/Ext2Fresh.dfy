/** A freshly made volume: it meets every condition that the ext2 operations ask for. */
module Ext2Fresh {
  import opened Words
  import opened Ext2Bitmap
  import opened Ext2Layout
  import opened Ext2Inode
  import opened Ext2Owner
  import opened Ext2Counts
  import opened Ext2DirDisk
  import opened Ext2Truncate

  /** One group: superblock, descriptors, two bitmaps and a table of eight inodes, then data. */
  function Small(): Geometry {
    Geometry(1024, 128, 8192, 8, 1, 8, 1, [Group(3, 4, 5)], {1, 2})
  }

  /** Blocks 1 to 5 are marked, and all else is zero. */
  function FreshBlock(b: nat): (x: seq<byte>)
    ensures |x| == 1024
    ensures forall i :: 0 <= i < 1024 ==> x[i] == if b == 3 && i == 0 then 31 else 0
  {
    if b == 3 then [31] + Zeros(1023) else Zeros(1024)
  }

  ghost function FreshDisk(): (d: Disk)
    ensures forall b: nat :: b in d && d[b] == FreshBlock(b)
  {
    imap b: nat :: FreshBlock(b)
  }

  lemma SmallValid()
    ensures Small().Valid() && Sized(Small(), FreshDisk())
  {
    hide FreshDisk, FreshBlock;
    var g := Small();
    assert g.TableLen() == 1 && g.DescBlocks() == 1;
  }

  lemma FreshBits(bit: nat)
    requires bit < 8192
    ensures TestBit(FreshDisk()[3], bit) <==> bit < 5
  {
    hide FreshDisk, FreshBlock;
    assert FreshDisk()[3] == FreshBlock(3);
  }

  /** No inode refers to anything. */
  lemma FreshRefers(ino: nat, p: Path, b: nat)
    requires Small().Sizes() && Sized(Small(), FreshDisk())
    ensures !Refs(Small(), FreshDisk(), ino, p, b)
  {
    hide GetU32, FreshDisk, FreshBlock;
    var g, d := Small(), FreshDisk();
    if b != 0 && g.ValidIno(ino) && p.Valid(g.PerBlock()) {
      InodeInTable(g, ino);
      assert g.InodeBlock(ino) == 5 && d[5] == FreshBlock(5);
      var n := InodeAt(g, d, ino);
      forall i | 0 <= i < N_BLOCKS
        ensures PtrOf(n, i) == 0
      {
        ZeroReads(n, PtrOffset(i));
      }
    }
  }

  /** The fresh volume keeps the ownership rule, its counts are those of its bitmaps, and it has free blocks. */
  lemma FreshOwned()
    ensures Owned(Small(), FreshDisk())
    ensures exists fb, fi :: BlockCounts(Small(), FreshDisk(), fb) && InodeCounts(Small(), FreshDisk(), fi) && fb[0] > 0 && fi[0] > 0
  {
    hide Refs, TestBit, CountClear, FreshDisk, FreshBlock;
    var g, d := Small(), FreshDisk();
    SmallValid();
    forall ino, p, b
      ensures !Refs(g, d, ino, p, b)
    {
      FreshRefers(ino, p, b);
    }
    forall b: nat | g.InRange(b) && g.Reserved(b)
      ensures Used(g, d, b)
    {
      FreshBits(b - 1);
    }
    FreshBits(5);
    CountPositive(d[3], 5, g.bpg);
    InodeBitClear();
    CountPositive(d[4], 0, g.ipg);
    var fb, fi := [CountClear(d[3], g.bpg)], [CountClear(d[4], g.ipg)];
    assert BlockCounts(g, d, fb) && InodeCounts(g, d, fi);
  }

  /** The fresh volume once block 6 has been given to inode 1. */
  ghost function OneBlockFile(): Disk
    requires Small().Valid() && Sized(Small(), FreshDisk())
  {
    var d := Mark(Small(), FreshDisk(), 6);
    PutInode(Small(), d, 1, WithPtr(InodeAt(Small(), d, 1), 0, 6))
  }

  /** It keeps the rule, and cutting that file to nothing goes through a disk that does not. */
  lemma OneBlockOwned()
    ensures Small().Valid() && Sized(Small(), FreshDisk())
    ensures var g, d := Small(), OneBlockFile();
            Owned(g, d) && PtrOf(InodeAt(g, d, 1), 0) == 6 && g.InRange(6) && !Owned(g, Unmark(g, d, 6))
  {
    hide Refs, TestBit, FreshDisk, FreshBlock, Used, InodeAt, PutInode, PtrOf, WithPtr, Mark, Unmark, Marked, Single, MetaMarked;
    var g, f := Small(), FreshDisk();
    SmallValid();
    FreshOwned();
    FreshUnused();
    UnusedIsFree(g, f, 6);
    MarkOwned(g, f, 6);
    var d := Mark(g, f, 6);
    var n := InodeAt(g, d, 1);
    WithPtrReads(n, 0, 6);
    NotPointed(g, d, 1, 6);
    AdoptOwned(g, d, 1, WithPtr(n, 0, 6), 6);
    PutInodeReads(g, d, 1, WithPtr(n, 0, 6), 1);
    FreedTooEarly(g, OneBlockFile(), 1, 0);
  }

  lemma NotPointed(g: Geometry, d: Disk, ino: nat, b: nat)
    requires g.Sizes() && Sized(g, d) && g.ValidIno(ino) && Free(g, d, b) && b != 0
    ensures forall i :: 0 <= i < NDIR ==> PtrOf(InodeAt(g, d, ino), i) != b
  {
    hide PtrOf, InodeAt;
    forall i | 0 <= i < NDIR
      ensures PtrOf(InodeAt(g, d, ino), i) != b
    {
      assert !Refs(g, d, ino, Direct(i), b);
    }
  }

  lemma FreshUnused()
    requires Small().Sizes() && Sized(Small(), FreshDisk())
    ensures Small().InRange(6) && !Used(Small(), FreshDisk(), 6)
  {
    hide FreshDisk, TestBit;
    FreshBits(5);
  }

  lemma InodeBitClear()
    ensures !TestBit(FreshDisk()[4], 0)
  {
    hide FreshDisk, FreshBlock;
    assert FreshDisk()[4] == FreshBlock(4);
  }

  /** A new inode is an empty, well-formed directory on any disk. */
  lemma FreshDirectory(g: Geometry, d: Disk, mode: nat, now: nat)
    requires g.bs > 0 && Sized(g, d) && mode < TWO16 && now < TWO32
    ensures DirOk(g, d, FreshInode(mode, now)) && DirEntries(g, d, FreshInode(mode, now)) == []
  {
    hide FreshInode;
    FreshFields(mode, now);
  }
}
