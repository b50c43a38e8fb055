/** Truncating a file (src/kernel/fs/ext2.c:586-638). */
module Ext2Truncate {
  import opened Errno
  import opened Words
  import opened Ext2Layout
  import opened Ext2Inode
  import opened Ext2Stat
  import opened Ext2Owner
  import opened Ext2File
  import opened Ext2Counts
  import opened Ext2Volume
  import opened Ext2Alloc

  /** The inode once pointer l is dropped; the sector count goes down when the block was freed. */
  function Dropped(g: Geometry, n: Inode, l: nat, freed: bool): Inode
    requires l < NDIR
  {
    WithPtr(if freed && SectorsOf(n) >= g.bs / 512 then WithSectors(n, SectorsOf(n) - g.bs / 512) else n, l, 0)
  }

  lemma SectorsFit(n: Inode)
    ensures SectorsOf(n) < TWO32
  {
  }

  lemma DroppedGains(g: Geometry, n: Inode, l: nat, freed: bool)
    requires l < NDIR
    ensures Gains(n, Dropped(g, n, l, freed), l, 0) && ModeOf(Dropped(g, n, l, freed)) == ModeOf(n)
  {
    hide PtrOf, WithPtr, WithSectors, SizeOf, ModeOf, SectorsOf;
    SectorsFit(n);
    WithPtrReads(n, l, 0);
    if SectorsOf(n) >= g.bs / 512 {
      var s := SectorsOf(n) - g.bs / 512;
      SectorsReads(n, s);
      WithPtrReads(WithSectors(n, s), l, 0);
    }
  }

  lemma DroppedShrank(g: Geometry, a: Inode, n: Inode, keep: nat, i: nat, c: nat, freed: bool)
    requires keep <= i < NDIR && Shrank(g.bs, a, n, keep, i, c)
    ensures Shrank(g.bs, a, Dropped(g, n, i, freed), keep, i + 1, c + if freed then 1 else 0)
  {
    hide GetU32, WithPtr, WithSectors;
    SectorsFit(n);
    var down := freed && SectorsOf(n) >= g.bs / 512;
    var s := if down then WithSectors(n, SectorsOf(n) - g.bs / 512) else n;
    if down {
      SectorWords(n, SectorsOf(n) - g.bs / 512);
      SameDirects(s, n);
    }
    PtrWords(s, i, 0);
    SameWordAt(Dropped(g, n, i, freed), s, 28);
  }

  lemma HoleShrank(g: Geometry, a: Inode, n: Inode, keep: nat, i: nat, c: nat)
    requires keep <= i < NDIR && Shrank(g.bs, a, n, keep, i, c) && PtrOf(n, i) == 0
    ensures Shrank(g.bs, a, n, keep, i + 1, c)
  {
    hide GetU32, Less;
    assert DirectPtr(n, i) == 0;
  }

  /** Blocks keep to i of the file are holes; every other byte of every file is as in d0. */
  ghost predicate Cut(g: Geometry, d0: Disk, v: Disk, ino: nat, keep: nat, i: nat)
    requires g.Sizes() && Sized(g, d0) && Sized(g, v)
  {
    forall j, pos: nat :: g.ValidIno(j) ==>
      Content(g, v, j, pos) == if j == ino && keep <= g.Logical(pos) < i then 0 else Content(g, d0, j, pos)
  }

  /** Only blocks that inode n pointed to from keep up to i have been freed. */
  ghost predicate FreedOnly(g: Geometry, d0: Disk, d: Disk, n: Inode, keep: nat, i: nat)
    requires g.Sizes() && Sized(g, d0) && Sized(g, d) && i <= NDIR
  {
    && (forall b :: g.InRange(b) && Used(g, d, b) ==> Used(g, d0, b))
    && (forall b :: g.InRange(b) && Used(g, d0, b) && !Used(g, d, b) ==> exists l :: keep <= l < i && PtrOf(n, l) == b != 0)
  }

  ghost predicate FreedAll(g: Geometry, d: Disk, n: Inode, keep: nat, i: nat)
    requires g.Sizes() && Sized(g, d) && i <= NDIR
  {
    forall l :: keep <= l < i && PtrOf(n, l) != 0 && g.InRange(PtrOf(n, l)) ==> !Used(g, d, PtrOf(n, l))
  }

  /** Part of the way: was is the inode at the start, n the one in hand. */
  ghost predicate Cutting(g: Geometry, d0: Disk, d: Disk, ino: nat, was: Inode, n: Inode, keep: nat, i: nat) {
    && g.Valid() && Sized(g, d0) && Sized(g, d) && g.ValidIno(ino) && i <= NDIR
    && Owned(g, PutInode(g, d, ino, n)) && Cut(g, d0, PutInode(g, d, ino, n), ino, keep, i)
    && SameInodes(g, d0, d) && InodeAt(g, d0, ino) == was
    && (forall l :: i <= l < NDIR ==> PtrOf(n, l) == PtrOf(was, l))
    && ModeOf(n) == ModeOf(was)
    && FreedOnly(g, d0, d, was, keep, i)
  }

  lemma CuttingStart(g: Geometry, d: Disk, ino: nat, keep: nat)
    requires Owned(g, d) && g.ValidIno(ino) && keep <= NDIR
    ensures Cutting(g, d, d, ino, InodeAt(g, d, ino), InodeAt(g, d, ino), keep, keep)
    ensures FreedAll(g, d, InodeAt(g, d, ino), keep, keep)
  {
    InHandStart(g, d, ino);
    hide InodeAt, PutInode, Content, Used, PtrOf, Geometry.InRange, Geometry.Logical, Geometry.Disjoint, ModeOf;
    hide Marked, Single, MetaMarked, Grown;
  }

  // ----- One block -----

  lemma CutHole(g: Geometry, d0: Disk, v: Disk, ino: nat, n: Inode, keep: nat, i: nat)
    requires g.Sizes() && Sized(g, d0) && Sized(g, v) && g.ValidIno(ino) && Cut(g, d0, v, ino, keep, i)
    requires InodeAt(g, v, ino) == n && i < NDIR && PtrOf(n, i) == 0 && keep <= i
    ensures Cut(g, d0, v, ino, keep, i + 1)
  {
    forall pos: nat | g.Logical(pos) == i
      ensures Content(g, v, ino, pos) == 0
    {
      assert Phys(g, v, n, g.Logical(pos)) == 0;
      HoleContent(g, v, ino, pos);
    }
    hide Content, InodeAt, PtrOf, Geometry.Logical;
  }

  lemma CuttingHole(g: Geometry, d0: Disk, d: Disk, ino: nat, was: Inode, n: Inode, keep: nat, i: nat)
    requires Cutting(g, d0, d, ino, was, n, keep, i) && i < NDIR && keep <= i && PtrOf(n, i) == 0
    ensures Cutting(g, d0, d, ino, was, n, keep, i + 1)
    ensures FreedAll(g, d, was, keep, i) ==> FreedAll(g, d, was, keep, i + 1)
  {
    PutInodeReads(g, d, ino, n, ino);
    hide InodeAt, PutInode, Used, PtrOf, Geometry.InRange, Geometry.Logical, Geometry.Disjoint, Marked, Single,
         MetaMarked, Content, ModeOf;
    CutHole(g, d0, PutInode(g, d, ino, n), ino, n, keep, i);
    hide Cut;
    FreedWider(g, d0, d, was, keep, i);
  }

  lemma FreedWider(g: Geometry, d0: Disk, d: Disk, n: Inode, keep: nat, i: nat)
    requires g.Sizes() && Sized(g, d0) && Sized(g, d) && i < NDIR && FreedOnly(g, d0, d, n, keep, i)
    ensures FreedOnly(g, d0, d, n, keep, i + 1)
  {
    hide Used, PtrOf, Geometry.InRange;
    forall b | g.InRange(b) && Used(g, d0, b) && !Used(g, d, b)
      ensures exists l :: keep <= l < i + 1 && PtrOf(n, l) == b != 0
    {
      var l :| keep <= l < i && PtrOf(n, l) == b != 0;
      assert keep <= l < i + 1;
    }
  }

  lemma CutHoled(g: Geometry, d0: Disk, v: Disk, w: Disk, ino: nat, keep: nat, i: nat)
    requires g.Sizes() && Sized(g, d0) && Sized(g, v) && Sized(g, w) && keep <= i
    requires Cut(g, d0, v, ino, keep, i) && Holed(g, v, w, ino, i)
    ensures Cut(g, d0, w, ino, keep, i + 1)
  {
    hide Content, Geometry.Logical;
  }

  /** The block at i is dropped; its bit is cleared, or left set if that failed. */
  lemma CuttingDrop(g: Geometry, d0: Disk, d: Disk, ino: nat, was: Inode, n: Inode, m: Inode, keep: nat, i: nat, b: nat)
    requires Cutting(g, d0, d, ino, was, n, keep, i) && i < NDIR && keep <= i && PtrOf(n, i) == b != 0
    requires Gains(n, m, i, 0) && ModeOf(m) == ModeOf(n)
    ensures g.InRange(b) && Used(g, d, b) && Cutting(g, d0, d, ino, was, m, keep, i + 1)
    ensures Cutting(g, d0, Unmark(g, d, b), ino, was, m, keep, i + 1)
    ensures FreedAll(g, d, was, keep, i) ==> FreedAll(g, Unmark(g, d, b), was, keep, i + 1)
  {
    hide InodeAt, PutInode, Used, Unmark, Geometry.InRange, Geometry.Logical, Geometry.Disjoint, Marked, Single,
         MetaMarked, Content, ModeOf;
    DropStep(g, d, ino, n, m, i);
    CutHoled(g, d0, PutInode(g, d, ino, n), PutInode(g, d, ino, m), ino, keep, i);
    CutHoled(g, d0, PutInode(g, d, ino, n), PutInode(g, Unmark(g, d, b), ino, m), ino, keep, i);
    hide Cut;
    FreedWider(g, d0, d, was, keep, i);
    FreedMore(g, d0, d, was, keep, i, b);
    UnmarkInodes(g, d, b);
    assert forall l :: i + 1 <= l < NDIR ==> PtrOf(m, l) == PtrOf(was, l) by {
      hide PtrOf;
    }
    hide PtrOf, Gains, FreedOnly, FreedAll;
  }

  lemma UnmarkInodes(g: Geometry, d: Disk, b: nat)
    requires g.Valid() && Sized(g, d) && g.InRange(b)
    ensures SameInodes(g, d, Unmark(g, d, b))
  {
    BitmapIsMeta(g, b);
    forall i | g.ValidIno(i)
      ensures InodeAt(g, Unmark(g, d, b), i) == InodeAt(g, d, i)
    {
      QuietInode(g, d, BitmapBlock(g, b), Ext2Bitmap.ClearBit(d[BitmapBlock(g, b)], g.BitOf(b)), i);
    }
    hide InodeAt, Unmark, Geometry.InRange, Geometry.Reserved, BitmapBlock;
  }

  lemma FreedMore(g: Geometry, d0: Disk, d: Disk, n: Inode, keep: nat, i: nat, b: nat)
    requires g.Valid() && Sized(g, d0) && Sized(g, d) && keep <= i < NDIR && FreedOnly(g, d0, d, n, keep, i)
    requires g.InRange(b) && PtrOf(n, i) == b != 0
    ensures FreedOnly(g, d0, Unmark(g, d, b), n, keep, i + 1)
    ensures FreedAll(g, d, n, keep, i) ==> FreedAll(g, Unmark(g, d, b), n, keep, i + 1)
  {
    hide Used, Unmark, PtrOf, Geometry.InRange, Geometry.Disjoint;
    var e := Unmark(g, d, b);
    forall c | g.InRange(c)
      ensures Used(g, e, c) <==> c != b && Used(g, d, c)
    {
      MarkUsed(g, d, b, c);
    }
    forall c | g.InRange(c) && Used(g, d0, c) && !Used(g, e, c)
      ensures exists l :: keep <= l < i + 1 && PtrOf(n, l) == c != 0
    {
      if c == b {
        assert keep <= i < i + 1 && PtrOf(n, i) == c != 0;
      } else {
        var l :| keep <= l < i && PtrOf(n, l) == c != 0;
        assert keep <= l < i + 1;
      }
    }
  }

  // ----- The whole operation -----

  /** The file is cut to newSize: blocks past its end are gone, everything else stays, and no other file changes. */
  ghost predicate Truncated(g: Geometry, d: Disk, e: Disk, ino: nat, newSize: nat, keep: nat) {
    && g.Sizes() && Sized(g, d) && Sized(g, e) && g.ValidIno(ino)
    && Cut(g, d, e, ino, keep, NDIR)
    && (forall i :: g.ValidIno(i) && i != ino ==> InodeAt(g, e, i) == InodeAt(g, d, i))
    && ModeOf(InodeAt(g, e, ino)) == ModeOf(InodeAt(g, d, ino))
    && SizeOf(InodeAt(g, e, ino)) == newSize
    && FreedOnly(g, d, e, InodeAt(g, d, ino), keep, NDIR)
  }

  lemma CuttingEnds(g: Geometry, d0: Disk, d: Disk, ino: nat, was: Inode, n: Inode, m: Inode, keep: nat, newSize: nat)
    requires Cutting(g, d0, d, ino, was, n, keep, NDIR) && SamePtrs(n, m) && ModeOf(m) == ModeOf(n)
             && SizeOf(m) == newSize
    ensures Owned(g, PutInode(g, d, ino, m)) && Truncated(g, d0, PutInode(g, d, ino, m), ino, newSize, keep)
    ensures FreedAll(g, d, was, keep, NDIR) ==> FreedAll(g, PutInode(g, d, ino, m), was, keep, NDIR)
  {
    var v := PutInode(g, d, ino, n);
    var e := PutInode(g, d, ino, m);
    hide InodeAt, PutInode, Content, Marked, Single, MetaMarked, Geometry.Disjoint, SizeOf, ModeOf, PtrOf, Used,
         Geometry.InRange;
    PutInodeReads(g, d, ino, n, ino);
    PutInodeTwice(g, d, ino, n, m);
    RestampKeeps(g, v, ino, n, m);
    forall i | g.ValidIno(i)
      ensures InodeAt(g, e, i) == if i == ino then m else InodeAt(g, d0, i)
    {
      PutInodeReads(g, d, ino, m, i);
    }
    forall b | g.InRange(b)
      ensures Used(g, e, b) <==> Used(g, d, b)
    {
      PutInodeUsed(g, d, ino, m, b);
    }
  }

  lemma TruncatedFrame(g: Geometry, d: Disk, e: Disk, f: Disk, ino: nat, newSize: nat, keep: nat)
    requires Truncated(g, d, e, ino, newSize, keep) && Unharmed(g, e, f) && Owned(g, e)
    ensures Truncated(g, d, f, ino, newSize, keep)
    ensures FreedAll(g, e, InodeAt(g, d, ino), keep, NDIR) ==> FreedAll(g, f, InodeAt(g, d, ino), keep, NDIR)
  {
    forall b | g.InRange(b)
      ensures Used(g, f, b) <==> Used(g, e, b)
    {
      UnharmedUsed(g, e, f, b);
    }
    hide InodeAt, Content, SizeOf, ModeOf, Used, PtrOf, Geometry.InRange, Owned, Geometry.Disjoint;
  }

  /** While the inode still points to a freed block the rule is broken. */
  lemma FreedBreaks(g: Geometry, d0: Disk, d: Disk, ino: nat, was: Inode, n: Inode, keep: nat, b: nat)
    requires Cutting(g, d0, d, ino, was, n, keep, NDIR) && g.InRange(b) && Used(g, d0, b) && !Used(g, d, b)
    ensures !Owned(g, d)
  {
    hide Used, PtrOf, Geometry.InRange, Cut, PutInode, InodeAt, ModeOf, Geometry.Disjoint, Geometry.Reserved;
    var l :| keep <= l < NDIR && PtrOf(was, l) == b != 0;
    assert Refs(g, d, ino, Direct(l), b);
  }

  lemma KeepBelow(g: Geometry, newSize: nat)
    requires g.bs > 0 && newSize <= NDIR * g.bs
    ensures KeepBlocks(g, newSize) <= NDIR
  {
    var q := KeepBlocks(g, newSize);
    assert q * g.bs <= newSize + g.bs - 1;
    if q > NDIR {
      MulBelow(NDIR, q, g.bs);
    }
  }

  lemma ResizedInode(n: Inode, size: nat, now: nat)
    requires size < TWO32 && now < TWO32
    ensures var m := Stamped(WithSize(n, size), now);
            SamePtrs(n, m) && ModeOf(m) == ModeOf(n) && SizeOf(m) == size
  {
    hide PtrOf, SizeOf, ModeOf, Stamped, WithSize;
    SizeReads(n, size);
    StampReads(WithSize(n, size), now);
  }

  /** The blocks that a size takes. */
  function KeepBlocks(g: Geometry, size: nat): nat
    requires g.bs > 0
  {
    (size + g.bs - 1) / g.bs
  }

  /** The fewest blocks that hold it. */
  lemma KeepBlocksIs(g: Geometry, size: nat)
    requires g.bs > 0
    ensures size <= KeepBlocks(g, size) * g.bs < size + g.bs
  {
    var q := KeepBlocks(g, size);
    assert size + g.bs - 1 == q * g.bs + (size + g.bs - 1) % g.bs;
  }

  /** Which block a position is in. */
  lemma BlockOf(bs: nat, keep: nat, size: nat, pos: nat)
    requires bs > 0 && size <= keep * bs < size + bs
    ensures pos < size ==> pos / bs < keep
    ensures size <= pos - pos % bs ==> keep <= pos / bs
    ensures pos < 12 * bs ==> pos / bs < 12
  {
    var l := pos / bs;
    assert pos == l * bs + pos % bs;
    if keep < l {
      MulBelow(keep, l, bs);
    } else if l < keep {
      MulBelow(l, keep, bs);
    }
    if 12 < l {
      MulBelow(12, l, bs);
    }
  }

  /** Byte by byte: the file keeps what is below its new size; a direct block that starts at it or later is a hole. */
  lemma TruncatedBytes(g: Geometry, d: Disk, e: Disk, ino: nat, newSize: nat, pos: nat)
    requires g.bs > 0 && Truncated(g, d, e, ino, newSize, KeepBlocks(g, newSize))
    ensures pos < newSize ==> Content(g, e, ino, pos) == Content(g, d, ino, pos)
    ensures newSize <= pos - pos % g.bs && pos < 12 * g.bs ==> Content(g, e, ino, pos) == 0
  {
    hide Content, InodeAt, FreedOnly, SizeOf, ModeOf, KeepBlocks;
    KeepBlocksIs(g, newSize);
    BlockOf(g.bs, KeepBlocks(g, newSize), newSize, pos);
  }

  /** The inode has no direct block from keep on. */
  ghost predicate NothingPast(n: Inode, keep: nat) {
    forall l :: keep <= l < NDIR ==> PtrOf(n, l) == 0
  }

  /** There is nothing for the truncation to free: it is refused, or the file has no block past the new end. */
  ghost predicate FreesNothing(g: Geometry, d: Disk, ino: nat, newSize: nat)
    requires g.Sizes() && Sized(g, d)
  {
    newSize > NDIR * g.bs || !g.ValidIno(ino) || NothingPast(InodeAt(g, d, ino), KeepBlocks(g, newSize))
  }

  /** The disk after a bitmap write of truncate and before its inode write: the inode still refers to the freed block. */
  lemma FreedTooEarly(g: Geometry, d: Disk, ino: nat, l: nat)
    requires Owned(g, d) && g.ValidIno(ino) && l < NDIR && PtrOf(InodeAt(g, d, ino), l) != 0
    ensures var b := PtrOf(InodeAt(g, d, ino), l); g.InRange(b) && Used(g, d, b) && !Owned(g, Unmark(g, d, b))
  {
    hide Used, PtrOf, Geometry.InRange, Unmark, InodeAt, Geometry.Disjoint, Geometry.Reserved, SameInodes;
    var b := PtrOf(InodeAt(g, d, ino), l);
    assert Refs(g, d, ino, Direct(l), b);
    MarkUsed(g, d, b, b);
    UnmarkInodes(g, d, b);
    StillRefers(g, d, Unmark(g, d, b), ino, l, b);
  }

  /** An inode that refers to an unmarked block. */
  lemma StillRefers(g: Geometry, d: Disk, e: Disk, ino: nat, l: nat, b: nat)
    requires g.Valid() && Sized(g, d) && Sized(g, e) && SameInodes(g, d, e) && g.ValidIno(ino) && l < NDIR
    requires PtrOf(InodeAt(g, d, ino), l) == b != 0 && g.InRange(b) && !Used(g, e, b)
    ensures !Owned(g, e)
  {
    hide Used, PtrOf, Geometry.InRange, InodeAt, Geometry.Disjoint, Geometry.Reserved;
    assert Refs(g, e, ino, Direct(l), b);
  }

  /** The same while truncate is at block i: once its bit is cleared the rule is broken on the disk. */
  lemma CuttingBreaks(g: Geometry, d0: Disk, d: Disk, ino: nat, was: Inode, n: Inode, keep: nat, i: nat, b: nat)
    requires Cutting(g, d0, d, ino, was, n, keep, i) && i < NDIR && PtrOf(was, i) == b != 0 && g.InRange(b)
    ensures !Owned(g, Unmark(g, d, b))
  {
    hide Used, PtrOf, Geometry.InRange, Unmark, InodeAt, PutInode, Geometry.Disjoint, SameInodes, Cut, FreedOnly, Owned;
    MarkUsed(g, d, b, b);
    UnmarkInodes(g, d, b);
    CuttingInodes(g, d0, d, ino, was, n, keep, i);
    InodesTwice(g, d0, d, Unmark(g, d, b));
    StillRefers(g, d0, Unmark(g, d, b), ino, i, b);
  }

  lemma InodesTwice(g: Geometry, d: Disk, e: Disk, f: Disk)
    requires g.Sizes() && Sized(g, d) && Sized(g, e) && Sized(g, f) && SameInodes(g, d, e) && SameInodes(g, e, f)
    ensures SameInodes(g, d, f)
  {
    hide InodeAt;
  }

  lemma BrokenLast(g: Geometry, history: seq<Disk>, d: Disk, k: nat)
    requires k <= |history| && !Owned(g, d)
    ensures !OwnedSince(g, history + [d], k)
  {
    hide Owned;
    assert (history + [d])[|history|] == d;
  }

  /**
   * The loop of ext2_inode_truncate: the blocks from keep on are freed one by one while the inode on the disk still
   * refers to them. Without I/O errors every one of them is freed, so that the rule is broken if there is any.
   */
  method DropBlocks(fs: Volume, ino: nat, inode: Inode, keep: nat) returns (n: Inode)
    requires fs.Valid() && Owned(fs.g, fs.disk) && fs.g.ValidIno(ino) && InodeAt(fs.g, fs.disk, ino) == inode && keep <= NDIR
    modifies fs
    ensures fs.Valid() && fs.lost >= old(fs.lost) && old(fs.history) <= fs.history
    ensures Cutting(fs.g, old(fs.disk), fs.disk, ino, inode, n, keep, NDIR)
    ensures fs.lost == old(fs.lost) ==> FreedAll(fs.g, fs.disk, inode, keep, NDIR)
    ensures fs.sbFreeBlocks == old(fs.sbFreeBlocks) ==> fs.disk == old(fs.disk)
    ensures fs.sbFreeBlocks != old(fs.sbFreeBlocks) ==> SomeFreed(fs.g, old(fs.disk), fs.disk)
    ensures NothingPast(inode, keep) ==>
              fs.disk == old(fs.disk) && fs.history == old(fs.history) && fs.sbFreeBlocks == old(fs.sbFreeBlocks)
    ensures fs.lost == old(fs.lost) && !NothingPast(inode, keep) ==> !OwnedSince(fs.g, fs.history, |old(fs.history)|)
    ensures fs.sbFreeInodes == old(fs.sbFreeInodes) && fs.sbFreeBlocks >= old(fs.sbFreeBlocks)
            && Shrank(fs.g.bs, inode, n, keep, NDIR, fs.sbFreeBlocks - old(fs.sbFreeBlocks))
    ensures fs.lost == old(fs.lost) ==> fs.sbFreeBlocks - old(fs.sbFreeBlocks) == SetFrom(inode, keep, NDIR)
  {
    hide Volume.Logged, Volume.Tracked, Shrank;
    hide InodeAt, PutInode, Owned, PtrOf, SameInodes, Dropped, Gains;
    hide Geometry.Valid, Geometry.Sizes, Geometry.ValidIno, Geometry.InRange, BlockCounts, InodeCounts, Sum, Cutting,
         FreedAll, Unmark, Used, OwnedSince;
    var g := fs.g;
    ghost var d0, was := fs.disk, inode;
    n := inode;
    ValidSizes(g);
    CuttingStart(g, d0, ino, keep);
    ShrankStart(g.bs, inode, keep);
    var i := keep;
    ghost var met := false;
    while i < NDIR
      invariant keep <= i <= NDIR && fs.Valid() && fs.lost >= old(fs.lost) && old(fs.history) <= fs.history
      invariant Cutting(g, d0, fs.disk, ino, was, n, keep, i)
      invariant fs.lost == old(fs.lost) ==> FreedAll(g, fs.disk, was, keep, i)
      invariant fs.sbFreeBlocks >= old(fs.sbFreeBlocks) && fs.sbFreeInodes == old(fs.sbFreeInodes)
      invariant fs.sbFreeBlocks == old(fs.sbFreeBlocks) ==> fs.disk == d0
      invariant fs.sbFreeBlocks > old(fs.sbFreeBlocks) ==> SomeFreed(g, d0, fs.disk)
      invariant met <==> exists l :: keep <= l < i && PtrOf(was, l) != 0
      invariant !met ==> fs.disk == d0 && fs.history == old(fs.history) && fs.sbFreeBlocks == old(fs.sbFreeBlocks)
      invariant met && fs.lost == old(fs.lost) ==> !OwnedSince(g, fs.history, |old(fs.history)|)
      invariant Shrank(g.bs, was, n, keep, i, fs.sbFreeBlocks - old(fs.sbFreeBlocks))
      invariant fs.lost == old(fs.lost) ==> fs.sbFreeBlocks - old(fs.sbFreeBlocks) == SetFrom(was, keep, i)
    {
      var b := PtrOf(n, i);
      SamePtr(g, d0, fs.disk, ino, was, n, keep, i);
      assert PtrOf(was, i) == DirectPtr(was, i) by { PtrAtDirect(was, i); }
      if b == 0 {
        HoleShrank(g, was, n, keep, i, fs.sbFreeBlocks - old(fs.sbFreeBlocks));
        CuttingHole(g, d0, fs.disk, ino, was, n, keep, i);
      } else {
        ghost var d, h, c := fs.disk, fs.history, fs.sbFreeBlocks - old(fs.sbFreeBlocks);
        DroppedGains(g, n, i, true);
        DroppedGains(g, n, i, false);
        CuttingDrop(g, d0, d, ino, was, n, Dropped(g, n, i, true), keep, i, b);
        CuttingDrop(g, d0, d, ino, was, n, Dropped(g, n, i, false), keep, i, b);
        CuttingBreaks(g, d0, d, ino, was, n, keep, i, b);
        var freed := fs.ReleaseBlock(b);
        if freed {
          FreesSome(g, d0, d, was, keep, i, ino, n, b);
          BrokenLast(g, h, fs.disk, |old(fs.history)|);
        }
        DroppedShrank(g, was, n, keep, i, c, freed);
        n := Dropped(g, n, i, freed);
        met := true;
      }
      i := i + 1;
    }
  }

  lemma PtrAtDirect(n: Inode, l: nat)
    requires l < NDIR
    ensures PtrOf(n, l) == DirectPtr(n, l)
  {
  }

  lemma SamePtr(g: Geometry, d0: Disk, d: Disk, ino: nat, was: Inode, n: Inode, keep: nat, i: nat)
    requires Cutting(g, d0, d, ino, was, n, keep, i) && i < NDIR
    ensures PtrOf(n, i) == PtrOf(was, i)
  {
    hide PtrOf, Owned, Cut, PutInode, SameInodes, FreedOnly, InodeAt;
  }

  /**
   * ext2_inode_truncate. On success the ownership rule holds and exactly blocks past the new end are gone; without
   * an I/O error all of them are free. A failure changes no inode, and keeps the rule if and only if nothing was freed.
   * If there is nothing to free, every state on the way keeps the rule; otherwise a truncation that meets no I/O error
   * goes through one that breaks it.
   */
  method Truncate(fs: Volume, ino: nat, newSize: nat, now: nat) returns (rc: int)
    requires fs.Valid() && Owned(fs.g, fs.disk) && newSize < TWO32 && now < TWO32
    modifies fs
    ensures fs.Valid() && rc <= 0 && fs.lost >= old(fs.lost) && old(fs.history) <= fs.history
    ensures rc == 0 ==> newSize <= NDIR * fs.g.bs && Owned(fs.g, fs.disk)
    ensures rc == 0 ==> Truncated(fs.g, old(fs.disk), fs.disk, ino, newSize, KeepBlocks(fs.g, newSize))
    ensures rc == 0 && fs.lost == old(fs.lost) ==>
              FreedAll(fs.g, fs.disk, InodeAt(fs.g, old(fs.disk), ino), KeepBlocks(fs.g, newSize), NDIR)
    ensures fs.sbFreeInodes == old(fs.sbFreeInodes)
    ensures rc == 0 ==> fs.Clean() && fs.sbFreeBlocks >= old(fs.sbFreeBlocks)
                        && InodeCut(fs.g, old(fs.disk), fs.disk, ino, newSize, now, fs.sbFreeBlocks - old(fs.sbFreeBlocks))
    ensures rc == 0 && fs.lost == old(fs.lost) ==>
              fs.sbFreeBlocks - old(fs.sbFreeBlocks)
                == SetFrom(InodeAt(fs.g, old(fs.disk), ino), KeepBlocks(fs.g, newSize), NDIR)
    ensures rc < 0 ==> SameInodes(fs.g, old(fs.disk), fs.disk)
    ensures rc < 0 ==> (Owned(fs.g, fs.disk) <==> fs.sbFreeBlocks == old(fs.sbFreeBlocks))
    ensures newSize > NDIR * fs.g.bs ==> rc == -EFBIG && fs.disk == old(fs.disk)
    ensures rc < 0 && fs.lost == old(fs.lost) ==> newSize > NDIR * fs.g.bs || !fs.g.ValidIno(ino)
    ensures newSize <= NDIR * fs.g.bs && !fs.g.ValidIno(ino) ==> rc == -EIO && fs.disk == old(fs.disk)
    ensures FreesNothing(fs.g, old(fs.disk), ino, newSize) ==>
              Owned(fs.g, fs.disk) && OwnedSince(fs.g, fs.history, |old(fs.history)|)
    ensures fs.lost == old(fs.lost) ==>
              (OwnedSince(fs.g, fs.history, |old(fs.history)|) <==> FreesNothing(fs.g, old(fs.disk), ino, newSize))
  {
    hide Volume.Logged, Volume.Tracked;
    hide InodeAt, PutInode, Owned, SizeOf, ModeOf, PtrOf, Stamped, WithSize, SameInodes, SamePtrs, KeepBlocks, NothingPast;
    hide Geometry.Valid, Geometry.Sizes, Geometry.ValidIno, BlockCounts, InodeCounts, Sum, Cutting, FreedAll, Truncated,
         Unharmed, SomeFreed, Shrank, CutDown, SetFrom;
    var g := fs.g;
    ghost var d0 := fs.disk;
    ValidSizes(g);
    SameRefl(g, d0);
    SizesBs(g);
    if newSize > NDIR * g.bs {
      return -EFBIG;
    }
    var n;
    rc, n := fs.ReadInode(ino);
    if rc != 0 {
      return -EIO;
    }
    ghost var was := n;
    var keep := KeepBlocks(g, newSize);
    KeepBelow(g, newSize);
    n := DropBlocks(fs, ino, n, keep);
    rc := StoreCut(fs, ino, n, newSize, now, d0, was, fs.sbFreeBlocks - old(fs.sbFreeBlocks));
  }

  /** The end of ext2_inode_truncate: the inode without the dropped blocks, with its new size and times, then Sync. */
  method StoreCut(fs: Volume, ino: nat, n: Inode, newSize: nat, now: nat, ghost d0: Disk, ghost was: Inode,
                  ghost freed: nat)
    returns (rc: int)
    requires fs.Valid() && fs.g.Sizes() && newSize < TWO32 && now < TWO32
    requires Cutting(fs.g, d0, fs.disk, ino, was, n, KeepBlocks(fs.g, newSize), NDIR)
    requires Shrank(fs.g.bs, was, n, KeepBlocks(fs.g, newSize), NDIR, freed)
    modifies fs
    ensures fs.Valid() && rc <= 0 && fs.lost >= old(fs.lost) && old(fs.history) <= fs.history
    ensures rc == 0 ==> Owned(fs.g, fs.disk) && OwnedSince(fs.g, fs.history, |old(fs.history)|)
    ensures rc == 0 ==> Truncated(fs.g, d0, fs.disk, ino, newSize, KeepBlocks(fs.g, newSize))
    ensures rc == 0 && FreedAll(fs.g, old(fs.disk), was, KeepBlocks(fs.g, newSize), NDIR) ==>
              FreedAll(fs.g, fs.disk, was, KeepBlocks(fs.g, newSize), NDIR)
    ensures rc == 0 ==> InodeCut(fs.g, d0, fs.disk, ino, newSize, now, freed) && fs.Clean()
    ensures fs.sbFreeBlocks == old(fs.sbFreeBlocks) && fs.sbFreeInodes == old(fs.sbFreeInodes)
    ensures rc < 0 ==> fs.lost > old(fs.lost) && fs.disk == old(fs.disk) && fs.history == old(fs.history)
    ensures rc < 0 ==> SameInodes(fs.g, d0, fs.disk)
    ensures rc < 0 && SomeFreed(fs.g, d0, fs.disk) ==> !Owned(fs.g, fs.disk)
  {
    hide Volume.Logged, Volume.Tracked, Volume.StoredTotals, Volume.StoredGroup, Volume.DescIn;
    hide InodeAt, PutInode, Owned, SizeOf, ModeOf, PtrOf, Stamped, WithSize, SameInodes, SamePtrs;
    hide Geometry.Valid, Geometry.Sizes, Geometry.ValidIno, BlockCounts, InodeCounts, Sum, Cutting, FreedAll, Truncated,
         Unharmed, KeepBlocks, Shrank, CutDown;
    var g := fs.g;
    SizesBs(g);
    ghost var keep := KeepBlocks(g, newSize);
    CuttingMeans(g, d0, fs.disk, ino, was, n, keep);
    ResizedInode(n, newSize, now);
    var m := Stamped(WithSize(n, newSize), now);
    ghost var d := fs.disk;
    rc := fs.WriteInode(ino, m);
    if rc != 0 {
      if SomeFreed(g, d0, d) {
        SomeFreedBreaks(g, d0, d, ino, was, n, keep);
      }
      CuttingInodes(g, d0, d, ino, was, n, keep, NDIR);
      return;
    }
    CuttingEnds(g, d0, d, ino, was, n, m, keep, newSize);
    CutDownBy(g.bs, was, n, keep, newSize, now, freed);
    ghost var e := fs.disk;
    assert InodeAt(g, e, ino) == m by { PutInodeReads(g, d, ino, m, ino); }
    fs.Sync();
    UnharmedOwned(g, e, fs.disk);
    UnharmedInode(g, e, fs.disk, ino);
    TruncatedFrame(g, d0, e, fs.disk, ino, newSize, keep);
  }

  /** The inode of the file after a truncation that freed so many blocks. */
  ghost predicate InodeCut(g: Geometry, d: Disk, e: Disk, ino: nat, newSize: nat, now: nat, freed: nat) {
    && g.Sizes() && Sized(g, d) && Sized(g, e) && g.ValidIno(ino)
    && CutDown(g.bs, InodeAt(g, d, ino), InodeAt(g, e, ino), KeepBlocks(g, newSize), newSize, now, freed)
  }

  lemma CuttingMeans(g: Geometry, d0: Disk, d: Disk, ino: nat, was: Inode, n: Inode, keep: nat)
    requires Cutting(g, d0, d, ino, was, n, keep, NDIR)
    ensures g.Valid() && g.Sizes() && Sized(g, d0) && Sized(g, d) && g.ValidIno(ino) && InodeAt(g, d0, ino) == was
  {
  }

  ghost predicate SomeFreed(g: Geometry, d0: Disk, d: Disk)
    requires g.Sizes() && Sized(g, d0) && Sized(g, d)
  {
    exists b :: g.InRange(b) && Used(g, d0, b) && !Used(g, d, b)
  }

  lemma FreesSome(g: Geometry, d0: Disk, d: Disk, was: Inode, keep: nat, i: nat, ino: nat, n: Inode, b: nat)
    requires Cutting(g, d0, d, ino, was, n, keep, i) && g.InRange(b) && Used(g, d, b)
    ensures SomeFreed(g, d0, Unmark(g, d, b))
  {
    MarkUsed(g, d, b, b);
    hide Used, Unmark, Geometry.InRange, Cut, PutInode, Owned, InodeAt, SameInodes;
    assert Used(g, d0, b);
  }

  lemma SomeFreedBreaks(g: Geometry, d0: Disk, d: Disk, ino: nat, was: Inode, n: Inode, keep: nat)
    requires Cutting(g, d0, d, ino, was, n, keep, NDIR) && SomeFreed(g, d0, d)
    ensures !Owned(g, d)
  {
    hide Used, Geometry.InRange, Owned, Cut, PutInode, InodeAt, FreedOnly, SameInodes, Geometry.Disjoint;
    var b :| g.InRange(b) && Used(g, d0, b) && !Used(g, d, b);
    FreedBreaks(g, d0, d, ino, was, n, keep, b);
  }

  lemma CuttingInodes(g: Geometry, d0: Disk, d: Disk, ino: nat, was: Inode, n: Inode, keep: nat, i: nat)
    requires Cutting(g, d0, d, ino, was, n, keep, i)
    ensures SameInodes(g, d0, d)
  {
  }

  lemma SizesBs(g: Geometry)
    requires g.Sizes()
    ensures 1024 <= g.bs <= 4096
  {
  }
}
