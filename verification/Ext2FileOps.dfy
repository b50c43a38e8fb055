/** Writing files (src/kernel/fs/ext2.c:225-264, 490-560). */
module Ext2FileOps {
  import opened Errno
  import opened Words
  import opened Ext2Layout
  import opened Ext2Inode
  import opened Ext2Stat
  import opened Ext2Owner
  import opened Ext2File
  import opened Ext2Counts
  import opened Ext2Volume
  import opened Ext2Alloc

  predicate IsRegular(n: Inode) { ModeOf(n) / 4096 == 8 }

  predicate IsDirectory(n: Inode) { ModeOf(n) / 4096 == 4 }

  // ----- Writing one block of a file -----

  /** i_block[l] and i_blocks once a new block has been taken. */
  function WithBlock(g: Geometry, n: Inode, l: nat, b: nat): Inode
    requires l < NDIR && b < TWO32
  {
    WithSectors(WithPtr(n, l, b), (SectorsOf(n) + g.bs / 512) % TWO32)
  }

  lemma WithBlockGains(g: Geometry, n: Inode, l: nat, b: nat)
    requires l < NDIR && b < TWO32
    ensures Gains(n, WithBlock(g, n, l, b), l, b)
    ensures SizeOf(WithBlock(g, n, l, b)) == SizeOf(n) && ModeOf(WithBlock(g, n, l, b)) == ModeOf(n)
  {
    hide PtrOf, WithPtr, WithSectors, SizeOf, ModeOf, SectorsOf;
    WithPtrReads(n, l, b);
    SectorsReads(WithPtr(n, l, b), (SectorsOf(n) + g.bs / 512) % TWO32);
  }

  /** Taking block b for pointer l: that pointer and i_blocks change, and no other byte. */
  lemma WithBlockTook(g: Geometry, n: Inode, l: nat, b: nat)
    requires l < NDIR && 0 < b < TWO32 && PtrOf(n, l) == 0
    ensures Took(g.bs, n, WithBlock(g, n, l, b), l)
  {
    hide WithPtr, WithSectors, GetU32;
    var p := WithPtr(n, l, b);
    var m := WithBlock(g, n, l, b);
    PtrWords(n, l, b);
    SectorWords(p, (SectorsOf(n) + g.bs / 512) % TWO32);
    SameDirects(m, p);
  }

  /** The pointer in hand is set after a chunk has been written behind it. */
  ghost predicate Advanced(g: Geometry, n: Inode, m: Inode, l: nat) {
    l < NDIR && if DirectPtr(n, l) == 0 then Took(g.bs, n, m, l) else m == n
  }

  /** Block l of ino now holds x, and nothing else differs between v and w. */
  ghost predicate Stepped(g: Geometry, v: Disk, w: Disk, ino: nat, l: nat, x: seq<byte>) {
    g.Sizes() && Sized(g, v) && Sized(g, w) && |x| == g.bs && Patched(g, v, w, ino, l, x)
  }

  /** What WriteChunk leaves behind: the disk, and the disk once the inode in hand is stored. */
  ghost predicate ChunkStored(g: Geometry, d: Disk, e: Disk, ino: nat, n: Inode, m: Inode, l: nat, inoff: nat,
      chunk: seq<byte>)
    requires inoff + |chunk| <= g.bs
  {
    && InHand(g, d, ino, n) && InHand(g, e, ino, m)
    && var x := Splice(BlockBytes(g, PutInode(g, d, ino, n), n, l), inoff, chunk);
    && Stepped(g, PutInode(g, d, ino, n), PutInode(g, e, ino, m), ino, l, x)
    && PartlyPatched(g, d, e, ino, l, x)
    && SameInodes(g, d, e)
  }

  lemma HandBlock(g: Geometry, d: Disk, ino: nat, n: Inode, l: nat)
    requires InHand(g, d, ino, n) && l < NDIR
    ensures BlockBytes(g, PutInode(g, d, ino, n), n, l) == if PtrOf(n, l) == 0 then Zeros(g.bs) else d[PtrOf(n, l)]
  {
    hide PtrOf, InodeAt, Geometry.InodeBlock, Grown, Marked, Single, MetaMarked, Geometry.Disjoint;
    if PtrOf(n, l) != 0 {
      InHandNotReserved(g, d, ino, n, l);
      PutInodeCommutes(g, d, ino, n, PtrOf(n, l), d[PtrOf(n, l)]);
    }
    hide PutInode;
  }

  lemma ExistingChunk(g: Geometry, d: Disk, ino: nat, n: Inode, l: nat, inoff: nat, chunk: seq<byte>)
    requires InHand(g, d, ino, n) && l < NDIR && PtrOf(n, l) != 0 && inoff + |chunk| <= g.bs
    ensures ChunkStored(g, d, d[PtrOf(n, l) := Splice(d[PtrOf(n, l)], inoff, chunk)], ino, n, n, l, inoff, chunk)
  {
    HandBlock(g, d, ino, n, l);
    hide PtrOf, InodeAt, PutInode, BlockBytes, Owned, Grown, Patched, PartlyPatched, SameInodes;
    WriteStep(g, d, ino, n, l, Splice(d[PtrOf(n, l)], inoff, chunk));
  }

  lemma TakenHand(g: Geometry, d: Disk, e: Disk, ino: nat, n: Inode, l: nat, blk: nat)
    requires InHand(g, d, ino, n) && l < NDIR && PtrOf(n, l) == 0 && Taken(g, d, e, blk)
    ensures blk < TWO32 && InHand(g, e, ino, WithBlock(g, n, l, blk)) && PtrOf(WithBlock(g, n, l, blk), l) == blk != 0
    ensures !g.Reserved(blk) && SameContent(g, d, e) && SameInodes(g, d, e)
    ensures forall i, pos: nat :: g.ValidIno(i) && !(i == ino && g.Logical(pos) == l) ==>
              Content(g, PutInode(g, e, ino, WithBlock(g, n, l, blk)), i, pos) == Content(g, PutInode(g, d, ino, n), i, pos)
  {
    BlockNumberFits(g, blk);
    var m := WithBlock(g, n, l, blk);
    WithBlockGains(g, n, l, blk);
    hide WithBlock, InodeAt, PutInode, Mark, Used, Refs, Content, Grown, SameContent, SameInodes, Geometry.InRange,
         Geometry.Reserved, Geometry.Logical, Free;
    assert PtrOf(m, l) == blk by { assert l < N_BLOCKS; }
    hide PtrOf, Gains, Geometry.Disjoint;
    AllocStep(g, d, ino, n, m, l, blk);
    AllocContent(g, d, ino, n, m, l, blk);
    TakenOwned(g, d, e, blk);
  }

  lemma BlockNumberFits(g: Geometry, blk: nat)
    requires g.Sizes() && g.InRange(blk)
    ensures blk < TWO32
  {
    var n := blk - g.firstData;
    assert n == n / g.bpg * g.bpg + n % g.bpg;
    MulBelow(n / g.bpg, |g.groups|, g.bpg);
  }

  lemma NewChunk(g: Geometry, d: Disk, e: Disk, ino: nat, n: Inode, l: nat, blk: nat, inoff: nat, chunk: seq<byte>)
    requires InHand(g, d, ino, n) && l < NDIR && PtrOf(n, l) == 0 && Taken(g, d, e, blk) && blk < TWO32
    requires inoff + |chunk| <= g.bs
    ensures ChunkStored(g, d, e[blk := Splice(Zeros(g.bs), inoff, chunk)], ino, n, WithBlock(g, n, l, blk), l, inoff, chunk)
  {
    var m, x := WithBlock(g, n, l, blk), Splice(Zeros(g.bs), inoff, chunk);
    HandBlock(g, d, ino, n, l);
    TakenHand(g, d, e, ino, n, l, blk);
    hide PtrOf, WithBlock, InodeAt, PutInode, BlockBytes, Owned, Grown, Content, Taken, Geometry.Logical,
         Geometry.Within, Geometry.Reserved;
    WriteStep(g, e, ino, m, l, x);
    ThenPatched(g, d, e, e[blk := x], ino, n, m, l, x);
  }

  lemma ThenPatched(g: Geometry, d: Disk, e: Disk, f: Disk, ino: nat, n: Inode, m: Inode, l: nat, x: seq<byte>)
    requires InHand(g, d, ino, n) && InHand(g, e, ino, m) && InHand(g, f, ino, m) && |x| == g.bs
    requires SameContent(g, d, e) && SameInodes(g, d, e) && SameInodes(g, e, f)
    requires forall i, pos: nat :: g.ValidIno(i) && !(i == ino && g.Logical(pos) == l) ==>
               Content(g, PutInode(g, e, ino, m), i, pos) == Content(g, PutInode(g, d, ino, n), i, pos)
    requires PartlyPatched(g, e, f, ino, l, x) && Patched(g, PutInode(g, e, ino, m), PutInode(g, f, ino, m), ino, l, x)
    ensures PartlyPatched(g, d, f, ino, l, x) && SameInodes(g, d, f)
    ensures Stepped(g, PutInode(g, d, ino, n), PutInode(g, f, ino, m), ino, l, x)
  {
    hide InodeAt, PutInode, Marked, Single, MetaMarked, Geometry.Disjoint, Grown, Content, Geometry.Logical,
         Geometry.Within;
  }

  /** One block has to be taken for block l, or none. */
  function NewAt(n: Inode, l: nat): nat
    requires l < NDIR
  {
    if DirectPtr(n, l) == 0 then 1 else 0
  }

  /**
   * The body of the loop of ext2_inode_write_data: find or take the block, then splice the chunk into it
   * (splice_and_journal_locked). m is the inode in hand afterwards.
   */
  method WriteChunk(fs: Volume, ino: nat, n: Inode, l: nat, inoff: nat, chunk: seq<byte>) returns (rc: int, m: Inode)
    requires fs.Valid() && InHand(fs.g, fs.disk, ino, n) && l < NDIR && inoff + |chunk| <= fs.g.bs
    modifies fs
    ensures fs.Valid() && rc <= 0 && old(fs.history) <= fs.history && OwnedSince(fs.g, fs.history, |old(fs.history)|)
    ensures rc == 0 ==> ChunkStored(fs.g, old(fs.disk), fs.disk, ino, n, m, l, inoff, chunk)
    ensures rc == 0 ==> SizeOf(m) == SizeOf(n) && ModeOf(m) == ModeOf(n) && Advanced(fs.g, n, m, l)
    ensures rc < 0 ==> Owned(fs.g, fs.disk) && SameContent(fs.g, old(fs.disk), fs.disk) && SameInodes(fs.g, old(fs.disk), fs.disk)
    ensures fs.lost >= old(fs.lost) && (rc < 0 && fs.lost == old(fs.lost) ==> rc == -ENOSPC && fs.sbFreeBlocks == 0)
    ensures rc == 0 ==> fs.sbFreeBlocks == old(fs.sbFreeBlocks) - NewAt(n, l)
    ensures fs.sbFreeInodes == old(fs.sbFreeInodes)
  {
    hide Volume.Logged, Volume.Tracked;
    hide PtrOf, InHand, Owned, Geometry.Valid, ChunkStored, SizeOf, ModeOf, SameContent, SameInodes, BlockCounts,
         InodeCounts, Sum;
    hide Took;
    assert PtrOf(n, l) == DirectPtr(n, l) by { PtrIsDirect(n, l); }
    if PtrOf(n, l) == 0 {
      rc, m := WriteNewBlock(fs, ino, n, l, inoff, chunk);
    } else {
      m := n;
      rc := WriteOldBlock(fs, ino, n, l, inoff, chunk);
    }
  }

  method WriteNewBlock(fs: Volume, ino: nat, n: Inode, l: nat, inoff: nat, chunk: seq<byte>) returns (rc: int, m: Inode)
    requires fs.Valid() && InHand(fs.g, fs.disk, ino, n) && l < NDIR && inoff + |chunk| <= fs.g.bs && PtrOf(n, l) == 0
    modifies fs
    ensures fs.Valid() && rc <= 0 && old(fs.history) <= fs.history && OwnedSince(fs.g, fs.history, |old(fs.history)|)
    ensures rc == 0 ==> ChunkStored(fs.g, old(fs.disk), fs.disk, ino, n, m, l, inoff, chunk)
    ensures rc == 0 ==> SizeOf(m) == SizeOf(n) && ModeOf(m) == ModeOf(n) && Advanced(fs.g, n, m, l)
    ensures rc < 0 ==> Owned(fs.g, fs.disk) && SameContent(fs.g, old(fs.disk), fs.disk) && SameInodes(fs.g, old(fs.disk), fs.disk)
    ensures fs.lost >= old(fs.lost) && (rc < 0 && fs.lost == old(fs.lost) ==> rc == -ENOSPC && fs.sbFreeBlocks == 0)
    ensures rc == 0 ==> fs.sbFreeBlocks == old(fs.sbFreeBlocks) - NewAt(n, l)
    ensures fs.sbFreeInodes == old(fs.sbFreeInodes)
  {
    hide Volume.Logged, Volume.Tracked;
    hide PtrOf, InodeAt, PutInode, Grown, Content, Geometry.Valid, Geometry.Sizes, Geometry.Reserved, WithBlock,
         SameContent, SameInodes;
    hide Marked, Single, MetaMarked, BlockCounts, InodeCounts, Sum, Taken, ChunkStored, SizeOf, ModeOf, Gains, Advanced,
         NewAt, Lowest;
    var g := fs.g;
    ValidSizes(g);
    SameRefl(g, fs.disk);
    HasGroup(g, ino);
    m := n;
    NewIs(n, l);
    var blk;
    rc, blk := fs.AllocBlockAnywhere();
    if rc != 0 {
      return;
    }
    ghost var taken := fs.disk;
    TakenHand(g, old(fs.disk), taken, ino, n, l, blk);
    m := WithBlock(g, n, l, blk);
    WithBlockGains(g, n, l, blk);
    NewBlockTook(g, n, l, blk);
    rc := fs.WriteData(blk, Splice(Zeros(g.bs), inoff, chunk));
    if rc == 0 {
      NewChunk(g, old(fs.disk), taken, ino, n, l, blk, inoff, chunk);
      StoredOwned(g, old(fs.disk), fs.disk, ino, n, m, l, inoff, chunk);
    }
  }

  lemma PtrIsDirect(n: Inode, l: nat)
    requires l < NDIR
    ensures PtrOf(n, l) == DirectPtr(n, l)
  {
  }

  lemma NewIs(n: Inode, l: nat)
    requires l < NDIR
    ensures NewAt(n, l) == if PtrOf(n, l) == 0 then 1 else 0
  {
    PtrIsDirect(n, l);
  }

  lemma NewBlockTook(g: Geometry, n: Inode, l: nat, b: nat)
    requires l < NDIR && b < TWO32 && PtrOf(n, l) == 0 && PtrOf(WithBlock(g, n, l, b), l) == b != 0
    ensures Advanced(g, n, WithBlock(g, n, l, b), l)
  {
    hide Took, WithBlock;
    PtrIsDirect(n, l);
    WithBlockTook(g, n, l, b);
  }

  method WriteOldBlock(fs: Volume, ino: nat, n: Inode, l: nat, inoff: nat, chunk: seq<byte>) returns (rc: int)
    requires fs.Valid() && InHand(fs.g, fs.disk, ino, n) && l < NDIR && inoff + |chunk| <= fs.g.bs && PtrOf(n, l) != 0
    modifies fs
    ensures fs.Valid() && rc <= 0 && old(fs.history) <= fs.history && OwnedSince(fs.g, fs.history, |old(fs.history)|)
    ensures rc == 0 ==> ChunkStored(fs.g, old(fs.disk), fs.disk, ino, n, n, l, inoff, chunk)
    ensures rc < 0 ==> Owned(fs.g, fs.disk) && SameContent(fs.g, old(fs.disk), fs.disk) && SameInodes(fs.g, old(fs.disk), fs.disk)
    ensures fs.lost >= old(fs.lost) && (rc < 0 ==> fs.lost > old(fs.lost))
    ensures fs.sbFreeBlocks == old(fs.sbFreeBlocks) && fs.sbFreeInodes == old(fs.sbFreeInodes)
  {
    hide Volume.Logged, Volume.Tracked;
    hide PtrOf, InodeAt, PutInode, Grown, Content, Geometry.Valid, Geometry.Sizes, Geometry.Reserved, SameContent,
         SameInodes;
    hide Marked, Single, MetaMarked, BlockCounts, InodeCounts, Sum, ChunkStored;
    var g := fs.g;
    ValidSizes(g);
    SameRefl(g, fs.disk);
    InHandNotReserved(g, fs.disk, ino, n, l);
    var b;
    rc, b := fs.ReadBlock(PtrOf(n, l));
    if rc != 0 {
      rc := -EIO;
      return;
    }
    rc := fs.WriteData(PtrOf(n, l), Splice(b, inoff, chunk));
    if rc == 0 {
      ExistingChunk(g, old(fs.disk), ino, n, l, inoff, chunk);
      StoredOwned(g, old(fs.disk), fs.disk, ino, n, n, l, inoff, chunk);
    }
  }

  lemma HasGroup(g: Geometry, ino: nat)
    requires g.ipg > 0 && g.ValidIno(ino)
    ensures |g.groups| > 0
  {
  }

  lemma StoredOwned(g: Geometry, d: Disk, e: Disk, ino: nat, n: Inode, m: Inode, l: nat, inoff: nat, chunk: seq<byte>)
    requires inoff + |chunk| <= g.bs && ChunkStored(g, d, e, ino, n, m, l, inoff, chunk)
    ensures Owned(g, e)
  {
  }

  // ----- Writing a file -----

  /** k bytes of src are stored; n is the inode in hand, and d0 the disk at the start. */
  ghost predicate Writing(g: Geometry, d0: Disk, d: Disk, ino: nat, n: Inode, offset: nat, src: seq<byte>, k: nat) {
    && InHand(g, d, ino, n) && Sized(g, d0) && k <= |src|
    && Written(g, d0, PutInode(g, d, ino, n), ino, offset, src, k)
    && PartlyWritten(g, d0, d, ino, offset, src) && SameInodes(g, d0, d)
  }

  lemma WritingStart(g: Geometry, d: Disk, ino: nat, offset: nat, src: seq<byte>)
    requires Owned(g, d) && g.ValidIno(ino)
    ensures Writing(g, d, d, ino, InodeAt(g, d, ino), offset, src, 0)
  {
    InHandStart(g, d, ino);
    hide InodeAt, PutInode, Content, Owned, Grown;
  }

  lemma WritingStep(g: Geometry, d0: Disk, d: Disk, e: Disk, ino: nat, n: Inode, m: Inode, offset: nat, src: seq<byte>,
      k: nat, take: nat)
    requires g.bs > 0 && k + take <= |src| && g.Within(offset + k) + take <= g.bs
    requires Writing(g, d0, d, ino, n, offset, src, k)
    requires ChunkStored(g, d, e, ino, n, m, g.Logical(offset + k), g.Within(offset + k), src[k..k + take])
    ensures Writing(g, d0, e, ino, m, offset, src, k + take)
  {
    var v := PutInode(g, d, ino, n);
    var l := g.Logical(offset + k);
    PutInodeReads(g, d, ino, n, ino);
    hide InodeAt, PutInode, Content, Marked, Single, MetaMarked, Geometry.Disjoint, Grown, BlockBytes, Geometry.Logical,
         Geometry.Within;
    var was := BlockBytes(g, v, n, l);
    StoredBlock(g, v, ino, n, l);
    hide BlockIs;
    WrittenStep(g, d0, v, PutInode(g, e, ino, m), ino, offset, src, k, take, was);
    PartlyWrittenStep(g, d0, v, d, e, ino, offset, src, k, take, was);
  }

  lemma WritingFails(g: Geometry, d0: Disk, d: Disk, e: Disk, ino: nat, n: Inode, offset: nat, src: seq<byte>, k: nat)
    requires Writing(g, d0, d, ino, n, offset, src, k) && Owned(g, e) && SameContent(g, d, e) && SameInodes(g, d, e)
    ensures Owned(g, e) && PartlyWritten(g, d0, e, ino, offset, src) && SameInodes(g, d0, e)
  {
    hide InodeAt, PutInode, Content, Marked, Single, MetaMarked, Geometry.Disjoint, Grown;
  }

  lemma WritingKept(g: Geometry, d0: Disk, d: Disk, ino: nat, n: Inode, offset: nat, src: seq<byte>, k: nat)
    requires Writing(g, d0, d, ino, n, offset, src, k)
    ensures Owned(g, d) && PartlyWritten(g, d0, d, ino, offset, src) && SameInodes(g, d0, d)
  {
  }

  /** What a write of len bytes at offset leaves of the inode. */
  predicate RecordedAs(g: Geometry, a: Inode, b: Inode, offset: nat, len: nat, now: nat) {
    && g.bs > 0 && len > 0
    && Recorded(g.bs, a, b, g.Logical(offset), g.Logical(offset + len - 1) + 1, offset + len, now)
  }

  /** The write took effect in full: the bytes, the size, the times, the blocks taken, and nothing else. */
  ghost predicate FileWritten(g: Geometry, d: Disk, e: Disk, ino: nat, offset: nat, src: seq<byte>, now: nat) {
    && g.Sizes() && Sized(g, d) && Sized(g, e) && g.ValidIno(ino)
    && Written(g, d, e, ino, offset, src, |src|)
    && (forall i :: g.ValidIno(i) && i != ino ==> InodeAt(g, e, i) == InodeAt(g, d, i))
    && ModeOf(InodeAt(g, e, ino)) == ModeOf(InodeAt(g, d, ino))
    && RecordedAs(g, InodeAt(g, d, ino), InodeAt(g, e, ino), offset, |src|, now)
  }

  lemma WritingEnds(g: Geometry, d0: Disk, d: Disk, ino: nat, n: Inode, m: Inode, offset: nat, src: seq<byte>, now: nat)
    requires g.Sizes() && Sized(g, d0) && Sized(g, d) && g.ValidIno(ino) && ModeOf(m) == ModeOf(InodeAt(g, d0, ino))
    requires Writing(g, d0, d, ino, n, offset, src, |src|) && SamePtrs(n, m)
    requires RecordedAs(g, InodeAt(g, d0, ino), m, offset, |src|, now)
    ensures Owned(g, PutInode(g, d, ino, m)) && FileWritten(g, d0, PutInode(g, d, ino, m), ino, offset, src, now)
  {
    hide InodeAt, PutInode, Content, Marked, Single, MetaMarked, Geometry.Disjoint, Grown, SizeOf, ModeOf, PtrOf,
         RecordedAs, PartlyWritten;
    var v := PutInode(g, d, ino, n);
    var e := PutInode(g, d, ino, m);
    PutInodeReads(g, d, ino, n, ino);
    PutInodeTwice(g, d, ino, n, m);
    RestampKeeps(g, v, ino, n, m);
    forall i | g.ValidIno(i)
      ensures InodeAt(g, e, i) == if i == ino then m else InodeAt(g, d0, i)
    {
      PutInodeReads(g, d, ino, m, i);
    }
  }

  lemma FileWrittenFrame(g: Geometry, d: Disk, e: Disk, f: Disk, ino: nat, offset: nat, src: seq<byte>, now: nat)
    requires FileWritten(g, d, e, ino, offset, src, now) && Sized(g, f) && SameContent(g, e, f) && SameInodes(g, e, f)
    ensures FileWritten(g, d, f, ino, offset, src, now)
  {
    hide InodeAt, Content, SizeOf, ModeOf, RecordedAs;
  }

  lemma BelowDirect(g: Geometry, pos: nat)
    requires g.bs > 0 && pos < NDIR * g.bs
    ensures g.Logical(pos) < NDIR
  {
    PosSplit(g, pos);
    if g.Logical(pos) >= NDIR {
      MulBelow(NDIR - 1, g.Logical(pos), g.bs);
    }
  }

  lemma FinalInode(n: Inode, size: nat, now: nat)
    requires size < TWO32 && now < TWO32
    ensures var m := Stamped(if size > SizeOf(n) then WithSize(n, size) else n, now);
            SamePtrs(n, m) && ModeOf(m) == ModeOf(n) && SizeOf(m) == Max(SizeOf(n), size)
  {
    hide PtrOf, SizeOf, ModeOf, Stamped, WithSize;
    SizeReads(n, size);
    StampReads(n, now);
    StampReads(WithSize(n, size), now);
  }

  /** So many direct pointers of the inode were 0 and are not any more. */
  ghost predicate TookBlocks(g: Geometry, d: Disk, e: Disk, ino: nat, c: nat) {
    && g.Sizes() && Sized(g, d) && Sized(g, e) && g.ValidIno(ino)
    && NewBlocks(InodeAt(g, d, ino), InodeAt(g, e, ino), 12) == c
  }

  lemma FinalTaken(was: Inode, n: Inode, size: nat, now: nat)
    requires size < TWO32 && now < TWO32
    ensures NewBlocks(was, Stamped(if size > SizeOf(n) then WithSize(n, size) else n, now), 12) == NewBlocks(was, n, 12)
  {
    hide GetU32, Stamped, WithSize, SizeOf, NewBlocks;
    var s := if size > SizeOf(n) then WithSize(n, size) else n;
    var m := Stamped(s, now);
    SizeWord(n, size);
    StampWords(s, now);
    SameDirects(m, n);
    SameNew(was, n, m, 12);
  }

  /** The end of ext2_inode_write_data: the inode with its new size and times, then Sync. */
  method StoreGrown(fs: Volume, ino: nat, n: Inode, src: seq<byte>, offset: nat, now: nat,
      ghost d0: Disk) returns (rc: int)
    requires fs.g.Sizes() && fs.g.ValidIno(ino) && Sized(fs.g, d0) && offset + |src| < TWO32 && now < TWO32
    requires fs.Valid() && Writing(fs.g, d0, fs.disk, ino, n, offset, src, |src|)
    requires ModeOf(n) == ModeOf(InodeAt(fs.g, d0, ino)) && |src| > 0
    requires GrewTo(fs.g, InodeAt(fs.g, d0, ino), n, offset, |src|)
    modifies fs
    ensures fs.Valid() && Owned(fs.g, fs.disk) && old(fs.history) <= fs.history
            && OwnedSince(fs.g, fs.history, |old(fs.history)|)
    ensures rc <= 0 && fs.lost >= old(fs.lost) && (rc < 0 ==> fs.lost > old(fs.lost))
    ensures rc == 0 ==> FileWritten(fs.g, d0, fs.disk, ino, offset, src, now)
    ensures rc < 0 ==> PartlyWritten(fs.g, d0, fs.disk, ino, offset, src) && SameInodes(fs.g, d0, fs.disk)
    ensures rc == 0 ==> TookBlocks(fs.g, d0, fs.disk, ino, NewBlocks(InodeAt(fs.g, d0, ino), n, 12)) && fs.Clean()
    ensures fs.sbFreeBlocks == old(fs.sbFreeBlocks) && fs.sbFreeInodes == old(fs.sbFreeInodes)
  {
    hide Volume.Logged, Volume.Tracked, Volume.StoredTotals, Volume.StoredGroup, Volume.DescIn;
    hide InodeAt, PutInode, Marked, Single, MetaMarked, SizeOf, ModeOf, PtrOf, Stamped, WithSize, SameContent,
         SameInodes;
    hide Geometry.Valid, Geometry.Sizes, Geometry.ValidIno, BlockCounts, InodeCounts, Sum, Writing, FileWritten,
         PartlyWritten, Unharmed, SamePtrs, Owned;
    var g := fs.g;
    ValidSizes(g);
    WritingKept(g, d0, fs.disk, ino, n, offset, src, |src|);
    hide GrewTo, NewBlocks, TookBlocks, GrownIn;
    var m := Stamped(if offset + |src| > SizeOf(n) then WithSize(n, offset + |src|) else n, now);
    ghost var d, c := fs.disk, NewBlocks(InodeAt(g, d0, ino), n, 12);
    GrownStored(g, d0, d, ino, n, m, offset, src, now);
    rc := fs.WriteInode(ino, m);
    if rc != 0 {
      return;
    }
    ghost var e := fs.disk;
    GrownOwned(g, d0, e, ino, offset, src, now, c);
    fs.Sync();
    GrownFrame(g, d0, e, fs.disk, ino, offset, src, now, c);
    GrownOwned(g, d0, fs.disk, ino, offset, src, now, c);
  }

  /** The inode is stored, and the rule holds. */
  ghost predicate GrownIn(g: Geometry, d: Disk, e: Disk, ino: nat, offset: nat, src: seq<byte>, now: nat, c: nat) {
    FileWritten(g, d, e, ino, offset, src, now) && TookBlocks(g, d, e, ino, c) && Owned(g, e)
  }

  lemma GrownOwned(g: Geometry, d: Disk, e: Disk, ino: nat, offset: nat, src: seq<byte>, now: nat, c: nat)
    requires GrownIn(g, d, e, ino, offset, src, now, c)
    ensures Owned(g, e) && FileWritten(g, d, e, ino, offset, src, now) && TookBlocks(g, d, e, ino, c)
  {
    hide Owned, FileWritten, TookBlocks;
  }

  lemma GrownStored(g: Geometry, d0: Disk, d: Disk, ino: nat, n: Inode, m: Inode, offset: nat, src: seq<byte>, now: nat)
    requires g.Valid() && g.Sizes() && Sized(g, d0) && Sized(g, d) && g.ValidIno(ino) && offset + |src| < TWO32 && now < TWO32
    requires Writing(g, d0, d, ino, n, offset, src, |src|) && ModeOf(n) == ModeOf(InodeAt(g, d0, ino)) && |src| > 0
    requires GrewTo(g, InodeAt(g, d0, ino), n, offset, |src|)
    requires m == Stamped(if offset + |src| > SizeOf(n) then WithSize(n, offset + |src|) else n, now)
    ensures GrownIn(g, d0, PutInode(g, d, ino, m), ino, offset, src, now, NewBlocks(InodeAt(g, d0, ino), n, 12))
  {
    hide InodeAt, PutInode, SizeOf, ModeOf, PtrOf, Stamped, WithSize, Geometry.Valid, Geometry.Sizes, Geometry.ValidIno, Writing,
         FileWritten, SamePtrs, Owned, GrewTo, RecordedAs, NewBlocks, TookBlocks;
    FinalInode(n, offset + |src|, now);
    FinalTaken(InodeAt(g, d0, ino), n, offset + |src|, now);
    RecordedEnd(g, InodeAt(g, d0, ino), n, offset, |src|, now);
    WritingEnds(g, d0, d, ino, n, m, offset, src, now);
    TookStored(g, d0, d, ino, m);
  }

  lemma GrownFrame(g: Geometry, d: Disk, e: Disk, f: Disk, ino: nat, offset: nat, src: seq<byte>, now: nat, c: nat)
    requires GrownIn(g, d, e, ino, offset, src, now, c) && Unharmed(g, e, f) && Sized(g, f)
    ensures GrownIn(g, d, f, ino, offset, src, now, c)
  {
    hide Unharmed, Owned, FileWritten, TookBlocks, SameContent, SameInodes;
    OwnedSizes(g, e);
    UnharmedOwned(g, e, f);
    TookFrame(g, d, e, f, ino, c);
    FileWrittenFrame(g, d, e, f, ino, offset, src, now);
  }

  lemma TookStored(g: Geometry, d0: Disk, d: Disk, ino: nat, m: Inode)
    requires g.Valid() && g.Sizes() && Sized(g, d0) && Sized(g, d) && g.ValidIno(ino)
    ensures TookBlocks(g, d0, PutInode(g, d, ino, m), ino, NewBlocks(InodeAt(g, d0, ino), m, 12))
  {
    hide InodeAt, PutInode, NewBlocks, Geometry.Disjoint;
    PutInodeReads(g, d, ino, m, ino);
  }

  lemma TookFrame(g: Geometry, d0: Disk, e: Disk, f: Disk, ino: nat, c: nat)
    requires TookBlocks(g, d0, e, ino, c) && Unharmed(g, e, f) && Owned(g, e)
    ensures TookBlocks(g, d0, f, ino, c)
  {
    hide InodeAt, NewBlocks, Unharmed, Owned;
    UnharmedInode(g, e, f, ino);
  }

  /**
   * ext2_inode_write_data. Success stores exactly src at offset. A failure may leave some of src behind, but no
   * other byte of any file and no inode changes; without an I/O error the only failure on a regular file that the
   * direct blocks can hold is a full disk. Every state on the way keeps the ownership rule.
   */
  method WriteFile(fs: Volume, ino: nat, src: seq<byte>, offset: nat, now: nat) returns (rc: int)
    requires fs.Valid() && Owned(fs.g, fs.disk) && offset < TWO32 && |src| < TWO32 && now < TWO32
    modifies fs
    ensures fs.Valid() && Owned(fs.g, fs.disk) && OwnedSince(fs.g, fs.history, |old(fs.history)|)
            && fs.lost >= old(fs.lost)
    ensures rc >= 0 ==> rc == |src| && (|src| > 0 ==> FileWritten(fs.g, old(fs.disk), fs.disk, ino, offset, src, now))
    ensures rc > 0 ==> IsRegular(InodeAt(fs.g, old(fs.disk), ino)) && offset + |src| <= NDIR * fs.g.bs
    ensures rc < 0 ==> PartlyWritten(fs.g, old(fs.disk), fs.disk, ino, offset, src) && SameInodes(fs.g, old(fs.disk), fs.disk)
    ensures |src| == 0 || offset + |src| > NDIR * fs.g.bs ==> fs.disk == old(fs.disk)
    ensures |src| == 0 ==> rc == 0
    ensures |src| > 0 && offset + |src| > NDIR * fs.g.bs ==> rc == -EFBIG
    ensures fs.lost == old(fs.lost) && 0 < |src| && offset + |src| <= NDIR * fs.g.bs
            && OtherKind(fs.g, old(fs.disk), ino) ==>
              rc == -EISDIR && fs.disk == old(fs.disk)
    ensures rc < 0 && fs.lost == old(fs.lost) && Writable(fs.g, old(fs.disk), ino, offset + |src|) ==>
              rc == -ENOSPC && fs.sbFreeBlocks == 0
    ensures 0 < |src| && offset + |src| <= NDIR * fs.g.bs && !fs.g.ValidIno(ino) ==> rc == -EIO && fs.disk == old(fs.disk)
    ensures rc > 0 ==>
              fs.Clean() && fs.sbFreeBlocks <= old(fs.sbFreeBlocks)
              && TookBlocks(fs.g, old(fs.disk), fs.disk, ino, old(fs.sbFreeBlocks) - fs.sbFreeBlocks)
    ensures fs.sbFreeInodes == old(fs.sbFreeInodes)
  {
    hide Volume.Logged, Volume.Tracked;
    hide InodeAt, PutInode, Marked, Single, MetaMarked, Grown, SizeOf, ModeOf, PtrOf, Stamped, WithSize, SameContent,
         SameInodes;
    hide Geometry.Valid, Geometry.Sizes, Geometry.Logical, Geometry.Within, Geometry.ValidIno, BlockCounts, InodeCounts,
         Sum;
    hide Writing, FileWritten, ChunkStored, Written, PartlyWritten, Unharmed, SamePtrs, GrewTo, Advanced, NewAt, NewBlocks,
         TookBlocks;
    var g := fs.g;
    ghost var d0 := fs.disk;
    ValidSizes(g);
    SameRefl(g, d0);
    UntouchedPartly(g, d0, ino, offset, src);
    if |src| == 0 {
      return 0;
    }
    if offset + |src| > NDIR * g.bs {
      return -EFBIG;
    }
    var n;
    rc, n := fs.ReadInode(ino);
    if rc != 0 {
      return -EIO;
    }
    if !IsRegular(n) {
      return -EISDIR;
    }
    WritingStart(g, d0, ino, offset, src);
    ghost var was := n;
    var k := 0;
    GrewNone(g, n, offset);
    NoNewBlocks(n, 12);
    while k < |src|
      invariant k <= |src| && fs.Valid() && old(fs.history) <= fs.history
                && OwnedSince(g, fs.history, |old(fs.history)|)
      invariant Writing(g, d0, fs.disk, ino, n, offset, src, k) && ModeOf(n) == ModeOf(was)
      invariant GrewTo(g, was, n, offset, k)
      invariant fs.lost >= old(fs.lost)
      invariant fs.sbFreeBlocks + NewBlocks(was, n, 12) == old(fs.sbFreeBlocks) && fs.sbFreeInodes == old(fs.sbFreeInodes)
    {
      var pos := offset + k;
      var take := g.bs - g.Within(pos);
      if take > |src| - k {
        take := |src| - k;
      }
      BelowDirect(g, pos);
      ghost var d, held := fs.disk, n;
      WritingKept(g, d0, d, ino, n, offset, src, k);
      WritingHand(g, d0, d, ino, n, offset, src, k);
      rc, n := WriteChunk(fs, ino, n, g.Logical(pos), g.Within(pos), src[k..k + take]);
      if rc != 0 {
        WritingFails(g, d0, d, fs.disk, ino, held, offset, src, k);
        return;
      }
      WritingStep(g, d0, d, fs.disk, ino, held, n, offset, src, k, take);
      GrewChunk(g, was, held, n, offset, k, take);
      CountChunk(g, was, held, n, offset, k, g.Logical(pos));
      k := k + take;
    }
    rc := StoreGrown(fs, ino, n, src, offset, now, d0);
    if rc == 0 {
      rc := k;
    }
  }

  /** The block after the last one that the first k bytes from offset on lie in. */
  function Reached(g: Geometry, offset: nat, k: nat): nat
    requires g.bs > 0
  {
    if k == 0 then g.Logical(offset) else g.Logical(offset + k - 1) + 1
  }

  /** The inode in hand once the first k bytes have been written. */
  predicate GrewTo(g: Geometry, was: Inode, n: Inode, offset: nat, k: nat) {
    g.bs > 0 && Grew(g.bs, was, n, g.Logical(offset), Reached(g, offset, k))
  }

  lemma RecordedEnd(g: Geometry, was: Inode, n: Inode, offset: nat, len: nat, now: nat)
    requires GrewTo(g, was, n, offset, len) && len > 0 && offset + len < TWO32 && now < TWO32
    ensures var end := offset + len;
            RecordedAs(g, was, Stamped(if end > SizeOf(n) then WithSize(n, end) else n, now), offset, len, now)
  {
    hide Grew, Recorded, Stamped, WithSize, SizeOf, Geometry.Logical;
    RecordedBy(g.bs, was, n, g.Logical(offset), Reached(g, offset, len), offset + len, now);
  }

  lemma CountChunk(g: Geometry, was: Inode, n: Inode, m: Inode, offset: nat, k: nat, l: nat)
    requires GrewTo(g, was, n, offset, k) && l < NDIR && Advanced(g, n, m, l)
    ensures NewBlocks(was, m, 12) == NewBlocks(was, n, 12) + NewAt(n, l)
  {
    hide DirectPtr, NewBlocks, Charged, SameHead, Reached, Geometry.Logical;
    if DirectPtr(n, l) == 0 {
      OneMore(was, n, m, l, 12);
    }
  }

  lemma GrewNone(g: Geometry, n: Inode, offset: nat)
    requires g.bs > 0
    ensures GrewTo(g, n, n, offset, 0)
  {
    hide Grew, Geometry.Logical;
    GrewStart(g.bs, n, g.Logical(offset));
  }

  lemma GrewChunk(g: Geometry, was: Inode, n: Inode, m: Inode, offset: nat, k: nat, take: nat)
    requires g.bs > 0 && take > 0 && g.Within(offset + k) + take <= g.bs
    requires GrewTo(g, was, n, offset, k) && Advanced(g, n, m, g.Logical(offset + k))
    ensures GrewTo(g, was, m, offset, k + take)
  {
    ChunkReaches(g, offset, k, take);
    hide Grew, Took, Geometry.Logical, Geometry.Within, Reached, DirectPtr;
    var lo, l := g.Logical(offset), g.Logical(offset + k);
    if DirectPtr(n, l) == 0 {
      NotYet(g, was, n, lo, Reached(g, offset, k), l);
      GrewTook(g.bs, was, n, m, lo, l);
    } else {
      GrewKept(g.bs, was, n, lo, Reached(g, offset, k), l);
    }
  }

  /** The chunk goes on where the last one ended, and stays in its block. */
  lemma ChunkReaches(g: Geometry, offset: nat, k: nat, take: nat)
    requires g.bs > 0 && take > 0 && g.Within(offset + k) + take <= g.bs
    ensures var l := g.Logical(offset + k);
            && g.Logical(offset) <= l && (Reached(g, offset, k) == l || Reached(g, offset, k) == l + 1)
            && Reached(g, offset, k + take) == l + 1
  {
    LogicalGrows(g, offset, offset + k);
    StaysInBlock(g, offset + k, offset + k + take - 1);
    if k > 0 {
      LogicalGrows(g, offset + k - 1, offset + k);
      NextLogical(g, offset + k - 1);
    }
    hide Geometry.Logical, Geometry.Within;
  }

  /** A pointer that is not set is not among those done. */
  lemma NotYet(g: Geometry, was: Inode, n: Inode, lo: nat, hi: nat, l: nat)
    requires Grew(g.bs, was, n, lo, hi) && l < 12 && lo <= l && hi <= l + 1 && DirectPtr(n, l) == 0
    ensures hi <= l
  {
    hide DirectPtr;
  }

  lemma LogicalGrows(g: Geometry, a: nat, b: nat)
    requires g.bs > 0 && a <= b
    ensures g.Logical(a) <= g.Logical(b)
  {
    PosSplit(g, a);
    PosSplit(g, b);
    if g.Logical(b) < g.Logical(a) {
      MulBelow(g.Logical(b), g.Logical(a), g.bs);
    }
  }

  lemma NextLogical(g: Geometry, a: nat)
    requires g.bs > 0
    ensures g.Logical(a + 1) <= g.Logical(a) + 1
  {
    PosSplit(g, a);
    PosSplit(g, a + 1);
    if g.Logical(a) + 1 < g.Logical(a + 1) {
      MulBelow(g.Logical(a) + 1, g.Logical(a + 1), g.bs);
    }
  }

  /** An inode that is not a regular file. */
  ghost predicate OtherKind(g: Geometry, d: Disk, ino: nat)
    requires g.Sizes() && Sized(g, d)
  {
    g.ValidIno(ino) && !IsRegular(InodeAt(g, d, ino))
  }

  /** A regular file, and an end that its direct blocks can hold. */
  ghost predicate Writable(g: Geometry, d: Disk, ino: nat, end: nat)
    requires g.Sizes() && Sized(g, d)
  {
    g.ValidIno(ino) && IsRegular(InodeAt(g, d, ino)) && end <= NDIR * g.bs
  }

  lemma UntouchedPartly(g: Geometry, d: Disk, ino: nat, offset: nat, src: seq<byte>)
    requires g.Sizes() && Sized(g, d)
    ensures PartlyWritten(g, d, d, ino, offset, src)
  {
    hide Content;
  }

  lemma WritingHand(g: Geometry, d0: Disk, d: Disk, ino: nat, n: Inode, offset: nat, src: seq<byte>, k: nat)
    requires Writing(g, d0, d, ino, n, offset, src, k)
    ensures InHand(g, d, ino, n)
  {
  }
}
