/** A directory on disk: its blocks behind its inode, and what storing one of them changes (src/kernel/fs/ext2.c:640-868). */
module Ext2DirDisk {
  import opened Words
  import opened Ext2Layout
  import opened Ext2Inode
  import opened Ext2Owner
  import opened Ext2File
  import opened Ext2Dir
  import opened Ext2DirMap
  import opened Ext2Volume
  import opened Ext2Alloc
  import opened Ext2FileOps

  function DirLen(g: Geometry, n: Inode): nat
    requires g.bs > 0
  {
    g.Logical(SizeOf(n))
  }

  ghost function DirBlocks(g: Geometry, d: Disk, n: Inode): (bs: seq<seq<byte>>)
    requires g.bs > 0 && Sized(g, d)
    ensures |bs| == DirLen(g, n)
    ensures forall l :: 0 <= l < |bs| ==> bs[l] == BlockBytes(g, d, n, l)
  {
    seq(DirLen(g, n), l requires 0 <= l < DirLen(g, n) => BlockBytes(g, d, n, l))
  }

  /** Whole blocks, none missing, each tiled; no direct block beyond the size. */
  ghost predicate DirOk(g: Geometry, d: Disk, n: Inode) {
    && g.bs > 0 && Sized(g, d)
    && SizeOf(n) == DirLen(g, n) * g.bs
    && (forall l :: 0 <= l < DirLen(g, n) ==> Phys(g, d, n, l) != 0)
    && AllTiled(DirBlocks(g, d, n))
    && (forall l :: DirLen(g, n) <= l < NDIR ==> PtrOf(n, l) == 0)
  }

  ghost function DirEntries(g: Geometry, d: Disk, n: Inode): seq<Entry>
    requires DirOk(g, d, n)
  {
    Entries(DirBlocks(g, d, n))
  }

  // ----- Blocks and bytes -----

  lemma BlockByte(g: Geometry, d: Disk, ino: nat, n: Inode, l: nat, off: nat)
    requires g.Sizes() && Sized(g, d) && g.ValidIno(ino) && InodeAt(g, d, ino) == n && off < g.bs
    ensures g.Logical(l * g.bs + off) == l && BlockBytes(g, d, n, l)[off] == Content(g, d, ino, l * g.bs + off)
  {
    DivMod(l, off, g.bs);
    StoredBytes(g, d, ino, n, l * g.bs + off);
    BlockBytesAt(g, d, n, l * g.bs + off);
    assert g.Within(l * g.bs + off) == off;
    hide BlockBytes, Content, ByteAt, InodeAt;
  }

  /** A block with the same bytes on both disks. */
  lemma SameBlockBytes(g: Geometry, d: Disk, e: Disk, ino: nat, n: Inode, m: Inode, l: nat)
    requires g.Sizes() && Sized(g, d) && Sized(g, e) && g.ValidIno(ino) && InodeAt(g, d, ino) == n
             && InodeAt(g, e, ino) == m
    requires forall pos: nat :: g.Logical(pos) == l ==> Content(g, e, ino, pos) == Content(g, d, ino, pos)
    ensures BlockBytes(g, e, m, l) == BlockBytes(g, d, n, l)
  {
    hide BlockBytes, Content, InodeAt, Geometry.Logical, Geometry.Sizes;
    forall off | 0 <= off < g.bs
      ensures BlockBytes(g, e, m, l)[off] == BlockBytes(g, d, n, l)[off]
    {
      BlockByte(g, d, ino, n, l, off);
      BlockByte(g, e, ino, m, l, off);
    }
  }

  lemma NewBlockBytes(g: Geometry, e: Disk, ino: nat, m: Inode, l: nat, x: seq<byte>)
    requires g.Sizes() && Sized(g, e) && g.ValidIno(ino) && InodeAt(g, e, ino) == m && |x| == g.bs
    requires forall pos: nat :: g.Logical(pos) == l ==> Content(g, e, ino, pos) == x[g.Within(pos)]
    ensures BlockBytes(g, e, m, l) == x
  {
    hide BlockBytes, Content, InodeAt, Geometry.Logical, Geometry.Sizes, Geometry.Within;
    forall off | 0 <= off < g.bs
      ensures BlockBytes(g, e, m, l)[off] == x[off]
    {
      BlockByte(g, e, ino, m, l, off);
      WithinOf(g, l, off);
    }
  }

  lemma WithinOf(g: Geometry, l: nat, off: nat)
    requires off < g.bs
    ensures g.Within(l * g.bs + off) == off
  {
    DivMod(l, off, g.bs);
  }

  // ----- Storing a block of the directory -----

  /** Every other inode and every other file is as it was. */
  ghost predicate OthersSame(g: Geometry, d: Disk, e: Disk, ino: nat)
    requires g.Sizes() && Sized(g, d) && Sized(g, e)
  {
    && (forall i :: g.ValidIno(i) && i != ino ==> InodeAt(g, e, i) == InodeAt(g, d, i))
    && (forall i, pos: nat :: g.ValidIno(i) && i != ino ==> Content(g, e, i, pos) == Content(g, d, i, pos))
  }

  lemma DirPtr(g: Geometry, d: Disk, n: Inode, l: nat)
    requires DirOk(g, d, n) && l < NDIR
    ensures PtrOf(n, l) != 0 <==> l < DirLen(g, n)
    ensures l < DirLen(g, n) ==> DirBlocks(g, d, n)[l] == d[PtrOf(n, l)] && Phys(g, d, n, l) == PtrOf(n, l)
  {
    hide PtrOf, SizeOf, DirLen, AllTiled;
    if l < DirLen(g, n) {
      assert Phys(g, d, n, l) == PtrOf(n, l);
    }
  }

  lemma StoredPtr(g: Geometry, d: Disk, ino: nat, n: Inode, l: nat)
    requires g.Sizes() && Sized(g, d) && g.ValidIno(ino) && InodeAt(g, d, ino) == n && l < NDIR && PtrOf(n, l) != 0
    ensures Refs(g, d, ino, Direct(l), PtrOf(n, l))
  {
    hide InodeAt, PtrOf;
  }

  /** Block j of the directory becomes c. */
  ghost predicate BlockStored(g: Geometry, d: Disk, e: Disk, ino: nat, n: Inode, j: nat, c: seq<byte>) {
    && Owned(g, d) && Owned(g, e) && g.ValidIno(ino) && InodeAt(g, d, ino) == n && InodeAt(g, e, ino) == n
    && DirOk(g, d, n) && j < DirLen(g, n) && DirOk(g, e, n) && DirBlocks(g, e, n) == DirBlocks(g, d, n)[j := c]
    && OthersSame(g, d, e, ino)
  }

  lemma PatchedBlocks(g: Geometry, d: Disk, e: Disk, ino: nat, n: Inode, j: nat, c: seq<byte>)
    requires g.Sizes() && Sized(g, d) && Sized(g, e) && g.ValidIno(ino) && InodeAt(g, d, ino) == n
             && InodeAt(g, e, ino) == n
    requires |c| == g.bs && Patched(g, d, e, ino, j, c) && j < DirLen(g, n)
    ensures DirBlocks(g, e, n) == DirBlocks(g, d, n)[j := c]
  {
    hide BlockBytes, Content, InodeAt, Geometry.Logical, Geometry.Within, Geometry.Sizes, DirLen;
    SizesPositive(g);
    forall l | 0 <= l < DirLen(g, n)
      ensures DirBlocks(g, e, n)[l] == DirBlocks(g, d, n)[j := c][l]
    {
      if l == j {
        NewBlockBytes(g, e, ino, n, l, c);
      } else {
        SameBlockBytes(g, d, e, ino, n, n, l);
      }
    }
  }

  lemma SizesPositive(g: Geometry)
    requires g.Sizes()
    ensures 0 < g.bs < TWO16
  {
  }

  lemma TiledUpdate(bs: seq<seq<byte>>, j: nat, c: seq<byte>)
    requires AllTiled(bs) && j < |bs| && Tiled(c, 0, |c|)
    ensures AllTiled(bs[j := c])
  {
    hide Tiled;
  }

  lemma DataKeepsPhys(g: Geometry, d: Disk, ino: nat, n: Inode, j: nat, b: nat, c: seq<byte>)
    requires Owned(g, d) && Refs(g, d, ino, Direct(j), b) && g.ValidIno(ino) && InodeAt(g, d, ino) == n && |c| == g.bs
    ensures forall l :: 0 <= l < DirLen(g, n) ==> Phys(g, d[b := c], n, l) == Phys(g, d, n, l)
  {
    LeafIsData(g, d, ino, Direct(j), b);
    hide Refs, InodeAt, Phys, DataBlock, DirLen, Marked, Single, MetaMarked, Geometry.Disjoint;
    forall l | 0 <= l < DirLen(g, n)
      ensures Phys(g, d[b := c], n, l) == Phys(g, d, n, l)
    {
      DataBlockPhys(g, d, b, c, ino, l);
    }
  }

  lemma DirBlockWrite(g: Geometry, d: Disk, ino: nat, n: Inode, j: nat, c: seq<byte>)
    requires Owned(g, d) && g.ValidIno(ino) && InodeAt(g, d, ino) == n && DirOk(g, d, n)
    requires j < NDIR && j < DirLen(g, n) && |c| == g.bs && Tiled(c, 0, |c|)
    ensures PtrOf(n, j) != 0 && !g.Reserved(PtrOf(n, j)) && BlockStored(g, d, d[PtrOf(n, j) := c], ino, n, j, c)
  {
    hide Refs, InodeAt, PtrOf, Phys, Owned, Geometry.Sizes, Geometry.Valid, Geometry.Reserved, DirLen, DirOk, DirBlocks,
         Tiled, DataBlock;
    hide Patched, SameInodes, OthersSame;
    OwnedSizes(g, d);
    DirPtr(g, d, n, j);
    var b := PtrOf(n, j);
    StoredPtr(g, d, ino, n, j);
    LeafIsData(g, d, ino, Direct(j), b);
    DataNotReserved(g, d, b);
    DataWritePatches(g, d, ino, j, b, c);
    DataKeepsPhys(g, d, ino, n, j, b, c);
    var e := d[b := c];
    PatchedOthers(g, d, e, ino, n, j, c);
    StoredOk(g, d, e, ino, n, j, c);
  }

  lemma PatchedOthers(g: Geometry, d: Disk, e: Disk, ino: nat, n: Inode, j: nat, c: seq<byte>)
    requires g.Sizes() && Sized(g, d) && Sized(g, e) && g.ValidIno(ino) && |c| == g.bs && InodeAt(g, d, ino) == n
    requires Patched(g, d, e, ino, j, c) && SameInodes(g, d, e)
    ensures OthersSame(g, d, e, ino) && InodeAt(g, e, ino) == n
  {
    hide InodeAt, Content, Geometry.Logical, Geometry.Within, Geometry.Sizes;
  }

  lemma StoredOk(g: Geometry, d: Disk, e: Disk, ino: nat, n: Inode, j: nat, c: seq<byte>)
    requires g.Sizes() && Sized(g, d) && Sized(g, e) && g.ValidIno(ino) && |c| == g.bs && InodeAt(g, d, ino) == n
             && InodeAt(g, e, ino) == n
    requires DirOk(g, d, n) && j < DirLen(g, n) && Patched(g, d, e, ino, j, c) && Tiled(c, 0, |c|)
    requires forall l :: 0 <= l < DirLen(g, n) ==> Phys(g, e, n, l) == Phys(g, d, n, l)
    ensures DirOk(g, e, n) && DirBlocks(g, e, n) == DirBlocks(g, d, n)[j := c]
  {
    hide InodeAt, PtrOf, Phys, Geometry.Sizes, DirLen, Tiled, AllTiled, SizeOf, BlockBytes, Patched;
    PatchedBlocks(g, d, e, ino, n, j, c);
    TiledUpdate(DirBlocks(g, d, n), j, c);
  }

  lemma DataNotReserved(g: Geometry, d: Disk, b: nat)
    requires g.Sizes() && Sized(g, d) && DataBlock(g, d, b)
    ensures !g.Reserved(b)
  {
  }

  // ----- A new block at the end -----

  /** The directory inode once it has one block more (src/kernel/fs/ext2.c:788-792). */
  function WithDirBlock(g: Geometry, n: Inode, l: nat, b: nat, now: nat): Inode
    requires l < NDIR && b < TWO32 && now < TWO32
  {
    Stamped(WithSize(WithBlock(g, n, l, b), (SizeOf(n) + g.bs) % TWO32), now)
  }

  lemma WithDirBlockReads(g: Geometry, n: Inode, l: nat, b: nat, now: nat)
    requires l < NDIR && b < TWO32 && now < TWO32
    ensures var m := WithDirBlock(g, n, l, b, now);
            && SamePtrs(WithBlock(g, n, l, b), m) && Gains(n, m, l, b) && ModeOf(m) == ModeOf(n)
            && SizeOf(m) == (SizeOf(n) + g.bs) % TWO32
  {
    hide PtrOf, SizeOf, ModeOf, Stamped, WithSize, WithBlock;
    WithBlockGains(g, n, l, b);
    SizeReads(WithBlock(g, n, l, b), (SizeOf(n) + g.bs) % TWO32);
    StampReads(WithSize(WithBlock(g, n, l, b), (SizeOf(n) + g.bs) % TWO32), now);
  }

  /** The bytes of the directory grew by the block c; m is the inode now stored. */
  ghost predicate BlockAppended(g: Geometry, d: Disk, e: Disk, ino: nat, n: Inode, m: Inode, c: seq<byte>) {
    && Owned(g, d) && Owned(g, e) && g.ValidIno(ino) && InodeAt(g, d, ino) == n && InodeAt(g, e, ino) == m
    && DirOk(g, d, n) && DirOk(g, e, m) && DirBlocks(g, e, m) == DirBlocks(g, d, n) + [c] && ModeOf(m) == ModeOf(n)
    && OthersSame(g, d, e, ino)
  }

  lemma GrownLen(g: Geometry, n: Inode, m: Inode)
    requires 0 < g.bs < TWO16 && SizeOf(n) == DirLen(g, n) * g.bs && DirLen(g, n) < NDIR
             && SizeOf(m) == (SizeOf(n) + g.bs) % TWO32
    ensures DirLen(g, m) == DirLen(g, n) + 1 && SizeOf(m) == DirLen(g, m) * g.bs
  {
    hide SizeOf;
    var k := DirLen(g, n);
    NextSize(g, k, SizeOf(m));
  }

  lemma NextSize(g: Geometry, k: nat, size: nat)
    requires 0 < g.bs < TWO16 && k < NDIR && size == (k * g.bs + g.bs) % TWO32
    ensures g.Logical(size) == k + 1 && size == (k + 1) * g.bs
  {
    MulBelow(k, NDIR, g.bs);
    assert k * g.bs + g.bs == (k + 1) * g.bs + 0;
    DivMod(k + 1, 0, g.bs);
  }

  lemma AppendedBlocks(g: Geometry, d: Disk, e: Disk, ino: nat, n: Inode, m: Inode, c: seq<byte>)
    requires g.Sizes() && Sized(g, d) && Sized(g, e) && g.ValidIno(ino) && InodeAt(g, d, ino) == n
             && InodeAt(g, e, ino) == m
    requires |c| == g.bs && DirLen(g, m) == DirLen(g, n) + 1 && Patched(g, d, e, ino, DirLen(g, n), c)
    ensures DirBlocks(g, e, m) == DirBlocks(g, d, n) + [c]
  {
    hide BlockBytes, Content, InodeAt, Geometry.Logical, Geometry.Within, Geometry.Sizes, DirLen;
    SizesPositive(g);
    forall l | 0 <= l < DirLen(g, m)
      ensures DirBlocks(g, e, m)[l] == (DirBlocks(g, d, n) + [c])[l]
    {
      if l == DirLen(g, n) {
        NewBlockBytes(g, e, ino, m, l, c);
      } else {
        SameBlockBytes(g, d, e, ino, n, m, l);
      }
    }
  }

  lemma TiledAppend(bs: seq<seq<byte>>, c: seq<byte>)
    requires AllTiled(bs) && Tiled(c, 0, |c|)
    ensures AllTiled(bs + [c])
  {
    hide Tiled;
  }

  lemma GainedPhys(g: Geometry, d: Disk, e: Disk, n: Inode, m: Inode, k: nat, nb: nat)
    requires Sized(g, d) && Sized(g, e) && k < NDIR && nb != 0 && Gains(n, m, k, nb)
    requires forall l :: 0 <= l < k ==> Phys(g, d, n, l) != 0
    ensures forall l :: 0 <= l < k + 1 ==> Phys(g, e, m, l) != 0
  {
    hide PtrOf;
    forall l | 0 <= l < k + 1
      ensures Phys(g, e, m, l) != 0
    {
      assert Phys(g, e, m, l) == PtrOf(m, l);
      if l < k {
        assert Phys(g, d, n, l) == PtrOf(n, l);
      }
    }
  }

  /** What is behind the inode once the new block and the inode are stored. */
  lemma AppendedPatches(g: Geometry, d: Disk, t: Disk, ino: nat, n: Inode, l: nat, nb: nat, c: seq<byte>, m: Inode)
    requires Owned(g, d) && g.ValidIno(ino) && InodeAt(g, d, ino) == n && l < NDIR && PtrOf(n, l) == 0 && nb < TWO32
    requires Taken(g, d, t, nb) && |c| == g.bs && SamePtrs(WithBlock(g, n, l, nb), m)
    ensures var e := PutInode(g, t[nb := c], ino, m);
            Owned(g, t[nb := c]) && Owned(g, e) && Patched(g, d, e, ino, l, c) && SameInodes(g, d, t[nb := c]) && SameContent(g, d, t[nb := c])
  {
    hide PtrOf, InodeAt, PutInode, WithBlock, Taken, Marked, Single, MetaMarked, Geometry.Disjoint, Grown, BlockBytes,
         SamePtrs, Content, Geometry.Logical, Geometry.Within;
    var w := WithBlock(g, n, l, nb);
    var f := t[nb := c];
    InHandStart(g, d, ino);
    NewChunk(g, d, t, ino, n, l, nb, 0, c);
    WholeSplice(c);
    var v := PutInode(g, f, ino, w);
    PutInodeReads(g, f, ino, w, ino);
    PutInodeTwice(g, f, ino, w, m);
    RestampKeeps(g, v, ino, w, m);
    NewBlockUnseen(g, d, t, ino, n, l, nb, c);
  }

  lemma WholeSplice(c: seq<byte>)
    ensures Splice(Zeros(|c|), 0, c) == c
    ensures forall z: seq<byte> :: |z| == |c| ==> Splice(z, 0, c) == c
  {
  }

  /** Until the inode is stored nobody sees the new block. */
  lemma NewBlockUnseen(g: Geometry, d: Disk, t: Disk, ino: nat, n: Inode, l: nat, nb: nat, c: seq<byte>)
    requires Owned(g, d) && g.ValidIno(ino) && InodeAt(g, d, ino) == n && Taken(g, d, t, nb) && |c| == g.bs
    ensures !g.Reserved(nb) && Owned(g, t) && Owned(g, t[nb := c])
    ensures SameContent(g, d, t) && SameInodes(g, d, t) && SameContent(g, d, t[nb := c]) && SameInodes(g, d, t[nb := c])
  {
    hide Refs, Used, InodeAt, Marked, Single, MetaMarked, Geometry.Disjoint, Content, Mark, Geometry.InRange,
         Geometry.Reserved, Free;
    TakenOwned(g, d, t, nb);
    UnusedIsFree(g, d, nb);
    MarkFree(g, d, nb);
    FreeWriteKeeps(g, t, nb, c);
  }

  lemma DirAppend(g: Geometry, d: Disk, t: Disk, ino: nat, n: Inode, nb: nat, c: seq<byte>, now: nat)
    requires Owned(g, d) && g.ValidIno(ino) && InodeAt(g, d, ino) == n && DirOk(g, d, n) && DirLen(g, n) < NDIR
    requires Taken(g, d, t, nb) && nb < TWO32 && |c| == g.bs && Tiled(c, 0, |c|) && now < TWO32
    ensures var m := WithDirBlock(g, n, DirLen(g, n), nb, now);
            BlockAppended(g, d, PutInode(g, t[nb := c], ino, m), ino, n, m, c)
  {
    hide Refs, InodeAt, PutInode, PtrOf, Phys, Owned, Geometry.Valid, Geometry.Sizes, DirLen, Tiled, AllTiled, SizeOf,
         ModeOf;
    hide Content, BlockBytes, Geometry.Logical, Geometry.Within, WithDirBlock, WithBlock, Taken, SamePtrs, Gains,
         OthersSame;
    hide DirOk, DirBlocks, Patched, SameInodes, SameContent, Geometry.ValidIno;
    OwnedSizes(g, d);
    var k := DirLen(g, n);
    var m := WithDirBlock(g, n, k, nb, now);
    var f := t[nb := c];
    DirPtr(g, d, n, k);
    WithDirBlockReads(g, n, k, nb, now);
    AppendedPatches(g, d, t, ino, n, k, nb, c, m);
    OwnedSizes(g, f);
    var e := PutInode(g, f, ino, m);
    PutInodeReads(g, f, ino, m, ino);
    TakenNonZero(g, d, t, nb);
    AppendedOk(g, d, e, ino, n, m, nb, c);
    AppendedOthers(g, d, f, ino, m, k, c);
  }

  lemma AppendedOk(g: Geometry, d: Disk, e: Disk, ino: nat, n: Inode, m: Inode, nb: nat, c: seq<byte>)
    requires g.Sizes() && Sized(g, e) && g.ValidIno(ino) && DirOk(g, d, n) && DirLen(g, n) < NDIR
             && Gains(n, m, DirLen(g, n), nb) && nb != 0
    requires InodeAt(g, d, ino) == n && InodeAt(g, e, ino) == m && SizeOf(m) == (SizeOf(n) + g.bs) % TWO32
    requires |c| == g.bs && Tiled(c, 0, |c|) && Patched(g, d, e, ino, DirLen(g, n), c)
    ensures DirOk(g, e, m) && DirBlocks(g, e, m) == DirBlocks(g, d, n) + [c]
  {
    hide InodeAt, PtrOf, Phys, Geometry.Sizes, DirLen, Tiled, AllTiled, SizeOf, BlockBytes, Patched, Gains;
    SizesPositive(g);
    GrownLen(g, n, m);
    AppendedBlocks(g, d, e, ino, n, m, c);
    TiledAppend(DirBlocks(g, d, n), c);
    GainedPhys(g, d, e, n, m, DirLen(g, n), nb);
    GainedZeros(n, m, DirLen(g, n), nb);
  }

  lemma AppendedOthers(g: Geometry, d: Disk, f: Disk, ino: nat, m: Inode, k: nat, c: seq<byte>)
    requires g.Valid() && Sized(g, d) && Sized(g, f) && g.ValidIno(ino) && |c| == g.bs
    requires SameInodes(g, d, f) && Patched(g, d, PutInode(g, f, ino, m), ino, k, c)
    ensures OthersSame(g, d, PutInode(g, f, ino, m), ino)
  {
    hide InodeAt, PutInode, Content, Geometry.Logical, Geometry.Within;
    forall i | g.ValidIno(i) && i != ino
      ensures InodeAt(g, PutInode(g, f, ino, m), i) == InodeAt(g, d, i)
    {
      PutInodeReads(g, f, ino, m, i);
    }
  }

  lemma TakenNonZero(g: Geometry, d: Disk, t: Disk, nb: nat)
    requires Owned(g, d) && Taken(g, d, t, nb)
    ensures nb != 0
  {
    hide Used, Geometry.InRange, Geometry.Reserved, Geometry.Disjoint, Mark, Marked, Single, MetaMarked;
    UnusedIsFree(g, d, nb);
    DataNonZero(g, nb);
  }

  lemma GainedZeros(n: Inode, m: Inode, k: nat, nb: nat)
    requires Gains(n, m, k, nb)
    ensures (forall l :: k <= l < NDIR ==> PtrOf(n, l) == 0) ==> forall l :: k + 1 <= l < NDIR ==> PtrOf(m, l) == 0
  {
    hide PtrOf;
  }
}
