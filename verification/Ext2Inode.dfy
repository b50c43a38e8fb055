/** Inodes as the 128 bytes kept in the inode table (src/kernel/fs/ext2_ondisk.h:66-85, src/kernel/fs/ext2.c:206-223). */
module Ext2Inode {
  import opened Words
  import opened Ext2Layout

  type Inode = s: seq<byte> | |s| == INODE_BYTES witness Zeros(INODE_BYTES)

  const N_BLOCKS: nat := 15

  function PtrOffset(i: nat): nat { 40 + 4 * i }

  function ModeOf(n: Inode): nat { GetU16(n, 0) }
  function SizeOf(n: Inode): nat { GetU32(n, 4) }
  function SectorsOf(n: Inode): nat { GetU32(n, 28) }

  function PtrOf(n: Inode, i: nat): (b: nat)
    requires i < N_BLOCKS
    ensures b < TWO32
  {
    GetU32(n, PtrOffset(i))
  }

  function WithWord(n: Inode, off: nat, v: nat): Inode
    requires off + 4 <= INODE_BYTES && v < TWO32
  {
    Splice(n, off, PutU32(v))
  }

  function WithPtr(n: Inode, i: nat, b: nat): Inode
    requires i < N_BLOCKS && b < TWO32
  {
    WithWord(n, PtrOffset(i), b)
  }

  function WithSize(n: Inode, size: nat): Inode
    requires size < TWO32
  {
    WithWord(n, 4, size)
  }

  function WithSectors(n: Inode, sectors: nat): Inode
    requires sectors < TWO32
  {
    WithWord(n, 28, sectors)
  }

  /** i_ctime and i_mtime. */
  function Stamped(n: Inode, now: nat): Inode
    requires now < TWO32
  {
    WithWord(WithWord(n, 12, now), 16, now)
  }

  /** A word write is read back, and leaves the words and half-words beside it alone. */
  lemma WithWordReads(n: Inode, off: nat, v: nat, at: nat)
    requires off + 4 <= INODE_BYTES && v < TWO32
    ensures at == off ==> GetU32(WithWord(n, off, v), at) == v
    ensures at + 4 <= INODE_BYTES && (at + 4 <= off || off + 4 <= at) ==>
              GetU32(WithWord(n, off, v), at) == GetU32(n, at)
    ensures at + 2 <= INODE_BYTES && (at + 2 <= off || off + 4 <= at) ==>
              GetU16(WithWord(n, off, v), at) == GetU16(n, at)
  {
    var r := WithWord(n, off, v);
    if at == off {
      assert r[off..off + 4] == PutU32(v);
      U32At(r, off, v);
    }
  }

  lemma WithPtrReads(n: Inode, i: nat, b: nat)
    requires i < N_BLOCKS && b < TWO32
    ensures forall j :: 0 <= j < N_BLOCKS ==> PtrOf(WithPtr(n, i, b), j) == if j == i then b else PtrOf(n, j)
    ensures SizeOf(WithPtr(n, i, b)) == SizeOf(n) && ModeOf(WithPtr(n, i, b)) == ModeOf(n)
    ensures SectorsOf(WithPtr(n, i, b)) == SectorsOf(n)
  {
    hide WithWord;
    forall j | 0 <= j < N_BLOCKS
      ensures PtrOf(WithPtr(n, i, b), j) == if j == i then b else PtrOf(n, j)
    {
      WithWordReads(n, PtrOffset(i), b, PtrOffset(j));
    }
    WithWordReads(n, PtrOffset(i), b, 4);
    WithWordReads(n, PtrOffset(i), b, 28);
    WithWordReads(n, PtrOffset(i), b, 0);
  }

  /** A word below the pointers leaves every pointer alone. */
  lemma LowWordReads(n: Inode, off: nat, v: nat)
    requires off + 4 <= PtrOffset(0) && v < TWO32
    ensures forall j :: 0 <= j < N_BLOCKS ==> PtrOf(WithWord(n, off, v), j) == PtrOf(n, j)
  {
    hide WithWord;
    forall j | 0 <= j < N_BLOCKS
      ensures PtrOf(WithWord(n, off, v), j) == PtrOf(n, j)
    {
      WithWordReads(n, off, v, PtrOffset(j));
    }
  }

  /** What changing the size, the sector count and the times keeps. */
  lemma SizeReads(n: Inode, size: nat)
    requires size < TWO32
    ensures SizeOf(WithSize(n, size)) == size && ModeOf(WithSize(n, size)) == ModeOf(n)
    ensures SamePtrs(n, WithSize(n, size))
  {
    hide WithWord;
    LowWordReads(n, 4, size);
    WithWordReads(n, 4, size, 4);
    WithWordReads(n, 4, size, 0);
  }

  lemma SectorsReads(n: Inode, sectors: nat)
    requires sectors < TWO32
    ensures SizeOf(WithSectors(n, sectors)) == SizeOf(n) && ModeOf(WithSectors(n, sectors)) == ModeOf(n)
    ensures SamePtrs(n, WithSectors(n, sectors))
  {
    hide WithWord;
    LowWordReads(n, 28, sectors);
    WithWordReads(n, 28, sectors, 4);
    WithWordReads(n, 28, sectors, 0);
  }

  lemma StampReads(n: Inode, now: nat)
    requires now < TWO32
    ensures SizeOf(Stamped(n, now)) == SizeOf(n) && ModeOf(Stamped(n, now)) == ModeOf(n)
    ensures SamePtrs(n, Stamped(n, now))
  {
    hide WithWord;
    var m := WithWord(n, 12, now);
    LowWordReads(n, 12, now);
    LowWordReads(m, 16, now);
    WithWordReads(n, 12, now, 4);
    WithWordReads(n, 12, now, 0);
    WithWordReads(m, 16, now, 4);
    WithWordReads(m, 16, now, 0);
  }

  function WithHalf(n: Inode, off: nat, v: nat): Inode
    requires off + 2 <= INODE_BYTES && v < TWO16
  {
    Splice(n, off, PutU16(v))
  }

  lemma WithHalfReads(n: Inode, off: nat, v: nat, at: nat)
    requires off + 2 <= INODE_BYTES && v < TWO16
    ensures at == off ==> GetU16(WithHalf(n, off, v), at) == v
    ensures at + 4 <= INODE_BYTES && (at + 4 <= off || off + 2 <= at) ==>
              GetU32(WithHalf(n, off, v), at) == GetU32(n, at)
    ensures at + 2 <= INODE_BYTES && (at + 2 <= off || off + 2 <= at) ==>
              GetU16(WithHalf(n, off, v), at) == GetU16(n, at)
  {
    var r := WithHalf(n, off, v);
    if at == off {
      assert r[off..off + 2] == PutU16(v);
      U16At(r, off, v);
    }
  }

  function LinksOf(n: Inode): nat { GetU16(n, 26) }

  /** The inode that ext2_alloc_inode stores: one link, no data, all times now. */
  function FreshInode(mode: nat, now: nat): Inode
    requires mode < TWO16 && now < TWO32
  {
    WithWord(Stamped(WithHalf(WithHalf(Zeros(INODE_BYTES), 0, mode), 26, 1), now), 8, now)
  }

  lemma FreshReads(mode: nat, now: nat, at: nat)
    requires mode < TWO16 && now < TWO32 && 28 <= at <= INODE_BYTES - 4
    ensures GetU32(FreshInode(mode, now), at) == 0
  {
    hide WithWord, WithHalf, GetU32, GetU16;
    var a := WithHalf(Zeros(INODE_BYTES), 0, mode);
    var b := WithHalf(a, 26, 1);
    var c := WithWord(b, 12, now);
    var e := WithWord(c, 16, now);
    ZeroReads(Zeros(INODE_BYTES), at);
    WithHalfReads(Zeros(INODE_BYTES), 0, mode, at);
    WithHalfReads(a, 26, 1, at);
    WithWordReads(b, 12, now, at);
    WithWordReads(c, 16, now, at);
    WithWordReads(e, 8, now, at);
  }

  lemma FreshFields(mode: nat, now: nat)
    requires mode < TWO16 && now < TWO32
    ensures ModeOf(FreshInode(mode, now)) == mode && LinksOf(FreshInode(mode, now)) == 1
            && SizeOf(FreshInode(mode, now)) == 0
    ensures forall i :: 0 <= i < N_BLOCKS ==> PtrOf(FreshInode(mode, now), i) == 0
  {
    hide WithWord, WithHalf, GetU32, GetU16;
    var z := Zeros(INODE_BYTES);
    var a := WithHalf(z, 0, mode);
    var b := WithHalf(a, 26, 1);
    var c := WithWord(b, 12, now);
    var e := WithWord(c, 16, now);
    ZeroReads(Zeros(INODE_BYTES), 4);
    WithHalfReads(z, 0, mode, 4);
    WithHalfReads(a, 26, 1, 4);
    WithWordReads(b, 12, now, 4);
    WithWordReads(c, 16, now, 4);
    WithWordReads(e, 8, now, 4);
    WithHalfReads(z, 0, mode, 0);
    WithHalfReads(a, 26, 1, 0);
    WithWordReads(b, 12, now, 0);
    WithWordReads(c, 16, now, 0);
    WithWordReads(e, 8, now, 0);
    WithHalfReads(a, 26, 1, 26);
    WithWordReads(b, 12, now, 26);
    WithWordReads(c, 16, now, 26);
    WithWordReads(e, 8, now, 26);
    forall i | 0 <= i < N_BLOCKS
      ensures PtrOf(FreshInode(mode, now), i) == 0
    {
      FreshReads(mode, now, PtrOffset(i));
    }
  }

  ghost predicate SamePtrs(a: Inode, b: Inode) {
    forall j :: 0 <= j < N_BLOCKS ==> PtrOf(a, j) == PtrOf(b, j)
  }

  // ----- In the table -----

  function InodeAt(g: Geometry, d: Disk, ino: nat): Inode
    requires g.Sizes() && Sized(g, d) && g.ValidIno(ino)
  {
    InodeInTable(g, ino);
    d[g.InodeBlock(ino)][g.InodeOffset(ino)..g.InodeOffset(ino) + INODE_BYTES]
  }

  function PutInode(g: Geometry, d: Disk, ino: nat, n: Inode): (r: Disk)
    requires g.Sizes() && Sized(g, d) && g.ValidIno(ino)
    ensures Sized(g, r)
  {
    InodeInTable(g, ino);
    d[g.InodeBlock(ino) := Splice(d[g.InodeBlock(ino)], g.InodeOffset(ino), n)]
  }

  /** The inode just written is read back; every other inode is as it was. */
  lemma PutInodeReads(g: Geometry, d: Disk, ino: nat, n: Inode, other: nat)
    requires g.Valid() && Sized(g, d) && g.ValidIno(ino) && g.ValidIno(other)
    ensures InodeAt(g, PutInode(g, d, ino, n), other) == if other == ino then n else InodeAt(g, d, other)
  {
    InodeInTable(g, ino);
    InodeInTable(g, other);
    if other != ino {
      InodesApart(g, ino, other);
    }
    hide Geometry.InodeBlock, Geometry.InodeOffset, Geometry.Disjoint, Geometry.InTable, Geometry.InoGroup;
  }

  /** Putting back what is there changes nothing. */
  lemma PutInodeSame(g: Geometry, d: Disk, ino: nat)
    requires g.Sizes() && Sized(g, d) && g.ValidIno(ino)
    ensures PutInode(g, d, ino, InodeAt(g, d, ino)) == d
  {
    InodeInTable(g, ino);
    hide Geometry.InodeBlock, Geometry.InodeOffset, Geometry.InTable, Geometry.InoGroup;
    var b := d[g.InodeBlock(ino)];
    assert Splice(b, g.InodeOffset(ino), InodeAt(g, d, ino)) == b;
  }
}
