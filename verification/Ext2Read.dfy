/** Reading files (src/kernel/fs/ext2.c:225-264, 301-348). */
module Ext2Read {
  import opened Errno
  import opened Words
  import opened Ext2Layout
  import opened Ext2Inode
  import opened Ext2Stat
  import opened Ext2Owner
  import opened Ext2File
  import opened Ext2Counts
  import opened Ext2Volume
  import opened Ext2FileOps

  /** A word of a pointer block; 0 if there is no block, or if it cannot be read. */
  method ReadEntry(fs: Volume, blk: nat, j: nat) returns (b: nat)
    requires fs.Valid() && j < fs.g.PerBlock()
    modifies fs`lost
    ensures fs.Valid() && fs.lost >= old(fs.lost) && b < TWO32
    ensures b != 0 || fs.lost == old(fs.lost) ==> b == Entry(fs.g, fs.disk, blk, j)
    ensures b != 0 ==> fs.lost == old(fs.lost)
  {
    hide Volume.Logged, Volume.Tracked;
    hide Geometry.Valid, BlockCounts, InodeCounts, Sum, GetU32;
    if blk == 0 {
      return 0;
    }
    var rc, x := fs.ReadBlock(blk);
    if rc != 0 {
      return 0;
    }
    return GetU32(x, 4 * j);
  }

  /** inode_block_phys: the block number, or 0 for a hole; a failed read also gives 0. */
  method BlockPhys(fs: Volume, n: Inode, logical: nat) returns (b: nat)
    requires fs.Valid()
    modifies fs`lost
    ensures fs.Valid() && fs.lost >= old(fs.lost) && b < TWO32
    ensures b != 0 || fs.lost == old(fs.lost) ==> b == Phys(fs.g, fs.disk, n, logical)
    ensures b != 0 ==> fs.lost == old(fs.lost)
  {
    hide Volume.Logged, Volume.Tracked;
    hide Geometry.Valid, BlockCounts, InodeCounts, Sum, PtrOf, Entry, Geometry.PerBlock;
    var g := fs.g;
    var per := g.PerBlock();
    if logical < NDIR {
      return PtrOf(n, logical);
    }
    var l := logical - NDIR;
    if l < per {
      b := ReadEntry(fs, PtrOf(n, IND), l);
      return;
    }
    var m := l - per;
    if m < per * per {
      SplitBelow(m, per);
      var mid := ReadEntry(fs, PtrOf(n, DIND), m / per);
      if mid == 0 {
        ZeroEntry(g, fs.disk, m % per);
        return 0;
      }
      b := ReadEntry(fs, mid, m % per);
      return;
    }
    return 0;
  }

  lemma ZeroEntry(g: Geometry, d: Disk, j: nat)
    requires Sized(g, d) && j < g.PerBlock()
    ensures Entry(g, d, 0, j) == 0
  {
  }

  const TWO31: nat := 0x8000_0000

  /** Position i of a read from offset on, which wraps around at 32 bits. */
  function Pos(offset: nat, i: nat): nat {
    (offset + i) % TWO32
  }

  /** The bytes of a file from offset on. */
  ghost predicate Reads(g: Geometry, d: Disk, n: Inode, offset: nat, out: seq<byte>)
    requires g.bs > 0 && Sized(g, d)
  {
    forall i :: 0 <= i < |out| ==> out[i] == ByteAt(g, d, n, Pos(offset, i))
  }

  /** The rest of a block does not wrap around. */
  lemma NoWrapInBlock(g: Geometry, offset: nat, k: nat, i: nat)
    requires g.Sizes() && k <= i && g.Within(Pos(offset, k)) + (i - k) < g.bs
    ensures Pos(offset, i) == Pos(offset, k) + (i - k)
  {
    var pos := Pos(offset, k);
    var q := TWO32 / g.bs;
    assert q * g.bs == TWO32;
    assert pos == pos / g.bs * g.bs + pos % g.bs;
    MulBelow(pos / g.bs, q, g.bs) by { BelowQuotient(pos, q, g.bs); }
    assert pos + (i - k) < TWO32;
    WrapOnce(offset, k, i);
  }

  lemma BelowQuotient(pos: nat, q: nat, m: nat)
    requires m > 0 && pos < q * m
    ensures pos / m < q
  {
    assert pos / m * m <= pos;
    if q < pos / m {
      MulBelow(q, pos / m, m);
    }
  }

  lemma WrapOnce(offset: nat, k: nat, i: nat)
    requires k <= i && Pos(offset, k) + (i - k) < TWO32
    ensures Pos(offset, i) == Pos(offset, k) + (i - k)
  {
  }

  lemma ReadsMore(g: Geometry, d: Disk, n: Inode, offset: nat, out: seq<byte>, take: nat)
    requires g.Sizes() && Sized(g, d) && Reads(g, d, n, offset, out) && g.Within(Pos(offset, |out|)) + take <= g.bs
    ensures var pos := Pos(offset, |out|);
            Reads(g, d, n, offset, out + BlockBytes(g, d, n, g.Logical(pos))[g.Within(pos)..g.Within(pos) + take])
  {
    hide Pos, ByteAt, BlockBytes, Geometry.Logical;
    var pos := Pos(offset, |out|);
    var at := g.Within(pos);
    var more := out + BlockBytes(g, d, n, g.Logical(pos))[at..at + take];
    forall i | 0 <= i < |more|
      ensures more[i] == ByteAt(g, d, n, Pos(offset, i))
    {
      if i >= |out| {
        NoWrapInBlock(g, offset, |out|, i);
        ReadsByte(g, d, n, pos, i - |out|);
      }
    }
  }

  lemma ReadsByte(g: Geometry, d: Disk, n: Inode, pos: nat, i: nat)
    requires g.bs > 0 && Sized(g, d) && g.Within(pos) + i < g.bs
    ensures BlockBytes(g, d, n, g.Logical(pos))[g.Within(pos) + i] == ByteAt(g, d, n, pos + i)
  {
    StaysInBlock(g, pos, pos + i);
    SameBlock(g, pos, pos + i);
    BlockBytesAt(g, d, n, pos + i);
  }

  /**
   * read_inode_data: as much of [offset, offset + len) as lies below the size. The end is computed in 32 bits: if it
   * wraps around, the size is no limit. The number of bytes is returned as a signed word.
   */
  method ReadData(fs: Volume, n: Inode, len: nat, offset: nat) returns (rc: int, out: seq<byte>)
    requires fs.Valid() && offset < TWO32 && len < TWO32
    modifies fs`lost
    ensures fs.Valid() && fs.lost >= old(fs.lost)
    ensures rc >= 0 ==> rc == |out| == ReadLength(SizeOf(n), len, offset)
    ensures rc >= 0 && fs.lost == old(fs.lost) ==> Reads(fs.g, fs.disk, n, offset, out)
    ensures rc < 0 ==> fs.lost > old(fs.lost) || ReadLength(SizeOf(n), len, offset) >= TWO31
  {
    hide Volume.Logged, Volume.Tracked;
    hide Geometry.Valid, Geometry.Sizes, Geometry.Logical, Geometry.Within, BlockCounts, InodeCounts, Sum, SizeOf, Phys,
         ByteAt, Pos;
    ValidSizes(fs.g);
    PositiveBs(fs.g);
    var g := fs.g;
    out := [];
    if offset >= SizeOf(n) {
      return 0, [];
    }
    var toRead := if (offset + len) % TWO32 > SizeOf(n) then SizeOf(n) - offset else len;
    SizeBound(n);
    ReadLengthIs(SizeOf(n), len, offset);
    while |out| < toRead
      invariant fs.Valid() && |out| <= toRead && fs.lost >= old(fs.lost)
      invariant fs.lost == old(fs.lost) ==> Reads(g, fs.disk, n, offset, out)
      decreases toRead - |out|
    {
      var pos := Pos(offset, |out|);
      var take := g.bs - g.Within(pos);
      if take > toRead - |out| {
        take := toRead - |out|;
      }
      var phys := BlockPhys(fs, n, g.Logical(pos));
      var blk := Zeros(g.bs);
      if phys != 0 {
        rc, blk := fs.ReadBlock(phys);
        if rc != 0 {
          return -EIO, [];
        }
      }
      if fs.lost == old(fs.lost) {
        assert blk == BlockBytes(g, fs.disk, n, g.Logical(pos));
        ReadsMore(g, fs.disk, n, offset, out, take);
      }
      out := out + blk[g.Within(pos)..g.Within(pos) + take];
    }
    rc := if |out| < TWO31 then |out| else |out| - TWO32;
  }

  lemma SizeBound(n: Inode)
    ensures SizeOf(n) < TWO32
  {
  }

  /** How many bytes are read: those below the size, unless the end wraps around. */
  function ReadLength(size: nat, len: nat, offset: nat): nat {
    if offset >= size then 0 else if offset + len < TWO32 then Min(len, size - offset) else len
  }

  lemma ReadLengthIs(size: nat, len: nat, offset: nat)
    requires offset < size < TWO32 && len < TWO32
    ensures ReadLength(size, len, offset) == if (offset + len) % TWO32 > size then size - offset else len
  {
  }

  /** A read from inside the file stays inside if and only if its end does not wrap around. */
  lemma StaysInside(size: nat, len: nat, offset: nat)
    requires offset < size < TWO32 && len < TWO32
    ensures offset + ReadLength(size, len, offset) <= size <==> offset + len < TWO32
  {
  }

  lemma PositiveBs(g: Geometry)
    requires g.Sizes()
    ensures g.bs > 0
  {
  }

  /** ext2_read_inode: the file as Content describes it. */
  method ReadFile(fs: Volume, ino: nat, len: nat, offset: nat) returns (rc: int, out: seq<byte>)
    requires fs.Valid() && offset < TWO32 && len < TWO32
    modifies fs`lost
    ensures fs.Valid() && fs.lost >= old(fs.lost)
    ensures rc >= 0 ==> fs.g.ValidIno(ino) && IsRegular(InodeAt(fs.g, fs.disk, ino))
    ensures rc >= 0 ==> rc == |out| == ReadLength(SizeOf(InodeAt(fs.g, fs.disk, ino)), len, offset)
    ensures rc >= 0 && fs.lost == old(fs.lost) ==>
              forall i :: 0 <= i < |out| ==> out[i] == Content(fs.g, fs.disk, ino, Pos(offset, i))
    ensures !fs.g.ValidIno(ino) ==> rc == -EIO
    ensures fs.lost == old(fs.lost) && fs.g.ValidIno(ino) && !IsRegular(InodeAt(fs.g, fs.disk, ino)) ==> rc == -EISDIR
    ensures rc < 0 && fs.lost == old(fs.lost) ==>
              || !fs.g.ValidIno(ino) || !IsRegular(InodeAt(fs.g, fs.disk, ino))
              || ReadLength(SizeOf(InodeAt(fs.g, fs.disk, ino)), len, offset) >= TWO31
  {
    hide Volume.Logged, Volume.Tracked;
    hide Geometry.Valid, Geometry.Sizes, Geometry.ValidIno, BlockCounts, InodeCounts, Sum, SizeOf, ModeOf, ByteAt,
         InodeAt;
    ValidSizes(fs.g);
    var n;
    rc, n := fs.ReadInode(ino);
    if rc != 0 {
      return -EIO, [];
    }
    if !IsRegular(n) {
      return -EISDIR, [];
    }
    rc, out := ReadData(fs, n, len, offset);
  }

  lemma WrittenSize(g: Geometry, d: Disk, e: Disk, ino: nat, offset: nat, src: seq<byte>, now: nat)
    requires FileWritten(g, d, e, ino, offset, src, now)
    ensures SizeOf(InodeAt(g, e, ino)) >= offset + |src|
  {
    hide Written, InodeAt, SameAttributes, Charged, Filled;
  }

  /** Reading back right after a write that succeeded. */
  method WriteThenRead(fs: Volume, ino: nat, src: seq<byte>, offset: nat, now: nat) returns (rc: int, out: seq<byte>)
    requires fs.Valid() && Owned(fs.g, fs.disk) && now < TWO32 && offset + |src| < TWO32
    modifies fs
    ensures rc > 0 && fs.lost == old(fs.lost) ==> out == src
  {
    hide Volume.Logged, Volume.Tracked;
    hide Geometry.Valid, Geometry.Sizes, Geometry.ValidIno, BlockCounts, InodeCounts, Sum, SizeOf, ModeOf, InodeAt,
         Content, Owned, RecordedAs;
    rc := WriteFile(fs, ino, src, offset, now);
    out := [];
    if rc > 0 {
      WrittenSize(fs.g, old(fs.disk), fs.disk, ino, offset, src, now);
      rc, out := ReadFile(fs, ino, |src|, offset);
      if rc > 0 && fs.lost == old(fs.lost) {
        forall i | 0 <= i < |out|
          ensures out[i] == src[i]
        {
          assert out[i] == Content(fs.g, fs.disk, ino, Pos(offset, i)) && Pos(offset, i) == offset + i;
        }
      }
    }
  }
}
