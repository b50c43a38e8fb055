/**
 * Where things are on an ext2 disk (src/kernel/fs/ext2.c, src/kernel/fs/ext2_ondisk.h): block groups,
 * inodes, and the direct, indirect and double-indirect block pointers.
 */
module Ext2Layout {
  import opened Words

  const NDIR: nat := 12
  const IND: nat := 12
  const DIND: nat := 13
  const INODE_BYTES: nat := 128

  /** Every block by its number. */
  type Disk = imap<nat, seq<byte>>

  datatype Group = Group(blockBitmap: nat, inodeBitmap: nat, inodeTable: nat)

  /** The geometry fixed at mount time. */
  datatype Geometry = Geometry(
    bs: nat, inodeSize: nat, bpg: nat, ipg: nat, firstData: nat, inodes: nat, firstIno: nat,
    groups: seq<Group>, system: set<nat>)   // system: superblock, group descriptors, journal
  {
    function TableLen(): nat
      requires bs > 0
    {
      (ipg * inodeSize + bs - 1) / bs
    }

    /** Block numbers are 32-bit: every block of every group can be named. */
    ghost predicate Sizes() {
      && (bs == 1024 || bs == 2048 || bs == 4096)
      && INODE_BYTES <= inodeSize <= bs && bs % inodeSize == 0
      && 0 < bpg <= 8 * bs && 0 < ipg <= 8 * bs
      && firstData + |groups| * bpg < TWO32
    }

    /** The metadata areas do not overlap. */
    ghost predicate Disjoint()
      requires bs > 0
    {
      && (forall a, b :: 0 <= a < |groups| && 0 <= b < |groups| ==>
            && (a != b ==> groups[a].blockBitmap != groups[b].blockBitmap)
            && (a != b ==> groups[a].inodeBitmap != groups[b].inodeBitmap)
            && groups[a].blockBitmap != groups[b].inodeBitmap)
      && (forall a :: 0 <= a < |groups| ==>
            groups[a].blockBitmap !in system && groups[a].inodeBitmap !in system)
      && (forall a, b, blk :: 0 <= a < |groups| && 0 <= b < |groups| && InTable(b, blk) ==>
            && blk != groups[a].blockBitmap && blk != groups[a].inodeBitmap && blk !in system
            && (a != b ==> !InTable(a, blk)))
    }

    ghost predicate InTable(gr: nat, blk: nat)
      requires bs > 0 && gr < |groups|
    {
      groups[gr].inodeTable <= blk < groups[gr].inodeTable + TableLen()
    }

    /** The block with the superblock, and the blocks with the group descriptors. */
    function SuperBlock(): nat {
      if bs == 1024 then 1 else 0
    }

    function DescBlock(): nat {
      if bs == 1024 then 2 else 1
    }

    /** The descriptor block, counted from the first, that holds the descriptor of group gr. */
    function DescOf(gr: nat): nat
      requires bs > 0
    {
      gr * 32 / bs
    }

    function DescBlocks(): nat
      requires bs > 0
    {
      (|groups| * 32 + bs - 1) / bs
    }

    /** Block 0, which a pointer cannot name, is never a data block. */
    ghost predicate Valid() {
      && Sizes() && Disjoint() && (firstData > 0 || 0 in system)
      && SuperBlock() in system && forall b :: DescBlock() <= b < DescBlock() + DescBlocks() ==> b in system
    }

    /** A block that belongs to the file system itself. */
    ghost predicate Reserved(blk: nat)
      requires bs > 0
    {
      || blk in system
      || exists gr :: 0 <= gr < |groups| && (blk == groups[gr].blockBitmap || blk == groups[gr].inodeBitmap || InTable(gr, blk))
    }

    /** A block that the bitmaps speak of. */
    predicate InRange(blk: nat)
      requires bpg > 0
    {
      firstData <= blk && (blk - firstData) / bpg < |groups|
    }

    function GroupOf(blk: nat): (gr: nat)
      requires bpg > 0 && InRange(blk)
      ensures gr < |groups|
    {
      (blk - firstData) / bpg
    }

    function BitOf(blk: nat): (bit: nat)
      requires bpg > 0 && InRange(blk)
      ensures bit < bpg
    {
      (blk - firstData) % bpg
    }

    /** The block of a bit; the inverse of GroupOf and BitOf. */
    function BlockAt(gr: nat, bit: nat): nat {
      firstData + gr * bpg + bit
    }

    predicate ValidIno(ino: nat)
      requires ipg > 0
    {
      0 < ino <= inodes && (ino - 1) / ipg < |groups|
    }

    function InoGroup(ino: nat): (gr: nat)
      requires ipg > 0 && ValidIno(ino)
      ensures gr < |groups|
    {
      (ino - 1) / ipg
    }

    function InoIndex(ino: nat): (i: nat)
      requires ipg > 0 && ValidIno(ino)
      ensures i < ipg
    {
      (ino - 1) % ipg
    }

    function InodeBlock(ino: nat): nat
      requires ipg > 0 && bs > 0 && ValidIno(ino)
    {
      assert InoIndex(ino) * inodeSize >= 0;
      groups[InoGroup(ino)].inodeTable + (InoIndex(ino) * inodeSize) / bs
    }

    function InodeOffset(ino: nat): nat
      requires ipg > 0 && bs > 0 && ValidIno(ino)
    {
      assert InoIndex(ino) * inodeSize >= 0;
      (InoIndex(ino) * inodeSize) % bs
    }

    /** The logical block of a position in a file, and the place within that block. */
    function Logical(pos: nat): nat
      requires bs > 0
    {
      pos / bs
    }

    function Within(pos: nat): (off: nat)
      requires bs > 0
      ensures off < bs
    {
      pos % bs
    }

    /** The position at which a logical block starts. */
    function Start(l: nat): nat {
      l * bs
    }

    /** Pointers per block. */
    function PerBlock(): nat {
      bs / 4
    }
  }

  lemma BlockAtInverse(g: Geometry, gr: nat, bit: nat)
    requires g.bpg > 0 && gr < |g.groups| && bit < g.bpg
    ensures g.InRange(g.BlockAt(gr, bit)) && g.GroupOf(g.BlockAt(gr, bit)) == gr && g.BitOf(g.BlockAt(gr, bit)) == bit
  {
    DivMod(gr, bit, g.bpg);
  }

  lemma BlockOfBit(g: Geometry, blk: nat)
    requires g.bpg > 0 && g.InRange(blk)
    ensures g.BlockAt(g.GroupOf(blk), g.BitOf(blk)) == blk
  {
    var n := blk - g.firstData;
    assert n == n / g.bpg * g.bpg + n % g.bpg;
  }

  lemma DivMod(q: nat, r: nat, d: nat)
    requires r < d
    ensures (q * d + r) / d == q && (q * d + r) % d == r
  {
    var n := q * d + r;
    var a := n / d;
    assert n == a * d + n % d;
    if a < q {
      MulBelow(a, q, d);
      assert false;
    } else if q < a {
      MulBelow(q, a, d);
      assert false;
    }
  }

  /** The place of inode number index within its table. */
  lemma {:induction false} InodePlace(bs: nat, size: nat, index: nat)
    requires 0 < size <= bs && bs % size == 0
    ensures var per := bs / size;
            && per > 0 && (index * size) / bs == index / per && (index * size) % bs == index % per * size
            && index % per * size + size <= bs
  {
    var per := bs / size;
    DivExact(bs, size);
    var q, r := index / per, index % per;
    DivBack(index, per);
    Place(bs, size, per, q, r, index);
  }

  lemma DivBack(n: nat, d: nat)
    requires d > 0
    ensures n / d * d + n % d == n && n % d < d
  {
  }

  lemma Place(bs: nat, size: nat, per: nat, q: nat, r: nat, index: nat)
    requires per * size == bs && r < per && size > 0 && bs > 0 && index == q * per + r
    ensures (index * size) / bs == q && (index * size) % bs == r * size && r * size + size <= bs
  {
    Regroup(q, per, r, size);
    MulBelow(r, per, size);
    DivMod(q, r * size, bs);
  }

  lemma DivExact(bs: nat, size: nat)
    requires 0 < size <= bs && bs % size == 0
    ensures bs / size > 0 && bs / size * size == bs
  {
  }

  lemma Regroup(q: nat, per: nat, r: nat, size: nat)
    ensures (q * per + r) * size == q * (per * size) + r * size
  {
    assert (q * per) * size == q * (per * size);
  }

  /** An inode lies within one block of its group's table. */
  lemma InodeInTable(g: Geometry, ino: nat)
    requires g.Sizes() && g.ValidIno(ino)
    ensures g.InodeOffset(ino) + g.inodeSize <= g.bs
    ensures g.InTable(g.InoGroup(ino), g.InodeBlock(ino))
  {
    hide Geometry.InoIndex, Geometry.InoGroup;
    var index := g.InoIndex(ino);
    InodePlace(g.bs, g.inodeSize, index);
    MulBelow(index, g.ipg, g.inodeSize);
    CeilingAbove(index * g.inodeSize, g.ipg * g.inodeSize, g.bs);
  }

  lemma CeilingAbove(off: nat, all: nat, d: nat)
    requires off < all && d > 0
    ensures off / d < (all + d - 1) / d
  {
    var q, c := off / d, (all + d - 1) / d;
    assert q * d <= off;
    assert c * d + d > all + d - 1;
    if c < q {
      MulBelow(c, q, d);
    }
  }

  /** Slots of equal size in one block do not overlap. */
  lemma SlotsApart(ra: nat, rb: nat, size: nat)
    requires ra != rb
    ensures ra * size + size <= rb * size || rb * size + size <= ra * size
  {
    if ra < rb {
      MulBelow(ra, rb, size);
    } else {
      MulBelow(rb, ra, size);
    }
  }

  lemma SameGroupApart(g: Geometry, ia: nat, ib: nat)
    requires g.Sizes() && ia != ib
    requires (ia * g.inodeSize) / g.bs == (ib * g.inodeSize) / g.bs
    ensures var oa, ob := (ia * g.inodeSize) % g.bs, (ib * g.inodeSize) % g.bs;
            oa + g.inodeSize <= ob || ob + g.inodeSize <= oa
  {
    InodePlace(g.bs, g.inodeSize, ia);
    InodePlace(g.bs, g.inodeSize, ib);
    var per := g.bs / g.inodeSize;
    hide Geometry.Sizes;
    RemaindersDiffer(ia, ib, per);
    SlotsApart(ia % per, ib % per, g.inodeSize);
  }

  lemma RemaindersDiffer(a: nat, b: nat, m: nat)
    requires m > 0 && a != b && a / m == b / m
    ensures a % m != b % m
  {
    assert a == a / m * m + a % m && b == b / m * m + b % m;
  }

  lemma SameTable(g: Geometry, a: nat, b: nat, blk: nat)
    requires g.Valid() && a < |g.groups| && b < |g.groups| && g.InTable(a, blk) && g.InTable(b, blk)
    ensures a == b
  {
  }

  lemma SameBlockApart(g: Geometry, a: nat, b: nat)
    requires g.Sizes() && g.ValidIno(a) && g.ValidIno(b) && a != b
    requires g.InoGroup(a) == g.InoGroup(b) && g.InodeBlock(a) == g.InodeBlock(b)
    ensures g.InodeOffset(a) + g.inodeSize <= g.InodeOffset(b) || g.InodeOffset(b) + g.inodeSize <= g.InodeOffset(a)
  {
    IndexApart(g, a, b);
    hide Geometry.InoIndex, Geometry.InoGroup;
    SameGroupApart(g, g.InoIndex(a), g.InoIndex(b));
  }

  lemma IndexApart(g: Geometry, a: nat, b: nat)
    requires g.ipg > 0 && g.ValidIno(a) && g.ValidIno(b) && a != b && g.InoGroup(a) == g.InoGroup(b)
    ensures g.InoIndex(a) != g.InoIndex(b)
  {
    var q := g.InoGroup(a);
    assert a - 1 == q * g.ipg + g.InoIndex(a) && b - 1 == q * g.ipg + g.InoIndex(b);
  }

  /** Different inodes never share a byte. */
  lemma InodesApart(g: Geometry, a: nat, b: nat)
    requires g.Valid() && g.ValidIno(a) && g.ValidIno(b) && a != b
    ensures g.InodeBlock(a) != g.InodeBlock(b)
         || g.InodeOffset(a) + g.inodeSize <= g.InodeOffset(b) || g.InodeOffset(b) + g.inodeSize <= g.InodeOffset(a)
  {
    hide Geometry.InodeBlock, Geometry.InodeOffset, Geometry.InTable, Geometry.Disjoint, Geometry.InoGroup;
    if g.InodeBlock(a) == g.InodeBlock(b) {
      InodeInTable(g, a);
      InodeInTable(g, b);
      SameTable(g, g.InoGroup(a), g.InoGroup(b), g.InodeBlock(a));
      SameBlockApart(g, a, b);
    }
  }

  lemma ValidSizes(g: Geometry)
    requires g.Valid()
    ensures g.Sizes()
  {
  }

  ghost predicate Sized(g: Geometry, d: Disk) {
    forall b: nat :: b in d && |d[b]| == g.bs
  }
}
