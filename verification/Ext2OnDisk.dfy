/**
 * Where things are on the disk, in the numbers of the format (src/kernel/fs/ext2_ondisk.h:20-102) and without the
 * functions that the operations compute with: bytes of words, bits of bitmaps, blocks of groups, records of directories.
 */
module Ext2OnDisk {
  import opened Options
  import opened Words
  import opened Ext2Bitmap
  import opened Ext2Layout
  import opened Ext2Inode
  import opened Ext2Stat
  import opened Ext2Owner
  import opened Ext2File
  import opened Ext2FileOps
  import opened Ext2Alloc
  import opened Ext2Dir

  /** Words are little-endian. */
  lemma LittleEndian(s: seq<byte>, off: nat)
    requires off + 4 <= |s|
    ensures GetU32(s, off)
              == s[off] as int + 0x100 * (s[off + 1] as int) + 0x1_0000 * (s[off + 2] as int)
                 + 0x100_0000 * (s[off + 3] as int)
  {
  }

  /** Bit k of a bitmap byte is the one that 1 shifted by k has. */
  lemma MaskIsShift(k: nat)
    requires k < 8
    ensures Mask(k) == (1 as bv8) << k
  {
    if k == 0 {
    } else if k == 1 {
    } else if k == 2 {
    } else if k == 3 {
    } else if k == 4 {
    } else if k == 5 {
    } else if k == 6 {
    } else {
    }
  }

  /** Bit 8 * i + j of a bitmap is bit j of byte i. */
  lemma BitPlace(bm: seq<byte>, i: nat, j: nat, m: byte)
    requires i < |bm| && j < 8 && m == (1 as bv8) << j
    ensures TestBit(bm, 8 * i + j) <==> bm[i] & m != 0
    ensures SetBit(bm, 8 * i + j) == bm[i := bm[i] | m]
  {
    MaskIsShift(j);
    BytePlace(bm, i, j);
    hide TestBit, SetBit, Mask;
  }

  lemma BytePlace(bm: seq<byte>, i: nat, j: nat)
    requires i < |bm| && j < 8
    ensures TestBit(bm, 8 * i + j) <==> Has(bm[i], j)
    ensures SetBit(bm, 8 * i + j) == bm[i := With(bm[i], j)]
  {
    hide Has, With;
    DivMod(i, j, 8);
  }

  /** A block number, a group and a bit: one follows from the other two numbers and back. */
  lemma BlockPlace(g: Geometry, blk: nat)
    requires g.bpg > 0 && g.InRange(blk)
    ensures blk == g.firstData + g.GroupOf(blk) * g.bpg + g.BitOf(blk) && g.BitOf(blk) < g.bpg
  {
  }

  /** Inodes are numbered from 1, group after group. */
  lemma InodeNumber(g: Geometry, ino: nat)
    requires g.ipg > 0 && g.ValidIno(ino)
    ensures ino == g.InoGroup(ino) * g.ipg + g.InoIndex(ino) + 1 && g.InoIndex(ino) < g.ipg
  {
  }

  /** Within their table they follow each other, each inodeSize bytes long. */
  lemma InodePlace(g: Geometry, d: Disk, ino: nat)
    requires g.Sizes() && Sized(g, d) && g.ValidIno(ino)
    ensures var blk, off := g.InodeBlock(ino) - g.groups[g.InoGroup(ino)].inodeTable, g.InodeOffset(ino);
            && blk * g.bs + off == g.InoIndex(ino) * g.inodeSize && off + 128 <= g.bs
            && InodeAt(g, d, ino) == d[g.InodeBlock(ino)][off..off + 128]
  {
    InodeInTable(g, ino);
  }

  /** Storing an inode changes its 128 bytes and nothing else. */
  lemma PutInodeBytes(g: Geometry, d: Disk, ino: nat, n: Inode, b: nat, k: nat)
    requires g.Sizes() && Sized(g, d) && g.ValidIno(ino) && k < g.bs
    requires b != g.InodeBlock(ino) || k < g.InodeOffset(ino) || g.InodeOffset(ino) + 128 <= k
    ensures PutInode(g, d, ino, n)[b][k] == d[b][k]
  {
    InodeInTable(g, ino);
  }

  /** The inode that a creation takes for bit b of group gr has that bit. */
  lemma CreatedNumber(g: Geometry, gr: nat, bit: nat)
    requires g.ipg > 0 && bit < g.ipg && g.ValidIno(InoAt(g, gr, bit))
    ensures g.InoGroup(InoAt(g, gr, bit)) == gr && g.InoIndex(InoAt(g, gr, bit)) == bit
  {
    DivMod(gr, bit, g.ipg);
  }

  /** The superblock is the block with byte 1024; the descriptors, 32 bytes each, start with the block after it. */
  lemma SuperPlace(g: Geometry, gr: nat)
    requires g.Sizes() && gr < |g.groups|
    ensures g.SuperBlock() * g.bs <= 1024 < (g.SuperBlock() + 1) * g.bs
    ensures g.DescBlock() == g.SuperBlock() + 1
    ensures g.DescOf(gr) * g.bs <= 32 * gr && 32 * (gr + 1) <= (g.DescOf(gr) + 1) * g.bs
  {
    var k := g.bs / 32;
    assert g.bs == 32 * k;
    DescBlockOf(gr, k);
    DescFits(gr, k);
  }

  lemma DescBlockOf(gr: nat, k: nat)
    requires k > 0
    ensures gr * 32 / (32 * k) == gr / k
  {
    var q, r := gr / k, gr % k;
    assert gr == q * k + r;
    assert gr * 32 == q * (32 * k) + 32 * r;
    DivMod(q, 32 * r, 32 * k);
  }

  lemma DescFits(gr: nat, k: nat)
    requires k > 0
    ensures gr / k * (32 * k) <= 32 * gr && 32 * (gr + 1) <= (gr / k + 1) * (32 * k)
  {
    var q, r := gr / k, gr % k;
    assert gr == q * k + r;
    assert q * (32 * k) == 32 * (q * k);
    assert (q + 1) * (32 * k) == 32 * (q * k) + 32 * k;
  }

  // ----- The blocks of a file -----

  /** Which block of the file a path leads to: twelve direct ones, those of the indirect block, the double indirect ones. */
  function Rank(per: nat, p: Path): nat
    requires p.Valid(per) && !p.Pointers()
  {
    match p
    case Direct(i) => i
    case IndEntry(j) => 12 + j
    case MidEntry(j, k) => 12 + per + j * per + k
  }

  lemma RankIs(per: nat, l: nat)
    ensures BlockPath(per, l).Some? <==> l < 12 + per + per * per
    ensures BlockPath(per, l).Some? ==> Rank(per, BlockPath(per, l).value) == l
  {
    if l >= 12 + per && l < 12 + per + per * per {
      var m := l - 12 - per;
      assert m == m / per * per + m % per;
    }
  }

  /** The physical block of block l, from the words of the inode and of the indirect blocks. */
  lemma PhysWords(g: Geometry, d: Disk, n: Inode, l: nat)
    requires g.Sizes() && Sized(g, d)
    ensures l < 12 ==> Phys(g, d, n, l) == GetU32(n, 40 + 4 * l)
    ensures 12 <= l < 12 + g.bs / 4 ==>
              Phys(g, d, n, l) == if GetU32(n, 88) == 0 then 0 else GetU32(d[GetU32(n, 88)], 4 * (l - 12))
  {
  }

  lemma DoublePath(per: nat, j: nat, k: nat)
    requires j < per && k < per
    ensures BlockPath(per, 12 + per + per * j + k) == Some(MidEntry(j, k))
  {
    DivMod(j, k, per);
    MulBelow(j, per, per);
  }

  lemma DoubleWords(g: Geometry, d: Disk, n: Inode, j: nat, k: nat)
    requires g.Sizes() && Sized(g, d) && j < g.bs / 4 && k < g.bs / 4
    ensures var mid := if GetU32(n, 92) == 0 then 0 else GetU32(d[GetU32(n, 92)], 4 * j);
            Phys(g, d, n, 12 + g.bs / 4 + g.bs / 4 * j + k) == if mid == 0 then 0 else GetU32(d[mid], 4 * k)
  {
    hide GetU32, BlockPath;
    DoublePath(g.bs / 4, j, k);
  }

  // ----- Kinds of files, records of directories -----

  /** A new inode is of the kind that the top four bits of its mode say. */
  lemma NewKind(n: Inode, mode: nat, now: nat)
    requires Blank(n, mode, now)
    ensures IsRegular(n) <==> 0x8000 <= mode < 0x9000
    ensures IsDirectory(n) <==> 0x4000 <= mode < 0x5000
  {
  }

  /** A record: inode, length, name length, type and name, from byte off on; every other byte stays. */
  lemma RecordBytes(b: seq<byte>, off: nat, len: nat, e: Entry)
    requires ValidName(e.name) && e.ino < TWO32 && len < TWO16 && off + 8 + |e.name| <= |b|
    ensures var c := PutRecord(b, off, len, e);
            && GetU32(c, off) == e.ino && GetU16(c, off + 4) == len && c[off + 6] as int == |e.name| && c[off + 7] == e.ftype
            && c[off + 8..off + 8 + |e.name|] == e.name
            && forall i :: 0 <= i < |b| && !(off <= i < off + 8 + |e.name|) ==> c[i] == b[i]
  {
    hide GetU32, GetU16;
    PutRecordReads(b, off, len, e);
  }
}
