/**
 * Which blocks an inode refers to, and the rule that keeps files apart: every referenced block is marked
 * used in its bitmap, belongs to no metadata area, and has one owner (src/kernel/fs/ext2.c).
 */
module Ext2Owner {
  import opened Words
  import opened Ext2Bitmap
  import opened Ext2Layout
  import opened Ext2Inode

  /** A place that holds a block number, seen from an inode. */
  datatype Path =
    | Direct(i: nat)              // i_block[i]
    | Ind                         // i_block[EXT2_IND_BLOCK]
    | IndEntry(j: nat)            // word j of the indirect block
    | Dind                        // i_block[EXT2_DIND_BLOCK]
    | Mid(j: nat)                 // word j of the double-indirect block
    | MidEntry(j: nat, k: nat)    // word k of the block that Mid(j) names
  {
    predicate Valid(per: nat) {
      match this
      case Direct(i) => i < NDIR
      case Ind | Dind => true
      case IndEntry(j) => j < per
      case Mid(j) => j < per
      case MidEntry(j, k) => j < per && k < per
    }

    /** The block named there holds block numbers itself. */
    predicate Pointers() {
      Ind? || Dind? || Mid?
    }
  }

  function Entry(g: Geometry, d: Disk, blk: nat, j: nat): (b: nat)
    requires Sized(g, d) && j < g.PerBlock()
    ensures b < TWO32
  {
    if blk == 0 then 0 else GetU32(d[blk], 4 * j)
  }

  /** The block number at a path; 0 where there is none. */
  function Ptr(g: Geometry, d: Disk, n: Inode, p: Path): (b: nat)
    requires Sized(g, d) && p.Valid(g.PerBlock())
    ensures b < TWO32
  {
    match p
    case Direct(i) => PtrOf(n, i)
    case Ind => PtrOf(n, IND)
    case IndEntry(j) => Entry(g, d, PtrOf(n, IND), j)
    case Dind => PtrOf(n, DIND)
    case Mid(j) => Entry(g, d, PtrOf(n, DIND), j)
    case MidEntry(j, k) => Entry(g, d, Entry(g, d, PtrOf(n, DIND), j), k)
  }

  ghost predicate Refs(g: Geometry, d: Disk, ino: nat, p: Path, b: nat)
    requires g.Sizes() && Sized(g, d)
  {
    b != 0 && g.ValidIno(ino) && p.Valid(g.PerBlock()) && Ptr(g, d, InodeAt(g, d, ino), p) == b
  }

  ghost predicate Used(g: Geometry, d: Disk, b: nat)
    requires g.Sizes() && Sized(g, d) && g.InRange(b)
  {
    TestBit(d[g.groups[g.GroupOf(b)].blockBitmap], g.BitOf(b))
  }

  /** Every referenced block is a data block marked used. */
  ghost predicate Marked(g: Geometry, d: Disk)
    requires g.Sizes() && Sized(g, d)
  {
    forall ino, p, b :: Refs(g, d, ino, p, b) ==> g.InRange(b) && !g.Reserved(b) && Used(g, d, b)
  }

  /** No block is referenced from two places. */
  ghost predicate Single(g: Geometry, d: Disk)
    requires g.Sizes() && Sized(g, d)
  {
    forall ino, p, other, q, b :: Refs(g, d, ino, p, b) && Refs(g, d, other, q, b) ==> ino == other && p == q
  }

  /** The metadata areas are marked used. */
  ghost predicate MetaMarked(g: Geometry, d: Disk)
    requires g.Sizes() && Sized(g, d)
  {
    forall b :: g.InRange(b) && g.Reserved(b) ==> Used(g, d, b)
  }

  ghost predicate Owned(g: Geometry, d: Disk) {
    g.Valid() && Sized(g, d) && Marked(g, d) && Single(g, d) && MetaMarked(g, d)
  }

  lemma OwnedSizes(g: Geometry, d: Disk)
    requires Owned(g, d)
    ensures g.Valid() && g.Sizes() && Sized(g, d) && 0 < g.bs < TWO16
  {
  }

  ghost predicate Free(g: Geometry, d: Disk, b: nat)
    requires g.Sizes() && Sized(g, d)
  {
    forall ino, p :: !Refs(g, d, ino, p, b)
  }

  // ----- What a write to one block does to the references -----

  /** Every path through n avoids blk, except as a leaf. */
  ghost predicate Avoids(g: Geometry, d: Disk, n: Inode, blk: nat)
    requires Sized(g, d)
  {
    blk != 0 ==> forall q: Path :: q.Valid(g.PerBlock()) && q.Pointers() ==> Ptr(g, d, n, q) != blk
  }

  lemma PtrFrame(g: Geometry, d: Disk, blk: nat, x: seq<byte>, n: Inode, p: Path)
    requires Sized(g, d) && |x| == g.bs && p.Valid(g.PerBlock()) && Avoids(g, d, n, blk)
    ensures Ptr(g, d[blk := x], n, p) == Ptr(g, d, n, p)
  {
    match p
    case IndEntry(j) => assert blk != 0 ==> Ptr(g, d, n, Ind) != blk;
    case Mid(j) => assert blk != 0 ==> Ptr(g, d, n, Dind) != blk;
    case MidEntry(j, k) =>
      assert blk != 0 ==> Ptr(g, d, n, Dind) != blk;
      assert blk != 0 ==> Ptr(g, d, n, Mid(j)) != blk;
    case _ =>
  }

  /** Nothing reads its pointers in blk. */
  ghost predicate Quiet(g: Geometry, d: Disk, blk: nat)
    requires g.Sizes() && Sized(g, d)
  {
    && (forall gr :: 0 <= gr < |g.groups| ==> !g.InTable(gr, blk))
    && forall ino, q: Path :: q.Pointers() ==> !Refs(g, d, ino, q, blk)
  }

  lemma QuietAvoids(g: Geometry, d: Disk, blk: nat, ino: nat)
    requires g.Sizes() && Sized(g, d) && g.ValidIno(ino)
    requires forall q: Path :: q.Pointers() ==> !Refs(g, d, ino, q, blk)
    ensures Avoids(g, d, InodeAt(g, d, ino), blk)
  {
    hide Ptr, InodeAt;
    forall q: Path | blk != 0 && q.Valid(g.PerBlock()) && q.Pointers()
      ensures Ptr(g, d, InodeAt(g, d, ino), q) != blk
    {
      assert !Refs(g, d, ino, q, blk);
    }
  }

  lemma QuietInode(g: Geometry, d: Disk, blk: nat, x: seq<byte>, ino: nat)
    requires g.Sizes() && Sized(g, d) && |x| == g.bs && g.ValidIno(ino)
    requires forall gr :: 0 <= gr < |g.groups| ==> !g.InTable(gr, blk)
    ensures InodeAt(g, d[blk := x], ino) == InodeAt(g, d, ino)
  {
    InodeInTable(g, ino);
    hide Geometry.InodeBlock, Geometry.InodeOffset, Geometry.InTable, Geometry.InoGroup;
    assert !g.InTable(g.InoGroup(ino), blk);
  }

  lemma QuietWrite1(g: Geometry, d: Disk, blk: nat, x: seq<byte>, ino: nat, p: Path, b: nat)
    requires g.Sizes() && Sized(g, d) && |x| == g.bs && Quiet(g, d, blk)
    ensures Refs(g, d[blk := x], ino, p, b) <==> Refs(g, d, ino, p, b)
  {
    if g.ValidIno(ino) && p.Valid(g.PerBlock()) {
      QuietInode(g, d, blk, x, ino);
      QuietAvoids(g, d, blk, ino);
      hide Ptr, InodeAt, Avoids;
      PtrFrame(g, d, blk, x, InodeAt(g, d, ino), p);
    }
  }

  /** Writing a block that holds no pointers changes no reference. */
  lemma QuietWrite(g: Geometry, d: Disk, blk: nat, x: seq<byte>)
    requires g.Sizes() && Sized(g, d) && |x| == g.bs && Quiet(g, d, blk)
    ensures forall ino, p, b :: Refs(g, d[blk := x], ino, p, b) <==> Refs(g, d, ino, p, b)
  {
    hide Refs, Quiet;
    forall ino, p, b
      ensures Refs(g, d[blk := x], ino, p, b) <==> Refs(g, d, ino, p, b)
    {
      QuietWrite1(g, d, blk, x, ino, p, b);
    }
  }

  ghost predicate IsBitmap(g: Geometry, blk: nat) {
    exists gr :: 0 <= gr < |g.groups| && g.groups[gr].blockBitmap == blk
  }

  lemma UsedFrame(g: Geometry, d: Disk, blk: nat, x: seq<byte>, b: nat)
    requires g.Sizes() && Sized(g, d) && |x| == g.bs && g.InRange(b) && !IsBitmap(g, blk)
    ensures Used(g, d[blk := x], b) <==> Used(g, d, b)
  {
    hide TestBit, Geometry.GroupOf, Geometry.BitOf;
  }

  /** The same references and no bit cleared: the rule is kept. */
  lemma SameRefs(g: Geometry, d: Disk, e: Disk)
    requires Owned(g, d) && Sized(g, e)
    requires forall ino, p, b :: Refs(g, e, ino, p, b) ==> Refs(g, d, ino, p, b)
    requires forall b :: g.InRange(b) && Used(g, d, b) ==> Used(g, e, b)
    ensures Owned(g, e)
  {
    hide Refs, Used, Geometry.Reserved, Geometry.Disjoint, Geometry.InRange;
  }

  /** A block that is neither metadata nor a pointer block. */
  ghost predicate DataBlock(g: Geometry, d: Disk, blk: nat)
    requires g.Sizes() && Sized(g, d)
  {
    !g.Reserved(blk) && forall ino, q: Path :: q.Pointers() ==> !Refs(g, d, ino, q, blk)
  }

  lemma DataWriteOwned(g: Geometry, d: Disk, blk: nat, x: seq<byte>)
    requires Owned(g, d) && |x| == g.bs && DataBlock(g, d, blk)
    ensures Owned(g, d[blk := x])
    ensures forall ino, p, b :: Refs(g, d[blk := x], ino, p, b) <==> Refs(g, d, ino, p, b)
    ensures forall b :: g.InRange(b) ==> (Used(g, d[blk := x], b) <==> Used(g, d, b))
  {
    hide Refs, Used, Geometry.InTable, Geometry.Disjoint, Geometry.InRange, Marked, Single, MetaMarked;
    assert !IsBitmap(g, blk);
    forall b | g.InRange(b)
      ensures Used(g, d[blk := x], b) <==> Used(g, d, b)
    {
      UsedFrame(g, d, blk, x, b);
    }
    QuietWrite(g, d, blk, x);
    SameRefs(g, d, d[blk := x]);
  }

  lemma ReservedQuiet(g: Geometry, d: Disk, blk: nat)
    requires g.Sizes() && Sized(g, d) && Marked(g, d) && g.Reserved(blk)
    requires forall gr :: 0 <= gr < |g.groups| ==> !g.InTable(gr, blk)
    ensures Quiet(g, d, blk)
  {
    hide Refs, Used, Geometry.Reserved, Geometry.InTable, Geometry.InRange;
  }

  /** Superblock, descriptors, inode bitmaps: no reference and no block bit is there. */
  lemma SystemWriteOwned(g: Geometry, d: Disk, blk: nat, x: seq<byte>)
    requires Owned(g, d) && |x| == g.bs
    requires blk in g.system || exists gr :: 0 <= gr < |g.groups| && blk == g.groups[gr].inodeBitmap
    ensures Owned(g, d[blk := x])
    ensures forall ino, p, b :: Refs(g, d[blk := x], ino, p, b) <==> Refs(g, d, ino, p, b)
    ensures forall b :: g.InRange(b) ==> (Used(g, d[blk := x], b) <==> Used(g, d, b))
  {
    hide Refs, Used, Geometry.InRange, Marked, Single, MetaMarked;
    assert !IsBitmap(g, blk);
    assert g.Reserved(blk);
    forall b | g.InRange(b)
      ensures Used(g, d[blk := x], b) <==> Used(g, d, b)
    {
      UsedFrame(g, d, blk, x, b);
    }
    ReservedQuiet(g, d, blk);
    QuietWrite(g, d, blk, x);
    SameRefs(g, d, d[blk := x]);
  }

  // ----- Bitmap changes -----

  function BitmapBlock(g: Geometry, b: nat): nat
    requires g.bpg > 0 && g.InRange(b)
  {
    g.groups[g.GroupOf(b)].blockBitmap
  }

  /** The disk with the bit of block b set, or cleared. */
  function Mark(g: Geometry, d: Disk, b: nat): (e: Disk)
    requires g.Sizes() && Sized(g, d) && g.InRange(b)
    ensures Sized(g, e)
  {
    d[BitmapBlock(g, b) := SetBit(d[BitmapBlock(g, b)], g.BitOf(b))]
  }

  function Unmark(g: Geometry, d: Disk, b: nat): (e: Disk)
    requires g.Sizes() && Sized(g, d) && g.InRange(b)
    ensures Sized(g, e)
  {
    d[BitmapBlock(g, b) := ClearBit(d[BitmapBlock(g, b)], g.BitOf(b))]
  }

  /** Blocks with the same bitmap and the same bit are the same block. */
  lemma SameBit(g: Geometry, a: nat, b: nat)
    requires g.bpg > 0 && g.InRange(a) && g.InRange(b) && g.GroupOf(a) == g.GroupOf(b) && g.BitOf(a) == g.BitOf(b)
    ensures a == b
  {
    BlockOfBit(g, a);
    BlockOfBit(g, b);
  }

  lemma MarkUsed(g: Geometry, d: Disk, b: nat, c: nat)
    requires g.Valid() && Sized(g, d) && g.InRange(b) && g.InRange(c)
    ensures Used(g, Mark(g, d, b), c) <==> c == b || Used(g, d, c)
    ensures Used(g, Unmark(g, d, b), c) <==> c != b && Used(g, d, c)
  {
    if g.GroupOf(b) == g.GroupOf(c) {
      SetBitTests(d[BitmapBlock(g, b)], g.BitOf(b), g.BitOf(c));
      ClearBitTests(d[BitmapBlock(g, b)], g.BitOf(b), g.BitOf(c));
      if g.BitOf(b) == g.BitOf(c) {
        SameBit(g, b, c);
      }
    }
    hide TestBit, SetBit, ClearBit, Geometry.GroupOf, Geometry.BitOf, Geometry.InTable;
  }

  lemma BitmapQuiet(g: Geometry, d: Disk, b: nat)
    requires Owned(g, d) && g.InRange(b)
    ensures Quiet(g, d, BitmapBlock(g, b))
  {
    hide Refs, Used, Geometry.GroupOf, Geometry.InRange, Marked, Single, MetaMarked;
    assert g.Reserved(BitmapBlock(g, b));
    ReservedQuiet(g, d, BitmapBlock(g, b));
  }

  lemma BitmapRefs(g: Geometry, d: Disk, b: nat, x: seq<byte>)
    requires Owned(g, d) && g.InRange(b) && |x| == g.bs
    ensures forall ino, p, c :: Refs(g, d[BitmapBlock(g, b) := x], ino, p, c) <==> Refs(g, d, ino, p, c)
  {
    hide Refs, Quiet, BitmapBlock, Marked, Single, MetaMarked;
    BitmapQuiet(g, d, b);
    QuietWrite(g, d, BitmapBlock(g, b), x);
  }

  /** Marking a block is always safe. */
  lemma MarkOwned(g: Geometry, d: Disk, b: nat)
    requires Owned(g, d) && g.InRange(b)
    ensures Owned(g, Mark(g, d, b))
    ensures forall ino, p, c :: Refs(g, Mark(g, d, b), ino, p, c) <==> Refs(g, d, ino, p, c)
    ensures forall c :: g.InRange(c) ==> (Used(g, Mark(g, d, b), c) <==> c == b || Used(g, d, c))
  {
    BitmapRefs(g, d, b, SetBit(d[BitmapBlock(g, b)], g.BitOf(b)));
    forall c | g.InRange(c)
      ensures Used(g, Mark(g, d, b), c) <==> c == b || Used(g, d, c)
    {
      MarkUsed(g, d, b, c);
    }
    hide Refs, Used, BitmapBlock, Marked, Single, MetaMarked, SetBit, Geometry.InRange, Geometry.BitOf,
         Geometry.Disjoint;
    SameRefs(g, d, Mark(g, d, b));
  }

  /** Clearing the bit of a data block that nothing refers to keeps the rule. */
  lemma UnmarkOwned(g: Geometry, d: Disk, b: nat)
    requires Owned(g, d) && g.InRange(b) && !g.Reserved(b) && Free(g, d, b)
    ensures Owned(g, Unmark(g, d, b))
    ensures forall ino, p, c :: Refs(g, Unmark(g, d, b), ino, p, c) <==> Refs(g, d, ino, p, c)
    ensures forall c :: g.InRange(c) ==> (Used(g, Unmark(g, d, b), c) <==> c != b && Used(g, d, c))
  {
    BitmapRefs(g, d, b, ClearBit(d[BitmapBlock(g, b)], g.BitOf(b)));
    forall c | g.InRange(c)
      ensures Used(g, Unmark(g, d, b), c) <==> c != b && Used(g, d, c)
    {
      MarkUsed(g, d, b, c);
    }
    hide Refs, Used, BitmapBlock, ClearBit, Geometry.InRange, Geometry.BitOf, Geometry.Disjoint, Geometry.Reserved,
         Unmark;
    hide Marked, Single, MetaMarked, Free;
    DropOwned(g, d, Unmark(g, d, b), b);
  }

  lemma DropOwned(g: Geometry, d: Disk, e: Disk, b: nat)
    requires Owned(g, d) && Sized(g, e) && g.InRange(b) && !g.Reserved(b) && Free(g, d, b)
    requires forall ino, p, c :: Refs(g, e, ino, p, c) <==> Refs(g, d, ino, p, c)
    requires forall c :: g.InRange(c) ==> (Used(g, e, c) <==> c != b && Used(g, d, c))
    ensures Owned(g, e)
  {
    hide Refs, Used, Geometry.InRange, Geometry.Disjoint, Geometry.Reserved;
  }

  /** A block whose bit is clear is nobody's, and no metadata. */
  lemma UnusedIsFree(g: Geometry, d: Disk, b: nat)
    requires Owned(g, d) && g.InRange(b) && !Used(g, d, b)
    ensures Free(g, d, b) && !g.Reserved(b)
  {
    hide Refs, Used, Geometry.Reserved, Geometry.InRange, Geometry.Disjoint;
  }

  // ----- Inode changes -----

  lemma TableAvoids(g: Geometry, d: Disk, ino: nat, other: nat)
    requires g.Sizes() && Sized(g, d) && Marked(g, d) && g.ValidIno(ino) && g.ValidIno(other)
    ensures Avoids(g, d, InodeAt(g, d, other), g.InodeBlock(ino))
  {
    InodeInTable(g, ino);
    hide Refs, Used, Geometry.InodeBlock, Geometry.InodeOffset, Geometry.InTable, Geometry.InRange, Geometry.ValidIno,
         Avoids;
    var blk := g.InodeBlock(ino);
    assert g.Reserved(blk);
    QuietAvoids(g, d, blk, other);
  }

  /** The pointers of another inode stay; those of this one are read from the new bytes. */
  lemma PutInodeRefs1(g: Geometry, d: Disk, ino: nat, n: Inode, other: nat, p: Path, b: nat)
    requires g.Valid() && Sized(g, d) && Marked(g, d) && g.ValidIno(ino)
    requires Avoids(g, d, n, g.InodeBlock(ino))
    ensures Refs(g, PutInode(g, d, ino, n), other, p, b) <==>
              if other == ino then b != 0 && p.Valid(g.PerBlock()) && Ptr(g, d, n, p) == b else Refs(g, d, other, p, b)
  {
    if g.ValidIno(other) && p.Valid(g.PerBlock()) {
      PutInodeReads(g, d, ino, n, other);
      TableAvoids(g, d, ino, other);
      PutInodePtr(g, d, ino, n, if other == ino then n else InodeAt(g, d, other), p);
      hide Ptr, InodeAt, PutInode, Geometry.InodeBlock, Marked;
    }
  }

  lemma PutInodePtr(g: Geometry, d: Disk, ino: nat, n: Inode, m: Inode, p: Path)
    requires g.Sizes() && Sized(g, d) && g.ValidIno(ino) && p.Valid(g.PerBlock())
    requires Avoids(g, d, m, g.InodeBlock(ino))
    ensures Ptr(g, PutInode(g, d, ino, n), m, p) == Ptr(g, d, m, p)
  {
    InodeInTable(g, ino);
    hide Ptr, Geometry.InodeBlock, Geometry.InodeOffset, Geometry.InTable, Geometry.InoGroup, Avoids;
    PtrFrame(g, d, g.InodeBlock(ino), Splice(d[g.InodeBlock(ino)], g.InodeOffset(ino), n), m, p);
  }

  /** New bytes whose indirect pointers are the old ones, or none. */
  ghost predicate KeepsIndirect(old_: Inode, n: Inode) {
    && (PtrOf(n, IND) == PtrOf(old_, IND) || PtrOf(n, IND) == 0)
    && (PtrOf(n, DIND) == PtrOf(old_, DIND) || PtrOf(n, DIND) == 0)
  }

  lemma KeepsIndirectAvoids(g: Geometry, d: Disk, old_: Inode, n: Inode, blk: nat)
    requires Sized(g, d) && KeepsIndirect(old_, n) && Avoids(g, d, old_, blk)
    ensures Avoids(g, d, n, blk)
  {
    if blk != 0 {
      forall q: Path | q.Valid(g.PerBlock()) && q.Pointers()
        ensures Ptr(g, d, n, q) != blk
      {
        assert Ptr(g, d, old_, q) != blk;
      }
    }
  }

  /** What is referenced once inode ino has new bytes. */
  ghost predicate Rewritten(g: Geometry, d: Disk, e: Disk, ino: nat, n: Inode)
    requires g.Sizes() && Sized(g, d) && Sized(g, e)
  {
    forall other, p, b :: Refs(g, e, other, p, b) <==>
      if other == ino then b != 0 && p.Valid(g.PerBlock()) && Ptr(g, d, n, p) == b else Refs(g, d, other, p, b)
  }

  lemma PutInodeRefs(g: Geometry, d: Disk, ino: nat, n: Inode)
    requires g.Valid() && Sized(g, d) && Marked(g, d) && g.ValidIno(ino) && KeepsIndirect(InodeAt(g, d, ino), n)
    ensures Rewritten(g, d, PutInode(g, d, ino, n), ino, n)
  {
    TableAvoids(g, d, ino, ino);
    KeepsIndirectAvoids(g, d, InodeAt(g, d, ino), n, g.InodeBlock(ino));
    hide Refs, Ptr, InodeAt, PutInode, Geometry.InodeBlock, Marked, Avoids, KeepsIndirect;
    var e := PutInode(g, d, ino, n);
    forall other, p, b
      ensures Refs(g, e, other, p, b) <==>
        if other == ino then b != 0 && p.Valid(g.PerBlock()) && Ptr(g, d, n, p) == b else Refs(g, d, other, p, b)
    {
      PutInodeRefs1(g, d, ino, n, other, p, b);
    }
  }

  lemma PutInodeUsed(g: Geometry, d: Disk, ino: nat, n: Inode, b: nat)
    requires g.Valid() && Sized(g, d) && g.ValidIno(ino) && g.InRange(b)
    ensures Used(g, PutInode(g, d, ino, n), b) <==> Used(g, d, b)
  {
    InodeInTable(g, ino);
    hide TestBit, Geometry.GroupOf, Geometry.BitOf, Geometry.InodeBlock, Geometry.InodeOffset, Geometry.InoGroup,
         Geometry.InTable;
  }

  /** The direct pointers may drop references and may take one new block that nobody refers to. */
  ghost predicate Adopts(g: Geometry, d: Disk, ino: nat, n: Inode, nb: nat)
    requires g.Sizes() && Sized(g, d) && g.ValidIno(ino)
  {
    var was := InodeAt(g, d, ino);
    && KeepsIndirect(was, n)
    && (forall i :: 0 <= i < NDIR ==> PtrOf(n, i) == PtrOf(was, i) || PtrOf(n, i) == 0 || PtrOf(n, i) == nb)
    && (forall i, j :: 0 <= i < NDIR && 0 <= j < NDIR && PtrOf(n, i) == nb && PtrOf(n, j) == nb && nb != 0 ==> i == j)
  }

  /** A path to a block other than nb was there before. */
  lemma AdoptsOld(g: Geometry, d: Disk, ino: nat, n: Inode, nb: nat, p: Path, b: nat)
    requires g.Sizes() && Sized(g, d) && g.ValidIno(ino) && Adopts(g, d, ino, n, nb)
    requires b != 0 && p.Valid(g.PerBlock()) && Ptr(g, d, n, p) == b
    ensures Refs(g, d, ino, p, b) || (b == nb && p.Direct?)
  {
    hide InodeAt;
  }

  lemma AdoptOwned(g: Geometry, d: Disk, ino: nat, n: Inode, nb: nat)
    requires Owned(g, d) && g.ValidIno(ino) && Adopts(g, d, ino, n, nb)
    requires nb != 0 ==> g.InRange(nb) && !g.Reserved(nb) && Used(g, d, nb) && Free(g, d, nb)
    ensures Owned(g, PutInode(g, d, ino, n))
    ensures Rewritten(g, d, PutInode(g, d, ino, n), ino, n)
  {
    var e := PutInode(g, d, ino, n);
    PutInodeRefs(g, d, ino, n);
    AdoptMarked(g, d, e, ino, n, nb);
    AdoptSingle(g, d, e, ino, n, nb);
    forall b | g.InRange(b)
      ensures Used(g, e, b) <==> Used(g, d, b)
    {
      PutInodeUsed(g, d, ino, n, b);
    }
    hide Refs, Ptr, InodeAt, PutInode, Adopts, Used, Geometry.Reserved, Geometry.InRange, Geometry.Disjoint, Marked,
         Single, Rewritten;
  }

  lemma AdoptMarked(g: Geometry, d: Disk, e: Disk, ino: nat, n: Inode, nb: nat)
    requires Owned(g, d) && g.ValidIno(ino) && Adopts(g, d, ino, n, nb) && e == PutInode(g, d, ino, n)
    requires nb != 0 ==> g.InRange(nb) && !g.Reserved(nb) && Used(g, d, nb)
    requires Rewritten(g, d, e, ino, n)
    ensures Marked(g, e)
  {
    hide Refs, Ptr, InodeAt, PutInode, Adopts, Used, Geometry.Reserved, Geometry.InRange, Geometry.Disjoint;
    forall other, p, b | Refs(g, e, other, p, b)
      ensures g.InRange(b) && !g.Reserved(b) && Used(g, e, b)
    {
      if other == ino {
        AdoptsOld(g, d, ino, n, nb, p, b);
      }
      PutInodeUsed(g, d, ino, n, b);
    }
  }

  lemma AdoptSingle(g: Geometry, d: Disk, e: Disk, ino: nat, n: Inode, nb: nat)
    requires Owned(g, d) && g.ValidIno(ino) && Adopts(g, d, ino, n, nb)
    requires nb != 0 ==> Free(g, d, nb)
    requires Sized(g, e) && Rewritten(g, d, e, ino, n)
    ensures Single(g, e)
  {
    hide Refs, InodeAt, PutInode, Used, Geometry.Reserved, Geometry.InRange, Geometry.Disjoint, Adopts;
    forall x, p, y, q, b | Refs(g, e, x, p, b) && Refs(g, e, y, q, b)
      ensures x == y && p == q
    {
      AdoptSingle1(g, d, e, ino, n, nb, x, p, b);
      AdoptSingle1(g, d, e, ino, n, nb, y, q, b);
      if p.Direct? && q.Direct? && b == nb {
        AdoptsOnce(g, d, ino, n, nb, p.i, q.i);
      }
    }
  }

  lemma AdoptsOnce(g: Geometry, d: Disk, ino: nat, n: Inode, nb: nat, i: nat, j: nat)
    requires g.Sizes() && Sized(g, d) && g.ValidIno(ino) && Adopts(g, d, ino, n, nb)
    requires i < NDIR && j < NDIR
    ensures nb != 0 && PtrOf(n, i) == nb && PtrOf(n, j) == nb ==> i == j
  {
    hide InodeAt, PtrOf;
  }

  lemma AdoptSingle1(g: Geometry, d: Disk, e: Disk, ino: nat, n: Inode, nb: nat, x: nat, p: Path, b: nat)
    requires g.Sizes() && Sized(g, d) && g.ValidIno(ino) && Adopts(g, d, ino, n, nb)
    requires nb != 0 ==> Free(g, d, nb)
    requires Sized(g, e) && Rewritten(g, d, e, ino, n) && Refs(g, e, x, p, b)
    ensures b != 0 && (b == nb ==> x == ino && p.Direct? && p.Valid(g.PerBlock()) && PtrOf(n, p.i) == nb)
    ensures b != nb ==> Refs(g, d, x, p, b)
  {
    assert b != 0;
    hide Refs, InodeAt, PutInode, Adopts;
    if x == ino {
      AdoptsOld(g, d, ino, n, nb, p, b);
    }
  }
}
