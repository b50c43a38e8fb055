/** What a file holds, and what writing one block of it changes (src/kernel/fs/ext2.c:225-264, 301-329, 490-584). */
module Ext2File {
  import opened Options
  import opened Words
  import opened Ext2Bitmap
  import opened Ext2Layout
  import opened Ext2Inode
  import opened Ext2Owner

  /** Where the number of a file's logical block is kept. */
  function BlockPath(per: nat, logical: nat): (p: Option<Path>)
    ensures p.Some? ==> p.value.Valid(per) && !p.value.Pointers()
  {
    if logical < NDIR then Some(Direct(logical))
    else
      var l := logical - NDIR;
      if l < per then Some(IndEntry(l))
      else
        var m := l - per;
        if m < per * per then
          SplitBelow(m, per);
          Some(MidEntry(m / per, m % per))
        else None
  }

  lemma SplitBelow(m: nat, per: nat)
    requires m < per * per
    ensures per > 0 && m / per < per && m % per < per
  {
    var q := m / per;
    assert q * per <= m;
    if per <= q {
      MulBelow(per - 1, q, per);
      assert false;
    }
  }

  /** No two logical blocks share a path. */
  lemma BlockPathInjective(per: nat, a: nat, b: nat)
    requires BlockPath(per, a).Some? && BlockPath(per, a) == BlockPath(per, b)
    ensures a == b
  {
    if a >= NDIR + per && b >= NDIR + per {
      var m, k := a - NDIR - per, b - NDIR - per;
      SplitBelow(m, per);
      SplitBelow(k, per);
      assert m == m / per * per + m % per && k == k / per * per + k % per;
    }
  }

  /** The block behind a logical block; 0 for a hole. */
  function Phys(g: Geometry, d: Disk, n: Inode, logical: nat): (b: nat)
    requires Sized(g, d)
    ensures b < TWO32
  {
    match BlockPath(g.PerBlock(), logical)
    case None => 0
    case Some(p) => Ptr(g, d, n, p)
  }

  /** The byte at a position; holes read as zero. */
  function ByteAt(g: Geometry, d: Disk, n: Inode, pos: nat): byte
    requires g.bs > 0 && Sized(g, d)
  {
    var b := Phys(g, d, n, g.Logical(pos));
    if b == 0 then 0 else d[b][g.Within(pos)]
  }

  function Content(g: Geometry, d: Disk, ino: nat, pos: nat): byte
    requires g.Sizes() && Sized(g, d) && g.ValidIno(ino)
  {
    ByteAt(g, d, InodeAt(g, d, ino), pos)
  }

  /** e holds what d holds, except for logical block l of inode ino, which holds x. */
  ghost predicate Patched(g: Geometry, d: Disk, e: Disk, ino: nat, l: nat, x: seq<byte>)
    requires g.Sizes() && Sized(g, d) && Sized(g, e) && |x| == g.bs
  {
    forall i, pos: nat :: g.ValidIno(i) ==>
      Content(g, e, i, pos) == if i == ino && g.Logical(pos) == l then x[g.Within(pos)] else Content(g, d, i, pos)
  }

  ghost predicate SameContent(g: Geometry, d: Disk, e: Disk)
    requires g.Sizes() && Sized(g, d) && Sized(g, e)
  {
    forall i, pos: nat :: g.ValidIno(i) ==> Content(g, e, i, pos) == Content(g, d, i, pos)
  }

  ghost predicate SameInodes(g: Geometry, d: Disk, e: Disk)
    requires g.Sizes() && Sized(g, d) && Sized(g, e)
  {
    forall i :: g.ValidIno(i) ==> InodeAt(g, e, i) == InodeAt(g, d, i)
  }

  // ----- Writing a data block -----

  /** A block reached as file data is not a pointer block of any file, nor metadata. */
  lemma LeafIsData(g: Geometry, d: Disk, ino: nat, p: Path, b: nat)
    requires Owned(g, d) && Refs(g, d, ino, p, b) && !p.Pointers()
    ensures DataBlock(g, d, b)
  {
    hide Refs, Used, Geometry.Reserved, Geometry.InRange, Geometry.Disjoint;
  }

  lemma FreeIsData(g: Geometry, d: Disk, b: nat)
    requires g.Sizes() && Sized(g, d) && Free(g, d, b) && !g.Reserved(b)
    ensures DataBlock(g, d, b)
  {
    hide Refs, Geometry.Reserved;
  }

  lemma DataBlockInode(g: Geometry, d: Disk, blk: nat, x: seq<byte>, i: nat)
    requires g.Sizes() && Sized(g, d) && |x| == g.bs && DataBlock(g, d, blk) && g.ValidIno(i)
    ensures InodeAt(g, d[blk := x], i) == InodeAt(g, d, i)
  {
    hide Refs, InodeAt, Geometry.InTable;
    QuietInode(g, d, blk, x, i);
  }

  lemma DataBlockPtr(g: Geometry, d: Disk, blk: nat, x: seq<byte>, i: nat, p: Path)
    requires g.Sizes() && Sized(g, d) && |x| == g.bs && DataBlock(g, d, blk) && g.ValidIno(i) && p.Valid(g.PerBlock())
    ensures Ptr(g, d[blk := x], InodeAt(g, d, i), p) == Ptr(g, d, InodeAt(g, d, i), p)
  {
    hide Refs, InodeAt, Ptr, Avoids;
    QuietAvoids(g, d, blk, i);
    PtrFrame(g, d, blk, x, InodeAt(g, d, i), p);
  }

  lemma DataBlockPhys(g: Geometry, d: Disk, blk: nat, x: seq<byte>, i: nat, l: nat)
    requires g.Sizes() && Sized(g, d) && |x| == g.bs && DataBlock(g, d, blk) && g.ValidIno(i)
    ensures Phys(g, d[blk := x], InodeAt(g, d, i), l) == Phys(g, d, InodeAt(g, d, i), l)
  {
    hide InodeAt, Ptr, DataBlock, BlockPath;
    var p := BlockPath(g.PerBlock(), l);
    if p.Some? {
      DataBlockPtr(g, d, blk, x, i, p.value);
    }
  }

  /** Exactly the positions behind blk change. */
  lemma DataBlockContent(g: Geometry, d: Disk, blk: nat, x: seq<byte>, i: nat, pos: nat)
    requires g.Sizes() && Sized(g, d) && |x| == g.bs && DataBlock(g, d, blk) && g.ValidIno(i)
    ensures var b := Phys(g, d, InodeAt(g, d, i), g.Logical(pos));
            Content(g, d[blk := x], i, pos) ==
              if b == 0 then 0 else if b == blk then x[g.Within(pos)] else Content(g, d, i, pos)
  {
    hide InodeAt, DataBlock, Phys, Geometry.Logical, Geometry.Within;
    DataBlockInode(g, d, blk, x, i);
    DataBlockPhys(g, d, blk, x, i, g.Logical(pos));
  }

  /** Only the owner finds b behind one of its logical blocks. */
  lemma PhysIsOwner(g: Geometry, d: Disk, ino: nat, l: nat, i: nat, m: nat, b: nat)
    requires Owned(g, d) && l < NDIR && Refs(g, d, ino, Direct(l), b) && g.ValidIno(i)
    requires Phys(g, d, InodeAt(g, d, i), m) == b
    ensures i == ino && m == l
  {
    var p := BlockPath(g.PerBlock(), m);
    assert Refs(g, d, i, p.value, b);
    hide Refs, Geometry.Reserved, Geometry.InRange, Geometry.Disjoint, Marked, MetaMarked, BlockPath;
    assert p.value == Direct(l);
    BlockPathDirect(g.PerBlock(), m, l);
  }

  lemma BlockPathDirect(per: nat, m: nat, l: nat)
    requires BlockPath(per, m) == Some(Direct(l))
    ensures m == l
  {
  }

  lemma OwnerPhys(g: Geometry, d: Disk, ino: nat, l: nat, b: nat)
    requires g.Sizes() && Sized(g, d) && l < NDIR && Refs(g, d, ino, Direct(l), b)
    ensures Phys(g, d, InodeAt(g, d, ino), l) == b
  {
  }

  /** Writing the data block behind logical block l of ino changes that block of that file and nothing else. */
  lemma DataWritePatches(g: Geometry, d: Disk, ino: nat, l: nat, b: nat, x: seq<byte>)
    requires Owned(g, d) && l < NDIR && Refs(g, d, ino, Direct(l), b) && |x| == g.bs
    ensures Owned(g, d[b := x]) && Patched(g, d, d[b := x], ino, l, x) && SameInodes(g, d, d[b := x])
    ensures forall i, p, c :: Refs(g, d[b := x], i, p, c) <==> Refs(g, d, i, p, c)
  {
    LeafIsData(g, d, ino, Direct(l), b);
    DataWriteOwned(g, d, b, x);
    assert b != 0 && g.ValidIno(ino);
    hide Refs, Owned, Content, InodeAt, DataBlock, Phys, Geometry.Logical, Geometry.Within;
    forall i, pos: nat | g.ValidIno(i)
      ensures Content(g, d[b := x], i, pos) == if i == ino && g.Logical(pos) == l then x[g.Within(pos)] else Content(g, d, i, pos)
    {
      DataBlockContent(g, d, b, x, i, pos);
      OwnerPhys(g, d, ino, l, b);
      var c := Phys(g, d, InodeAt(g, d, i), g.Logical(pos));
      if c == b {
        PhysIsOwner(g, d, ino, l, i, g.Logical(pos), b);
      } else if c == 0 {
        HoleContent(g, d, i, pos);
      }
    }
    forall i | g.ValidIno(i)
      ensures InodeAt(g, d[b := x], i) == InodeAt(g, d, i)
    {
      DataBlockInode(g, d, b, x, i);
    }
  }

  lemma HoleContent(g: Geometry, d: Disk, i: nat, pos: nat)
    requires g.Sizes() && Sized(g, d) && g.ValidIno(i) && Phys(g, d, InodeAt(g, d, i), g.Logical(pos)) == 0
    ensures Content(g, d, i, pos) == 0
  {
    hide Phys, InodeAt, Geometry.Logical, Geometry.Within;
  }

  /** Writing a block that nobody refers to changes no file. */
  lemma FreeWriteKeeps(g: Geometry, d: Disk, b: nat, x: seq<byte>)
    requires Owned(g, d) && Free(g, d, b) && !g.Reserved(b) && |x| == g.bs
    ensures Owned(g, d[b := x]) && SameContent(g, d, d[b := x]) && SameInodes(g, d, d[b := x])
    ensures forall i, p, c :: Refs(g, d[b := x], i, p, c) <==> Refs(g, d, i, p, c)
  {
    FreeIsData(g, d, b);
    DataWriteOwned(g, d, b, x);
    hide Refs, Owned, Content, InodeAt, DataBlock, Phys, Geometry.Logical, Geometry.Within;
    forall i, pos: nat | g.ValidIno(i)
      ensures Content(g, d[b := x], i, pos) == Content(g, d, i, pos)
    {
      DataBlockContent(g, d, b, x, i, pos);
      FreeNotBehind(g, d, b, i, g.Logical(pos));
      if Phys(g, d, InodeAt(g, d, i), g.Logical(pos)) == 0 {
        HoleContent(g, d, i, pos);
      }
    }
    forall i | g.ValidIno(i)
      ensures InodeAt(g, d[b := x], i) == InodeAt(g, d, i)
    {
      DataBlockInode(g, d, b, x, i);
    }
  }

  lemma FreeNotBehind(g: Geometry, d: Disk, b: nat, i: nat, l: nat)
    requires g.Sizes() && Sized(g, d) && Free(g, d, b) && g.ValidIno(i)
    ensures var c := Phys(g, d, InodeAt(g, d, i), l); c == 0 || c != b
  {
    var p := BlockPath(g.PerBlock(), l);
    if p.Some? {
      assert !Refs(g, d, i, p.value, b);
    }
  }

  // ----- Writing metadata -----

  /** The block behind a logical block is a data block. */
  lemma PhysNotReserved(g: Geometry, d: Disk, i: nat, l: nat)
    requires g.Sizes() && Sized(g, d) && Marked(g, d) && g.ValidIno(i)
    ensures var c := Phys(g, d, InodeAt(g, d, i), l); c == 0 || !g.Reserved(c)
  {
    var p := BlockPath(g.PerBlock(), l);
    if p.Some? && Ptr(g, d, InodeAt(g, d, i), p.value) != 0 {
      assert Refs(g, d, i, p.value, Ptr(g, d, InodeAt(g, d, i), p.value));
      hide Refs, Ptr, InodeAt, Geometry.Reserved, BlockPath;
    }
  }

  lemma QuietPhys(g: Geometry, d: Disk, blk: nat, x: seq<byte>, i: nat, l: nat)
    requires g.Sizes() && Sized(g, d) && |x| == g.bs && Quiet(g, d, blk) && g.ValidIno(i)
    ensures Phys(g, d[blk := x], InodeAt(g, d, i), l) == Phys(g, d, InodeAt(g, d, i), l)
  {
    QuietAvoids(g, d, blk, i);
    hide InodeAt, Ptr, Quiet, BlockPath, Avoids;
    var p := BlockPath(g.PerBlock(), l);
    if p.Some? {
      PtrFrame(g, d, blk, x, InodeAt(g, d, i), p.value);
    }
  }

  lemma MetaContent(g: Geometry, d: Disk, blk: nat, x: seq<byte>, i: nat, pos: nat)
    requires g.Sizes() && Sized(g, d) && Marked(g, d) && |x| == g.bs && Quiet(g, d, blk) && g.Reserved(blk)
             && g.ValidIno(i)
    ensures Content(g, d[blk := x], i, pos) == Content(g, d, i, pos)
  {
    QuietInode(g, d, blk, x, i);
    QuietPhys(g, d, blk, x, i, g.Logical(pos));
    PhysNotReserved(g, d, i, g.Logical(pos));
    hide Phys, InodeAt, Quiet, Marked, Geometry.Reserved, Geometry.Logical, Geometry.Within;
  }

  /** Writing a metadata block outside the inode tables changes no file and no inode. */
  lemma MetaKeeps(g: Geometry, d: Disk, blk: nat, x: seq<byte>)
    requires g.Sizes() && Sized(g, d) && Marked(g, d) && |x| == g.bs && g.Reserved(blk)
    requires forall gr :: 0 <= gr < |g.groups| ==> !g.InTable(gr, blk)
    ensures SameContent(g, d, d[blk := x]) && SameInodes(g, d, d[blk := x])
  {
    hide Content, InodeAt, Quiet, Marked, Geometry.InTable, Geometry.Reserved;
    ReservedQuiet(g, d, blk);
    forall i, pos: nat | g.ValidIno(i)
      ensures Content(g, d[blk := x], i, pos) == Content(g, d, i, pos)
    {
      MetaContent(g, d, blk, x, i, pos);
    }
    forall i | g.ValidIno(i)
      ensures InodeAt(g, d[blk := x], i) == InodeAt(g, d, i)
    {
      QuietInode(g, d, blk, x, i);
    }
  }

  lemma BitmapIsMeta(g: Geometry, b: nat)
    requires g.Valid() && g.InRange(b)
    ensures g.Reserved(BitmapBlock(g, b)) && forall gr :: 0 <= gr < |g.groups| ==> !g.InTable(gr, BitmapBlock(g, b))
  {
    hide Geometry.GroupOf, Geometry.InRange;
  }

  lemma MarkKeeps(g: Geometry, d: Disk, b: nat)
    requires g.Valid() && Sized(g, d) && Marked(g, d) && g.InRange(b)
    ensures SameContent(g, d, Mark(g, d, b)) && SameInodes(g, d, Mark(g, d, b))
    ensures SameContent(g, d, Unmark(g, d, b)) && SameInodes(g, d, Unmark(g, d, b))
  {
    BitmapIsMeta(g, b);
    hide SameContent, SameInodes, SetBit, ClearBit, BitmapBlock, Geometry.BitOf, Marked, Geometry.Reserved;
    MetaKeeps(g, d, BitmapBlock(g, b), SetBit(d[BitmapBlock(g, b)], g.BitOf(b)));
    MetaKeeps(g, d, BitmapBlock(g, b), ClearBit(d[BitmapBlock(g, b)], g.BitOf(b)));
  }

  lemma SystemKeeps(g: Geometry, d: Disk, blk: nat, x: seq<byte>)
    requires g.Valid() && Sized(g, d) && Marked(g, d) && |x| == g.bs
    requires blk in g.system || exists gr :: 0 <= gr < |g.groups| && blk == g.groups[gr].inodeBitmap
    ensures SameContent(g, d, d[blk := x]) && SameInodes(g, d, d[blk := x])
  {
    hide SameContent, SameInodes, Marked;
    assert g.Reserved(blk);
    MetaKeeps(g, d, blk, x);
  }

  // ----- Writing an inode -----

  lemma PutInodePhys(g: Geometry, d: Disk, ino: nat, n: Inode, m: Inode, l: nat)
    requires g.Sizes() && Sized(g, d) && g.ValidIno(ino) && Avoids(g, d, m, g.InodeBlock(ino))
    ensures Phys(g, PutInode(g, d, ino, n), m, l) == Phys(g, d, m, l)
  {
    hide PutInode, Ptr, Avoids, BlockPath, Geometry.InodeBlock;
    var p := BlockPath(g.PerBlock(), l);
    if p.Some? {
      PutInodePtr(g, d, ino, n, m, p.value);
    }
  }

  lemma TableReserved(g: Geometry, ino: nat)
    requires g.Sizes() && g.ValidIno(ino)
    ensures g.Reserved(g.InodeBlock(ino))
  {
    InodeInTable(g, ino);
    hide Geometry.InodeBlock, Geometry.InTable, Geometry.InoGroup;
  }

  lemma PutInodeContent1(g: Geometry, d: Disk, ino: nat, n: Inode, i: nat, pos: nat)
    requires Owned(g, d) && g.ValidIno(ino) && KeepsIndirect(InodeAt(g, d, ino), n) && g.ValidIno(i)
    requires Marked(g, PutInode(g, d, ino, n))
    ensures Content(g, PutInode(g, d, ino, n), i, pos) == if i == ino then ByteAt(g, d, n, pos) else Content(g, d, i, pos)
  {
    var e := PutInode(g, d, ino, n);
    var m := if i == ino then n else InodeAt(g, d, i);
    var l := g.Logical(pos);
    PutInodeReads(g, d, ino, n, i);
    TableAvoids(g, d, ino, i);
    if i == ino {
      KeepsIndirectAvoids(g, d, InodeAt(g, d, ino), n, g.InodeBlock(ino));
    }
    PutInodePhys(g, d, ino, n, m, l);
    PhysNotReserved(g, e, i, l);
    TableReserved(g, ino);
    hide Phys, InodeAt, Marked, Owned, Avoids, KeepsIndirect, Geometry.Reserved, Geometry.Logical, Geometry.Within,
         Geometry.InodeBlock, Geometry.InodeOffset;
  }

  /** A rewritten inode shows the file behind its new pointers; no other file changes. */
  lemma PutInodeContent(g: Geometry, d: Disk, ino: nat, n: Inode)
    requires Owned(g, d) && g.ValidIno(ino) && KeepsIndirect(InodeAt(g, d, ino), n)
    requires Marked(g, PutInode(g, d, ino, n))
    ensures forall i, pos: nat :: g.ValidIno(i) ==>
              Content(g, PutInode(g, d, ino, n), i, pos) == if i == ino then ByteAt(g, d, n, pos) else Content(g, d, i, pos)
  {
    hide Content, ByteAt, InodeAt, PutInode, Marked, Single, MetaMarked, KeepsIndirect, Geometry.Disjoint;
    forall i, pos: nat | g.ValidIno(i)
      ensures Content(g, PutInode(g, d, ino, n), i, pos) == if i == ino then ByteAt(g, d, n, pos) else Content(g, d, i, pos)
    {
      PutInodeContent1(g, d, ino, n, i, pos);
    }
  }

  /** The bytes behind a logical block depend on the pointers that lead to it. */
  lemma SamePtrBytes(g: Geometry, d: Disk, n: Inode, m: Inode, pos: nat)
    requires g.Sizes() && Sized(g, d) && PtrOf(n, IND) == PtrOf(m, IND) && PtrOf(n, DIND) == PtrOf(m, DIND)
    requires g.Logical(pos) < NDIR ==> PtrOf(n, g.Logical(pos)) == PtrOf(m, g.Logical(pos))
    ensures ByteAt(g, d, n, pos) == ByteAt(g, d, m, pos)
  {
    hide PtrOf, Geometry.Logical, Geometry.Within;
    var p := BlockPath(g.PerBlock(), g.Logical(pos));
    assert p.Some? && p.value.Direct? ==> p.value.i == g.Logical(pos);
    hide BlockPath;
  }

  // ----- A file being written: the disk, and the disk once the inode in hand is stored -----

  lemma PutInodeCommutes(g: Geometry, d: Disk, ino: nat, n: Inode, blk: nat, x: seq<byte>)
    requires g.Sizes() && Sized(g, d) && g.ValidIno(ino) && |x| == g.bs && blk != g.InodeBlock(ino)
    ensures PutInode(g, d[blk := x], ino, n) == PutInode(g, d, ino, n)[blk := x]
    ensures PutInode(g, d, ino, n)[blk] == d[blk]
  {
    hide Geometry.InodeBlock, Geometry.InodeOffset;
  }

  lemma PutInodeTwice(g: Geometry, d: Disk, ino: nat, n: Inode, m: Inode)
    requires g.Sizes() && Sized(g, d) && g.ValidIno(ino)
    ensures PutInode(g, PutInode(g, d, ino, n), ino, m) == PutInode(g, d, ino, m)
  {
    InodeInTable(g, ino);
    hide Geometry.InodeBlock, Geometry.InodeOffset, Geometry.InTable, Geometry.InoGroup;
    var b := d[g.InodeBlock(ino)];
    assert Splice(Splice(b, g.InodeOffset(ino), n), g.InodeOffset(ino), m) == Splice(b, g.InodeOffset(ino), m);
  }

  lemma MarkCommutes(g: Geometry, d: Disk, ino: nat, n: Inode, b: nat)
    requires g.Valid() && Sized(g, d) && g.ValidIno(ino) && g.InRange(b)
    ensures PutInode(g, Mark(g, d, b), ino, n) == Mark(g, PutInode(g, d, ino, n), b)
    ensures PutInode(g, Unmark(g, d, b), ino, n) == Unmark(g, PutInode(g, d, ino, n), b)
  {
    InodeInTable(g, ino);
    BitmapIsMeta(g, b);
    hide Geometry.InodeBlock, Geometry.InodeOffset, Geometry.InTable, Geometry.InoGroup, Geometry.BitOf, BitmapBlock,
         SetBit, ClearBit, PutInode;
    var blk := BitmapBlock(g, b);
    assert blk != g.InodeBlock(ino);
    PutInodeCommutes(g, d, ino, n, blk, SetBit(d[blk], g.BitOf(b)));
    PutInodeCommutes(g, d, ino, n, blk, ClearBit(d[blk], g.BitOf(b)));
  }

  /** n has every pointer that was has, and perhaps some more direct ones. */
  ghost predicate Grown(was: Inode, n: Inode) {
    && PtrOf(n, IND) == PtrOf(was, IND) && PtrOf(n, DIND) == PtrOf(was, DIND)
    && forall k :: 0 <= k < NDIR ==> PtrOf(was, k) == PtrOf(n, k) || PtrOf(was, k) == 0
  }

  /** The disk d, with inode ino held in memory as n, keeps the ownership rule before and after n is stored. */
  ghost predicate InHand(g: Geometry, d: Disk, ino: nat, n: Inode) {
    Owned(g, d) && g.ValidIno(ino) && Grown(InodeAt(g, d, ino), n) && Owned(g, PutInode(g, d, ino, n))
  }

  lemma InHandStart(g: Geometry, d: Disk, ino: nat)
    requires Owned(g, d) && g.ValidIno(ino)
    ensures InHand(g, d, ino, InodeAt(g, d, ino)) && PutInode(g, d, ino, InodeAt(g, d, ino)) == d
  {
    PutInodeSame(g, d, ino);
    hide InodeAt, PutInode, Marked, Single, MetaMarked, PtrOf, Geometry.Disjoint;
  }

  /** n with pointer l set to b, whatever else changed besides pointers. */
  ghost predicate Gains(n: Inode, m: Inode, l: nat, b: nat) {
    l < NDIR && forall k :: 0 <= k < N_BLOCKS ==> PtrOf(m, k) == if k == l then b else PtrOf(n, k)
  }

  lemma GainsAdopts(g: Geometry, v: Disk, ino: nat, n: Inode, m: Inode, l: nat, nb: nat)
    requires Owned(g, v) && g.ValidIno(ino) && InodeAt(g, v, ino) == n && Gains(n, m, l, nb) && Free(g, v, nb)
    ensures Adopts(g, v, ino, m, nb)
  {
    hide InodeAt;
    forall i, j | 0 <= i < NDIR && 0 <= j < NDIR && PtrOf(m, i) == nb && PtrOf(m, j) == nb && nb != 0
      ensures i == j
    {
      assert !Refs(g, v, ino, Direct(i), nb);
      assert !Refs(g, v, ino, Direct(j), nb);
    }
  }

  /** The block just marked becomes logical block l of the inode in hand. */
  lemma AllocStep(g: Geometry, d: Disk, ino: nat, n: Inode, m: Inode, l: nat, nb: nat)
    requires InHand(g, d, ino, n) && g.InRange(nb) && !Used(g, d, nb) && Gains(n, m, l, nb) && PtrOf(n, l) == 0
    ensures InHand(g, Mark(g, d, nb), ino, m) && nb != 0
    ensures Free(g, Mark(g, d, nb), nb) && !g.Reserved(nb)
  {
    hide Refs, Used, InodeAt, PutInode, Mark, Geometry.InRange, Geometry.Reserved, PtrOf, Free, Grown, Gains,
         SameContent;
    hide Marked, Single, MetaMarked, Geometry.Disjoint;
    UnusedIsFree(g, d, nb);
    DataNonZero(g, nb);
    MarkOwned(g, d, nb);
    MarkKeeps(g, d, nb);
    MarkFree(g, d, nb);
    GainsGrown(InodeAt(g, d, ino), n, m, l, nb);
    AllocStored(g, d, ino, n, m, l, nb);
  }

  lemma DataNonZero(g: Geometry, b: nat)
    requires g.Valid() && g.InRange(b) && !g.Reserved(b)
    ensures b != 0
  {
    assert 0 in g.system ==> g.Reserved(0);
  }

  lemma GainsGrown(was: Inode, n: Inode, m: Inode, l: nat, b: nat)
    requires Grown(was, n) && Gains(n, m, l, b) && PtrOf(n, l) == 0
    ensures Grown(was, m)
  {
    hide PtrOf;
  }

  lemma MarkFree(g: Geometry, d: Disk, nb: nat)
    requires Owned(g, d) && g.InRange(nb) && Free(g, d, nb)
    ensures Free(g, Mark(g, d, nb), nb)
  {
    MarkOwned(g, d, nb);
    hide Refs, Owned, Mark;
  }

  lemma AllocStored(g: Geometry, d: Disk, ino: nat, n: Inode, m: Inode, l: nat, nb: nat)
    requires InHand(g, d, ino, n) && g.InRange(nb) && !Used(g, d, nb) && Gains(n, m, l, nb)
    ensures Owned(g, PutInode(g, Mark(g, d, nb), ino, m))
  {
    var v := PutInode(g, d, ino, n);
    PutInodeUsed(g, d, ino, n, nb);
    UnusedIsFree(g, v, nb);
    MarkFree(g, v, nb);
    MarkOwned(g, v, nb);
    MarkKeeps(g, v, nb);
    PutInodeReads(g, d, ino, n, ino);
    MarkCommutes(g, d, ino, n, nb);
    PutInodeTwice(g, Mark(g, d, nb), ino, n, m);
    hide Refs, Used, InodeAt, PutInode, Mark, Geometry.InRange, Geometry.Reserved, PtrOf, Free, Adopts, SameContent,
         Gains, Grown;
    hide Marked, Single, MetaMarked, Geometry.Disjoint;
    GainsAdopts(g, Mark(g, v, nb), ino, n, m, l, nb);
    AdoptOwned(g, Mark(g, v, nb), ino, m, nb);
  }

  lemma InHandRefs(g: Geometry, d: Disk, ino: nat, n: Inode, l: nat)
    requires InHand(g, d, ino, n) && l < NDIR && PtrOf(n, l) != 0
    ensures Refs(g, PutInode(g, d, ino, n), ino, Direct(l), PtrOf(n, l))
  {
    PutInodeReads(g, d, ino, n, ino);
    hide InodeAt, PutInode, PtrOf;
  }

  /** A reference on the disk is also one once the inode is stored. */
  lemma InHandGrows(g: Geometry, d: Disk, ino: nat, n: Inode, i: nat, p: Path, b: nat)
    requires InHand(g, d, ino, n) && Refs(g, d, i, p, b)
    ensures Refs(g, PutInode(g, d, ino, n), i, p, b)
  {
    GrownKeepsIndirect(InodeAt(g, d, ino), n);
    PutInodeRefs(g, d, ino, n);
    GrownPtr(g, d, InodeAt(g, d, ino), n, p);
    hide InodeAt, PutInode, PtrOf, Ptr, Marked, Single, MetaMarked, Geometry.Disjoint, Grown, KeepsIndirect;
  }

  lemma GrownKeepsIndirect(was: Inode, n: Inode)
    requires Grown(was, n)
    ensures KeepsIndirect(was, n)
  {
  }

  lemma GrownPtr(g: Geometry, d: Disk, was: Inode, n: Inode, p: Path)
    requires Sized(g, d) && p.Valid(g.PerBlock()) && Grown(was, n)
    ensures Ptr(g, d, was, p) != 0 ==> Ptr(g, d, n, p) == Ptr(g, d, was, p)
  {
    hide PtrOf;
  }

  /** Block b, that will be logical block l of ino, is on the disk that block or nothing yet. */
  lemma InHandData(g: Geometry, d: Disk, ino: nat, n: Inode, l: nat, i: nat, p: Path, b: nat)
    requires InHand(g, d, ino, n) && l < NDIR && PtrOf(n, l) == b != 0 && Refs(g, d, i, p, b)
    ensures i == ino && p == Direct(l)
  {
    InHandRefs(g, d, ino, n, l);
    InHandGrows(g, d, ino, n, i, p, b);
    hide Refs, InodeAt, PutInode, PtrOf, Marked, MetaMarked, Geometry.Disjoint, Grown;
  }

  /** Every file is as before, except for bytes of block l of ino that became those of x. */
  ghost predicate PartlyPatched(g: Geometry, d: Disk, e: Disk, ino: nat, l: nat, x: seq<byte>)
    requires g.Sizes() && Sized(g, d) && Sized(g, e) && |x| == g.bs
  {
    forall i, pos: nat :: g.ValidIno(i) ==>
      || Content(g, e, i, pos) == Content(g, d, i, pos)
      || (i == ino && g.Logical(pos) == l && Content(g, e, i, pos) == x[g.Within(pos)])
  }

  lemma WriteOnDisk(g: Geometry, d: Disk, ino: nat, n: Inode, l: nat, b: nat, x: seq<byte>)
    requires InHand(g, d, ino, n) && l < NDIR && PtrOf(n, l) == b != 0 && |x| == g.bs && !g.Reserved(b)
    ensures Owned(g, d[b := x]) && SameInodes(g, d, d[b := x]) && PartlyPatched(g, d, d[b := x], ino, l, x)
  {
    hide InodeAt, PutInode, PtrOf, Geometry.Disjoint, Grown, Content, Geometry.Logical, Geometry.Within;
    hide Marked, Single, MetaMarked, Geometry.Reserved;
    if Refs(g, d, ino, Direct(l), b) {
      DataWritePatches(g, d, ino, l, b, x);
    } else {
      forall i, p
        ensures !Refs(g, d, i, p, b)
      {
        if Refs(g, d, i, p, b) {
          InHandData(g, d, ino, n, l, i, p, b);
        }
      }
      hide Refs;
      FreeWriteKeeps(g, d, b, x);
    }
  }

  lemma InHandNotReserved(g: Geometry, d: Disk, ino: nat, n: Inode, l: nat)
    requires InHand(g, d, ino, n) && l < NDIR && PtrOf(n, l) != 0
    ensures !g.Reserved(PtrOf(n, l)) && PtrOf(n, l) != g.InodeBlock(ino)
  {
    InHandRefs(g, d, ino, n, l);
    TableReserved(g, ino);
    hide Refs, Used, PtrOf, PutInode, InodeAt, Geometry.InRange, Geometry.Reserved, Geometry.InodeBlock,
         Geometry.Disjoint, Grown;
  }

  /** Storing the data of logical block l: seen through the inode in hand it is exactly that block that changes. */
  lemma WriteStep(g: Geometry, d: Disk, ino: nat, n: Inode, l: nat, x: seq<byte>)
    requires InHand(g, d, ino, n) && l < NDIR && PtrOf(n, l) != 0 && |x| == g.bs
    ensures InHand(g, d[PtrOf(n, l) := x], ino, n) && SameInodes(g, d, d[PtrOf(n, l) := x])
    ensures PartlyPatched(g, d, d[PtrOf(n, l) := x], ino, l, x)
    ensures Patched(g, PutInode(g, d, ino, n), PutInode(g, d[PtrOf(n, l) := x], ino, n), ino, l, x)
  {
    var b := PtrOf(n, l);
    InHandNotReserved(g, d, ino, n, l);
    WriteOnDisk(g, d, ino, n, l, b, x);
    InHandRefs(g, d, ino, n, l);
    DataWritePatches(g, PutInode(g, d, ino, n), ino, l, b, x);
    PutInodeCommutes(g, d, ino, n, b, x);
    hide Refs, InodeAt, PutInode, PtrOf, Owned, Grown, Patched, PartlyPatched, Geometry.Reserved, Geometry.InodeBlock;
  }

  // ----- What is behind the inode in hand, step by step -----

  lemma OtherBlockBytes(g: Geometry, d: Disk, n: Inode, m: Inode, l: nat, b: nat, pos: nat)
    requires g.Sizes() && Sized(g, d) && Gains(n, m, l, b) && g.Logical(pos) != l
    ensures ByteAt(g, d, m, pos) == ByteAt(g, d, n, pos)
  {
    hide PtrOf, ByteAt, Geometry.Logical;
    SamePtrBytes(g, d, m, n, pos);
  }

  lemma StoredBytes(g: Geometry, d: Disk, ino: nat, n: Inode, pos: nat)
    requires g.Sizes() && Sized(g, d) && g.ValidIno(ino) && InodeAt(g, d, ino) == n
    ensures Content(g, d, ino, pos) == ByteAt(g, d, n, pos)
  {
  }

  /** Changing one direct pointer of a stored inode changes that block of that file only. */
  lemma RepointContent(g: Geometry, v: Disk, ino: nat, n: Inode, m: Inode, l: nat, b: nat)
    requires Owned(g, v) && g.ValidIno(ino) && InodeAt(g, v, ino) == n && Gains(n, m, l, b)
    requires Owned(g, PutInode(g, v, ino, m))
    ensures forall i, pos: nat :: g.ValidIno(i) && !(i == ino && g.Logical(pos) == l) ==>
              Content(g, PutInode(g, v, ino, m), i, pos) == Content(g, v, i, pos)
  {
    assert KeepsIndirect(n, m);
    hide InodeAt, PutInode, ByteAt, Content, Marked, Single, MetaMarked, Geometry.Disjoint, Gains, Geometry.Logical,
         KeepsIndirect;
    PutInodeContent(g, v, ino, m);
    forall i, pos: nat | g.ValidIno(i) && !(i == ino && g.Logical(pos) == l)
      ensures Content(g, PutInode(g, v, ino, m), i, pos) == Content(g, v, i, pos)
    {
      if i == ino {
        OtherBlockBytes(g, v, n, m, l, b, pos);
        StoredBytes(g, v, ino, n, pos);
      }
    }
  }

  /** Taking a fresh block for logical block l shows in that block only. */
  lemma AllocContent(g: Geometry, d: Disk, ino: nat, n: Inode, m: Inode, l: nat, nb: nat)
    requires InHand(g, d, ino, n) && g.InRange(nb) && !Used(g, d, nb) && Gains(n, m, l, nb) && PtrOf(n, l) == 0
    ensures Owned(g, PutInode(g, Mark(g, d, nb), ino, m))
    ensures forall i, pos: nat :: g.ValidIno(i) && !(i == ino && g.Logical(pos) == l) ==>
              Content(g, PutInode(g, Mark(g, d, nb), ino, m), i, pos) == Content(g, PutInode(g, d, ino, n), i, pos)
  {
    hide Refs, Used, InodeAt, PutInode, Mark, Geometry.InRange, PtrOf, Content, Gains, Grown, Geometry.Logical;
    hide Marked, Single, MetaMarked, Geometry.Disjoint;
    var v := PutInode(g, d, ino, n);
    AllocStored(g, d, ino, n, m, l, nb);
    MarkKeeps(g, v, nb);
    MarkOwned(g, v, nb);
    PutInodeReads(g, d, ino, n, ino);
    MarkCommutes(g, d, ino, n, nb);
    PutInodeTwice(g, Mark(g, d, nb), ino, n, m);
    RepointContent(g, Mark(g, v, nb), ino, n, m, l, nb);
  }

  lemma SamePtrsAdopts(g: Geometry, v: Disk, ino: nat, n: Inode, m: Inode)
    requires g.Sizes() && Sized(g, v) && g.ValidIno(ino) && InodeAt(g, v, ino) == n && SamePtrs(n, m)
    ensures Adopts(g, v, ino, m, 0)
  {
    hide InodeAt;
  }

  /** Storing an inode with the same pointers changes no file. */
  lemma RestampKeeps(g: Geometry, v: Disk, ino: nat, n: Inode, m: Inode)
    requires Owned(g, v) && g.ValidIno(ino) && InodeAt(g, v, ino) == n && SamePtrs(n, m)
    ensures Owned(g, PutInode(g, v, ino, m)) && SameContent(g, v, PutInode(g, v, ino, m))
  {
    assert KeepsIndirect(n, m);
    SamePtrsAdopts(g, v, ino, n, m);
    hide InodeAt, PutInode, ByteAt, Content, Marked, Single, MetaMarked, Geometry.Disjoint, Adopts, PtrOf,
         KeepsIndirect, Rewritten;
    AdoptOwned(g, v, ino, m, 0);
    PutInodeContent(g, v, ino, m);
    forall i, pos: nat | g.ValidIno(i)
      ensures Content(g, PutInode(g, v, ino, m), i, pos) == Content(g, v, i, pos)
    {
      if i == ino {
        SamePtrBytes(g, v, m, n, pos);
        StoredBytes(g, v, ino, n, pos);
      }
    }
  }

  // ----- The bytes of one block, and a write that runs over several blocks -----

  /** Logical block l as a whole. */
  function BlockBytes(g: Geometry, d: Disk, n: Inode, l: nat): (x: seq<byte>)
    requires Sized(g, d)
    ensures |x| == g.bs
  {
    var b := Phys(g, d, n, l);
    if b == 0 then Zeros(g.bs) else d[b]
  }

  lemma BlockBytesAt(g: Geometry, d: Disk, n: Inode, pos: nat)
    requires g.bs > 0 && Sized(g, d)
    ensures ByteAt(g, d, n, pos) == BlockBytes(g, d, n, g.Logical(pos))[g.Within(pos)]
  {
    hide Phys, Geometry.Logical, Geometry.Within;
  }

  lemma PosSplit(g: Geometry, pos: nat)
    requires g.bs > 0
    ensures pos == g.Logical(pos) * g.bs + g.Within(pos)
  {
  }

  /** Within one block, positions and offsets run in step. */
  lemma SameBlock(g: Geometry, a: nat, pos: nat)
    requires g.bs > 0 && g.Logical(a) == g.Logical(pos)
    ensures pos - a == g.Within(pos) - g.Within(a)
  {
    PosSplit(g, a);
    PosSplit(g, pos);
  }

  /** Staying within the block of a. */
  lemma StaysInBlock(g: Geometry, a: nat, pos: nat)
    requires g.bs > 0 && a <= pos < a + (g.bs - g.Within(a))
    ensures g.Logical(pos) == g.Logical(a)
  {
    PosSplit(g, a);
    DivMod(g.Logical(a), g.Within(a) + (pos - a), g.bs);
  }

  /** The first k bytes of src have been written at offset; all else is as in d. */
  ghost predicate Written(g: Geometry, d: Disk, e: Disk, ino: nat, offset: nat, src: seq<byte>, k: nat)
    requires g.Sizes() && Sized(g, d) && Sized(g, e) && k <= |src|
  {
    forall i, pos: nat :: g.ValidIno(i) ==>
      Content(g, e, i, pos) == if i == ino && offset <= pos < offset + k then src[pos - offset] else Content(g, d, i, pos)
  }

  /** Some bytes of src may have been written at offset; all else is as in d. */
  ghost predicate PartlyWritten(g: Geometry, d: Disk, e: Disk, ino: nat, offset: nat, src: seq<byte>)
    requires g.Sizes() && Sized(g, d) && Sized(g, e)
  {
    forall i, pos: nat :: g.ValidIno(i) ==>
      || Content(g, e, i, pos) == Content(g, d, i, pos)
      || (i == ino && offset <= pos < offset + |src| && Content(g, e, i, pos) == src[pos - offset])
  }

  /** The patched block read at pos: the chunk where it lies, the block as it was elsewhere. */
  lemma PatchedAt(g: Geometry, was: seq<byte>, at: nat, chunk: seq<byte>, pos: nat)
    requires g.bs > 0 && |was| == g.bs && g.Within(at) + |chunk| <= g.bs && g.Logical(pos) == g.Logical(at)
    ensures Splice(was, g.Within(at), chunk)[g.Within(pos)] ==
              if at <= pos < at + |chunk| then chunk[pos - at] else was[g.Within(pos)]
  {
    SameBlock(g, at, pos);
    hide Geometry.Logical, Geometry.Within;
  }

  /** The content of a file before a write, given the block that is about to be patched. */
  ghost predicate BlockIs(g: Geometry, v: Disk, ino: nat, l: nat, was: seq<byte>)
    requires g.Sizes() && Sized(g, v) && |was| == g.bs
  {
    g.ValidIno(ino) && forall pos: nat :: g.Logical(pos) == l ==> Content(g, v, ino, pos) == was[g.Within(pos)]
  }

  lemma WrittenStep(g: Geometry, d: Disk, v: Disk, w: Disk, ino: nat, offset: nat, src: seq<byte>, k: nat, take: nat,
      was: seq<byte>)
    requires g.Sizes() && Sized(g, d) && Sized(g, v) && Sized(g, w) && |was| == g.bs
    requires k + take <= |src| && g.Within(offset + k) + take <= g.bs
    requires Written(g, d, v, ino, offset, src, k) && BlockIs(g, v, ino, g.Logical(offset + k), was)
    requires forall i, pos: nat :: g.ValidIno(i) ==>
               Content(g, w, i, pos) == if i == ino && g.Logical(pos) == g.Logical(offset + k)
                                        then Splice(was, g.Within(offset + k), src[k..k + take])[g.Within(pos)]
                                        else Content(g, v, i, pos)
    ensures Written(g, d, w, ino, offset, src, k + take)
  {
    hide Content, Geometry.Logical, Geometry.Within;
    var at := offset + k;
    forall i, pos: nat | g.ValidIno(i)
      ensures Content(g, w, i, pos) ==
                if i == ino && offset <= pos < offset + k + take then src[pos - offset] else Content(g, d, i, pos)
    {
      if i == ino {
        if g.Logical(pos) == g.Logical(at) {
          PatchedAt(g, was, at, src[k..k + take], pos);
        } else if at <= pos < at + take {
          StaysInBlock(g, at, pos);
          assert false;
        }
      }
    }
  }

  lemma PartlyWrittenStep(g: Geometry, d: Disk, v: Disk, e: Disk, f: Disk, ino: nat, offset: nat, src: seq<byte>,
      k: nat, take: nat, was: seq<byte>)
    requires g.Sizes() && Sized(g, d) && Sized(g, v) && Sized(g, e) && Sized(g, f) && |was| == g.bs
    requires k + take <= |src| && g.Within(offset + k) + take <= g.bs
    requires Written(g, d, v, ino, offset, src, k) && BlockIs(g, v, ino, g.Logical(offset + k), was)
    requires PartlyWritten(g, d, e, ino, offset, src)
    requires PartlyPatched(g, e, f, ino, g.Logical(offset + k), Splice(was, g.Within(offset + k), src[k..k + take]))
    ensures PartlyWritten(g, d, f, ino, offset, src)
  {
    hide Content, Geometry.Logical, Geometry.Within;
    var at := offset + k;
    forall i, pos: nat | g.ValidIno(i)
      ensures || Content(g, f, i, pos) == Content(g, d, i, pos)
              || (i == ino && offset <= pos < offset + |src| && Content(g, f, i, pos) == src[pos - offset])
    {
      if Content(g, f, i, pos) != Content(g, e, i, pos) {
        PatchedAt(g, was, at, src[k..k + take], pos);
      }
    }
  }

  /** The block about to be patched is the one that a read finds there. */
  lemma StoredBlock(g: Geometry, v: Disk, ino: nat, n: Inode, l: nat)
    requires g.Sizes() && Sized(g, v) && g.ValidIno(ino) && InodeAt(g, v, ino) == n
    ensures BlockIs(g, v, ino, l, BlockBytes(g, v, n, l))
  {
    forall pos: nat | g.Logical(pos) == l
      ensures Content(g, v, ino, pos) == BlockBytes(g, v, n, l)[g.Within(pos)]
    {
      StoredBytes(g, v, ino, n, pos);
      BlockBytesAt(g, v, n, pos);
    }
    hide Content, BlockBytes, Geometry.Logical, Geometry.Within;
  }

  // ----- Dropping a block -----

  lemma LosesAdopts(g: Geometry, v: Disk, ino: nat, n: Inode, m: Inode, l: nat)
    requires g.Sizes() && Sized(g, v) && g.ValidIno(ino) && InodeAt(g, v, ino) == n && Gains(n, m, l, 0)
    ensures Adopts(g, v, ino, m, 0)
  {
    hide InodeAt;
  }

  /** Without its pointer the block is nobody's. */
  lemma LosesFree(g: Geometry, v: Disk, w: Disk, ino: nat, n: Inode, m: Inode, l: nat, b: nat)
    requires Owned(g, v) && Sized(g, w) && g.ValidIno(ino) && InodeAt(g, v, ino) == n && Gains(n, m, l, 0)
    requires Refs(g, v, ino, Direct(l), b) && Rewritten(g, v, w, ino, m)
    ensures Free(g, w, b)
  {
    hide InodeAt, Marked, MetaMarked, Geometry.Disjoint;
    forall i, p
      ensures !Refs(g, w, i, p, b)
    {
      if Refs(g, w, i, p, b) {
        LosesOld(g, v, ino, n, m, l, i, p, b, w);
        assert false;
      }
    }
  }

  lemma LosesOld(g: Geometry, v: Disk, ino: nat, n: Inode, m: Inode, l: nat, i: nat, p: Path, b: nat, w: Disk)
    requires g.Sizes() && Sized(g, v) && Sized(g, w) && g.ValidIno(ino) && InodeAt(g, v, ino) == n && Gains(n, m, l, 0)
    requires Rewritten(g, v, w, ino, m) && Refs(g, w, i, p, b)
    ensures Refs(g, v, i, p, b)
  {
    assert b != 0;
    LosesAdopts(g, v, ino, n, m, l);
    hide InodeAt, Adopts, Gains;
    if i == ino {
      hide Refs;
      AdoptsOld(g, v, ino, m, 0, p, b);
    }
  }

  /** Logical block l of ino is now a hole; all else is as it was. */
  ghost predicate Holed(g: Geometry, v: Disk, w: Disk, ino: nat, l: nat)
    requires g.Sizes() && Sized(g, v) && Sized(g, w)
  {
    forall i, pos: nat :: g.ValidIno(i) ==>
      Content(g, w, i, pos) == if i == ino && g.Logical(pos) == l then 0 else Content(g, v, i, pos)
  }

  lemma HoledContent(g: Geometry, v: Disk, ino: nat, n: Inode, m: Inode, l: nat)
    requires Owned(g, v) && g.ValidIno(ino) && InodeAt(g, v, ino) == n && Gains(n, m, l, 0)
    requires Owned(g, PutInode(g, v, ino, m))
    ensures Holed(g, v, PutInode(g, v, ino, m), ino, l)
  {
    var w := PutInode(g, v, ino, m);
    PutInodeReads(g, v, ino, m, ino);
    RepointContent(g, v, ino, n, m, l, 0);
    assert forall pos: nat :: g.Logical(pos) == l ==> Phys(g, w, m, g.Logical(pos)) == 0;
    hide InodeAt, PutInode, Phys, Content, Marked, Single, MetaMarked, Geometry.Disjoint, Gains, Geometry.Logical;
    forall pos: nat | g.Logical(pos) == l
      ensures Content(g, w, ino, pos) == 0
    {
      HoleContent(g, w, ino, pos);
    }
  }

  /** The inode in hand gives up logical block l: its bit may then be cleared, or kept if that write fails. */
  lemma DropStep(g: Geometry, d: Disk, ino: nat, n: Inode, m: Inode, l: nat)
    requires g.Valid() && Sized(g, d) && g.ValidIno(ino) && Owned(g, PutInode(g, d, ino, n))
    requires Gains(n, m, l, 0) && PtrOf(n, l) != 0
    ensures Owned(g, PutInode(g, d, ino, m)) && Holed(g, PutInode(g, d, ino, n), PutInode(g, d, ino, m), ino, l)
    ensures var b := PtrOf(n, l);
            && g.InRange(b) && Used(g, d, b) && Owned(g, PutInode(g, Unmark(g, d, b), ino, m))
            && Holed(g, PutInode(g, d, ino, n), PutInode(g, Unmark(g, d, b), ino, m), ino, l)
  {
    var v, w, b := PutInode(g, d, ino, n), PutInode(g, d, ino, m), PtrOf(n, l);
    PutInodeReads(g, d, ino, n, ino);
    PutInodeTwice(g, d, ino, n, m);
    assert Refs(g, v, ino, Direct(l), b);
    hide Refs, Used, InodeAt, PutInode, PtrOf, Adopts, Gains, Content, Rewritten, Free, Unmark;
    hide Geometry.InRange, Geometry.Reserved, Geometry.Disjoint, Geometry.Logical;
    assert g.InRange(b) && !g.Reserved(b) && Used(g, v, b);
    hide Marked, Single, MetaMarked;
    PutInodeUsed(g, d, ino, n, b);
    LosesAdopts(g, v, ino, n, m, l);
    AdoptOwned(g, v, ino, m, 0);
    LosesFree(g, v, w, ino, n, m, l, b);
    HoledContent(g, v, ino, n, m, l);
    UnmarkOwned(g, w, b);
    MarkKeeps(g, w, b);
    MarkCommutes(g, d, ino, m, b);
  }
}
