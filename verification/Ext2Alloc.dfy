/** Reserving blocks and creating inodes (src/kernel/fs/ext2.c:67-99, 420-488). */
module Ext2Alloc {
  import opened Errno
  import opened Words
  import opened Ext2Bitmap
  import opened Ext2Layout
  import opened Ext2Inode
  import opened Ext2Stat
  import opened Ext2Owner
  import opened Ext2File
  import opened Ext2Counts
  import opened Ext2Volume

  // ----- Reserving a run of blocks -----

  /** Block number j of a run, in 32-bit arithmetic. */
  function RunAt(start: nat, j: nat): (b: nat)
    ensures b < TWO32
  {
    (start + j) % TWO32
  }

  /** The used blocks of e are those of d and some of the first k blocks of the run. */
  ghost predicate MarksRun(g: Geometry, d: Disk, e: Disk, start: nat, k: nat)
    requires g.Sizes() && Sized(g, d) && Sized(g, e)
  {
    && (forall b :: g.InRange(b) && Used(g, d, b) ==> Used(g, e, b))
    && (forall b :: g.InRange(b) && Used(g, e, b) ==> Used(g, d, b) || exists j :: 0 <= j < k && b == RunAt(start, j))
  }

  ghost predicate RunUsed(g: Geometry, e: Disk, start: nat, k: nat)
    requires g.Sizes() && Sized(g, e)
  {
    forall j :: 0 <= j < k && g.InRange(RunAt(start, j)) ==> Used(g, e, RunAt(start, j))
  }

  lemma TakenUsed(g: Geometry, d: Disk, e: Disk, b: nat)
    requires Taken(g, d, e, b)
    ensures Sized(g, e)
    ensures forall c :: g.InRange(c) ==> (Used(g, e, c) <==> c == b || Used(g, d, c))
  {
    hide Used, Mark, Geometry.InRange, Geometry.Disjoint;
    forall c | g.InRange(c)
      ensures Used(g, e, c) <==> c == b || Used(g, d, c)
    {
      MarkUsed(g, d, b, c);
    }
  }

  lemma TakenMarks(g: Geometry, d: Disk, e: Disk, f: Disk, start: nat, k: nat)
    requires g.Sizes() && Sized(g, d) && Sized(g, e) && Sized(g, f) && MarksRun(g, d, e, start, k)
    requires Taken(g, e, f, RunAt(start, k))
    ensures MarksRun(g, d, f, start, k + 1) && (RunUsed(g, e, start, k) ==> RunUsed(g, f, start, k + 1))
  {
    TakenUsed(g, e, f, RunAt(start, k));
    hide Used, Taken, RunAt, Geometry.InRange, Geometry.Disjoint;
    forall b | g.InRange(b) && Used(g, f, b) && !Used(g, d, b)
      ensures exists j :: 0 <= j < k + 1 && b == RunAt(start, j)
    {
      if b != RunAt(start, k) {
        var j :| 0 <= j < k && b == RunAt(start, j);
        assert 0 <= j < k + 1;
      }
    }
  }

  lemma SkippedMarks(g: Geometry, d: Disk, e: Disk, start: nat, k: nat)
    requires g.Sizes() && Sized(g, d) && Sized(g, e) && MarksRun(g, d, e, start, k)
    ensures MarksRun(g, d, e, start, k + 1)
  {
    hide Used, RunAt, Geometry.InRange;
    forall b | g.InRange(b) && Used(g, e, b) && !Used(g, d, b)
      ensures exists j :: 0 <= j < k + 1 && b == RunAt(start, j)
    {
      var j :| 0 <= j < k && b == RunAt(start, j);
      assert 0 <= j < k + 1;
    }
  }

  lemma UnharmedUsed(g: Geometry, d: Disk, e: Disk, b: nat)
    requires Unharmed(g, d, e) && g.InRange(b)
    ensures Used(g, e, b) <==> Used(g, d, b)
  {
    hide TestBit, Geometry.BitOf, Geometry.GroupOf, SameContent, SameInodes, Owned;
  }

  lemma UnharmedMarks(g: Geometry, d: Disk, e: Disk, f: Disk, start: nat, k: nat)
    requires Unharmed(g, e, f) && Sized(g, d) && MarksRun(g, d, e, start, k)
    ensures MarksRun(g, d, f, start, k) && (RunUsed(g, e, start, k) ==> RunUsed(g, f, start, k))
  {
    forall b | g.InRange(b)
      ensures Used(g, f, b) <==> Used(g, e, b)
    {
      UnharmedUsed(g, e, f, b);
    }
    hide Used, RunAt, Geometry.InRange, SameContent, SameInodes, Owned, Geometry.Disjoint;
  }

  lemma TakenOwned(g: Geometry, d: Disk, e: Disk, b: nat)
    requires Taken(g, d, e, b) && Owned(g, d)
    ensures Owned(g, e) && SameContent(g, d, e) && SameInodes(g, d, e)
  {
    hide Refs, Used, Mark, Content, InodeAt, Geometry.InRange, Geometry.Disjoint, Marked, Single, MetaMarked;
    MarkOwned(g, d, b);
    MarkKeeps(g, d, b);
  }

  /**
   * ext2_reserve_blocks: marks what it can of a run. It returns how many it marked, and the free total
   * drops by that number; without I/O errors the whole run is then marked.
   */
  method ReserveBlocks(fs: Volume, start: nat, count: nat) returns (reserved: nat)
    requires fs.Valid() && start < TWO32 && count < TWO32
    modifies fs
    ensures fs.Valid() && MarksRun(fs.g, old(fs.disk), fs.disk, start, count)
    ensures fs.sbFreeBlocks + reserved == old(fs.sbFreeBlocks) && (reserved > 0 ==> fs.Clean())
    ensures fs.lost == old(fs.lost) ==> RunUsed(fs.g, fs.disk, start, count)
    ensures Owned(fs.g, old(fs.disk)) ==> Owned(fs.g, fs.disk) && OwnedSince(fs.g, fs.history, |old(fs.history)|)
  {
    hide Volume.Logged, Volume.Tracked, Volume.StoredTotals, Volume.StoredGroup, Volume.DescIn;
    hide Taken, Owned, MarksRun, RunUsed, RunAt, OwnedSince, Kept, BlockCounts, InodeCounts, Sum, Unharmed, SameContent,
         SameInodes;
    hide Geometry.Valid, Geometry.Sizes, Geometry.InRange;
    ValidSizes(fs.g);
    ghost var g, d, h := fs.g, fs.disk, |fs.history|;
    RunStart(g, d, start);
    KeptStart(g, d, fs.history);
    reserved := 0;
    var i := 0;
    while i < count
      invariant i <= count && fs.Valid() && MarksRun(g, d, fs.disk, start, i)
      invariant fs.sbFreeBlocks + reserved == old(fs.sbFreeBlocks)
      invariant fs.lost >= old(fs.lost) && (fs.lost == old(fs.lost) ==> RunUsed(g, fs.disk, start, i))
      invariant Kept(g, d, fs.disk, fs.history, h)
    {
      ghost var before, was := fs.disk, fs.history;
      var done := fs.ReserveBlock(RunAt(start, i));
      if done {
        reserved := reserved + 1;
        TakenMarks(g, d, before, fs.disk, start, i);
        KeptTaken(g, d, before, fs.disk, was, h, RunAt(start, i));
      } else {
        SkippedMarks(g, d, before, start, i);
        SkippedUsed(g, before, start, i);
      }
      i := i + 1;
    }
    if reserved > 0 {
      ghost var before, was := fs.disk, fs.history;
      fs.Sync();
      UnharmedMarks(g, d, before, fs.disk, start, count);
      KeptSync(g, d, before, fs.disk, was, fs.history, h);
    }
    KeptMeans(g, d, fs.disk, fs.history, h);
  }

  /** If d kept the ownership rule, so does e, and every state written since. */
  ghost predicate Kept(g: Geometry, d: Disk, e: Disk, history: seq<Disk>, h: nat) {
    h <= |history| && (Owned(g, d) ==> Owned(g, e) && OwnedSince(g, history, h))
  }

  lemma KeptStart(g: Geometry, d: Disk, history: seq<Disk>)
    ensures Kept(g, d, d, history, |history|)
  {
  }

  lemma KeptMeans(g: Geometry, d: Disk, e: Disk, history: seq<Disk>, h: nat)
    requires Kept(g, d, e, history, h)
    ensures Owned(g, d) ==> Owned(g, e) && OwnedSince(g, history, h)
  {
  }

  lemma KeptTaken(g: Geometry, d: Disk, e: Disk, f: Disk, history: seq<Disk>, h: nat, b: nat)
    requires Kept(g, d, e, history, h) && Taken(g, e, f, b)
    ensures Kept(g, d, f, history + [f], h)
  {
    hide Owned;
    if Owned(g, d) {
      TakenOwned(g, e, f, b);
    }
  }

  lemma KeptSync(g: Geometry, d: Disk, e: Disk, f: Disk, history: seq<Disk>, later: seq<Disk>, h: nat)
    requires Kept(g, d, e, history, h) && Unharmed(g, e, f) && history <= later
    requires Owned(g, e) ==> OwnedSince(g, later, |history|)
    ensures Kept(g, d, f, later, h)
  {
    hide Owned;
    UnharmedOwned(g, e, f);
    forall i | Owned(g, d) && h <= i < |later|
      ensures Owned(g, later[i])
    {
      if i < |history| {
        assert later[i] == history[i];
      }
    }
  }

  lemma RunStart(g: Geometry, d: Disk, start: nat)
    requires g.Sizes() && Sized(g, d)
    ensures MarksRun(g, d, d, start, 0) && RunUsed(g, d, start, 0)
  {
    hide Used, RunAt, Geometry.InRange;
  }

  lemma SkippedUsed(g: Geometry, e: Disk, start: nat, k: nat)
    requires g.Sizes() && Sized(g, e)
    ensures RunUsed(g, e, start, k) && (g.InRange(RunAt(start, k)) ==> Used(g, e, RunAt(start, k))) ==>
              RunUsed(g, e, start, k + 1)
  {
    hide Used, RunAt, Geometry.InRange;
  }

  lemma UnharmedOwned(g: Geometry, d: Disk, e: Disk)
    requires Unharmed(g, d, e)
    ensures Owned(g, d) ==> Owned(g, e) && SameContent(g, d, e) && SameInodes(g, d, e)
  {
  }

  /** Sync changes no inode. */
  lemma UnharmedInode(g: Geometry, d: Disk, e: Disk, ino: nat)
    requires Unharmed(g, d, e) && Owned(g, d) && g.ValidIno(ino)
    ensures g.Sizes() && Sized(g, d) && Sized(g, e) && InodeAt(g, e, ino) == InodeAt(g, d, ino)
  {
    hide InodeAt, SameContent, Geometry.Disjoint;
    OwnedSizes(g, d);
  }

  // ----- Creating an inode -----

  function InodeBitmap(g: Geometry, d: Disk, gr: nat): (bm: seq<byte>)
    requires gr < |g.groups| && Sized(g, d)
    ensures |bm| == g.bs
  {
    d[g.groups[gr].inodeBitmap]
  }

  /** The number of the inode behind a bit. */
  function InoAt(g: Geometry, gr: nat, bit: nat): nat {
    gr * g.ipg + bit + 1
  }

  /** A bit that the scan passes over: in use, or the number is reserved. */
  ghost predicate Skipped(g: Geometry, d: Disk, gr: nat, bit: nat)
    requires g.Sizes() && Sized(g, d) && gr < |g.groups| && bit < g.ipg
  {
    TestBit(InodeBitmap(g, d, gr), bit) || InoAt(g, gr, bit) < g.firstIno
  }

  /** The inode behind the first usable bit of group gr was clear and is now marked; nothing else changed. */
  ghost predicate InodeTaken(g: Geometry, d: Disk, e: Disk, gr: nat, bit: nat) {
    && g.Valid() && Sized(g, d) && gr < |g.groups| && bit < g.ipg && !Skipped(g, d, gr, bit)
    && (forall c :: 0 <= c < bit ==> Skipped(g, d, gr, c))
    && e == d[g.groups[gr].inodeBitmap := SetBit(InodeBitmap(g, d, gr), bit)]
  }

  ghost predicate NoInode(g: Geometry, d: Disk, gr: nat)
    requires g.Sizes() && Sized(g, d) && gr < |g.groups|
  {
    forall c :: 0 <= c < g.ipg ==> Skipped(g, d, gr, c)
  }

  lemma InodeTakenOwned(g: Geometry, d: Disk, e: Disk, gr: nat, bit: nat)
    requires InodeTaken(g, d, e, gr, bit) && Owned(g, d)
    ensures Owned(g, e) && SameContent(g, d, e) && SameInodes(g, d, e)
  {
    hide Refs, Used, Content, InodeAt, SetBit, TestBit, Geometry.InRange, Geometry.Disjoint, Marked, Single, MetaMarked,
         Skipped;
    SystemWriteOwned(g, d, g.groups[gr].inodeBitmap, SetBit(InodeBitmap(g, d, gr), bit));
    SystemKeeps(g, d, g.groups[gr].inodeBitmap, SetBit(InodeBitmap(g, d, gr), bit));
  }

  lemma InodeCountsLength(g: Geometry, d: Disk, freeInodes: seq<nat>)
    requires g.Sizes() && Sized(g, d) && InodeCounts(g, d, freeInodes)
    ensures |freeInodes| == |g.groups|
  {
  }

  /** A group whose count is zero has no clear bit at all. */
  lemma CountZeroSkips(g: Geometry, d: Disk, freeInodes: seq<nat>, gr: nat)
    requires g.Sizes() && Sized(g, d) && InodeCounts(g, d, freeInodes) && gr < |g.groups| && freeInodes[gr] == 0
    ensures NoInode(g, d, gr)
  {
    hide TestBit, CountClear;
    forall c | 0 <= c < g.ipg
      ensures Skipped(g, d, gr, c)
    {
      if !TestBit(InodeBitmap(g, d, gr), c) {
        CountPositive(InodeBitmap(g, d, gr), c, g.ipg);
      }
    }
  }

  lemma TakeInode(g: Geometry, d: Disk, gr: nat, bit: nat, freeBlocks: seq<nat>, freeInodes: seq<nat>)
    requires g.Valid() && Sized(g, d) && gr < |g.groups| && bit < g.ipg && !Skipped(g, d, gr, bit)
    requires BlockCounts(g, d, freeBlocks) && InodeCounts(g, d, freeInodes)
    ensures var e := d[g.groups[gr].inodeBitmap := SetBit(InodeBitmap(g, d, gr), bit)];
            && Sized(g, e) && BlockCounts(g, e, freeBlocks) && |freeInodes| == |g.groups|
            && freeInodes[gr] > 0 && InodeCounts(g, e, freeInodes[gr := freeInodes[gr] - 1])
  {
    hide TestBit, SetBit, BlockCounts, CountClear, Geometry.Disjoint;
    MarkInodeCounts(g, d, gr, bit, freeBlocks, freeInodes);
  }

  /** alloc_inode_in_group_locked: the first usable bit of the group. */
  method AllocInodeIn(fs: Volume, gr: nat) returns (rc: int, bit: nat)
    requires fs.Valid() && gr < |fs.g.groups|
    modifies fs
    ensures fs.Valid() && (rc == 0 || rc == -EIO || rc == -ENOSPC) && fs.lost >= old(fs.lost)
    ensures rc == 0 ==> InodeTaken(fs.g, old(fs.disk), fs.disk, gr, bit) && fs.history == old(fs.history) + [fs.disk]
    ensures rc != 0 ==> fs.disk == old(fs.disk) && fs.history == old(fs.history)
    ensures rc == -ENOSPC ==> NoInode(fs.g, fs.disk, gr)
    ensures rc == -EIO ==> fs.lost > old(fs.lost)
    ensures fs.sbFreeInodes == old(fs.sbFreeInodes) - if rc == 0 then 1 else 0
    ensures fs.sbFreeBlocks == old(fs.sbFreeBlocks)
  {
    hide Volume.Logged, Volume.Tracked;
    hide TestBit, SetBit, BlockCounts, InodeCounts, Sum, Geometry.Disjoint, Geometry.DescBlocks, InoAt;
    var g := fs.g;
    InodeCountsLength(g, fs.disk, fs.freeInodes);
    bit := 0;
    if fs.freeInodes[gr] == 0 {
      CountZeroSkips(g, fs.disk, fs.freeInodes, gr);
      return -ENOSPC, 0;
    }
    var bm;
    rc, bm := fs.ReadBlock(g.groups[gr].inodeBitmap);
    if rc != 0 {
      return -EIO, 0;
    }
    while bit < g.ipg && (TestBit(bm, bit) || InoAt(g, gr, bit) < g.firstIno)
      invariant bit <= g.ipg && forall c :: 0 <= c < bit ==> Skipped(g, fs.disk, gr, c)
    {
      bit := bit + 1;
    }
    if bit == g.ipg {
      return -ENOSPC, 0;
    }
    rc := fs.JournaledWrite(g.groups[gr].inodeBitmap, SetBit(bm, bit));
    if rc != 0 {
      return -EIO, 0;
    }
    TakeInode(g, old(fs.disk), gr, bit, fs.freeBlocks, fs.freeInodes);
    SumAtLeast(fs.freeInodes, gr);
    fs.AccountInode(gr);
  }

  lemma FreshAdopts(g: Geometry, d: Disk, ino: nat, mode: nat, now: nat)
    requires g.Sizes() && Sized(g, d) && g.ValidIno(ino) && mode < TWO16 && now < TWO32
    ensures Adopts(g, d, ino, FreshInode(mode, now), 0) && KeepsIndirect(InodeAt(g, d, ino), FreshInode(mode, now))
  {
    FreshFields(mode, now);
    hide InodeAt, FreshInode, PtrOf;
  }

  /** Only inode ino differs: it is new and empty. */
  ghost predicate Created(g: Geometry, d: Disk, e: Disk, ino: nat, mode: nat, now: nat) {
    && g.Valid() && Sized(g, d) && Sized(g, e) && g.ValidIno(ino) && mode < TWO16 && now < TWO32
    && InodeAt(g, e, ino) == FreshInode(mode, now) && Blank(InodeAt(g, e, ino), mode, now)
    && (forall i :: g.ValidIno(i) && i != ino ==> InodeAt(g, e, i) == InodeAt(g, d, i))
    && (forall i, pos: nat :: g.ValidIno(i) && i != ino ==> Content(g, e, i, pos) == Content(g, d, i, pos))
    && (forall pos: nat :: Content(g, e, ino, pos) == 0)
  }

  lemma FreshContent(g: Geometry, d: Disk, ino: nat, mode: nat, now: nat, pos: nat)
    requires g.Sizes() && Sized(g, d) && g.ValidIno(ino) && mode < TWO16 && now < TWO32
    requires InodeAt(g, d, ino) == FreshInode(mode, now)
    ensures Content(g, d, ino, pos) == 0
  {
    FreshFields(mode, now);
    hide FreshInode, PtrOf, InodeAt, Geometry.Logical, Geometry.Within;
  }

  lemma CreatedBy(g: Geometry, d: Disk, ino: nat, mode: nat, now: nat)
    requires Owned(g, d) && g.ValidIno(ino) && mode < TWO16 && now < TWO32
    ensures Owned(g, PutInode(g, d, ino, FreshInode(mode, now)))
    ensures Created(g, d, PutInode(g, d, ino, FreshInode(mode, now)), ino, mode, now)
  {
    hide Refs, Content, InodeAt, PutInode, FreshInode, Adopts, KeepsIndirect, Rewritten, Geometry.Disjoint, Marked,
         Single, MetaMarked, ByteAt, Blank;
    FreshBlank(mode, now);
    var n := FreshInode(mode, now);
    var e := PutInode(g, d, ino, n);
    FreshAdopts(g, d, ino, mode, now);
    AdoptOwned(g, d, ino, n, 0);
    PutInodeContent(g, d, ino, n);
    PutInodeReads(g, d, ino, n, ino);
    forall i | g.ValidIno(i) && i != ino
      ensures InodeAt(g, e, i) == InodeAt(g, d, i)
    {
      PutInodeReads(g, d, ino, n, i);
    }
    forall pos: nat
      ensures Content(g, e, ino, pos) == 0
    {
      FreshContent(g, e, ino, mode, now, pos);
    }
  }

  lemma CreatedFrame(g: Geometry, a: Disk, d: Disk, e: Disk, z: Disk, ino: nat, mode: nat, now: nat)
    requires Created(g, d, e, ino, mode, now) && Sized(g, a) && Sized(g, z)
    requires SameContent(g, a, d) && SameInodes(g, a, d) && SameContent(g, e, z) && SameInodes(g, e, z)
    ensures Created(g, a, z, ino, mode, now)
  {
    hide Content, InodeAt, FreshInode, Geometry.Disjoint, Blank;
  }

  /** ext2_alloc_inode. */
  method CreateInode(fs: Volume, mode: nat, now: nat) returns (rc: int, ino: nat)
    requires fs.Valid() && Owned(fs.g, fs.disk) && mode < TWO16 && now < TWO32
    modifies fs
    ensures fs.Valid() && Owned(fs.g, fs.disk) && OwnedSince(fs.g, fs.history, |old(fs.history)|)
    ensures rc == 0 ==> Created(fs.g, old(fs.disk), fs.disk, ino, mode, now)
    ensures rc == 0 ==> exists gr, bit :: FirstFree(fs.g, old(fs.disk), gr, bit) && ino == InoAt(fs.g, gr, bit) && InodeUsed(fs.g, fs.disk, gr, bit)
    ensures rc == 0 ==> fs.sbFreeInodes == old(fs.sbFreeInodes) - 1 && fs.Clean()
    ensures fs.sbFreeBlocks == old(fs.sbFreeBlocks)
    ensures rc != 0 ==> SameContent(fs.g, old(fs.disk), fs.disk) && SameInodes(fs.g, old(fs.disk), fs.disk)
    ensures rc != 0 && fs.lost == old(fs.lost) ==>
              || (rc == -ENOSPC && forall gr :: 0 <= gr < |fs.g.groups| ==> NoInode(fs.g, old(fs.disk), gr))
              || exists gr, bit :: FirstFree(fs.g, old(fs.disk), gr, bit) && !fs.g.ValidIno(InoAt(fs.g, gr, bit))
  {
    hide Volume.Logged, Volume.Tracked, Volume.StoredTotals, Volume.StoredGroup, Volume.DescIn;
    hide TestBit, SetBit, BlockCounts, InodeCounts, Sum, Geometry.Disjoint, Geometry.DescBlocks, InoAt, InodeTaken,
         FirstFree, InodeUsed;
    hide Created, Marked, Single, MetaMarked, SameContent, SameInodes, FreshInode, PutInode, NoInode, Unharmed;
    var g := fs.g;
    SameRefl(g, fs.disk);
    var bit := 0;
    rc, ino := -ENOSPC, 0;
    var gr := 0;
    while gr < |g.groups|
      invariant gr <= |g.groups| && fs.Valid() && rc == -ENOSPC && fs.lost >= old(fs.lost)
      invariant fs.disk == old(fs.disk) && fs.history == old(fs.history)
      invariant fs.sbFreeBlocks == old(fs.sbFreeBlocks) && fs.sbFreeInodes == old(fs.sbFreeInodes)
      invariant forall k :: 0 <= k < gr ==> NoInode(g, fs.disk, k)
    {
      rc, bit := AllocInodeIn(fs, gr);
      if rc == 0 || rc == -EIO {
        break;
      }
      gr := gr + 1;
    }
    if rc != 0 {
      return;
    }
    ghost var marked := fs.disk;
    InodeTakenOwned(g, old(fs.disk), marked, gr, bit);
    TakenFirst(g, old(fs.disk), marked, gr, bit);
    ino := InoAt(g, gr, bit);
    rc := fs.WriteInode(ino, FreshInode(mode, now));
    if rc != 0 {
      return;
    }
    ghost var stored := fs.disk;
    CreatedBy(g, marked, ino, mode, now);
    fs.Sync();
    UnharmedOwned(g, stored, fs.disk);
    StaysUsed(g, marked, ino, FreshInode(mode, now), fs.disk, gr, bit);
    CreatedFrame(g, old(fs.disk), marked, stored, fs.disk, ino, mode, now);
  }

  /** The first usable clear bit of all groups. */
  ghost predicate FirstFree(g: Geometry, d: Disk, gr: nat, bit: nat) {
    && g.Sizes() && Sized(g, d) && gr < |g.groups| && bit < g.ipg && !Skipped(g, d, gr, bit)
    && (forall c :: 0 <= c < bit ==> Skipped(g, d, gr, c))
    && (forall k :: 0 <= k < gr ==> NoInode(g, d, k))
  }

  ghost predicate InodeUsed(g: Geometry, d: Disk, gr: nat, bit: nat) {
    g.Sizes() && Sized(g, d) && gr < |g.groups| && bit < g.ipg && TestBit(InodeBitmap(g, d, gr), bit)
  }

  lemma TakenFirst(g: Geometry, d: Disk, e: Disk, gr: nat, bit: nat)
    requires InodeTaken(g, d, e, gr, bit) && forall k :: 0 <= k < gr ==> NoInode(g, d, k)
    ensures FirstFree(g, d, gr, bit) && InodeUsed(g, e, gr, bit)
  {
    hide TestBit, SetBit, NoInode, InoAt;
    SetBitTests(InodeBitmap(g, d, gr), bit, bit);
  }

  /** Storing an inode and the system blocks leaves the inode bitmaps alone. */
  lemma StaysUsed(g: Geometry, d: Disk, ino: nat, n: Inode, e: Disk, gr: nat, bit: nat)
    requires g.Valid() && InodeUsed(g, d, gr, bit) && g.ValidIno(ino) && Unharmed(g, PutInode(g, d, ino, n), e)
    ensures InodeUsed(g, e, gr, bit)
  {
    hide TestBit, Owned, SameContent, SameInodes;
    InodeInTable(g, ino);
    var blk := g.groups[gr].inodeBitmap;
    assert g.InodeBlock(ino) != blk;
    assert blk !in g.system;
  }

  lemma SameRefl(g: Geometry, d: Disk)
    requires g.Sizes() && Sized(g, d)
    ensures SameContent(g, d, d) && SameInodes(g, d, d)
  {
    hide Content, InodeAt;
  }
}
