/** Looking up, adding and removing directory entries (src/kernel/fs/ext2.c:266-299, 645-868, 893-913). */
module Ext2DirOps {
  import opened Errno
  import opened Words
  import opened Ext2Layout
  import opened Ext2Inode
  import opened Ext2Stat
  import opened Ext2Owner
  import opened Ext2File
  import opened Ext2Counts
  import opened Ext2Dir
  import opened Ext2DirMap
  import opened Ext2DirScan
  import opened Ext2DirDisk
  import opened Ext2Volume
  import opened Ext2Alloc
  import opened Ext2FileOps
  import opened Ext2Read

  // ----- Lookup -----

  lemma BlockBehind(g: Geometry, d: Disk, n: Inode, l: nat)
    requires DirOk(g, d, n) && l < DirLen(g, n)
    ensures Phys(g, d, n, l) != 0 && DirBlocks(g, d, n)[l] == d[Phys(g, d, n, l)]
            && Tiled(DirBlocks(g, d, n)[l], 0, g.bs)
  {
    hide Phys, Tiled, DirLen, PtrOf, SizeOf;
    assert |BlockBytes(g, d, n, l)| == g.bs;
  }

  /** The blocks before l do not have the name. */
  ghost predicate NotBefore(bs: seq<seq<byte>>, l: nat, name: seq<byte>)
    requires AllTiled(bs)
  {
    forall i :: 0 <= i < l && i < |bs| ==> Absent(BlockEntries(bs[i]), name)
  }

  lemma FoundResolves(bs: seq<seq<byte>>, l: nat, name: seq<byte>, prev: int, off: nat)
    requires AllTiled(bs) && l < |bs| && NotBefore(bs, l, name) && FoundAt(bs[l], name, prev, off)
    ensures Resolve(Entries(bs), name) == InoOf(bs[l], off)
  {
    hide Tiled, Live, LiveAt, Absent, Matches, InoOf, LenOf, NameLenOf, Fits;
    var b := bs[l];
    StandingStep(b, off);
    MatchesMeans(b, off, name);
    var next := off + LenOf(b, off);
    StandingAll(b, next);
    var front, x, y, back := Entries(bs[..l]), Live(b, 0, off), Live(b, next, |b|), Entries(bs[l + 1..]);
    EntriesAround(bs, l);
    AbsentBlocks(bs[..l], name);
    var e := LiveAt(b, off, |b|)[0];
    hide Entries;
    ResolveFirst(front, x, e, y, back, name);
  }

  lemma ResolveFirst(front: seq<Entry>, x: seq<Entry>, e: Entry, y: seq<Entry>, back: seq<Entry>, name: seq<byte>)
    requires Absent(front, name) && Absent(x, name) && e.name == name
    ensures Resolve(front + (x + [e] + y) + back, name) == e.ino
  {
    hide Absent;
    var rest := [e] + (y + back);
    assert front + (x + [e] + y) + back == front + (x + rest);
    ResolveConcat(front, x + rest, name);
    ResolveConcat(x, rest, name);
  }

  lemma NotAnywhere(bs: seq<seq<byte>>, name: seq<byte>)
    requires AllTiled(bs) && NotBefore(bs, |bs|, name)
    ensures Absent(Entries(bs), name) && Resolve(Entries(bs), name) == 0
  {
    hide Tiled, BlockEntries, Absent;
    AbsentBlocks(bs, name);
    ResolveAbsent(Entries(bs), name);
  }

  lemma NotBeforeNext(bs: seq<seq<byte>>, l: nat, name: seq<byte>)
    requires AllTiled(bs) && l < |bs| && NotBefore(bs, l, name) && Absent(BlockEntries(bs[l]), name)
    ensures NotBefore(bs, l + 1, name)
  {
    hide Tiled, BlockEntries, Absent;
  }

  lemma BeforeSize(g: Geometry, n: Inode, l: nat)
    requires g.bs > 0 && SizeOf(n) == DirLen(g, n) * g.bs
    ensures l * g.bs < SizeOf(n) <==> l < DirLen(g, n)
  {
    hide SizeOf, DirLen;
    var k := DirLen(g, n);
    if l < k {
      MulBelow(l, k, g.bs);
    } else if k < l {
      MulBelow(k, l, g.bs);
    }
  }

  /** dir_lookup_in_inode: the inode that the name resolves to, 0 if none. */
  method LookupIn(fs: Volume, n: Inode, name: seq<byte>) returns (ino: nat)
    requires fs.Valid() && DirOk(fs.g, fs.disk, n)
    modifies fs`lost
    ensures fs.Valid() && fs.lost >= old(fs.lost)
    ensures fs.lost == old(fs.lost) ==> ino == Resolve(DirEntries(fs.g, fs.disk, n), name)
  {
    hide Volume.Logged, Volume.Tracked;
    hide Geometry.Valid, Geometry.Sizes, BlockCounts, InodeCounts, Sum, SizeOf, DirLen, Phys, DirBlocks, PtrOf, Tiled,
         AllTiled, Entries, Absent, BlockEntries, FoundAt, NotBefore;
    var g := fs.g;
    ghost var bs := DirBlocks(g, fs.disk, n);
    NotBeforeStart(bs, name);
    DirBlocksLen(g, fs.disk, n);
    var l := 0;
    while l * g.bs < SizeOf(n)
      invariant fs.Valid() && l <= DirLen(g, n) && NotBefore(bs, l, name) && fs.lost >= old(fs.lost)
      decreases DirLen(g, n) - l
    {
      BeforeSize(g, n, l);
      BlockBehind(g, fs.disk, n, l);
      var phys := BlockPhys(fs, n, l);
      if phys == 0 {
        return 0;
      }
      var rc, b := fs.ReadBlock(phys);
      if rc != 0 {
        return 0;
      }
      var found, prev, off := FindEntry(b, name);
      if found {
        FoundResolves(bs, l, name, prev, off);
        FoundHeader(b, name, prev, off);
        return InoOf(b, off);
      }
      NotBeforeNext(bs, l, name);
      l := l + 1;
    }
    BeforeSize(g, n, l);
    NotAnywhere(bs, name);
    return 0;
  }

  lemma DirBlocksLen(g: Geometry, d: Disk, n: Inode)
    requires DirOk(g, d, n)
    ensures |DirBlocks(g, d, n)| == DirLen(g, n)
  {
  }

  lemma NotBeforeStart(bs: seq<seq<byte>>, name: seq<byte>)
    requires AllTiled(bs)
    ensures NotBefore(bs, 0, name)
  {
  }

  lemma FoundHeader(b: seq<byte>, name: seq<byte>, prev: int, off: nat)
    requires FoundAt(b, name, prev, off)
    ensures off + HEADER <= |b|
  {
  }

  /** ext2_dir_lookup: 0 also for a bad name, a bad inode, or one that is not a directory. */
  method Lookup(fs: Volume, parent: nat, name: seq<byte>) returns (ino: nat)
    requires fs.Valid() && GoodDirectory(fs.g, fs.disk, parent)
    modifies fs`lost
    ensures fs.Valid() && fs.lost >= old(fs.lost)
    ensures |name| == 0 || !fs.g.ValidIno(parent) || !IsDirectory(InodeAt(fs.g, fs.disk, parent)) ==> ino == 0
    ensures fs.lost == old(fs.lost) && |name| > 0 && fs.g.ValidIno(parent)
            && IsDirectory(InodeAt(fs.g, fs.disk, parent)) ==>
              ino == Resolve(DirEntries(fs.g, fs.disk, InodeAt(fs.g, fs.disk, parent)), name)
  {
    hide Volume.Logged, Volume.Tracked;
    hide Geometry.Valid, Geometry.Sizes, Geometry.ValidIno, BlockCounts, InodeCounts, Sum, ModeOf, DirOk, Resolve,
         DirEntries, InodeAt;
    ValidSizes(fs.g);
    if |name| == 0 {
      return 0;
    }
    var rc, n := fs.ReadInode(parent);
    if rc != 0 || !IsDirectory(n) {
      return 0;
    }
    ino := LookupIn(fs, n, name);
  }

  /** If it is a directory at all, it is a well-formed one. */
  ghost predicate GoodDirectory(g: Geometry, d: Disk, ino: nat) {
    g.Sizes() && Sized(g, d) && (g.ValidIno(ino) && IsDirectory(InodeAt(g, d, ino)) ==> DirOk(g, d, InodeAt(g, d, ino)))
  }

  // ----- Add -----

  /** The entry was added, and nothing but the directory changed. */
  ghost predicate EntryAdded(g: Geometry, d: Disk, e: Disk, ino: nat, entry: Entry) {
    && g.Sizes() && Sized(g, d) && Sized(g, e) && g.ValidIno(ino) && OthersSame(g, d, e, ino)
    && DirOk(g, d, InodeAt(g, d, ino)) && DirOk(g, e, InodeAt(g, e, ino))
    && Added(DirEntries(g, d, InodeAt(g, d, ino)), DirEntries(g, e, InodeAt(g, e, ino)), entry)
    && ModeOf(InodeAt(g, e, ino)) == ModeOf(InodeAt(g, d, ino))
  }

  /** The inode of the directory is n. */
  ghost predicate InodeIs(g: Geometry, d: Disk, ino: nat, n: Inode) {
    g.Sizes() && Sized(g, d) && g.ValidIno(ino) && InodeAt(g, d, ino) == n
  }

  /** The inode of the directory, which was n, has one block more, for pointer l. */
  ghost predicate ParentGrew(g: Geometry, d: Disk, ino: nat, n: Inode, l: nat, now: nat) {
    g.Sizes() && Sized(g, d) && g.ValidIno(ino) && DirGrew(g.bs, n, InodeAt(g, d, ino), l, now)
  }

  /** The inode of the directory, which was n, has these times and is otherwise the same. */
  ghost predicate ParentStamped(g: Geometry, d: Disk, ino: nat, n: Inode, now: nat) {
    g.Sizes() && Sized(g, d) && g.ValidIno(ino) && Restamped(n, InodeAt(g, d, ino), now)
  }

  lemma InodeStays(g: Geometry, d: Disk, e: Disk, ino: nat, n: Inode)
    requires Unharmed(g, d, e) && Owned(g, d) && InodeIs(g, d, ino, n)
    ensures InodeIs(g, e, ino, n)
  {
    hide Unharmed, Owned, InodeAt, Geometry.Sizes, Geometry.ValidIno;
    UnharmedInode(g, d, e, ino);
  }

  /** The blocks that add and remove look at: the direct ones. */
  function Reach(k: nat): nat { if k < NDIR then k else NDIR }

  ghost predicate RoomIn(b: seq<byte>, need: nat)
    requires Tiled(b, 0, |b|)
  {
    HasRoom(b, 0, |b|, need)
  }

  /** Neither the name nor room for it in the blocks before l. */
  ghost predicate Passed(bs: seq<seq<byte>>, l: nat, name: seq<byte>)
    requires AllTiled(bs)
  {
    forall i :: 0 <= i < l && i < |bs| ==> Absent(BlockEntries(bs[i]), name) && !RoomIn(bs[i], EntrySize(|name|))
  }

  /** Some direct block has the name, and none before it has room: what add notices as a duplicate. */
  ghost predicate Noticed(bs: seq<seq<byte>>, name: seq<byte>)
    requires AllTiled(bs)
  {
    exists j :: 0 <= j < Reach(|bs|) && NoticedAt(bs, name, j)
  }

  ghost predicate NoticedAt(bs: seq<seq<byte>>, name: seq<byte>, j: nat)
    requires AllTiled(bs) && j < |bs|
  {
    !Absent(BlockEntries(bs[j]), name) && forall i :: 0 <= i < j ==> !RoomIn(bs[i], EntrySize(|name|))
  }

  lemma PassedNext(bs: seq<seq<byte>>, l: nat, name: seq<byte>)
    requires AllTiled(bs) && l < |bs| && Passed(bs, l, name)
    requires Absent(BlockEntries(bs[l]), name) && !RoomIn(bs[l], EntrySize(|name|))
    ensures Passed(bs, l + 1, name)
  {
    hide Tiled, BlockEntries, Absent, RoomIn;
  }

  lemma PassedNotBefore(bs: seq<seq<byte>>, l: nat, name: seq<byte>)
    requires AllTiled(bs) && Passed(bs, l, name)
    ensures NotBefore(bs, l, name)
  {
    hide Tiled, BlockEntries, Absent, RoomIn;
  }

  lemma PassedNoticed(bs: seq<seq<byte>>, l: nat, name: seq<byte>)
    requires AllTiled(bs) && l < Reach(|bs|) && Passed(bs, l, name) && !Absent(BlockEntries(bs[l]), name)
    ensures Noticed(bs, name)
  {
    hide Tiled, BlockEntries, Absent, RoomIn;
    assert NoticedAt(bs, name, l);
  }

  /** Once a block with room is reached without the name, it is not noticed any more. */
  lemma PassedUnnoticed(bs: seq<seq<byte>>, l: nat, name: seq<byte>)
    requires AllTiled(bs) && Passed(bs, l, name)
    requires l >= Reach(|bs|) || (Absent(BlockEntries(bs[l]), name) && RoomIn(bs[l], EntrySize(|name|)))
    ensures !Noticed(bs, name)
  {
    hide Tiled, BlockEntries, Absent, RoomIn;
  }

  lemma InsertAdds(g: Geometry, d: Disk, e: Disk, ino: nat, n: Inode, l: nat, off: nat, entry: Entry)
    requires DirOk(g, d, n) && l < DirLen(g, n) && CanInsert(DirBlocks(g, d, n)[l], off, entry)
    requires BlockStored(g, d, e, ino, n, l, Insert(DirBlocks(g, d, n)[l], off, entry))
    requires Passed(DirBlocks(g, d, n), l, entry.name) && Absent(BlockEntries(DirBlocks(g, d, n)[l]), entry.name)
    ensures EntryAdded(g, d, e, ino, entry)
  {
    hide Tiled, BlockEntries, Absent, RoomIn, InodeAt, Owned, Phys, PtrOf, SizeOf, ModeOf, DirLen, OthersSame,
         CanInsert, Insert, Added, Entries, LenOf, Inserted, EntrySize, BlockBytes;
    OwnedSizes(g, d);
    OwnedSizes(g, e);
    var bs := DirBlocks(g, d, n);
    InsertLive(bs[l], off, entry);
    CanInsertHeader(bs[l], off, entry);
    InsertedAdds(bs, l, Insert(bs[l], off, entry), off + LenOf(bs[l], off), entry);
  }

  lemma CanInsertHeader(b: seq<byte>, off: nat, entry: Entry)
    requires CanInsert(b, off, entry)
    ensures off + HEADER <= |b|
  {
  }

  lemma RoomInserts(b: seq<byte>, off: nat, entry: Entry)
    requires ValidName(entry.name) && 0 < entry.ino < TWO32 && off < |b| < TWO16
    requires Standing(b, off) && Fits(b, off, |b|) && Slack(b, off) >= EntrySize(|entry.name|)
    ensures CanInsert(b, off, entry)
  {
    hide Slack, EntrySize, Fits, Tiled;
  }

  lemma InsertedTiled(b: seq<byte>, off: nat, entry: Entry)
    requires CanInsert(b, off, entry)
    ensures Tiled(Insert(b, off, entry), 0, |b|)
  {
    hide CanInsert, Insert, LenOf, Live, Tiled;
    CanInsertHeader(b, off, entry);
    InsertLive(b, off, entry);
  }

  /** The loop over the direct blocks of ext2_dir_add_entry; done unless every block was passed. */
  method AddInBlocks(fs: Volume, ino: nat, n: Inode, entry: Entry) returns (done: bool, rc: int)
    requires fs.Valid() && Owned(fs.g, fs.disk) && fs.g.ValidIno(ino) && InodeAt(fs.g, fs.disk, ino) == n
             && DirOk(fs.g, fs.disk, n)
    requires ValidName(entry.name) && 0 < entry.ino < TWO32
    modifies fs
    ensures fs.Valid() && Owned(fs.g, fs.disk) && OwnedSince(fs.g, fs.history, |old(fs.history)|)
    ensures old(fs.history) <= fs.history && fs.lost >= old(fs.lost)
    ensures done && rc == 0 ==> EntryAdded(fs.g, old(fs.disk), fs.disk, ino, entry) && InodeIs(fs.g, fs.disk, ino, n)
    ensures done && rc == 0 ==> fs.Clean() && exists l :: InFirstRoom(fs.g, old(fs.disk), fs.disk, ino, n, entry, l)
    ensures fs.sbFreeBlocks == old(fs.sbFreeBlocks) && fs.sbFreeInodes == old(fs.sbFreeInodes)
    ensures !done || rc != 0 ==> fs.disk == old(fs.disk) && fs.history == old(fs.history)
    ensures !done ==> Passed(DirBlocks(fs.g, old(fs.disk), n), Reach(DirLen(fs.g, n)), entry.name) && fs.lost == old(fs.lost)
    ensures done ==> rc == 0 || rc == -EEXIST || (rc == -EIO && fs.lost > old(fs.lost))
    ensures done ==> (rc == -EEXIST ==> Noticed(DirBlocks(fs.g, old(fs.disk), n), entry.name))
    ensures done ==> (rc == 0 ==> !Noticed(DirBlocks(fs.g, old(fs.disk), n), entry.name))
  {
    hide Volume.Logged, Volume.Tracked, Volume.StoredTotals, Volume.StoredGroup, Volume.DescIn;
    hide Tiled, AllTiled, BlockEntries, Absent, RoomIn, InodeAt, Owned, Phys, PtrOf, SizeOf, ModeOf, DirLen, DirOk,
         DirBlocks, OthersSame, CanInsert, Insert, EntrySize, Slack, Fits, HasRoom;
    hide Geometry.Valid, Geometry.Sizes, Geometry.ValidIno, Geometry.Reserved, BlockCounts, InodeCounts, Sum, Passed,
         Noticed, EntryAdded, BlockStored, FoundAt, Standing, Unharmed, InodeIs, InFirstRoom;
    var g := fs.g;
    ghost var d := fs.disk;
    ValidSizes(g);
    OwnedSizes(g, d);
    ghost var bs := DirBlocks(g, d, n);
    DirFacts(g, d, n);
    PassedStart(bs, entry.name);
    rc := 0;
    var l := 0;
    while l < NDIR
      invariant l <= Reach(DirLen(g, n)) && Passed(bs, l, entry.name)
      invariant fs.Valid() && fs.disk == d && fs.history == old(fs.history) && fs.lost == old(fs.lost)
      invariant fs.sbFreeBlocks == old(fs.sbFreeBlocks) && fs.sbFreeInodes == old(fs.sbFreeInodes)
    {
      DirPtr(g, d, n, l);
      var phys := PtrOf(n, l);
      if phys == 0 {
        break;
      }
      BlockBehind(g, d, n, l);
      var b;
      rc, b := fs.ReadBlock(phys);
      if rc != 0 {
        return true, -EIO;
      }
      var found, prev, off := FindEntry(b, entry.name);
      if found {
        PassedNoticed(bs, l, entry.name);
        return true, -EEXIST;
      }
      var room;
      room, off := FindRoom(b, EntrySize(|entry.name|));
      RoomInMeans(b, EntrySize(|entry.name|));
      if room {
        PassedUnnoticed(bs, l, entry.name);
        RoomInserts(b, off, entry);
        InsertedTiled(b, off, entry);
        var c := Insert(b, off, entry);
        DirBlockWrite(g, d, ino, n, l, c);
        rc := fs.WriteData(phys, c);
        if rc != 0 {
          return true, -EIO;
        }
        InsertAdds(g, d, fs.disk, ino, n, l, off, entry);
        StoredIsOwned(g, d, fs.disk, ino, n, l, c);
        ghost var e := fs.disk;
        StoredInode(g, d, e, ino, n, l, c);
        InsertFirst(g, d, e, ino, n, l, off, entry);
        fs.Sync();
        UnharmedOwned(g, e, fs.disk);
        InodeStays(g, e, fs.disk, ino, n);
        FirstFrame(g, d, e, fs.disk, ino, n, entry, l);
        AddedFrame(g, d, e, fs.disk, ino, entry);
        return true, 0;
      }
      PassedNext(bs, l, entry.name);
      l := l + 1;
    }
    done := false;
  }

  /** The entry is in block l, the first with room for it, and no other block has changed. */
  ghost predicate InFirstRoom(g: Geometry, d: Disk, e: Disk, ino: nat, n: Inode, entry: Entry, l: nat) {
    && DirOk(g, d, n) && g.Sizes() && Sized(g, e) && g.ValidIno(ino) && InodeAt(g, e, ino) == n && DirOk(g, e, n)
    && var bs, cs := DirBlocks(g, d, n), DirBlocks(g, e, n);
    && l < |bs| == |cs| && cs == bs[l := cs[l]]
    && (forall i :: 0 <= i < l ==> !RoomIn(bs[i], EntrySize(|entry.name|)))
    && exists next :: Inserted(bs[l], cs[l], next, entry)
  }

  lemma InsertFirst(g: Geometry, d: Disk, e: Disk, ino: nat, n: Inode, l: nat, off: nat, entry: Entry)
    requires DirOk(g, d, n) && l < DirLen(g, n) && CanInsert(DirBlocks(g, d, n)[l], off, entry)
    requires Passed(DirBlocks(g, d, n), l, entry.name)
    requires BlockStored(g, d, e, ino, n, l, Insert(DirBlocks(g, d, n)[l], off, entry))
    ensures InFirstRoom(g, d, e, ino, n, entry, l)
  {
    OwnedSizes(g, e);
    DirFacts(g, d, n);
    hide Tiled, AllTiled, BlockEntries, RoomIn, InodeAt, Owned, Phys, PtrOf, SizeOf, DirLen, DirOk, DirBlocks, OthersSame,
         CanInsert, Insert, EntrySize, Inserted, Geometry.Sizes;
    InsertLive(DirBlocks(g, d, n)[l], off, entry);
  }

  lemma FirstFrame(g: Geometry, d: Disk, e: Disk, f: Disk, ino: nat, n: Inode, entry: Entry, l: nat)
    requires InFirstRoom(g, d, e, ino, n, entry, l) && Owned(g, e) && Unharmed(g, e, f)
    ensures InFirstRoom(g, d, f, ino, n, entry, l)
  {
    UnharmedOwned(g, e, f);
    OwnedSizes(g, f);
    hide InodeAt, Owned, Unharmed, DirOk, DirBlocks, RoomIn, Inserted, EntrySize, Geometry.Sizes, Geometry.ValidIno;
    UnharmedDir(g, e, f, ino, n);
  }

  lemma RoomInMeans(b: seq<byte>, need: nat)
    requires Tiled(b, 0, |b|)
    ensures RoomIn(b, need) <==> HasRoom(b, 0, |b|, need)
  {
  }

  lemma DirFacts(g: Geometry, d: Disk, n: Inode)
    requires DirOk(g, d, n)
    ensures |DirBlocks(g, d, n)| == DirLen(g, n) && AllTiled(DirBlocks(g, d, n))
  {
  }

  lemma PassedStart(bs: seq<seq<byte>>, name: seq<byte>)
    requires AllTiled(bs)
    ensures Passed(bs, 0, name)
  {
  }

  lemma StoredIsOwned(g: Geometry, d: Disk, e: Disk, ino: nat, n: Inode, j: nat, c: seq<byte>)
    requires BlockStored(g, d, e, ino, n, j, c)
    ensures Owned(g, e)
  {
  }

  lemma SameDirectory(g: Geometry, d: Disk, e: Disk, ino: nat, n: Inode)
    requires g.Sizes() && Sized(g, d) && Sized(g, e) && g.ValidIno(ino) && InodeAt(g, d, ino) == n
             && InodeAt(g, e, ino) == n
    requires forall pos: nat :: Content(g, e, ino, pos) == Content(g, d, ino, pos)
    ensures DirBlocks(g, e, n) == DirBlocks(g, d, n)
  {
    hide Content, InodeAt, BlockBytes, DirLen, Geometry.Sizes, Geometry.Logical;
    SizesPositive(g);
    forall l | 0 <= l < DirLen(g, n)
      ensures DirBlocks(g, e, n)[l] == DirBlocks(g, d, n)[l]
    {
      SameBlockBytes(g, d, e, ino, n, n, l);
    }
  }

  // ----- A directory and the writes of Sync -----

  lemma OwnedOutside(g: Geometry, d: Disk, ino: nat, n: Inode, q: Path)
    requires Owned(g, d) && g.ValidIno(ino) && InodeAt(g, d, ino) == n && q.Valid(g.PerBlock()) && Ptr(g, d, n, q) != 0
    ensures Ptr(g, d, n, q) !in g.system
  {
    hide Ptr, InodeAt, Used, Geometry.InRange, Geometry.Disjoint, Geometry.InTable;
    assert Refs(g, d, ino, q, Ptr(g, d, n, q));
  }

  lemma UnharmedPtr(g: Geometry, d: Disk, e: Disk, ino: nat, n: Inode, p: Path)
    requires Owned(g, d) && Unharmed(g, d, e) && g.ValidIno(ino) && InodeAt(g, d, ino) == n && p.Valid(g.PerBlock())
    ensures Ptr(g, e, n, p) == Ptr(g, d, n, p)
  {
    hide InodeAt, Marked, Single, MetaMarked, Geometry.Disjoint, PtrOf, SameContent, SameInodes;
    match p
    case IndEntry(j) =>
      if Ptr(g, d, n, Ind) != 0 {
        OwnedOutside(g, d, ino, n, Ind);
      }
    case Mid(j) =>
      if Ptr(g, d, n, Dind) != 0 {
        OwnedOutside(g, d, ino, n, Dind);
      }
    case MidEntry(j, k) =>
      if Ptr(g, d, n, Dind) != 0 {
        OwnedOutside(g, d, ino, n, Dind);
      }
      if Ptr(g, d, n, Mid(j)) != 0 {
        OwnedOutside(g, d, ino, n, Mid(j));
      }
    case _ =>
  }

  lemma UnharmedPhys(g: Geometry, d: Disk, e: Disk, ino: nat, n: Inode, l: nat)
    requires Owned(g, d) && Unharmed(g, d, e) && g.ValidIno(ino) && InodeAt(g, d, ino) == n
    ensures Phys(g, e, n, l) == Phys(g, d, n, l)
  {
    hide InodeAt, Ptr, Marked, Single, MetaMarked, Geometry.Disjoint, SameContent, SameInodes, BlockPath;
    var p := BlockPath(g.PerBlock(), l);
    if p.Some? {
      UnharmedPtr(g, d, e, ino, n, p.value);
    }
  }

  /** Sync leaves a directory as it is. */
  lemma UnharmedDir(g: Geometry, d: Disk, e: Disk, ino: nat, n: Inode)
    requires Owned(g, d) && Unharmed(g, d, e) && g.ValidIno(ino) && InodeAt(g, d, ino) == n && DirOk(g, d, n)
    ensures InodeAt(g, e, ino) == n && DirOk(g, e, n) && DirBlocks(g, e, n) == DirBlocks(g, d, n)
  {
    UnharmedOwned(g, d, e);
    OwnedSizes(g, d);
    OwnedSizes(g, e);
    hide InodeAt, Owned, Phys, Unharmed, Content, DirLen, SizeOf, PtrOf, AllTiled, Geometry.Sizes, Geometry.Valid,
         Geometry.ValidIno;
    SameDirectory(g, d, e, ino, n);
    forall l | 0 <= l < DirLen(g, n)
      ensures Phys(g, e, n, l) != 0
    {
      UnharmedPhys(g, d, e, ino, n, l);
    }
  }

  lemma OthersFrame(g: Geometry, d: Disk, e: Disk, f: Disk, ino: nat)
    requires g.Sizes() && Sized(g, d) && Sized(g, e) && Sized(g, f) && OthersSame(g, d, e, ino)
    requires SameContent(g, e, f) && SameInodes(g, e, f)
    ensures OthersSame(g, d, f, ino)
  {
    hide InodeAt, Content;
  }

  lemma AddedFrame(g: Geometry, d: Disk, e: Disk, f: Disk, ino: nat, entry: Entry)
    requires EntryAdded(g, d, e, ino, entry) && Owned(g, e) && Unharmed(g, e, f)
    ensures EntryAdded(g, d, f, ino, entry)
  {
    UnharmedOwned(g, e, f);
    OwnedSizes(g, f);
    hide InodeAt, Owned, Unharmed, OthersSame, DirOk, DirBlocks, Added, Entries, ModeOf, SameContent, SameInodes,
         Geometry.Sizes, Geometry.Valid, Geometry.ValidIno;
    UnharmedDir(g, e, f, ino, InodeAt(g, e, ino));
    OthersFrame(g, d, e, f, ino);
  }

  // ----- Add, as a whole -----

  /** The block that ext2_dir_add_entry lays out for a single entry. */
  function SingleEntry(g: Geometry, entry: Entry): (c: seq<byte>)
    requires 1024 <= g.bs < TWO16 && ValidName(entry.name) && 0 < entry.ino < TWO32
    ensures |c| == g.bs
  {
    PutRecord(Zeros(g.bs), 0, g.bs, entry)
  }

  lemma SingleEntryTiled(g: Geometry, entry: Entry)
    requires 1024 <= g.bs < TWO16 && ValidName(entry.name) && 0 < entry.ino < TWO32
    ensures Tiled(SingleEntry(g, entry), 0, g.bs) && BlockEntries(SingleEntry(g, entry)) == [entry]
  {
    PutRecordTiled(Zeros(g.bs), 0, g.bs, entry);
    hide PutRecord, Tiled, Live;
  }

  lemma AppendAdds(g: Geometry, d: Disk, e: Disk, ino: nat, n: Inode, m: Inode, entry: Entry)
    requires 1024 <= g.bs < TWO16 && ValidName(entry.name) && 0 < entry.ino < TWO32
    requires BlockAppended(g, d, e, ino, n, m, SingleEntry(g, entry))
             && NotBefore(DirBlocks(g, d, n), DirLen(g, n), entry.name)
    ensures EntryAdded(g, d, e, ino, entry)
  {
    OwnedSizes(g, d);
    OwnedSizes(g, e);
    SingleEntryTiled(g, entry);
    DirFacts(g, d, n);
    hide Tiled, BlockEntries, Absent, InodeAt, Owned, Phys, PtrOf, SizeOf, ModeOf, DirLen, OthersSame, Added, Entries,
         BlockBytes, SingleEntry, AllTiled, DirBlocks;
    AppendedAdds(DirBlocks(g, d, n), SingleEntry(g, entry), entry);
  }

  lemma AppendIsOwned(g: Geometry, d: Disk, e: Disk, ino: nat, n: Inode, m: Inode, c: seq<byte>)
    requires BlockAppended(g, d, e, ino, n, m, c)
    ensures Owned(g, e)
  {
  }

  /** The rest of ext2_dir_add_entry: a new block with the entry, then the inode that refers to it. */
  method AddInNewBlock(fs: Volume, ino: nat, n: Inode, entry: Entry, now: nat) returns (rc: int)
    requires fs.Valid() && Owned(fs.g, fs.disk) && fs.g.ValidIno(ino) && InodeAt(fs.g, fs.disk, ino) == n
             && DirOk(fs.g, fs.disk, n)
    requires ValidName(entry.name) && 0 < entry.ino < TWO32 && now < TWO32
    requires NotBefore(DirBlocks(fs.g, fs.disk, n), Reach(DirLen(fs.g, n)), entry.name)
    modifies fs
    ensures fs.Valid() && Owned(fs.g, fs.disk) && OwnedSince(fs.g, fs.history, |old(fs.history)|)
            && fs.lost >= old(fs.lost)
    ensures rc == 0 ==> EntryAdded(fs.g, old(fs.disk), fs.disk, ino, entry)
    ensures rc == 0 ==> DirLen(fs.g, n) < NDIR && ParentGrew(fs.g, fs.disk, ino, n, DirLen(fs.g, n), now)
                        && fs.sbFreeBlocks == old(fs.sbFreeBlocks) - 1 && fs.Clean()
    ensures fs.sbFreeInodes == old(fs.sbFreeInodes)
    ensures rc == 0 || rc == -EFBIG || rc == -ENOSPC || rc == -EIO || fs.lost > old(fs.lost)
    ensures rc != 0 ==> SameContent(fs.g, old(fs.disk), fs.disk) && SameInodes(fs.g, old(fs.disk), fs.disk)
    ensures rc != 0 && fs.lost == old(fs.lost) ==>
              (rc == -EFBIG && DirLen(fs.g, n) >= NDIR) || (rc == -ENOSPC && DirLen(fs.g, n) < NDIR && fs.sbFreeBlocks == 0)
  {
    hide Volume.Logged, Volume.Tracked, Volume.StoredTotals, Volume.StoredGroup, Volume.DescIn;
    hide Tiled, AllTiled, BlockEntries, Absent, InodeAt, Owned, PtrOf, SizeOf, ModeOf, DirLen, DirOk, DirBlocks,
         OthersSame, SingleEntry, WithDirBlock, Taken, PutInode;
    hide Geometry.Valid, Geometry.Sizes, Geometry.ValidIno, Geometry.Reserved, BlockCounts, InodeCounts, Sum,
         EntryAdded, BlockAppended, Unharmed, SameContent, SameInodes, NotBefore, ParentGrew, Lowest;
    var g := fs.g;
    ghost var d := fs.disk;
    ValidSizes(g);
    OwnedSizes(g, d);
    SizesBlock(g);
    SameRefl(g, d);
    var slot := 0;
    while slot < NDIR && PtrOf(n, slot) != 0
      invariant slot <= NDIR && slot <= DirLen(g, n)
      invariant fs.sbFreeBlocks == old(fs.sbFreeBlocks) && fs.sbFreeInodes == old(fs.sbFreeInodes)
      invariant fs.Valid() && fs.disk == d && fs.history == old(fs.history) && fs.lost == old(fs.lost)
    {
      DirPtr(g, d, n, slot);
      slot := slot + 1;
    }
    if slot == NDIR {
      return -EFBIG;
    }
    DirPtr(g, d, n, slot);
    assert slot == DirLen(g, n);
    var nb;
    rc, nb := fs.AllocBlockUnlessError();
    if rc != 0 {
      return;
    }
    ghost var t := fs.disk;
    TakenFits(g, d, t, nb);
    var c := SingleEntry(g, entry);
    SingleEntryTiled(g, entry);
    NewBlockUnseen(g, d, t, ino, n, slot, nb, c);
    rc := fs.WriteData(nb, c);
    if rc != 0 {
      return -EIO;
    }
    ghost var f := fs.disk;
    var m := WithDirBlock(g, n, slot, nb, now);
    DirAppend(g, d, t, ino, n, nb, c, now);
    rc := fs.WriteInode(ino, m);
    if rc != 0 {
      return;
    }
    ghost var e := fs.disk;
    AppendDone(g, d, e, ino, n, entry, nb, now);
    fs.Sync();
    InNewBlockFrame(g, d, e, fs.disk, ino, n, entry, now);
  }

  /** The entry is in a block of its own, which the inode refers to, and the rule holds. */
  ghost predicate InNewBlock(g: Geometry, d: Disk, e: Disk, ino: nat, n: Inode, entry: Entry, now: nat) {
    && Owned(g, e) && EntryAdded(g, d, e, ino, entry)
    && g.bs > 0 && DirLen(g, n) < NDIR && ParentGrew(g, e, ino, n, DirLen(g, n), now)
  }

  lemma AppendDone(g: Geometry, d: Disk, e: Disk, ino: nat, n: Inode, entry: Entry, nb: nat, now: nat)
    requires 1024 <= g.bs < TWO16 && ValidName(entry.name) && 0 < entry.ino < TWO32 && now < TWO32 && 0 < nb < TWO32
    requires DirOk(g, d, n) && DirLen(g, n) < NDIR && PtrOf(n, DirLen(g, n)) == 0
    requires NotBefore(DirBlocks(g, d, n), Reach(DirLen(g, n)), entry.name)
    requires BlockAppended(g, d, e, ino, n, WithDirBlock(g, n, DirLen(g, n), nb, now), SingleEntry(g, entry))
    ensures InNewBlock(g, d, e, ino, n, entry, now)
  {
    hide Owned, EntryAdded, DirLen, PtrOf, WithDirBlock, BlockAppended, SingleEntry, DirGrew, NotBefore, DirBlocks, InodeAt,
         DirOk, ValidName, Geometry.Sizes, Geometry.ValidIno;
    var m := WithDirBlock(g, n, DirLen(g, n), nb, now);
    AppendIsOwned(g, d, e, ino, n, m, SingleEntry(g, entry));
    AppendAdds(g, d, e, ino, n, m, entry);
    NewSlot(g, n, DirLen(g, n), nb, now);
    AppendedInode(g, d, e, ino, n, m, SingleEntry(g, entry));
  }

  lemma InNewBlockFrame(g: Geometry, d: Disk, e: Disk, f: Disk, ino: nat, n: Inode, entry: Entry, now: nat)
    requires InNewBlock(g, d, e, ino, n, entry, now) && Unharmed(g, e, f)
    ensures InNewBlock(g, d, f, ino, n, entry, now)
  {
    hide Owned, EntryAdded, DirLen, DirGrew, InodeAt, Unharmed;
    UnharmedOwned(g, e, f);
    UnharmedInode(g, e, f, ino);
    AddedFrame(g, d, e, f, ino, entry);
  }

  lemma AppendedInode(g: Geometry, d: Disk, e: Disk, ino: nat, n: Inode, m: Inode, c: seq<byte>)
    requires BlockAppended(g, d, e, ino, n, m, c)
    ensures g.Sizes() && Sized(g, e) && g.ValidIno(ino) && InodeAt(g, e, ino) == m
  {
    OwnedSizes(g, e);
  }

  lemma NewSlot(g: Geometry, n: Inode, l: nat, b: nat, now: nat)
    requires l < NDIR && 0 < b < TWO32 && now < TWO32 && PtrOf(n, l) == 0
    ensures DirGrew(g.bs, n, WithDirBlock(g, n, l, b, now), l, now)
  {
    hide GetU32, WithBlock, WithSize, Stamped;
    var m := WithBlock(g, n, l, b);
    var size := (SizeOf(n) + g.bs) % TWO32;
    var s := WithSize(m, size);
    var r := WithDirBlock(g, n, l, b, now);
    WithBlockTook(g, n, l, b);
    GrewStart(g.bs, n, l);
    GrewTook(g.bs, n, n, m, l, l);
    SizeWord(m, size);
    StampWords(s, now);
    SameWordAt(r, s, 4);
    SameCounts(g.bs, n, m, r, l, l + 1);
  }

  lemma SizesBlock(g: Geometry)
    requires g.Sizes()
    ensures 1024 <= g.bs < TWO16
  {
  }

  lemma TakenFits(g: Geometry, d: Disk, t: Disk, nb: nat)
    requires Taken(g, d, t, nb) && Owned(g, d)
    ensures 0 < nb < TWO32
  {
    hide Refs, Used, Geometry.Reserved, Geometry.InRange, Geometry.Disjoint, Mark;
    BlockNumberFits(g, nb);
    UnusedIsFree(g, d, nb);
    DataNonZero(g, nb);
  }

  /** The parent is a directory that could take the entry. */
  ghost predicate Addable(g: Geometry, d: Disk, parent: nat, entry: Entry) {
    && g.Sizes() && Sized(g, d) && ValidName(entry.name) && entry.ino != 0 && g.ValidIno(parent)
    && IsDirectory(InodeAt(g, d, parent)) && DirOk(g, d, InodeAt(g, d, parent))
  }

  ghost function BlocksOf(g: Geometry, d: Disk, ino: nat): (bs: seq<seq<byte>>)
    requires g.Sizes() && Sized(g, d) && g.ValidIno(ino) && DirOk(g, d, InodeAt(g, d, ino))
    ensures AllTiled(bs)
  {
    DirBlocks(g, d, InodeAt(g, d, ino))
  }

  /** No direct block has room for the name. */
  ghost predicate Full(bs: seq<seq<byte>>, name: seq<byte>)
    requires AllTiled(bs)
  {
    Passed(bs, Reach(|bs|), name)
  }

  /** The inode of the parent is as it was, or has one block more, and so many blocks have been taken. */
  ghost predicate ParentAfter(g: Geometry, d: Disk, e: Disk, ino: nat, now: nat, taken: int) {
    && g.Sizes() && Sized(g, d) && g.ValidIno(ino)
    && var n := InodeAt(g, d, ino);
       || (InodeIs(g, e, ino, n) && taken == 0)
       || (DirLen(g, n) < NDIR && ParentGrew(g, e, ino, n, DirLen(g, n), now) && taken == 1)
  }

  /**
   * ext2_dir_add_entry. Success adds exactly the entry. Any failure leaves every file, directory and inode as it was.
   * Without I/O errors a duplicate is reported if and only if it is noticed: some direct block has the name and none
   * before it has room. Otherwise only a full directory or a full disk can be in the way.
   */
  method AddEntry(fs: Volume, parent: nat, entry: Entry, now: nat) returns (rc: int)
    requires fs.Valid() && Owned(fs.g, fs.disk) && GoodDirectory(fs.g, fs.disk, parent) && entry.ino < TWO32
             && now < TWO32
    modifies fs
    ensures fs.Valid() && Owned(fs.g, fs.disk) && OwnedSince(fs.g, fs.history, |old(fs.history)|)
            && fs.lost >= old(fs.lost)
    ensures rc == 0 ==> EntryAdded(fs.g, old(fs.disk), fs.disk, parent, entry) && Addable(fs.g, old(fs.disk), parent, entry)
    ensures rc == 0 ==> ParentAfter(fs.g, old(fs.disk), fs.disk, parent, now, old(fs.sbFreeBlocks) - fs.sbFreeBlocks)
                        && fs.Clean()
    ensures fs.sbFreeInodes == old(fs.sbFreeInodes)
    ensures ValidName(entry.name) && entry.ino != 0 && !fs.g.ValidIno(parent) ==> rc == -EIO
    ensures rc != 0 ==> SameContent(fs.g, old(fs.disk), fs.disk) && SameInodes(fs.g, old(fs.disk), fs.disk)
    ensures |entry.name| == 0 || entry.ino == 0 ==> rc == -EINVAL
    ensures |entry.name| > 255 && entry.ino != 0 ==> rc == -ENAMETOOLONG
    ensures fs.lost == old(fs.lost) && Addable(fs.g, old(fs.disk), parent, entry) ==>
              && (rc == -EEXIST <==> Noticed(BlocksOf(fs.g, old(fs.disk), parent), entry.name))
              && (rc != 0 && rc != -EEXIST ==>
                    && Full(BlocksOf(fs.g, old(fs.disk), parent), entry.name)
                    && if |BlocksOf(fs.g, old(fs.disk), parent)| >= NDIR then rc == -EFBIG
                       else rc == -ENOSPC && fs.sbFreeBlocks == 0)
    ensures fs.lost == old(fs.lost) && fs.g.ValidIno(parent) && ValidName(entry.name) && entry.ino != 0 ==>
              (rc == -ENOTDIR <==> !IsDirectory(InodeAt(fs.g, old(fs.disk), parent)))
  {
    hide Volume.Logged, Volume.Tracked;
    hide AllTiled, InodeAt, Owned, PtrOf, SizeOf, ModeOf, DirLen, DirOk, DirBlocks, OthersSame;
    hide Geometry.Valid, Geometry.Sizes, Geometry.ValidIno, BlockCounts, InodeCounts, Sum, EntryAdded, SameContent,
         SameInodes, NotBefore, Passed, Noticed, InodeIs, ParentGrew;
    var g := fs.g;
    ghost var d := fs.disk;
    ValidSizes(g);
    OwnedSizes(g, d);
    SameRefl(g, d);
    if |entry.name| == 0 || entry.ino == 0 {
      return -EINVAL;
    }
    if |entry.name| > 255 {
      return -ENAMETOOLONG;
    }
    var n;
    rc, n := fs.ReadInode(parent);
    if rc != 0 {
      return -EIO;
    }
    if !IsDirectory(n) {
      return -ENOTDIR;
    }
    var done;
    done, rc := AddInBlocks(fs, parent, n, entry);
    if done {
      return;
    }
    DirFacts(g, d, n);
    PassedUnnoticed(DirBlocks(g, d, n), Reach(DirLen(g, n)), entry.name);
    PassedNotBefore(DirBlocks(g, d, n), Reach(DirLen(g, n)), entry.name);
    rc := AddInNewBlock(fs, parent, n, entry, now);
  }

  // ----- Remove -----

  /** The first entry with the name is gone, and nothing but the directory changed. */
  ghost predicate EntryRemoved(g: Geometry, d: Disk, e: Disk, ino: nat, name: seq<byte>) {
    && g.Sizes() && Sized(g, d) && Sized(g, e) && g.ValidIno(ino) && OthersSame(g, d, e, ino)
    && DirOk(g, d, InodeAt(g, d, ino)) && DirOk(g, e, InodeAt(g, e, ino))
    && Dropped(DirEntries(g, d, InodeAt(g, d, ino)), DirEntries(g, e, InodeAt(g, e, ino)), name)
    && ModeOf(InodeAt(g, e, ino)) == ModeOf(InodeAt(g, d, ino))
  }

  lemma RemoveDrops(g: Geometry, d: Disk, e: Disk, ino: nat, n: Inode, l: nat, name: seq<byte>, prev: int, off: nat,
      c: seq<byte>)
    requires DirOk(g, d, n) && l < DirLen(g, n) && g.bs < TWO16 && FoundAt(DirBlocks(g, d, n)[l], name, prev, off)
    requires NotBefore(DirBlocks(g, d, n), l, name)
    requires CanRemove(DirBlocks(g, d, n)[l], prev, off) && c == Remove(DirBlocks(g, d, n)[l], prev, off)
    requires BlockStored(g, d, e, ino, n, l, c)
    ensures EntryRemoved(g, d, e, ino, name)
  {
    hide Tiled, Live, Absent, InodeAt, Owned, DirLen, DirOk, DirBlocks, AllTiled, OthersSame, Remove, Removed,
         CanRemove, Dropped, Entries, LenOf, FoundAt, ModeOf, NotBefore;
    OwnedSizes(g, d);
    OwnedSizes(g, e);
    DirFacts(g, d, n);
    BlockBehind(g, d, n, l);
    var bs := DirBlocks(g, d, n);
    RemoveFound(bs[l], name, prev, off);
    FoundHeader(bs[l], name, prev, off);
    FoundAbsent(bs[l], name, prev, off);
    NotBeforeMeans(bs, l, name);
    RemovedDrops(bs, l, c, off, off + LenOf(bs[l], off), name);
  }

  lemma FoundAbsent(b: seq<byte>, name: seq<byte>, prev: int, off: nat)
    requires FoundAt(b, name, prev, off)
    ensures Standing(b, off) && Absent(Live(b, 0, off), name)
  {
    hide Absent, Live, Tiled;
  }

  lemma NotBeforeMeans(bs: seq<seq<byte>>, l: nat, name: seq<byte>)
    requires AllTiled(bs) && l < |bs| && NotBefore(bs, l, name)
    ensures forall i :: 0 <= i < l ==> Absent(BlockEntries(bs[i]), name)
  {
    hide Tiled, BlockEntries, Absent;
  }

  lemma FoundRemoves(b: seq<byte>, name: seq<byte>, prev: int, off: nat)
    requires |b| < TWO16 && FoundAt(b, name, prev, off)
    ensures CanRemove(b, prev, off) && Tiled(Remove(b, prev, off), 0, |b|)
  {
    RemoveFound(b, name, prev, off);
    hide Tiled, Live, LenOf, Matches, Absent, Remove;
  }

  lemma RestampPhys(g: Geometry, v: Disk, ino: nat, n: Inode, m: Inode, l: nat)
    requires Owned(g, v) && g.ValidIno(ino) && InodeAt(g, v, ino) == n && SamePtrs(n, m)
    ensures Phys(g, PutInode(g, v, ino, m), m, l) == Phys(g, v, n, l)
  {
    TableAvoids(g, v, ino, ino);
    assert KeepsIndirect(n, m);
    KeepsIndirectAvoids(g, v, n, m, g.InodeBlock(ino));
    PutInodePhys(g, v, ino, m, m, l);
    hide InodeAt, PutInode, PtrOf, Avoids, Marked, Single, MetaMarked, Geometry.Disjoint, Geometry.InodeBlock;
    var p := BlockPath(g.PerBlock(), l);
    if p.Some? {
      assert Ptr(g, v, m, p.value) == Ptr(g, v, n, p.value);
    }
  }

  /** New times in the inode leave the directory as it is. */
  lemma RestampDir(g: Geometry, v: Disk, ino: nat, n: Inode, m: Inode)
    requires Owned(g, v) && g.ValidIno(ino) && InodeAt(g, v, ino) == n && DirOk(g, v, n)
    requires SamePtrs(n, m) && SizeOf(m) == SizeOf(n)
    ensures var e := PutInode(g, v, ino, m);
            Owned(g, e) && InodeAt(g, e, ino) == m && DirOk(g, e, m) && DirBlocks(g, e, m) == DirBlocks(g, v, n) && OthersSame(g, v, e, ino)
  {
    OwnedSizes(g, v);
    var e := PutInode(g, v, ino, m);
    hide InodeAt, PutInode, Owned, Phys, PtrOf, SizeOf, Content, BlockBytes, AllTiled, Geometry.Valid, Geometry.Sizes,
         Geometry.ValidIno, Geometry.Logical;
    RestampKeeps(g, v, ino, n, m);
    PutInodeReads(g, v, ino, m, ino);
    forall l | 0 <= l < DirLen(g, m)
      ensures DirBlocks(g, e, m)[l] == DirBlocks(g, v, n)[l] && Phys(g, e, m, l) != 0
    {
      RestampPhys(g, v, ino, n, m, l);
      SameBlockBytes(g, v, e, ino, n, m, l);
    }
    assert DirBlocks(g, e, m) == DirBlocks(g, v, n);
    forall i | g.ValidIno(i) && i != ino
      ensures InodeAt(g, e, i) == InodeAt(g, v, i)
    {
      PutInodeReads(g, v, ino, m, i);
    }
  }

  lemma RemovedFrame(g: Geometry, d: Disk, e: Disk, f: Disk, ino: nat, name: seq<byte>)
    requires EntryRemoved(g, d, e, ino, name) && Sized(g, f) && OthersSame(g, e, f, ino)
    requires DirOk(g, f, InodeAt(g, f, ino))
             && DirBlocks(g, f, InodeAt(g, f, ino)) == DirBlocks(g, e, InodeAt(g, e, ino))
    requires ModeOf(InodeAt(g, f, ino)) == ModeOf(InodeAt(g, e, ino))
    ensures EntryRemoved(g, d, f, ino, name)
  {
    OthersTrans(g, d, e, f, ino);
    hide InodeAt, OthersSame, DirOk, DirBlocks, Dropped, Entries, ModeOf;
  }

  lemma OthersTrans(g: Geometry, d: Disk, e: Disk, f: Disk, ino: nat)
    requires g.Sizes() && Sized(g, d) && Sized(g, e) && Sized(g, f) && OthersSame(g, d, e, ino)
             && OthersSame(g, e, f, ino)
    ensures OthersSame(g, d, f, ino)
  {
    hide InodeAt, Content;
  }

  lemma SameIsOthersSame(g: Geometry, d: Disk, e: Disk, ino: nat)
    requires g.Sizes() && Sized(g, d) && Sized(g, e) && SameContent(g, d, e) && SameInodes(g, d, e)
    ensures OthersSame(g, d, e, ino)
  {
    hide InodeAt, Content;
  }

  /** After the block is stored: the inode gets new times, then Sync. */
  method Restamp(fs: Volume, ino: nat, n: Inode, now: nat, ghost d: Disk, ghost name: seq<byte>) returns (rc: int)
    requires fs.Valid() && Owned(fs.g, fs.disk) && fs.g.ValidIno(ino) && InodeAt(fs.g, fs.disk, ino) == n && now < TWO32
    requires EntryRemoved(fs.g, d, fs.disk, ino, name)
    modifies fs
    ensures fs.Valid() && Owned(fs.g, fs.disk) && OwnedSince(fs.g, fs.history, |old(fs.history)|)
            && old(fs.history) <= fs.history
    ensures EntryRemoved(fs.g, d, fs.disk, ino, name) && fs.lost >= old(fs.lost) && rc <= 0
            && (rc < 0 ==> fs.lost > old(fs.lost) && fs.disk == old(fs.disk))
    ensures rc == 0 ==> ParentStamped(fs.g, fs.disk, ino, n, now) && fs.Clean()
    ensures fs.sbFreeBlocks == old(fs.sbFreeBlocks) && fs.sbFreeInodes == old(fs.sbFreeInodes)
  {
    hide Volume.Logged, Volume.Tracked, Volume.StoredTotals, Volume.StoredGroup, Volume.DescIn;
    hide InodeAt, Owned, OthersSame, DirOk, DirBlocks, EntryRemoved, ModeOf, SizeOf, PutInode, Stamped, SamePtrs,
         Unharmed, Restamped;
    hide Geometry.Valid, Geometry.Sizes, Geometry.ValidIno, BlockCounts, InodeCounts, Sum;
    var g := fs.g;
    ghost var v := fs.disk;
    StampedIs(n, now);
    OwnedSizes(g, v);
    var m := Stamped(n, now);
    StampReads(n, now);
    rc := fs.WriteInode(ino, m);
    if rc != 0 {
      return;
    }
    RemovedIsDir(g, d, v, ino, name);
    RestampDir(g, v, ino, n, m);
    ghost var e := fs.disk;
    OwnedSizes(g, e);
    RemovedFrame(g, d, v, e, ino, name);
    fs.Sync();
    UnharmedOwned(g, e, fs.disk);
    UnharmedInode(g, e, fs.disk, ino);
    OwnedSizes(g, fs.disk);
    UnharmedDir(g, e, fs.disk, ino, m);
    SameIsOthersSame(g, e, fs.disk, ino);
    RemovedFrame(g, d, e, fs.disk, ino, name);
  }

  lemma StampedIs(n: Inode, now: nat)
    requires now < TWO32
    ensures Restamped(n, Stamped(n, now), now)
  {
    hide GetU32, Stamped;
    StampWords(n, now);
  }

  lemma RemovedIsDir(g: Geometry, d: Disk, e: Disk, ino: nat, name: seq<byte>)
    requires EntryRemoved(g, d, e, ino, name)
    ensures g.Sizes() && Sized(g, e) && g.ValidIno(ino) && DirOk(g, e, InodeAt(g, e, ino))
  {
  }

  /** The parent is a directory. */
  ghost predicate Removable(g: Geometry, d: Disk, parent: nat, name: seq<byte>) {
    && g.Sizes() && Sized(g, d) && |name| > 0 && g.ValidIno(parent)
    && IsDirectory(InodeAt(g, d, parent)) && DirOk(g, d, InodeAt(g, d, parent))
  }

  /**
   * ext2_dir_remove_entry. Success takes out the first entry with the name. A failure changes nothing, except that the
   * entry may be gone when only the new times could not be stored. Without I/O errors it fails with ENOENT if and only
   * if no direct block has the name.
   */
  method RemoveEntry(fs: Volume, parent: nat, name: seq<byte>, now: nat) returns (rc: int)
    requires fs.Valid() && Owned(fs.g, fs.disk) && GoodDirectory(fs.g, fs.disk, parent) && now < TWO32
    modifies fs
    ensures fs.Valid() && Owned(fs.g, fs.disk) && OwnedSince(fs.g, fs.history, |old(fs.history)|)
            && fs.lost >= old(fs.lost)
    ensures rc == 0 ==> EntryRemoved(fs.g, old(fs.disk), fs.disk, parent, name)
                        && ParentStamped(fs.g, fs.disk, parent, InodeAt(fs.g, old(fs.disk), parent), now) && fs.Clean()
    ensures rc != 0 ==> fs.disk == old(fs.disk) || EntryRemoved(fs.g, old(fs.disk), fs.disk, parent, name)
    ensures rc != 0 && fs.lost == old(fs.lost) ==> fs.disk == old(fs.disk)
    ensures fs.sbFreeBlocks == old(fs.sbFreeBlocks) && fs.sbFreeInodes == old(fs.sbFreeInodes)
    ensures |name| == 0 ==> rc == -EINVAL
    ensures |name| > 0 && !fs.g.ValidIno(parent) ==> rc == -EIO
    ensures fs.lost == old(fs.lost) && |name| > 0 && fs.g.ValidIno(parent) ==>
              (rc == -ENOTDIR <==> !IsDirectory(InodeAt(fs.g, old(fs.disk), parent)))
    ensures fs.lost == old(fs.lost) && Removable(fs.g, old(fs.disk), parent, name) ==>
              var bs := BlocksOf(fs.g, old(fs.disk), parent);
              (rc == 0 || rc == -ENOENT) && (rc == -ENOENT <==> NotBefore(bs, Reach(|bs|), name))
  {
    hide Volume.Logged, Volume.Tracked;
    hide Tiled, AllTiled, BlockEntries, Absent, InodeAt, Owned, Phys, PtrOf, SizeOf, ModeOf, DirLen, DirOk, DirBlocks,
         OthersSame, Remove, Fits, CanRemove;
    hide Geometry.Valid, Geometry.Sizes, Geometry.ValidIno, Geometry.Reserved, BlockCounts, InodeCounts, Sum,
         EntryRemoved, BlockStored, FoundAt, NotBefore, ParentStamped;
    var g := fs.g;
    ghost var d := fs.disk;
    ValidSizes(g);
    OwnedSizes(g, d);
    if |name| == 0 {
      return -EINVAL;
    }
    var n;
    rc, n := fs.ReadInode(parent);
    if rc != 0 {
      return -EIO;
    }
    if !IsDirectory(n) {
      return -ENOTDIR;
    }
    ghost var bs := DirBlocks(g, d, n);
    DirFacts(g, d, n);
    NotBeforeStart(bs, name);
    var l := 0;
    while l < NDIR
      invariant l <= Reach(DirLen(g, n)) && NotBefore(bs, l, name)
      invariant fs.Valid() && fs.disk == d && fs.history == old(fs.history) && fs.lost == old(fs.lost)
      invariant fs.sbFreeBlocks == old(fs.sbFreeBlocks) && fs.sbFreeInodes == old(fs.sbFreeInodes)
    {
      DirPtr(g, d, n, l);
      var phys := PtrOf(n, l);
      if phys == 0 {
        break;
      }
      BlockBehind(g, d, n, l);
      var b;
      rc, b := fs.ReadBlock(phys);
      if rc != 0 {
        return -EIO;
      }
      var found, prev, off := FindEntry(b, name);
      if found {
        FoundRemoves(b, name, prev, off);
        var c := Remove(b, prev, off);
        DirBlockWrite(g, d, parent, n, l, c);
        rc := fs.WriteData(phys, c);
        if rc != 0 {
          return -EIO;
        }
        RemoveDrops(g, d, fs.disk, parent, n, l, name, prev, off, c);
        StoredHas(g, d, fs.disk, parent, n, l, c);
        rc := Restamp(fs, parent, n, now, d, name);
        FoundNotAbsent(bs, l, Reach(DirLen(g, n)), name);
        return;
      }
      NotBeforeNext(bs, l, name);
      l := l + 1;
    }
    rc := -ENOENT;
  }

  lemma StoredInode(g: Geometry, d: Disk, e: Disk, ino: nat, n: Inode, j: nat, c: seq<byte>)
    requires BlockStored(g, d, e, ino, n, j, c)
    ensures InodeIs(g, e, ino, n)
  {
    OwnedSizes(g, e);
  }

  lemma StoredHas(g: Geometry, d: Disk, e: Disk, ino: nat, n: Inode, j: nat, c: seq<byte>)
    requires BlockStored(g, d, e, ino, n, j, c)
    ensures Owned(g, e) && InodeAt(g, e, ino) == n
  {
  }

  lemma FoundNotAbsent(bs: seq<seq<byte>>, l: nat, k: nat, name: seq<byte>)
    requires AllTiled(bs) && l < |bs| && l < k && !Absent(BlockEntries(bs[l]), name)
    ensures !NotBefore(bs, k, name)
  {
    hide Tiled, BlockEntries, Absent;
  }

  /** A block with one record and no entry. */
  function EmptyBlock(g: Geometry): (c: seq<byte>)
    requires 1024 <= g.bs < TWO16
    ensures |c| == g.bs
  {
    SetLen(Zeros(g.bs), 0, g.bs)
  }

  lemma EmptyBlockTiled(g: Geometry)
    requires 1024 <= g.bs < TWO16
    ensures Tiled(EmptyBlock(g), 0, g.bs) && BlockEntries(EmptyBlock(g)) == []
    ensures forall need :: 0 <= need <= g.bs ==> RoomIn(EmptyBlock(g), need)
  {
    SetLenReads(Zeros(g.bs), 0, g.bs);
    assert InoOf(Zeros(g.bs), 0) == 0;
    hide SetLen, InoOf, LenOf, NameLenOf, EntrySize;
    var c := EmptyBlock(g);
    assert Fits(c, 0, g.bs) && Tiled(c, g.bs, g.bs) && Live(c, g.bs, g.bs) == [];
  }

  /** A name can be present and yet not be noticed: an earlier block has room, so add makes it a duplicate. */
  lemma DuplicateMissed(g: Geometry, entry: Entry)
    requires 1024 <= g.bs < TWO16 && ValidName(entry.name) && 0 < entry.ino < TWO32
    ensures var bs := [EmptyBlock(g), SingleEntry(g, entry)];
            AllTiled(bs) && Resolve(Entries(bs), entry.name) == entry.ino && !Noticed(bs, entry.name)
  {
    EmptyBlockTiled(g);
    SingleEntryTiled(g, entry);
    hide EmptyBlock, SingleEntry, Tiled, BlockEntries, RoomIn;
    var a, b := EmptyBlock(g), SingleEntry(g, entry);
    var bs := [a, b];
    assert EntrySize(|entry.name|) <= g.bs;
    EntriesAround(bs, 0);
    assert bs[..0] == [] && bs[1..] == [b];
    EntriesOne(b);
    assert Entries(bs) == [entry];
    AbsentEmpty(entry.name);
    PassedStart(bs, entry.name);
    PassedUnnoticed(bs, 0, entry.name);
  }
}
