/** Listing a directory in chunks that the caller can resume (src/kernel/fs/ext2.c:958-1044). */
module Ext2Readdir {
  import opened Errno
  import opened Words
  import opened Ext2Layout
  import opened Ext2Inode
  import opened Ext2File
  import opened Ext2Counts
  import opened Ext2Dir
  import opened Ext2DirMap
  import opened Ext2DirScan
  import opened Ext2DirDisk
  import opened Ext2DirOps
  import opened Ext2Volume
  import opened Ext2FileOps
  import opened Ext2Read

  const DOT: byte := 46
  const DIRENT_HEADER: nat := 10

  /** A struct linux_dirent: the inode, the position after the entry, and the name. */
  datatype Dirent = Dirent(ino: nat, next: nat, name: seq<byte>) {
    /** d_reclen: header, name and a zero byte, rounded up to a multiple of 4. */
    function Size(): (size: nat)
      ensures size % 4 == 0 && 11 + |name| <= size < 15 + |name|
    {
      (DIRENT_HEADER + |name| + 1 + 3) / 4 * 4
    }
  }

  /** An entry that is listed: it has a name, and is neither "." nor "..". */
  predicate Visible(name: seq<byte>) {
    |name| > 0 && name != [DOT] && name != [DOT, DOT]
  }

  function TotalSize(es: seq<Dirent>): nat {
    if |es| == 0 then 0 else TotalSize(es[..|es| - 1]) + es[|es| - 1].Size()
  }

  /** What the record at off, in a block that starts at position base, adds to the listing. */
  function ListAt(b: seq<byte>, off: nat, hi: nat, base: nat): (es: seq<Dirent>)
    requires hi <= |b| && Fits(b, off, hi)
    ensures |es| <= 1
  {
    if InoOf(b, off) != 0 && Visible(NameOf(b, off))
    then [Dirent(InoOf(b, off), base + off + LenOf(b, off), NameOf(b, off))] else []
  }

  function ListBlock(b: seq<byte>, lo: nat, base: nat): seq<Dirent>
    requires lo <= |b| && Tiled(b, lo, |b|)
    decreases |b| - lo
  {
    if lo == |b| then [] else ListAt(b, lo, |b|, base) + ListBlock(b, lo + LenOf(b, lo), base)
  }

  /** The listing from block l on. */
  ghost function ListBlocks(g: Geometry, bs: seq<seq<byte>>, l: nat): seq<Dirent>
    requires AllTiled(bs)
    decreases |bs| - l
  {
    if l >= |bs| then [] else ListBlock(bs[l], 0, g.Start(l)) + ListBlocks(g, bs, l + 1)
  }

  /** Position pos is the start of a record, or the end. */
  ghost predicate Boundary(g: Geometry, bs: seq<seq<byte>>, pos: nat)
    requires g.bs > 0
  {
    var l, off := g.Logical(pos), g.Within(pos);
    (l < |bs| && off < |bs[l]| && Standing(bs[l], off)) || (l == |bs| && off == 0)
  }

  /** The listing from position pos on. */
  ghost function ListFrom(g: Geometry, bs: seq<seq<byte>>, pos: nat): seq<Dirent>
    requires g.bs > 0 && AllTiled(bs) && Boundary(g, bs, pos)
  {
    var l, off := g.Logical(pos), g.Within(pos);
    if l == |bs| then [] else ListBlock(bs[l], off, g.Start(l)) + ListBlocks(g, bs, l + 1)
  }

  // ----- The listing is the directory without dots -----

  datatype Named = Named(name: seq<byte>, ino: nat)

  function NamesOf(es: seq<Dirent>): seq<Named> {
    if |es| == 0 then [] else [Named(es[0].name, es[0].ino)] + NamesOf(es[1..])
  }

  /** The visible entries, in order. */
  function Shown(es: seq<Entry>): seq<Named> {
    if |es| == 0 then [] else ShownAs(es[0]) + Shown(es[1..])
  }

  function ShownAs(e: Entry): seq<Named> {
    if Visible(e.name) then [Named(e.name, e.ino)] else []
  }

  lemma {:induction false} NamesConcat(a: seq<Dirent>, b: seq<Dirent>)
    ensures NamesOf(a + b) == NamesOf(a) + NamesOf(b)
    decreases |a|
  {
    if |a| == 0 {
      assert a + b == b;
    } else {
      assert (a + b)[1..] == a[1..] + b;
      NamesConcat(a[1..], b);
    }
  }

  lemma {:induction false} ShownConcat(a: seq<Entry>, b: seq<Entry>)
    ensures Shown(a + b) == Shown(a) + Shown(b)
    decreases |a|
  {
    hide ShownAs;
    if |a| == 0 {
      assert a + b == b;
    } else {
      assert (a + b)[0] == a[0] && (a + b)[1..] == a[1..] + b;
      ShownConcat(a[1..], b);
      var head, rest := ShownAs(a[0]), Shown(a[1..]);
      assert head + (rest + Shown(b)) == head + rest + Shown(b);
    }
  }

  lemma ListAtShown(b: seq<byte>, off: nat, base: nat)
    requires Fits(b, off, |b|)
    ensures NamesOf(ListAt(b, off, |b|, base)) == Shown(LiveAt(b, off, |b|))
  {
    hide LenOf, NameLenOf, EntrySize;
    var es := ListAt(b, off, |b|, base);
    var ls := LiveAt(b, off, |b|);
    if |es| == 1 {
      assert es[1..] == [];
    }
    if |ls| == 1 {
      assert ls[1..] == [];
      assert Shown(ls[1..]) == [];
    }
  }

  lemma {:induction false} ListBlockShown(b: seq<byte>, lo: nat, base: nat)
    requires lo <= |b| && Tiled(b, lo, |b|)
    ensures NamesOf(ListBlock(b, lo, base)) == Shown(Live(b, lo, |b|))
    decreases |b| - lo
  {
    hide InoOf, LenOf, NameLenOf, EntrySize, ListAt, LiveAt;
    if lo < |b| {
      ListBlockShown(b, lo + LenOf(b, lo), base);
      ListAtShown(b, lo, base);
      NamesConcat(ListAt(b, lo, |b|, base), ListBlock(b, lo + LenOf(b, lo), base));
      ShownConcat(LiveAt(b, lo, |b|), Live(b, lo + LenOf(b, lo), |b|));
    }
  }

  lemma {:induction false} ListBlocksShown(g: Geometry, bs: seq<seq<byte>>, l: nat)
    requires AllTiled(bs) && l <= |bs|
    ensures NamesOf(ListBlocks(g, bs, l)) == Shown(Entries(bs[l..]))
    decreases |bs| - l
  {
    hide Tiled, ListBlock, Live;
    if l < |bs| {
      ListBlocksShown(g, bs, l + 1);
      ListBlockShown(bs[l], 0, g.Start(l));
      NamesConcat(ListBlock(bs[l], 0, g.Start(l)), ListBlocks(g, bs, l + 1));
      EntriesSplit(bs[l..], 1);
      assert bs[l..][..1] == [bs[l]] && bs[l..][1..] == bs[l + 1..];
      EntriesOne(bs[l]);
      ShownConcat(BlockEntries(bs[l]), Entries(bs[l + 1..]));
    }
  }

  // ----- Entry by entry -----

  /** How often the listing has this name with this inode. */
  function TimesListed(ds: seq<Dirent>, name: seq<byte>, ino: nat): nat {
    if |ds| == 0 then 0
    else (if ds[0].name == name && ds[0].ino == ino then 1 else 0) + TimesListed(ds[1..], name, ino)
  }

  /** How often the directory has it. */
  function TimesEntered(es: seq<Entry>, name: seq<byte>, ino: nat): nat {
    if |es| == 0 then 0
    else (if es[0].name == name && es[0].ino == ino then 1 else 0) + TimesEntered(es[1..], name, ino)
  }

  /** As often as the directory has it, unless the name is empty, "." or "..": those are never listed. */
  ghost predicate SameTimes(ds: seq<Dirent>, es: seq<Entry>) {
    forall name, ino ::
      TimesListed(ds, name, ino)
        == if name == [] || name == [46] || name == [46, 46] then 0 else TimesEntered(es, name, ino)
  }

  /** What is listed at i is the entry at at[i], and those places go up. */
  ghost predicate Placed(ds: seq<Dirent>, es: seq<Entry>, at: seq<nat>) {
    && |at| == |ds| && (forall i, j :: 0 <= i < j < |at| ==> at[i] < at[j])
    && forall i :: 0 <= i < |at| ==> at[i] < |es| && es[at[i]].name == ds[i].name && es[at[i]].ino == ds[i].ino
  }

  ghost predicate InOrder(ds: seq<Dirent>, es: seq<Entry>) {
    exists at :: Placed(ds, es, at)
  }

  lemma {:induction false} ShownTimes(ds: seq<Dirent>, es: seq<Entry>, name: seq<byte>, ino: nat)
    requires NamesOf(ds) == Shown(es)
    ensures TimesListed(ds, name, ino)
              == if name == [] || name == [46] || name == [46, 46] then 0 else TimesEntered(es, name, ino)
    decreases |es|
  {
    if |es| > 0 {
      if Visible(es[0].name) {
        NamesHead(ds, Named(es[0].name, es[0].ino), Shown(es[1..]));
        ShownTimes(ds[1..], es[1..], name, ino);
      } else {
        ShownTimes(ds, es[1..], name, ino);
      }
    }
  }

  lemma NamesHead(ds: seq<Dirent>, head: Named, rest: seq<Named>)
    requires NamesOf(ds) == [head] + rest
    ensures |ds| > 0 && ds[0].name == head.name && ds[0].ino == head.ino && NamesOf(ds[1..]) == rest
  {
    assert NamesOf(ds)[0] == head && NamesOf(ds)[1..] == rest;
    assert NamesOf(ds)[1..] == NamesOf(ds[1..]);
  }

  lemma {:induction false} ShownPlaces(ds: seq<Dirent>, es: seq<Entry>) returns (at: seq<nat>)
    requires NamesOf(ds) == Shown(es)
    ensures Placed(ds, es, at)
    decreases |es|
  {
    if |es| == 0 {
      at := [];
    } else if Visible(es[0].name) {
      NamesHead(ds, Named(es[0].name, es[0].ino), Shown(es[1..]));
      var rest := ShownPlaces(ds[1..], es[1..]);
      var later := Later(rest);
      at := [0] + later;
    } else {
      var rest := ShownPlaces(ds, es[1..]);
      at := Later(rest);
    }
  }

  function Later(at: seq<nat>): (r: seq<nat>)
    ensures |r| == |at| && forall i :: 0 <= i < |at| ==> r[i] == at[i] + 1
  {
    if |at| == 0 then [] else [at[0] + 1] + Later(at[1..])
  }

  lemma ShownSame(ds: seq<Dirent>, es: seq<Entry>)
    requires NamesOf(ds) == Shown(es)
    ensures SameTimes(ds, es) && InOrder(ds, es)
  {
    hide NamesOf, Shown, TimesListed, TimesEntered, Placed;
    forall name, ino
      ensures TimesListed(ds, name, ino)
                == if name == [] || name == [46] || name == [46, 46] then 0 else TimesEntered(es, name, ino)
    {
      ShownTimes(ds, es, name, ino);
    }
    var at := ShownPlaces(ds, es);
  }

  /** A listing from the start shows every visible entry exactly once, in disk order. */
  lemma ListsAll(g: Geometry, d: Disk, n: Inode)
    requires DirOk(g, d, n)
    ensures Boundary(g, DirBlocks(g, d, n), 0)
    ensures NamesOf(ListFrom(g, DirBlocks(g, d, n), 0)) == Shown(DirEntries(g, d, n))
    ensures SameTimes(ListFrom(g, DirBlocks(g, d, n), 0), DirEntries(g, d, n))
            && InOrder(ListFrom(g, DirBlocks(g, d, n), 0), DirEntries(g, d, n))
  {
    hide Tiled, ListBlock, SizeOf, DirLen, PtrOf, DirBlocks, ListFrom, Boundary, Entries, ListBlocks, SameTimes, InOrder;
    var bs := DirBlocks(g, d, n);
    DirFacts(g, d, n);
    if |bs| > 0 {
      BlockBehind(g, d, n, 0);
    }
    ListsFromStart(g, bs);
    ShownSame(ListFrom(g, bs, 0), DirEntries(g, d, n));
  }

  lemma ListsFromStart(g: Geometry, bs: seq<seq<byte>>)
    requires g.bs > 0 && AllTiled(bs) && (|bs| > 0 ==> |bs[0]| > 0)
    ensures Boundary(g, bs, 0) && NamesOf(ListFrom(g, bs, 0)) == Shown(Entries(bs))
  {
    hide Tiled, ListBlock, Entries, NamesOf, Shown;
    assert g.Logical(0) == 0 && g.Within(0) == 0;
    if |bs| > 0 {
      StandingStart(bs[0]);
    }
    hide Standing;
    ListBlocksShown(g, bs, 0);
    assert bs[0..] == bs;
  }

  // ----- One chunk -----

  lemma TotalSnoc(es: seq<Dirent>, e: Dirent)
    ensures TotalSize(es + [e]) == TotalSize(es) + e.Size()
  {
    assert (es + [e])[..|es|] == es;
  }

  lemma ListStep(b: seq<byte>, off: nat, base: nat)
    requires off < |b| && Standing(b, off)
    ensures var next := off + LenOf(b, off);
            Standing(b, next) && ListBlock(b, off, base) == ListAt(b, off, |b|, base) + ListBlock(b, next, base)
  {
    hide InoOf, LenOf, NameLenOf, EntrySize, ListAt, Tiled, Live;
    StandingStep(b, off);
    ListUnfold(b, off, base);
  }

  lemma ListUnfold(b: seq<byte>, off: nat, base: nat)
    requires off < |b| && Tiled(b, off, |b|) && Fits(b, off, |b|)
    ensures Tiled(b, off + LenOf(b, off), |b|)
    ensures ListBlock(b, off, base) == ListAt(b, off, |b|, base) + ListBlock(b, off + LenOf(b, off), base)
  {
    hide InoOf, LenOf, NameLenOf, EntrySize, ListAt;
  }

  /** The entries that fit in room are taken; the scan stops at the first that does not. */
  ghost predicate Taking(b: seq<byte>, start: nat, base: nat, room: nat, out: seq<Dirent>, stop: nat, full: bool) {
    && Standing(b, start) && Standing(b, stop) && ListBlock(b, start, base) == out + ListBlock(b, stop, base)
    && TotalSize(out) <= room
    && (full ==> stop < |b| && Stuck(ListBlock(b, stop, base), room - TotalSize(out)))
    && (!full ==> stop == |b|)
  }

  /** There is a next entry, and it does not fit. */
  ghost predicate Stuck(rest: seq<Dirent>, room: int) {
    |rest| > 0 && rest[0].Size() > room
  }

  /** The inner loop of ext2_readdir_chunk over one block. */
  method ListInBlock(b: seq<byte>, start: nat, base: nat, room: nat) returns (out: seq<Dirent>, stop: nat, full: bool,
      used: nat)
    requires start <= |b| && Standing(b, start)
    ensures Taking(b, start, base, room, out, stop, full) && used == TotalSize(out)
  {
    hide InoOf, LenOf, NameLenOf, EntrySize, Tiled, Fits, Standing, ListBlock, Visible, NameOf, Gathered, TotalSize,
         ListAt;
    GatheredStart(b, start, base);
    out, stop, used := [], start, 0;
    while stop < |b|
      invariant stop <= |b| && Standing(b, stop) && Gathered(b, start, base, out, stop)
      invariant used == TotalSize(out) <= room
      decreases |b| - stop
    {
      GatheredNext(b, start, base, out, stop);
      var es := ListAt(b, stop, |b|, base);
      if |es| == 1 {
        if used + es[0].Size() > room {
          full := true;
          GatheredStuck(b, start, base, out, stop, room);
          return;
        }
        TotalSnoc(out, es[0]);
        assert es == [es[0]];
        used := used + es[0].Size();
        out := out + [es[0]];
      } else {
        assert out + es == out;
      }
      stop := stop + LenOf(b, stop);
    }
    full := false;
    GatheredAll(b, start, base, out, room);
  }

  /** Everything between start and stop is in out. */
  ghost predicate Gathered(b: seq<byte>, start: nat, base: nat, out: seq<Dirent>, stop: nat) {
    Standing(b, start) && Standing(b, stop) && ListBlock(b, start, base) == out + ListBlock(b, stop, base)
  }

  lemma GatheredStart(b: seq<byte>, start: nat, base: nat)
    requires Standing(b, start)
    ensures Gathered(b, start, base, [], start) && TotalSize([]) == 0
  {
    hide ListBlock, Tiled;
    assert [] + ListBlock(b, start, base) == ListBlock(b, start, base);
  }

  lemma GatheredNext(b: seq<byte>, start: nat, base: nat, out: seq<Dirent>, stop: nat)
    requires Gathered(b, start, base, out, stop) && stop < |b|
    ensures stop + HEADER <= |b| && Fits(b, stop, |b|)
    ensures var next := stop + LenOf(b, stop);
            stop < next <= |b| && Standing(b, next) && Gathered(b, start, base, out + ListAt(b, stop, |b|, base), next)
  {
    hide LenOf, NameLenOf, EntrySize, Tiled, Fits, ListBlock, ListAt, Live;
    StandingStep(b, stop);
    ListStep(b, stop, base);
    var es, rest := ListAt(b, stop, |b|, base), ListBlock(b, stop + LenOf(b, stop), base);
    assert out + (es + rest) == (out + es) + rest;
  }

  lemma GatheredStuck(b: seq<byte>, start: nat, base: nat, out: seq<Dirent>, stop: nat, room: nat)
    requires Gathered(b, start, base, out, stop) && stop < |b| && TotalSize(out) <= room && Fits(b, stop, |b|)
    requires var es := ListAt(b, stop, |b|, base); |es| == 1 && TotalSize(out) + es[0].Size() > room
    ensures Taking(b, start, base, room, out, stop, true)
  {
    hide LenOf, NameLenOf, EntrySize, Tiled, Fits, ListBlock, ListAt, Live, TotalSize;
    ListStep(b, stop, base);
  }

  lemma GatheredAll(b: seq<byte>, start: nat, base: nat, out: seq<Dirent>, room: nat)
    requires Gathered(b, start, base, out, |b|) && TotalSize(out) <= room
    ensures Taking(b, start, base, room, out, |b|, false)
  {
    hide ListBlock, Tiled, TotalSize;
  }

  lemma StandingTiled(b: seq<byte>, off: nat)
    requires Standing(b, off)
    ensures off <= |b| && Tiled(b, off, |b|)
  {
  }

  lemma {:induction false} TotalConcat(a: seq<Dirent>, b: seq<Dirent>)
    ensures TotalSize(a + b) == TotalSize(a) + TotalSize(b)
    decreases |b|
  {
    if |b| == 0 {
      assert a + b == a;
    } else {
      var m := |b| - 1;
      assert (a + b)[..|a + b| - 1] == a + b[..m];
      TotalConcat(a, b[..m]);
    }
  }

  lemma BoundaryStanding(g: Geometry, bs: seq<seq<byte>>, pos: nat)
    requires g.bs > 0 && AllTiled(bs) && Boundary(g, bs, pos) && g.Logical(pos) < |bs|
    ensures Standing(bs[g.Logical(pos)], g.Within(pos))
    ensures ListFrom(g, bs, pos) == ListBlock(bs[g.Logical(pos)], g.Within(pos), g.Start(g.Logical(pos))) + ListBlocks(g, bs, g.Logical(pos) + 1)
  {
    hide Tiled, ListBlock, Geometry.Logical, Geometry.Within, Geometry.Start;
  }

  /** A position within block l. */
  lemma BoundaryAt(g: Geometry, bs: seq<seq<byte>>, l: nat, off: nat)
    requires 0 < g.bs && AllTiled(bs) && l < |bs| && |bs[l]| == g.bs && Standing(bs[l], off) && off < g.bs
    ensures Boundary(g, bs, g.Start(l) + off)
    ensures ListFrom(g, bs, g.Start(l) + off) == ListBlock(bs[l], off, g.Start(l)) + ListBlocks(g, bs, l + 1)
  {
    hide Tiled, ListBlock, Geometry.Logical, Geometry.Within, Geometry.Start;
    InBlock(g, l, off);
  }

  /** The end of block l is the start of the next. */
  lemma BoundaryNext(g: Geometry, bs: seq<seq<byte>>, l: nat)
    requires 0 < g.bs && AllTiled(bs) && l < |bs| && (forall k :: 0 <= k < |bs| ==> |bs[k]| == g.bs)
    ensures Boundary(g, bs, g.Start(l) + g.bs)
    ensures ListFrom(g, bs, g.Start(l) + g.bs) == ListBlocks(g, bs, l + 1)
  {
    hide Tiled, ListBlock, Geometry.Logical, Geometry.Within, Geometry.Start;
    NextBlock(g, l);
    if l + 1 < |bs| {
      StandingStart(bs[l + 1]);
    }
    hide Standing;
  }

  lemma BlockSizes(g: Geometry, d: Disk, n: Inode)
    requires DirOk(g, d, n)
    ensures forall k :: 0 <= k < |DirBlocks(g, d, n)| ==> |DirBlocks(g, d, n)[k]| == g.bs
  {
    hide DirLen, AllTiled, PtrOf, SizeOf, Phys;
  }

  /** Nothing lost and nothing repeated: what was listed, then what is still to come. */
  ghost predicate Listed(g: Geometry, bs: seq<seq<byte>>, pos: nat, out: seq<Dirent>, at: nat)
    requires g.bs > 0 && AllTiled(bs)
  {
    Boundary(g, bs, pos) && Boundary(g, bs, at) && ListFrom(g, bs, pos) == out + ListFrom(g, bs, at)
  }

  /** The chunk ends because the directory does, or because the next entry does not fit. */
  ghost predicate Maximal(g: Geometry, bs: seq<seq<byte>>, at: nat, room: int)
    requires g.bs > 0 && AllTiled(bs)
  {
    Boundary(g, bs, at) && (ListFrom(g, bs, at) == [] || Stuck(ListFrom(g, bs, at), room))
  }

  /** One block of the chunk: from a boundary within block l to where the scan stopped. */
  lemma ListedBlock(g: Geometry, bs: seq<seq<byte>>, pos: nat, out: seq<Dirent>, at: nat, room: nat, more: seq<Dirent>,
                    stop: nat, full: bool, l: nat, off: nat)
    requires g.bs > 0 && AllTiled(bs) && (forall k :: 0 <= k < |bs| ==> |bs[k]| == g.bs)
    requires Listed(g, bs, pos, out, at) && l == g.Logical(at) < |bs| && off == g.Within(at)
    requires Taking(bs[l], off, g.Start(l), room, more, stop, full)
    ensures Listed(g, bs, pos, out + more, g.Start(l) + stop)
    ensures full ==> Maximal(g, bs, g.Start(l) + stop, room - TotalSize(more))
    ensures !full ==> stop == g.bs
  {
    hide Tiled, Geometry.Logical, Geometry.Within, Geometry.Start, AllTiled, Standing, Boundary, ListFrom, ListBlock,
         ListBlocks, TotalSize, Taking;
    BoundaryOf(g, bs, pos, out, at);
    BoundaryStanding(g, bs, at);
    TakingStanding(bs[l], off, g.Start(l), room, more, stop, full);
    TakingParts(bs[l], off, g.Start(l), room, more, stop, full);
    if full {
      BoundaryAt(g, bs, l, stop);
    } else {
      BoundaryNext(g, bs, l);
      ListEnd(bs[l], g.Start(l));
    }
  }

  lemma TakingStanding(b: seq<byte>, start: nat, base: nat, room: nat, out: seq<Dirent>, stop: nat, full: bool)
    requires Taking(b, start, base, room, out, stop, full)
    ensures Standing(b, start) && Standing(b, stop) && Tiled(b, start, |b|) && Tiled(b, stop, |b|) && start <= |b|
            && stop <= |b|
  {
  }

  lemma TakingParts(b: seq<byte>, start: nat, base: nat, room: nat, out: seq<Dirent>, stop: nat, full: bool)
    requires Taking(b, start, base, room, out, stop, full)
    ensures start <= |b| && stop <= |b| && Tiled(b, start, |b|) && Tiled(b, stop, |b|)
    ensures ListBlock(b, start, base) == out + ListBlock(b, stop, base)
    ensures full ==> stop < |b| && Stuck(ListBlock(b, stop, base), room - TotalSize(out))
    ensures !full ==> stop == |b|
  {
    hide ListBlock, TotalSize, Tiled;
  }

  lemma ListEnd(b: seq<byte>, base: nat)
    ensures Tiled(b, |b|, |b|) && ListBlock(b, |b|, base) == []
  {
  }

  lemma ListedEnd(g: Geometry, bs: seq<seq<byte>>, at: nat)
    requires g.bs > 0 && AllTiled(bs) && Boundary(g, bs, at) && g.Logical(at) >= |bs|
    ensures ListFrom(g, bs, at) == []
  {
  }

  lemma ListedStart(g: Geometry, bs: seq<seq<byte>>, pos: nat)
    requires g.bs > 0 && AllTiled(bs) && Boundary(g, bs, pos)
    ensures Listed(g, bs, pos, [], pos)
  {
  }

  lemma BeforeEnd(g: Geometry, bs: seq<seq<byte>>, pos: nat)
    requires g.bs > 0 && AllTiled(bs) && Boundary(g, bs, pos)
    ensures pos < |bs| * g.bs <==> g.Logical(pos) < |bs|
    ensures g.Logical(pos) <= |bs|
  {
    PosSplit(g, pos);
    var l := g.Logical(pos);
    if l < |bs| {
      MulBelow(l, |bs|, g.bs);
    }
    hide Tiled, Standing, AllTiled;
  }

  /**
   * ext2_readdir_chunk, from position pos with a buffer of size bytes: the entries that fit, and where to go on.
   */
  method ListChunk(fs: Volume, n: Inode, pos: nat, size: nat) returns (rc: int, out: seq<Dirent>, at: nat)
    requires fs.Valid() && DirOk(fs.g, fs.disk, n) && Boundary(fs.g, DirBlocks(fs.g, fs.disk, n), pos)
    modifies fs`lost
    ensures fs.Valid() && fs.lost >= old(fs.lost) && (fs.lost == old(fs.lost) ==> rc >= 0)
    ensures rc >= 0 ==> rc == TotalSize(out) <= size
    ensures rc >= 0 ==> Listed(fs.g, DirBlocks(fs.g, fs.disk, n), pos, out, at)
    ensures fs.lost == old(fs.lost) ==> Maximal(fs.g, DirBlocks(fs.g, fs.disk, n), at, size - rc)
  {
    hide Volume.Logged, Volume.Tracked, Volume.StoredTotals, Volume.StoredGroup, Volume.DescIn;
    hide Geometry.Valid, Geometry.Sizes, Geometry.Logical, Geometry.Within, BlockCounts, InodeCounts, Sum, SizeOf,
         DirLen, Phys, PtrOf, Tiled, AllTiled, DirBlocks, Geometry.Start;
    hide Listed, Taking, Boundary, ListFrom, Maximal, Standing, TotalSize;
    var g := fs.g;
    ghost var bs := DirBlocks(g, fs.disk, n);
    DirFacts(g, fs.disk, n);
    BlockSizes(g, fs.disk, n);
    ListedStart(g, bs, pos);
    EmptyTotal();
    out, at := [], pos;
    var written := 0;
    BoundaryOf(g, bs, pos, out, at);
    BeforeEnd(g, bs, at);
    while at < SizeOf(n)
      invariant Listed(g, bs, pos, out, at) && Boundary(g, bs, at) && written == TotalSize(out) <= size
      invariant fs.Valid() && fs.lost == old(fs.lost)
      invariant (at < SizeOf(n) <==> g.Logical(at) < |bs|) && g.Logical(at) <= |bs|
      decreases |bs| - g.Logical(at)
    {
      var l, off := g.Logical(at), g.Within(at);
      BlockBehind(g, fs.disk, n, l);
      BoundaryStanding(g, bs, at);
      StandingTiled(bs[l], off);
      var phys := BlockPhys(fs, n, l);
      if phys == 0 {
        return written, out, at;
      }
      var b;
      rc, b := fs.ReadBlock(phys);
      if rc != 0 {
        return -EIO, [], pos;
      }
      var more, stop, full, used := ListInBlock(b, off, g.Start(l), size - written);
      ListedBlock(g, bs, pos, out, at, size - written, more, stop, full, l, off);
      TotalConcat(out, more);
      TakingBound(b, off, g.Start(l), size - written, more, stop, full);
      out, at, written := out + more, g.Start(l) + stop, written + used;
      BoundaryOf(g, bs, pos, out, at);
      if full {
        return written, out, at;
      }
      BeforeEnd(g, bs, at);
      NextBlock(g, l);
    }
    ListedEnd(g, bs, at);
    MaximalEnd(g, bs, at, size - written);
    rc := written;
  }

  lemma BoundaryOf(g: Geometry, bs: seq<seq<byte>>, pos: nat, out: seq<Dirent>, at: nat)
    requires g.bs > 0 && AllTiled(bs) && Listed(g, bs, pos, out, at)
    ensures Boundary(g, bs, at)
  {
  }

  lemma EmptyTotal()
    ensures TotalSize([]) == 0
  {
  }

  lemma TakingBound(b: seq<byte>, start: nat, base: nat, room: nat, out: seq<Dirent>, stop: nat, full: bool)
    requires Taking(b, start, base, room, out, stop, full)
    ensures TotalSize(out) <= room
  {
  }

  lemma MaximalEnd(g: Geometry, bs: seq<seq<byte>>, at: nat, room: int)
    requires g.bs > 0 && AllTiled(bs) && Boundary(g, bs, at) && ListFrom(g, bs, at) == []
    ensures Maximal(g, bs, at, room)
  {
  }

  lemma NextBlock(g: Geometry, l: nat)
    requires g.bs > 0
    ensures g.Logical(g.Start(l) + g.bs) == l + 1 && g.Within(g.Start(l) + g.bs) == 0
  {
    DivMod(l + 1, 0, g.bs);
    assert g.Start(l) + g.bs == (l + 1) * g.bs + 0;
  }

  lemma InBlock(g: Geometry, l: nat, off: nat)
    requires off < g.bs
    ensures g.Logical(g.Start(l) + off) == l && g.Within(g.Start(l) + off) == off
  {
    DivMod(l, off, g.bs);
  }

  /** ext2_readdir_chunk. */
  method ReadDirectory(fs: Volume, parent: nat, size: nat, pos: nat) returns (rc: int, out: seq<Dirent>, at: nat)
    requires fs.Valid() && GoodDirectory(fs.g, fs.disk, parent)
    requires fs.g.ValidIno(parent) && IsDirectory(InodeAt(fs.g, fs.disk, parent)) ==>
               Boundary(fs.g, BlocksOf(fs.g, fs.disk, parent), pos)
    modifies fs`lost
    ensures fs.Valid() && fs.lost >= old(fs.lost)
    ensures rc >= 0 ==> fs.g.ValidIno(parent) && IsDirectory(InodeAt(fs.g, fs.disk, parent)) && rc == TotalSize(out) <= size
    ensures rc >= 0 ==> Listed(fs.g, BlocksOf(fs.g, fs.disk, parent), pos, out, at)
    ensures rc >= 0 && fs.lost == old(fs.lost) ==> Maximal(fs.g, BlocksOf(fs.g, fs.disk, parent), at, size - rc)
    ensures rc < 0 ==> at == pos
    ensures rc < 0 && fs.lost == old(fs.lost) ==> !fs.g.ValidIno(parent) || !IsDirectory(InodeAt(fs.g, fs.disk, parent))
    ensures !fs.g.ValidIno(parent) ==> rc == -EIO
    ensures fs.lost == old(fs.lost) && fs.g.ValidIno(parent) && !IsDirectory(InodeAt(fs.g, fs.disk, parent)) ==> rc == -ENOTDIR
  {
    hide Volume.Logged, Volume.Tracked;
    hide Geometry.Valid, Geometry.Sizes, Geometry.ValidIno, BlockCounts, InodeCounts, Sum, ModeOf, DirOk, InodeAt,
         Listed, Maximal, Boundary, DirBlocks, TotalSize;
    ValidSizes(fs.g);
    PositiveBs(fs.g);
    out, at := [], pos;
    var n;
    rc, n := fs.ReadInode(parent);
    if rc != 0 {
      return -EIO, [], pos;
    }
    if !IsDirectory(n) {
      return -ENOTDIR, [], pos;
    }
    rc, out, at := ListChunk(fs, n, pos, size);
    if rc < 0 {
      out, at := [], pos;
    }
  }

  // ----- Resuming at an entry -----

  /** In a block: where an entry says the next is, and what follows from there. */
  lemma {:induction false} NextInBlock(b: seq<byte>, off: nat, base: nat, k: nat)
    requires Standing(b, off) && k < |ListBlock(b, off, base)|
    ensures var es := ListBlock(b, off, base);
            && base <= es[k].next && Standing(b, es[k].next - base)
            && ListBlock(b, es[k].next - base, base) == es[k + 1..]
    decreases |b| - off
  {
    hide InoOf, LenOf, NameLenOf, EntrySize, Tiled, Fits, Visible, NameOf, Live;
    ListOne(b, off, base);
    StandingStep(b, off);
    ListStep(b, off, base);
    var es, now, rest := ListBlock(b, off, base), ListAt(b, off, |b|, base), ListBlock(b, off + LenOf(b, off), base);
    if k < |now| {
      assert es[k + 1..] == rest;
    } else {
      NextInBlock(b, off + LenOf(b, off), base, k - |now|);
      assert es[k + 1..] == rest[k - |now| + 1..];
    }
  }

  lemma ListOne(b: seq<byte>, off: nat, base: nat)
    requires Standing(b, off) && |ListBlock(b, off, base)| > 0
    ensures off < |b|
  {
  }

  /** The position an entry gives is a boundary of the directory. */
  lemma NextOf(g: Geometry, bs: seq<seq<byte>>, l: nat, off: nat, k: nat)
    requires g.bs > 0 && AllTiled(bs) && (forall k :: 0 <= k < |bs| ==> |bs[k]| == g.bs) && l < |bs|
    requires Standing(bs[l], off) && k < |ListBlock(bs[l], off, g.Start(l))|
    ensures var es := ListBlock(bs[l], off, g.Start(l));
            Boundary(g, bs, es[k].next) && ListFrom(g, bs, es[k].next) == es[k + 1..] + ListBlocks(g, bs, l + 1)
  {
    hide Tiled, Geometry.Logical, Geometry.Within, Geometry.Start, AllTiled, Standing, Boundary, ListFrom, ListBlock,
         ListBlocks;
    StandingTiled(bs[l], off);
    var es := ListBlock(bs[l], off, g.Start(l));
    NextInBlock(bs[l], off, g.Start(l), k);
    var stop := es[k].next - g.Start(l);
    StandingTiled(bs[l], stop);
    if stop < g.bs {
      BoundaryAt(g, bs, l, stop);
    } else {
      BoundaryNext(g, bs, l);
      ListEnd(bs[l], g.Start(l));
    }
  }

  lemma {:induction false} NextInBlocks(g: Geometry, bs: seq<seq<byte>>, l: nat, k: nat)
    requires g.bs > 0 && AllTiled(bs) && (forall k :: 0 <= k < |bs| ==> |bs[k]| == g.bs)
    requires k < |ListBlocks(g, bs, l)|
    ensures var es := ListBlocks(g, bs, l); Boundary(g, bs, es[k].next) && ListFrom(g, bs, es[k].next) == es[k + 1..]
    decreases |bs| - l
  {
    hide Tiled, Geometry.Logical, Geometry.Within, Geometry.Start, Standing, Boundary, ListFrom, ListBlock;
    var here, rest := ListBlock(bs[l], 0, g.Start(l)), ListBlocks(g, bs, l + 1);
    assert ListBlocks(g, bs, l) == here + rest;
    if k < |here| {
      StandingStart(bs[l]);
      NextOf(g, bs, l, 0, k);
      assert (here + rest)[k + 1..] == here[k + 1..] + rest;
    } else {
      NextInBlocks(g, bs, l + 1, k - |here|);
      assert (here + rest)[k + 1..] == rest[k - |here| + 1..];
    }
  }

  /** A listing that goes on at the d_off of an entry shows what comes after that entry. */
  lemma Resumes(g: Geometry, bs: seq<seq<byte>>, pos: nat, k: nat)
    requires g.bs > 0 && AllTiled(bs) && (forall k :: 0 <= k < |bs| ==> |bs[k]| == g.bs) && Boundary(g, bs, pos)
    requires k < |ListFrom(g, bs, pos)|
    ensures var es := ListFrom(g, bs, pos); Boundary(g, bs, es[k].next) && ListFrom(g, bs, es[k].next) == es[k + 1..]
  {
    hide Tiled, Geometry.Logical, Geometry.Within, Geometry.Start, Standing, Boundary, ListFrom, ListBlock, ListBlocks,
         AllTiled;
    BeforeEnd(g, bs, pos);
    var l := g.Logical(pos);
    if l == |bs| {
      ListedEnd(g, bs, pos);
      assert false;
    }
    BoundaryStanding(g, bs, pos);
    StandingTiled(bs[l], g.Within(pos));
    var here, rest := ListBlock(bs[l], g.Within(pos), g.Start(l)), ListBlocks(g, bs, l + 1);
    if k < |here| {
      NextOf(g, bs, l, g.Within(pos), k);
      assert (here + rest)[k + 1..] == here[k + 1..] + rest;
    } else {
      NextInBlocks(g, bs, l + 1, k - |here|);
      assert (here + rest)[k + 1..] == rest[k - |here| + 1..];
    }
  }

  lemma ListedTrans(g: Geometry, bs: seq<seq<byte>>, a: nat, x: seq<Dirent>, b: nat, y: seq<Dirent>, c: nat)
    requires g.bs > 0 && AllTiled(bs) && Listed(g, bs, a, x, b) && Listed(g, bs, b, y, c)
    ensures Listed(g, bs, a, x + y, c)
  {
    hide AllTiled, Boundary, ListFrom;
  }

  // ----- Whole scans -----

  /** How many entries a buffer of this size takes: as many from the front as fit. */
  function Prefix(es: seq<Dirent>, size: int): (k: nat)
    ensures k <= |es|
  {
    if |es| == 0 || es[0].Size() > size then 0 else 1 + Prefix(es[1..], size - es[0].Size())
  }

  /** What is still to be listed after a chunk of each of the sizes. */
  function Drain(es: seq<Dirent>, sizes: seq<nat>): seq<Dirent>
    decreases |sizes|
  {
    if |sizes| == 0 then es else Drain(es[Prefix(es, sizes[0])..], sizes[1..])
  }

  /** Each buffer can hold the entry that is next when its turn comes. */
  predicate Fitting(es: seq<Dirent>, sizes: seq<nat>)
    decreases |sizes|
  {
    |sizes| == 0 || ((|es| == 0 || es[0].Size() <= sizes[0]) && Fitting(es[Prefix(es, sizes[0])..], sizes[1..]))
  }

  lemma {:induction false} PrefixIs(out: seq<Dirent>, rest: seq<Dirent>, size: int)
    requires TotalSize(out) <= size && (|rest| == 0 || rest[0].Size() > size - TotalSize(out))
    ensures Prefix(out + rest, size) == |out|
    decreases |out|
  {
    hide Dirent.Size;
    if |out| == 0 {
      assert out + rest == rest;
    } else {
      TotalConcat([out[0]], out[1..]);
      assert [out[0]] + out[1..] == out && [out[0]][..0] == [];
      TotalOne(out[0]);
      assert (out + rest)[0] == out[0] && (out + rest)[1..] == out[1..] + rest;
      TotalPositive(out[1..]);
      PrefixIs(out[1..], rest, size - out[0].Size());
    }
  }

  lemma TotalOne(e: Dirent)
    ensures TotalSize([e]) == e.Size()
  {
    TotalSnoc([], e);
    assert [] + [e] == [e];
  }

  lemma {:induction false} TotalPositive(es: seq<Dirent>)
    ensures TotalSize(es) >= 0
    decreases |es|
  {
    if |es| > 0 {
      TotalPositive(es[..|es| - 1]);
    }
  }

  /** Buffers that can each hold the next entry, as many as there are entries, leave nothing. */
  lemma {:induction false} DrainsAll(es: seq<Dirent>, sizes: seq<nat>)
    requires Fitting(es, sizes) && |sizes| >= |es|
    ensures Drain(es, sizes) == []
    decreases |sizes|
  {
    if |sizes| > 0 {
      DrainsAll(es[Prefix(es, sizes[0])..], sizes[1..]);
    }
  }

  /** 268 bytes hold any entry. */
  lemma {:induction false} LargeBuffersFit(es: seq<Dirent>, sizes: seq<nat>)
    requires forall i :: 0 <= i < |es| ==> |es[i].name| <= 255
    requires forall i :: 0 <= i < |sizes| ==> sizes[i] >= 268
    ensures Fitting(es, sizes)
    decreases |sizes|
  {
    if |sizes| > 0 {
      LargeBuffersFit(es[Prefix(es, sizes[0])..], sizes[1..]);
    }
  }

  /** What one chunk leaves to be listed. */
  lemma ChunkDrains(g: Geometry, bs: seq<seq<byte>>, pos: nat, out: seq<Dirent>, at: nat, size: nat)
    requires g.bs > 0 && AllTiled(bs) && Listed(g, bs, pos, out, at) && TotalSize(out) <= size
    requires Maximal(g, bs, at, size - TotalSize(out))
    ensures Boundary(g, bs, pos) && Boundary(g, bs, at)
    ensures ListFrom(g, bs, at) == ListFrom(g, bs, pos)[Prefix(ListFrom(g, bs, pos), size)..]
  {
    hide AllTiled, Boundary, ListFrom, TotalSize, Prefix;
    PrefixIs(out, ListFrom(g, bs, at), size);
  }

  /**
   * A whole scan of an unchanged directory, with a buffer size of its own for every call. Whatever the sizes, nothing
   * is lost or repeated and every chunk takes all that fits; and if each buffer can hold the next entry, as many calls
   * as there are entries list them all.
   */
  method ListInChunks(fs: Volume, n: Inode, sizes: seq<nat>) returns (out: seq<Dirent>, at: nat)
    requires fs.Valid() && DirOk(fs.g, fs.disk, n)
    modifies fs`lost
    ensures fs.Valid() && (fs.lost == old(fs.lost) ==> ScannedBy(fs.g, fs.disk, n, sizes, out, at))
    ensures fs.lost == old(fs.lost) && Fitting(AllOf(fs.g, fs.disk, n), sizes)
            && |sizes| >= |Shown(DirEntries(fs.g, fs.disk, n))| ==>
              && NamesOf(out) == Shown(DirEntries(fs.g, fs.disk, n))
              && SameTimes(out, DirEntries(fs.g, fs.disk, n)) && InOrder(out, DirEntries(fs.g, fs.disk, n))
  {
    hide Volume.Logged, Volume.Tracked;
    hide Geometry.Valid, Geometry.Sizes, BlockCounts, InodeCounts, Sum, DirOk, Listed, Maximal, Boundary, DirBlocks,
         TotalSize, AllTiled, ListFrom, DirEntries;
    hide Shown, NamesOf, Drain, Fitting, Prefix, SameTimes, InOrder;
    var g := fs.g;
    DirPositive(g, fs.disk, n);
    ghost var bs := DirBlocks(g, fs.disk, n);
    DirFacts(g, fs.disk, n);
    ListsAll(g, fs.disk, n);
    ListedStart(g, bs, 0);
    out, at := [], 0;
    var i := 0;
    assert sizes[0..] == sizes;
    while i < |sizes|
      invariant fs.Valid() && i <= |sizes| && fs.lost >= old(fs.lost)
      invariant Listed(g, bs, 0, out, at) && Boundary(g, bs, at)
      invariant fs.lost == old(fs.lost) ==> Drain(ListFrom(g, bs, 0), sizes) == Drain(ListFrom(g, bs, at), sizes[i..])
    {
      ghost var was := at;
      var rc, more;
      rc, more, at := ListChunk(fs, n, at, sizes[i]);
      if rc < 0 {
        return;
      }
      ListedTrans(g, bs, 0, out, was, more, at);
      BoundaryOf(g, bs, was, more, at);
      if fs.lost == old(fs.lost) {
        ChunkDrains(g, bs, was, more, at, sizes[i]);
        DrainStep(ListFrom(g, bs, was), sizes, i);
      }
      out := out + more;
      i := i + 1;
    }
    DrainNone(ListFrom(g, bs, at));
    assert sizes[i..] == [];
    if fs.lost == old(fs.lost) && Fitting(ListFrom(g, bs, 0), sizes) && |sizes| >= |Shown(DirEntries(g, fs.disk, n))| {
      NamesLength(ListFrom(g, bs, 0));
      DrainsAll(ListFrom(g, bs, 0), sizes);
      AllListed(g, bs, out, at);
    }
  }

  lemma DrainStep(es: seq<Dirent>, sizes: seq<nat>, i: nat)
    requires i < |sizes|
    ensures Drain(es, sizes[i..]) == Drain(es[Prefix(es, sizes[i])..], sizes[i + 1..])
  {
    assert sizes[i..][1..] == sizes[i + 1..];
  }

  lemma DrainNone(es: seq<Dirent>)
    ensures Drain(es, []) == es
  {
  }

  /** Everything there is to list. */
  ghost function AllOf(g: Geometry, d: Disk, n: Inode): seq<Dirent>
    requires DirOk(g, d, n)
  {
    ListsAll(g, d, n);
    ListFrom(g, DirBlocks(g, d, n), 0)
  }

  /** The chunks so far, and what the sizes leave to be listed. */
  ghost predicate ScannedBy(g: Geometry, d: Disk, n: Inode, sizes: seq<nat>, out: seq<Dirent>, at: nat)
    requires DirOk(g, d, n)
  {
    var bs := DirBlocks(g, d, n);
    Listed(g, bs, 0, out, at) && ListFrom(g, bs, at) == Drain(AllOf(g, d, n), sizes)
  }

  /** With buffers of at least 268 bytes a scan lists everything. */
  lemma LargeBuffersScan(g: Geometry, d: Disk, n: Inode, sizes: seq<nat>)
    requires DirOk(g, d, n) && forall i :: 0 <= i < |sizes| ==> sizes[i] >= 268
    ensures Fitting(AllOf(g, d, n), sizes)
  {
    hide AllTiled, Boundary, ListFrom, Fitting;
    DirPositive(g, d, n);
    DirFacts(g, d, n);
    ListsAll(g, d, n);
    ShortNamesFrom(g, DirBlocks(g, d, n), 0);
    LargeBuffersFit(AllOf(g, d, n), sizes);
  }

  lemma DirPositive(g: Geometry, d: Disk, n: Inode)
    requires DirOk(g, d, n)
    ensures g.bs > 0
  {
  }

  lemma {:induction false} NamesLength(es: seq<Dirent>)
    ensures |NamesOf(es)| == |es|
    decreases |es|
  {
    if |es| > 0 {
      NamesLength(es[1..]);
    }
  }

  lemma AllListed(g: Geometry, bs: seq<seq<byte>>, out: seq<Dirent>, at: nat)
    requires g.bs > 0 && AllTiled(bs) && Listed(g, bs, 0, out, at)
    requires Boundary(g, bs, at) && ListFrom(g, bs, at) == []
    ensures Boundary(g, bs, 0) && out == ListFrom(g, bs, 0)
  {
    hide Boundary, ListFrom, AllTiled;
    assert out + [] == out;
  }

  /** No name is longer than 255 bytes. */
  lemma {:induction false} ShortNames(b: seq<byte>, lo: nat, base: nat)
    requires lo <= |b| && Tiled(b, lo, |b|)
    ensures forall i :: 0 <= i < |ListBlock(b, lo, base)| ==> |ListBlock(b, lo, base)[i].name| <= 255
    decreases |b| - lo
  {
    hide InoOf, LenOf, NameLenOf, EntrySize, Visible;
    if lo < |b| {
      NameLenSmall(b, lo);
      ShortNames(b, lo + LenOf(b, lo), base);
    }
  }

  lemma NameLenSmall(b: seq<byte>, off: nat)
    requires off + HEADER <= |b|
    ensures NameLenOf(b, off) <= 255
  {
  }

  lemma {:induction false} ShortNamesIn(g: Geometry, bs: seq<seq<byte>>, l: nat)
    requires AllTiled(bs)
    ensures forall i :: 0 <= i < |ListBlocks(g, bs, l)| ==> |ListBlocks(g, bs, l)[i].name| <= 255
    decreases |bs| - l
  {
    hide Tiled, ListBlock, Geometry.Start;
    if l < |bs| {
      ShortNames(bs[l], 0, g.Start(l));
      ShortNamesIn(g, bs, l + 1);
    }
  }

  lemma ShortNamesFrom(g: Geometry, bs: seq<seq<byte>>, at: nat)
    requires g.bs > 0 && AllTiled(bs) && Boundary(g, bs, at)
    ensures forall i :: 0 <= i < |ListFrom(g, bs, at)| ==> |ListFrom(g, bs, at)[i].name| <= 255
  {
    hide Tiled, ListBlock, ListBlocks, Geometry.Logical, Geometry.Within, Geometry.Start;
    var l := g.Logical(at);
    if l < |bs| {
      ShortNames(bs[l], g.Within(at), g.Start(l));
      ShortNamesIn(g, bs, l + 1);
    }
  }
}
