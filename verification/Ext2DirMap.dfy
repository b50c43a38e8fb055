/** A directory as the list of its entries, read as a finite map from names to inodes (src/kernel/fs/ext2.c:266-299). */
module Ext2DirMap {
  import opened Words
  import opened Ext2Dir

  /** The inode a name resolves to: that of the first entry with the name, or 0. */
  function Resolve(es: seq<Entry>, name: seq<byte>): nat {
    if |es| == 0 then 0 else if es[0].name == name then es[0].ino else Resolve(es[1..], name)
  }

  predicate Absent(es: seq<Entry>, name: seq<byte>) {
    forall i :: 0 <= i < |es| ==> es[i].name != name
  }

  /** No name occurs twice. */
  ghost predicate Distinct(es: seq<Entry>) {
    forall i, j :: 0 <= i < j < |es| ==> es[i].name != es[j].name
  }

  /** e is put in somewhere before any entry of its own name. */
  ghost predicate Added(es: seq<Entry>, more: seq<Entry>, e: Entry) {
    exists p :: 0 <= p <= |es| && AddedAt(es, more, e, p)
  }

  ghost predicate AddedAt(es: seq<Entry>, more: seq<Entry>, e: Entry, p: nat)
    requires p <= |es|
  {
    more == es[..p] + [e] + es[p..] && Absent(es[..p], e.name)
  }

  /** The first entry with the name is taken out. */
  ghost predicate Dropped(es: seq<Entry>, less: seq<Entry>, name: seq<byte>) {
    exists p :: 0 <= p < |es| && DroppedAt(es, less, name, p)
  }

  ghost predicate DroppedAt(es: seq<Entry>, less: seq<Entry>, name: seq<byte>, p: nat)
    requires p < |es|
  {
    es[p].name == name && less == es[..p] + es[p + 1..] && Absent(es[..p], name)
  }

  lemma {:induction false} ResolveConcat(a: seq<Entry>, b: seq<Entry>, name: seq<byte>)
    ensures Resolve(a + b, name) == if Absent(a, name) then Resolve(b, name) else Resolve(a, name)
    decreases |a|
  {
    if |a| == 0 {
      assert a + b == b;
    } else {
      assert (a + b)[1..] == a[1..] + b;
      assert a == [a[0]] + a[1..];
      ResolveConcat(a[1..], b, name);
    }
  }

  lemma {:induction false} ResolveAbsent(es: seq<Entry>, name: seq<byte>)
    requires Absent(es, name)
    ensures Resolve(es, name) == 0
    decreases |es|
  {
    if |es| > 0 {
      ResolveAbsent(es[1..], name);
    }
  }

  /** After an add, the new name resolves to its child and every other name as before. */
  lemma AddedResolves(es: seq<Entry>, more: seq<Entry>, e: Entry, name: seq<byte>)
    requires Added(es, more, e)
    ensures Resolve(more, name) == if name == e.name then e.ino else Resolve(es, name)
  {
    var p :| 0 <= p <= |es| && AddedAt(es, more, e, p);
    var a, b := es[..p], es[p..];
    assert es == a + b && more == a + ([e] + b);
    ResolveConcat(a, b, name);
    ResolveConcat(a, [e] + b, name);
    assert ([e] + b)[1..] == b;
  }

  /** A remove leaves every other name alone; if names were distinct the name is gone. */
  lemma DroppedResolves(es: seq<Entry>, less: seq<Entry>, gone: seq<byte>, name: seq<byte>)
    requires Dropped(es, less, gone)
    ensures name != gone ==> Resolve(less, name) == Resolve(es, name)
    ensures Distinct(es) ==> Resolve(less, gone) == 0
  {
    var p :| 0 <= p < |es| && DroppedAt(es, less, gone, p);
    var a, b := es[..p], es[p + 1..];
    assert es == a + ([es[p]] + b) && less == a + b;
    ResolveConcat(a, b, name);
    ResolveConcat(a, [es[p]] + b, name);
    assert ([es[p]] + b)[1..] == b;
    if Distinct(es) {
      forall i | 0 <= i < |less|
        ensures less[i].name != gone
      {
        assert less[i] == if i < p then es[i] else es[i + 1];
      }
      ResolveAbsent(less, gone);
    }
  }

  /** Adding an absent name keeps names distinct, and removing it again gives back the same directory. */
  lemma AddThenDrop(es: seq<Entry>, more: seq<Entry>, less: seq<Entry>, e: Entry)
    requires Added(es, more, e) && Absent(es, e.name)
    ensures Distinct(es) ==> Distinct(more)
    ensures Dropped(more, less, e.name) ==> less == es
  {
    hide Absent, Distinct, AddedAt, DroppedAt;
    var p :| 0 <= p <= |es| && AddedAt(es, more, e, p);
    AddedDistinct(es, more, e, p);
    if Dropped(more, less, e.name) {
      var q :| 0 <= q < |more| && DroppedAt(more, less, e.name, q);
      DropAdded(es, more, less, e, p, q);
    }
  }

  lemma DropAdded(es: seq<Entry>, more: seq<Entry>, less: seq<Entry>, e: Entry, p: nat, q: nat)
    requires p <= |es| && AddedAt(es, more, e, p) && Absent(es, e.name) && q < |more|
             && DroppedAt(more, less, e.name, q)
    ensures less == es
  {
    OnlyAt(es, more, e, p, q);
    hide Absent;
    assert more[..p] == es[..p] && more[p + 1..] == es[p..];
    assert less == es[..p] + es[p..];
  }

  /** The added entry is the only one of its name. */
  lemma OnlyAt(es: seq<Entry>, more: seq<Entry>, e: Entry, p: nat, q: nat)
    requires p <= |es| && AddedAt(es, more, e, p) && Absent(es, e.name) && q < |more| && more[q].name == e.name
    ensures q == p
  {
    AddedElement(es, more, e, p, q);
  }

  lemma AddedElement(es: seq<Entry>, more: seq<Entry>, e: Entry, p: nat, q: nat)
    requires p <= |es| && AddedAt(es, more, e, p) && q < |more|
    ensures more[q] == if q < p then es[q] else if q == p then e else es[q - 1]
  {
  }

  lemma AddedDistinct(es: seq<Entry>, more: seq<Entry>, e: Entry, p: nat)
    requires p <= |es| && AddedAt(es, more, e, p) && Absent(es, e.name)
    ensures Distinct(es) ==> Distinct(more)
  {
    if Distinct(es) {
      forall i, j | 0 <= i < j < |more|
        ensures more[i].name != more[j].name
      {
        if more[i].name == e.name {
          OnlyAt(es, more, e, p, i);
        }
        if more[j].name == e.name {
          OnlyAt(es, more, e, p, j);
        }
        AddedElement(es, more, e, p, i);
        AddedElement(es, more, e, p, j);
      }
    }
  }

  /** Removing keeps names distinct. */
  lemma DroppedDistinct(es: seq<Entry>, less: seq<Entry>, name: seq<byte>)
    requires Dropped(es, less, name) && Distinct(es)
    ensures Distinct(less)
  {
    var p :| 0 <= p < |es| && DroppedAt(es, less, name, p);
    forall i | 0 <= i < |less|
      ensures less[i] == if i < p then es[i] else es[i + 1]
    {
    }
  }

  // ----- The blocks of a directory -----

  ghost predicate AllTiled(bs: seq<seq<byte>>) {
    forall l :: 0 <= l < |bs| ==> Tiled(bs[l], 0, |bs[l]|)
  }

  /** The entries of one tiled block. */
  function BlockEntries(b: seq<byte>): seq<Entry>
    requires Tiled(b, 0, |b|)
  {
    Live(b, 0, |b|)
  }

  /** The entries of a run of blocks, in disk order. */
  ghost function Entries(bs: seq<seq<byte>>): seq<Entry>
    requires AllTiled(bs)
  {
    if |bs| == 0 then [] else Entries(bs[..|bs| - 1]) + BlockEntries(bs[|bs| - 1])
  }

  lemma {:induction false} EntriesSplit(bs: seq<seq<byte>>, j: nat)
    requires AllTiled(bs) && j <= |bs|
    ensures Entries(bs) == Entries(bs[..j]) + Entries(bs[j..])
    decreases |bs|
  {
    hide BlockEntries, Tiled;
    if j == |bs| {
      assert bs[..j] == bs && bs[j..] == [];
    } else {
      var n := |bs| - 1;
      EntriesSplit(bs[..n], j);
      assert bs[..n][..j] == bs[..j] && bs[..n][j..] == bs[j..][..n - j];
      assert bs[j..][n - j] == bs[n];
    }
  }

  lemma EntriesOne(b: seq<byte>)
    requires Tiled(b, 0, |b|)
    ensures Entries([b]) == BlockEntries(b)
  {
    assert [b][..0] == [];
    assert Entries([b][..0]) == [];
  }

  lemma EntriesAround(bs: seq<seq<byte>>, j: nat)
    requires AllTiled(bs) && j < |bs|
    ensures Entries(bs) == Entries(bs[..j]) + BlockEntries(bs[j]) + Entries(bs[j + 1..])
  {
    hide BlockEntries, Tiled, Entries;
    EntriesSplit(bs, j);
    EntriesSplit(bs[j..], 1);
    assert bs[j..][..1] == [bs[j]] && bs[j..][1..] == bs[j + 1..];
    EntriesOne(bs[j]);
  }

  /** What replacing block j does to the list. */
  lemma EntriesReplace(bs: seq<seq<byte>>, j: nat, c: seq<byte>)
    requires AllTiled(bs) && j < |bs| && Tiled(c, 0, |c|)
    ensures AllTiled(bs[j := c])
    ensures Entries(bs[j := c]) == Entries(bs[..j]) + BlockEntries(c) + Entries(bs[j + 1..])
  {
    hide BlockEntries, Tiled, Entries;
    var more := bs[j := c];
    assert more[..j] == bs[..j] && more[j + 1..] == bs[j + 1..];
    EntriesAround(more, j);
  }

  lemma AbsentConcat(a: seq<Entry>, b: seq<Entry>, name: seq<byte>)
    ensures Absent(a + b, name) <==> Absent(a, name) && Absent(b, name)
  {
    assert forall i :: 0 <= i < |a| ==> (a + b)[i] == a[i];
    assert forall i :: 0 <= i < |b| ==> (a + b)[|a| + i] == b[i];
  }

  /** The name is in none of the blocks. */
  lemma {:induction false} AbsentBlocks(bs: seq<seq<byte>>, name: seq<byte>)
    requires AllTiled(bs) && forall l :: 0 <= l < |bs| ==> Absent(BlockEntries(bs[l]), name)
    ensures Absent(Entries(bs), name)
    decreases |bs|
  {
    hide BlockEntries, Tiled, Absent;
    if |bs| == 0 {
      AbsentEmpty(name);
    } else {
      var n := |bs| - 1;
      AbsentBlocks(bs[..n], name);
      AbsentConcat(Entries(bs[..n]), BlockEntries(bs[n]), name);
    }
  }

  lemma AbsentEmpty(name: seq<byte>)
    ensures Absent([], name)
  {
  }

  /** Inserting into block j, when no block before it and no entry of its own has the name. */
  lemma InsertedAdds(bs: seq<seq<byte>>, j: nat, c: seq<byte>, next: nat, e: Entry)
    requires AllTiled(bs) && j < |bs| && Inserted(bs[j], c, next, e)
    requires forall l :: 0 <= l <= j ==> Absent(BlockEntries(bs[l]), e.name)
    ensures AllTiled(bs[j := c]) && Added(Entries(bs), Entries(bs[j := c]), e)
  {
    hide Tiled, Live, Absent, Entries, Added;
    var b := bs[j];
    var front, x, y, back := Entries(bs[..j]), Live(b, 0, next), Live(b, next, |b|), Entries(bs[j + 1..]);
    TiledJoin(b, 0, next, |b|);
    EntriesReplace(bs, j, c);
    EntriesAround(bs, j);
    AbsentBlocks(bs[..j], e.name);
    AbsentConcat(x, y, e.name);
    AddedBetween(front, x, y, back, e);
  }

  lemma AddedBetween(front: seq<Entry>, x: seq<Entry>, y: seq<Entry>, back: seq<Entry>, e: Entry)
    requires Absent(front, e.name) && Absent(x, e.name)
    ensures Added(front + (x + y) + back, front + (x + [e] + y) + back, e)
  {
    AbsentConcat(front, x, e.name);
    hide Absent;
    var es, more := front + (x + y) + back, front + (x + [e] + y) + back;
    var p := |front + x|;
    assert es[..p] == front + x && es[p..] == y + back;
    assert more == es[..p] + [e] + es[p..];
    assert AddedAt(es, more, e, p);
  }

  /** Taking the first match out of block j, when no block before it has the name. */
  lemma RemovedDrops(bs: seq<seq<byte>>, j: nat, c: seq<byte>, off: nat, next: nat, name: seq<byte>)
    requires AllTiled(bs) && j < |bs| && Removed(bs[j], c, off, next)
    requires forall l :: 0 <= l < j ==> Absent(BlockEntries(bs[l]), name)
    requires Absent(Live(bs[j], 0, off), name)
    requires Tiled(bs[j], off, next) && |Live(bs[j], off, next)| == 1 && Live(bs[j], off, next)[0].name == name
    ensures AllTiled(bs[j := c]) && Dropped(Entries(bs), Entries(bs[j := c]), name)
  {
    hide Tiled, Live, Absent, Entries, Dropped;
    var b := bs[j];
    var front, x, m, y, back := Entries(bs[..j]), Live(b, 0, off), Live(b, off, next), Live(b, next, |b|), Entries(bs[j + 1..]);
    TiledJoin(b, off, next, |b|);
    TiledJoin(b, 0, off, |b|);
    EntriesReplace(bs, j, c);
    EntriesAround(bs, j);
    AbsentBlocks(bs[..j], name);
    assert m == [m[0]];
    DroppedBetween(front, x, m[0], y, back, name);
  }

  lemma DroppedBetween(front: seq<Entry>, x: seq<Entry>, e: Entry, y: seq<Entry>, back: seq<Entry>, name: seq<byte>)
    requires Absent(front, name) && Absent(x, name) && e.name == name
    ensures Dropped(front + (x + ([e] + y)) + back, front + (x + y) + back, name)
  {
    AbsentConcat(front, x, name);
    hide Absent;
    var es, less := front + (x + ([e] + y)) + back, front + (x + y) + back;
    var p := |front + x|;
    assert es[..p] == front + x && es[p] == e && es[p + 1..] == y + back;
    assert less == es[..p] + es[p + 1..];
    assert DroppedAt(es, less, name, p);
  }

  /** A new block at the end, when no block has the name. */
  lemma AppendedAdds(bs: seq<seq<byte>>, c: seq<byte>, e: Entry)
    requires AllTiled(bs) && Tiled(c, 0, |c|) && BlockEntries(c) == [e]
    requires forall l :: 0 <= l < |bs| ==> Absent(BlockEntries(bs[l]), e.name)
    ensures AllTiled(bs + [c]) && Added(Entries(bs), Entries(bs + [c]), e)
  {
    hide Tiled, BlockEntries, Absent;
    var more := bs + [c];
    assert more[..|more| - 1] == bs && more[|more| - 1] == c;
    AbsentBlocks(bs, e.name);
    AddedLast(Entries(bs), e);
  }

  lemma AddedLast(es: seq<Entry>, e: Entry)
    requires Absent(es, e.name)
    ensures Added(es, es + [e], e)
  {
    hide Absent;
    assert es[..|es|] == es && es[|es|..] == [];
    assert AddedAt(es, es + [e], e, |es|);
  }
}
