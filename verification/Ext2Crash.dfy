/**
 * What a crash and replay make of the writes of an ext2 operation. Each is a transaction of one block
 * (src/kernel/fs/ext2.c:101-113), except that of the superblock, which goes past the journal (src/kernel/fs/ext2.c:359).
 * The volume is left as it was after some of these writes.
 */
module Ext2Crash {
  import opened Options
  import opened Words
  import opened JournalFormat
  import opened JournalDisk
  import opened JournalCrash
  import opened JournalRuns
  import opened JournalOrdered
  import opened JournalBoots
  import opened Ext2Owner
  import opened Ext2Volume
  import opened Ext2Alloc

  type Blocks = Ext2Layout.Disk

  // ----- Journaled and bare writes -----

  /** One call of journaled_write, however its commit ends, or a bare write that succeeded. */
  datatype Item = Journaled(a: Attempt) | Bare(blk: U32, bytes: seq<byte>) {
    /** A transaction of one block, as journaled_write makes them. */
    predicate Valid() {
      Journaled? ==> a.Valid() && |a.txn.targets| == 1
    }
  }

  predicate ValidItems(items: seq<Item>) {
    forall i :: 0 <= i < |items| ==>
      items[i].Valid() && (i < |items| - 1 && items[i].Journaled? ==> !items[i].a.Panicked?)
  }

  function ItemWrites(item: Item, tb: nat): seq<Write>
    requires item.Valid() && tb <= BLOCK_SIZE
  {
    match item
    case Journaled(a) => Writes(a, tb)
    case Bare(blk, bytes) => [Target(blk, bytes)]
  }

  function AllWrites(items: seq<Item>, tb: nat): seq<Write>
    requires ValidItems(items) && tb <= BLOCK_SIZE
    decreases |items|
  {
    if |items| == 0 then [] else AllWrites(items[..|items| - 1], tb) + ItemWrites(items[|items| - 1], tb)
  }

  /** The block write that the item comes to once j of its writes are on the disk; none for a commit that failed. */
  function Change(item: Item, tb: nat, j: nat): seq<BlockWrite>
    requires item.Valid() && tb <= BLOCK_SIZE
  {
    match item
    case Journaled(a) =>
      if !a.Failed? && j >= |a.txn.data| + 2 then [BlockWrite(a.txn.targets[0], a.txn.data[0][..tb], true)] else []
    case Bare(blk, bytes) => if j >= 1 then [BlockWrite(blk, bytes, false)] else []
  }

  /** The block writes that the first j of the items' writes come to. */
  function Changes(items: seq<Item>, tb: nat, j: nat): seq<BlockWrite>
    requires ValidItems(items) && tb <= BLOCK_SIZE
    decreases |items|
  {
    if |items| == 0 then []
    else
      var before, m := items[..|items| - 1], |AllWrites(items[..|items| - 1], tb)|;
      if j <= m then Changes(before, tb, j) else Changes(before, tb, m) + Change(items[|items| - 1], tb, j - m)
  }

  /** Those of all the items' writes. */
  function AllChanges(items: seq<Item>, tb: nat): seq<BlockWrite>
    requires ValidItems(items) && tb <= BLOCK_SIZE
  {
    Changes(items, tb, |AllWrites(items, tb)|)
  }

  function ApplyChanges(base: Contents, ws: seq<BlockWrite>): Contents
    decreases |ws|
  {
    if |ws| == 0 then base
    else
      var before, w := ApplyChanges(base, ws[..|ws| - 1]), ws[|ws| - 1];
      if w.blk < TWO32 then before[w.blk := w.bytes] else before
  }

  lemma ApplySnoc(base: Contents, ws: seq<BlockWrite>, w: BlockWrite)
    requires w.blk < TWO32
    ensures ApplyChanges(base, ws + [w]) == ApplyChanges(base, ws)[w.blk := w.bytes]
  {
    assert (ws + [w])[..|ws|] == ws;
  }

  function StaleWith(stale: Option<Txn>, items: seq<Item>): (s: Option<Txn>)
    requires ValidItems(items) && (stale.Some? ==> stale.value.Valid())
    ensures s.Some? ==> s.value.Valid()
    decreases |items|
  {
    if |items| == 0 then stale
    else
      var before := StaleWith(stale, items[..|items| - 1]);
      match items[|items| - 1]
      case Journaled(a) => OrderedStaleAfter(before, a)
      case Bare(_, _) => before
  }

  /** The item disturbs no slot, and overwrites no target, of a transaction whose header a failed clear has left behind. */
  ghost predicate Harmonious(stale: Option<Txn>, item: Item, tb: nat)
    requires item.Valid() && tb <= BLOCK_SIZE && (stale.Some? ==> stale.value.Valid())
  {
    match item
    case Journaled(a) => Compatible(stale, a, tb)
    case Bare(blk, _) => stale.Some? ==> blk !in stale.value.targets
  }

  ghost predicate ItemsUndisturbed(stale: Option<Txn>, items: seq<Item>, tb: nat)
    requires ValidItems(items) && tb <= BLOCK_SIZE && (stale.Some? ==> stale.value.Valid())
  {
    forall i :: 0 <= i < |items| ==> Harmonious(StaleWith(stale, items[..i]), items[i], tb)
  }

  lemma ItemsPrefix(stale: Option<Txn>, items: seq<Item>, tb: nat)
    requires ValidItems(items) && tb <= BLOCK_SIZE && (stale.Some? ==> stale.value.Valid()) && |items| > 0
    requires ItemsUndisturbed(stale, items, tb)
    ensures ItemsUndisturbed(stale, items[..|items| - 1], tb)
    ensures Harmonious(StaleWith(stale, items[..|items| - 1]), items[|items| - 1], tb)
  {
    hide Harmonious, StaleWith;
    var n := |items| - 1;
    forall i | 0 <= i < n
      ensures Harmonious(StaleWith(stale, items[..n][..i]), items[..n][i], tb)
    {
      assert items[..n][..i] == items[..i];
    }
  }

  // ----- One item -----

  lemma OneTarget(base: Contents, t: Txn, tb: nat)
    requires t.Valid() && |t.targets| == 1 && tb <= BLOCK_SIZE
    ensures ApplyTxn(base, t, tb) == base[t.targets[0] := t.data[0][..tb]]
  {
    var none := t.targets[..0];
    assert WriteTargets(base, none, t.data, tb) == base;
  }

  lemma SettledBut(base: Contents, t: Txn, tb: nat, blk: U32, bytes: seq<byte>)
    requires t.Valid() && tb <= BLOCK_SIZE && Settled(base, t, tb) && blk !in t.targets
    ensures Settled(base[blk := bytes], t, tb)
  {
    var more := base[blk := bytes];
    var r := ApplyTxn(more, t, tb);
    forall b: U32
      ensures SameAt(r, more, b)
    {
      WriteTargetsAt(more, t.targets, t.data, tb, b);
      WriteTargetsAt(base, t.targets, t.data, tb, b);
    }
    MapsEqual(r, more);
  }

  /** A bare write between two commits changes that block and nothing else. */
  lemma BareBetween(d: Disk, base: Contents, stale: Option<Txn>, tb: nat, blk: U32, bytes: seq<byte>)
    requires Between(At(d), base, stale, tb) && (stale.Some? ==> blk !in stale.value.targets)
    ensures Between(At(Apply1(d, Target(blk, bytes))), base[blk := bytes], stale, tb)
  {
    hide Judge, ApplyTxn;
    if stale.Some? {
      SettledBut(base, stale.value, tb, blk, bytes);
    }
  }

  lemma ApplyOne(d: Disk, w: Write)
    ensures Apply(d, [w]) == Apply1(d, w)
  {
    assert [w][..0] == [];
  }

  lemma ItemBetween(d: Disk, base: Contents, stale: Option<Txn>, tb: nat, item: Item)
    requires item.Valid() && tb <= BLOCK_SIZE && (stale.Some? ==> stale.value.Valid())
    requires Between(At(d), base, stale, tb) && Harmonious(stale, item, tb) && !(item.Journaled? && item.a.Panicked?)
    ensures var ws := ItemWrites(item, tb);
            Between(At(Apply(d, ws)), ApplyChanges(base, Change(item, tb, |ws|)),
                    if item.Journaled? then OrderedStaleAfter(stale, item.a) else stale, tb)
  {
    hide Between, Compatible, Apply, Writes, ApplyTxn;
    match item
    case Journaled(a) =>
      AttemptOrderedBetween(d, base, stale, tb, a);
      WriteCount(a, tb);
      AfterIs(base, a, tb);
    case Bare(blk, bytes) =>
      BareBetween(d, base, stale, tb, blk, bytes);
      ApplyOne(d, Target(blk, bytes));
      ApplySnoc(base, [], BlockWrite(blk, bytes, false));
      assert [] + [BlockWrite(blk, bytes, false)] == [BlockWrite(blk, bytes, false)];
  }

  lemma AfterIs(base: Contents, a: Attempt, tb: nat)
    requires a.Valid() && |a.txn.targets| == 1 && tb <= BLOCK_SIZE
    ensures var w := BlockWrite(a.txn.targets[0], a.txn.data[0][..tb], true);
            ApplyTxn(base, a.txn, tb) == ApplyChanges(base, [w]) && ApplyChanges(base, []) == base
  {
    hide ApplyTxn;
    var w := BlockWrite(a.txn.targets[0], a.txn.data[0][..tb], true);
    OneTarget(base, a.txn, tb);
    assert [] + [w] == [w];
    ApplySnoc(base, [], w);
  }

  /** A crash after j of an item's writes: it has happened or not, as Change says. */
  lemma ItemSafe(d: Disk, base: Contents, stale: Option<Txn>, tb: nat, item: Item, j: nat)
    requires item.Valid() && tb <= BLOCK_SIZE && (stale.Some? ==> stale.value.Valid()) && d.Valid()
    requires Between(At(d), base, stale, tb) && Harmonious(stale, item, tb) && j <= |ItemWrites(item, tb)|
    ensures Recovered(Apply(d, ItemWrites(item, tb)[..j]), tb) == ApplyChanges(base, Change(item, tb, j))
  {
    hide Between, Compatible, Writes, ApplyTxn, Recovered, Apply;
    match item
    case Journaled(a) =>
      AttemptOrderedSafe(d, base, stale, tb, a, j);
      WriteCount(a, tb);
      AfterIs(base, a, tb);
    case Bare(blk, bytes) =>
      var ws := ItemWrites(item, tb);
      if j == 1 {
        ItemBetween(d, base, stale, tb, item);
        assert ws[..j] == ws;
        IdleRecovers(Apply(d, ws), ApplyChanges(base, Change(item, tb, j)), stale, tb);
      } else {
        assert ws[..j] == [];
        ApplyNone(d);
        IdleRecovers(d, base, stale, tb);
      }
  }

  lemma ApplyNone(d: Disk)
    ensures Apply(d, []) == d
  {
  }

  lemma IdleRecovers(d: Disk, base: Contents, stale: Option<Txn>, tb: nat)
    requires Between(At(d), base, stale, tb) && d.Valid() && tb <= BLOCK_SIZE
    ensures Recovered(d, tb) == base
  {
    hide Judge, Recovered;
    PrefixIsCrash(d, [], 0);
    BetweenRecovers(At(d), base, stale, tb, d);
  }

  // ----- A run of items -----

  lemma ApplyAllChanges(base: Contents, a: seq<BlockWrite>, b: seq<BlockWrite>)
    requires |b| <= 1
    ensures ApplyChanges(base, a + b) == ApplyChanges(ApplyChanges(base, a), b)
  {
    if |b| == 1 {
      assert (a + b)[..|a|] == a && b[..0] == [];
    } else {
      assert a + b == a;
    }
  }

  lemma {:induction false} ItemsBetween(d: Disk, base: Contents, stale: Option<Txn>, items: seq<Item>, tb: nat)
    requires ValidItems(items) && tb <= BLOCK_SIZE && (stale.Some? ==> stale.value.Valid())
    requires |items| == 0 || !(items[|items| - 1].Journaled? && items[|items| - 1].a.Panicked?)
    requires Between(At(d), base, stale, tb) && ItemsUndisturbed(stale, items, tb)
    ensures Between(At(Apply(d, AllWrites(items, tb))), ApplyChanges(base, AllChanges(items, tb)),
                    StaleWith(stale, items), tb)
    decreases |items|
  {
    hide Between, Harmonious, ItemsUndisturbed, Change, ItemWrites, ApplyChanges;
    if |items| > 0 {
      var before, item := items[..|items| - 1], items[|items| - 1];
      ItemsPrefix(stale, items, tb);
      ItemsBetween(d, base, stale, before, tb);
      var ws := AllWrites(before, tb);
      ItemBetween(Apply(d, ws), ApplyChanges(base, AllChanges(before, tb)), StaleWith(stale, before), tb, item);
      ApplyConcat(d, ws, ItemWrites(item, tb));
      AllChangesLast(items, before, item, base, tb);
    } else {
      ApplyNone(d);
      NoChanges(base);
    }
  }

  lemma NoChanges(base: Contents)
    ensures ApplyChanges(base, []) == base
  {
  }

  lemma ChangeShort(item: Item, tb: nat)
    requires item.Valid() && tb <= BLOCK_SIZE
    ensures |Change(item, tb, 0)| == 0 && forall j: nat :: |Change(item, tb, j)| <= 1
  {
  }

  lemma AllChangesLast(items: seq<Item>, before: seq<Item>, item: Item, base: Contents, tb: nat)
    requires ValidItems(items) && |items| > 0 && tb <= BLOCK_SIZE
    requires ValidItems(before) && before == items[..|items| - 1] && item == items[|items| - 1] && item.Valid()
    ensures AllChanges(items, tb) == AllChanges(before, tb) + Change(item, tb, |ItemWrites(item, tb)|)
    ensures ApplyChanges(base, AllChanges(items, tb)) ==
            ApplyChanges(ApplyChanges(base, AllChanges(before, tb)), Change(item, tb, |ItemWrites(item, tb)|))
  {
    hide Change, ItemWrites, ApplyChanges;
    ChangeShort(item, tb);
    var last := Change(item, tb, |ItemWrites(item, tb)|);
    if |ItemWrites(item, tb)| == 0 {
      assert AllChanges(before, tb) + [] == AllChanges(before, tb);
    }
    ApplyAllChanges(base, AllChanges(before, tb), last);
  }

  /** After any prefix of the items' writes replay recovers exactly the block writes that this prefix comes to. */
  lemma {:induction false} ItemsSafe(d: Disk, base: Contents, stale: Option<Txn>, items: seq<Item>, tb: nat, j: nat)
    requires ValidItems(items) && tb <= BLOCK_SIZE && (stale.Some? ==> stale.value.Valid()) && d.Valid()
    requires Between(At(d), base, stale, tb) && ItemsUndisturbed(stale, items, tb) && j <= |AllWrites(items, tb)|
    ensures Recovered(Apply(d, AllWrites(items, tb)[..j]), tb) == ApplyChanges(base, Changes(items, tb, j))
    decreases |items|
  {
    hide Between, Harmonious, ItemsUndisturbed, Change, ItemWrites, ApplyChanges, Recovered, StaleWith;
    if |items| > 0 {
      var before, item := items[..|items| - 1], items[|items| - 1];
      var ws := AllWrites(before, tb);
      ItemsPrefix(stale, items, tb);
      if j <= |ws| {
        ItemsSafe(d, base, stale, before, tb, j);
        assert AllWrites(items, tb)[..j] == ws[..j];
      } else {
        var i := j - |ws|;
        ItemsBetween(d, base, stale, before, tb);
        ItemSafe(Apply(d, ws), ApplyChanges(base, AllChanges(before, tb)), StaleWith(stale, before), tb, item, i);
        assert AllWrites(items, tb)[..j] == ws + ItemWrites(item, tb)[..i];
        ApplyConcat(d, ws, ItemWrites(item, tb)[..i]);
        ChangeShort(item, tb);
        ApplyAllChanges(base, AllChanges(before, tb), Change(item, tb, i));
      }
    } else {
      assert AllWrites(items, tb)[..j] == [];
      ApplyNone(d);
      NoChanges(base);
      IdleRecovers(d, base, stale, tb);
    }
  }

  lemma ChangeGrows(item: Item, tb: nat, j: nat)
    requires item.Valid() && tb <= BLOCK_SIZE && j <= |ItemWrites(item, tb)|
    ensures Change(item, tb, j) <= Change(item, tb, |ItemWrites(item, tb)|)
  {
    hide Writes;
  }

  lemma {:induction false} ChangesPrefix(items: seq<Item>, tb: nat, j: nat)
    requires ValidItems(items) && tb <= BLOCK_SIZE && j <= |AllWrites(items, tb)|
    ensures Changes(items, tb, j) <= AllChanges(items, tb)
    decreases |items|
  {
    hide Change, ItemWrites;
    if |items| > 0 {
      var before, item := items[..|items| - 1], items[|items| - 1];
      var m := |AllWrites(before, tb)|;
      AllChangesLast(items, before, item, map[], tb);
      if j <= m {
        ChangesPrefix(before, tb, j);
      } else {
        ChangeGrows(item, tb, j - m);
      }
    }
  }

  // ----- The volume -----

  /** The volume with the blocks that have been written. */
  ghost function View(v: Blocks, c: Contents): (r: Blocks)
    requires forall b: nat :: b in v
    ensures forall b: nat :: b in r && r[b] == if b < TWO32 && b in c then c[b] else v[b]
  {
    imap b: nat :: if b < TWO32 && b in c then c[b] else v[b]
  }

  /** All block numbers are those of 32-bit words. */
  predicate Addressed(ws: seq<BlockWrite>) {
    forall i :: 0 <= i < |ws| ==> ws[i].blk < TWO32
  }

  lemma {:induction false} ViewChanges(v: Blocks, c: Contents, ws: seq<BlockWrite>)
    requires Addressed(ws) && forall b: nat :: b in v
    ensures View(v, ApplyChanges(c, ws)) == Latest(View(v, c), States(View(v, c), ws))
    decreases |ws|
  {
    hide View;
    if |ws| > 0 {
      var before, w := ws[..|ws| - 1], ws[|ws| - 1];
      ViewChanges(v, c, before);
      ViewOne(v, ApplyChanges(c, before), w);
    }
  }

  lemma ViewOne(v: Blocks, c: Contents, w: BlockWrite)
    requires w.blk < TWO32 && forall b: nat :: b in v
    ensures View(v, c[w.blk := w.bytes]) == View(v, c)[w.blk := w.bytes]
  {
  }

  lemma {:induction false} StatesPrefix(v: Blocks, ws: seq<BlockWrite>, k: nat)
    requires k <= |ws|
    ensures States(v, ws[..k]) == States(v, ws)[..k]
    decreases |ws|
  {
    if k < |ws| {
      var n := |ws| - 1;
      assert ws[..n][..k] == ws[..k];
      StatesPrefix(v, ws[..n], k);
    } else {
      assert ws[..k] == ws;
    }
  }

  lemma ChangeAddressed(item: Item, tb: nat, j: nat)
    requires item.Valid() && tb <= BLOCK_SIZE
    ensures Addressed(Change(item, tb, j))
  {
  }

  lemma AddressedConcat(a: seq<BlockWrite>, b: seq<BlockWrite>)
    requires Addressed(a) && Addressed(b)
    ensures Addressed(a + b)
  {
  }

  lemma {:induction false} ChangesAddressed(items: seq<Item>, tb: nat, j: nat)
    requires ValidItems(items) && tb <= BLOCK_SIZE
    ensures Addressed(Changes(items, tb, j))
    decreases |items|
  {
    hide Addressed, Change, AllWrites;
    if |items| > 0 {
      var before, item := items[..|items| - 1], items[|items| - 1];
      var m := |AllWrites(before, tb)|;
      ChangesAddressed(before, tb, if j <= m then j else m);
      if j > m {
        ChangeAddressed(item, tb, j - m);
        AddressedConcat(Changes(before, tb, m), Change(item, tb, j - m));
      }
    } else {
      NoneAddressed();
    }
  }

  lemma NoneAddressed()
    ensures Addressed([])
  {
  }

  /**
   * A crash after any number of the writes of an undisturbed run, and replay: the volume is as it was before the run or
   * after one of its block writes.
   */
  lemma CrashInHistory(d: Disk, base: Contents, stale: Option<Txn>, items: seq<Item>, tb: nat, j: nat, v: Blocks)
    requires ValidItems(items) && tb <= BLOCK_SIZE && (stale.Some? ==> stale.value.Valid()) && d.Valid()
    requires Between(At(d), base, stale, tb) && ItemsUndisturbed(stale, items, tb) && j <= |AllWrites(items, tb)|
    requires forall b: nat :: b in v
    ensures var r := View(v, Recovered(Apply(d, AllWrites(items, tb)[..j]), tb));
            r == View(v, base) || r in States(View(v, base), AllChanges(items, tb))
  {
    hide Between, Recovered, AllWrites, Changes, ItemsUndisturbed, View, ApplyChanges, States, AllChanges, Apply, Addressed;
    ItemsSafe(d, base, stale, items, tb, j);
    ChangesPrefix(items, tb, j);
    ChangesAddressed(items, tb, j);
    var ws, all := Changes(items, tb, j), AllChanges(items, tb);
    assert ws == all[..|ws|];
    StatesPrefix(View(v, base), all, |ws|);
    ViewChanges(v, base, ws);
  }

  lemma {:induction false} StatesConcat(v: Blocks, a: seq<BlockWrite>, b: seq<BlockWrite>)
    ensures States(v, a + b) == States(v, a) + States(Latest(v, States(v, a)), b)
    decreases |b|
  {
    if |b| == 0 {
      assert a + b == a;
    } else {
      assert (a + b)[..|a + b| - 1] == a + b[..|b| - 1];
      StatesConcat(v, a, b[..|b| - 1]);
    }
  }

  /** What has happened to a volume since its first k writes is the states that these writes have made. */
  lemma LogSince(fs: Volume, k: nat)
    requires fs.Logged() && k <= |fs.log|
    ensures |fs.log| == |fs.history|
    ensures fs.history[k..] == States(Latest(fs.start, fs.history[..k]), fs.log[k..])
  {
    hide States;
    assert fs.log == fs.log[..k] + fs.log[k..];
    StatesConcat(fs.start, fs.log[..k], fs.log[k..]);
    StatesPrefix(fs.start, fs.log, k);
  }

  /**
   * An operation on a volume has written what the log holds from position k on. A crash inside it, and replay, leave a
   * state of the history from k on or the one before; if all these keep the ownership rule, so does what is left.
   */
  lemma OwnedAfterCrash(fs: Volume, k: nat, d: Disk, base: Contents, stale: Option<Txn>, items: seq<Item>, tb: nat,
      j: nat, v: Blocks)
    requires fs.Logged() && k <= |fs.log|
    requires ValidItems(items) && tb <= BLOCK_SIZE && (stale.Some? ==> stale.value.Valid()) && d.Valid()
    requires Between(At(d), base, stale, tb) && ItemsUndisturbed(stale, items, tb) && j <= |AllWrites(items, tb)|
    requires (forall b: nat :: b in v) && AllChanges(items, tb) == fs.log[k..]
    requires |fs.history| == |fs.log| && View(v, base) == Latest(fs.start, fs.history[..k])
    ensures var r := View(v, Recovered(Apply(d, AllWrites(items, tb)[..j]), tb));
            && (r == View(v, base) || r in fs.history[k..])
            && (Owned(fs.g, View(v, base)) && OwnedSince(fs.g, fs.history, k) ==> Owned(fs.g, r))
  {
    hide Between, Recovered, AllWrites, ItemsUndisturbed, View, States, AllChanges, Apply, Owned, Volume.Logged;
    CrashInHistory(d, base, stale, items, tb, j, v);
    LogSince(fs, k);
    var r := View(v, Recovered(Apply(d, AllWrites(items, tb)[..j]), tb));
    if r in fs.history[k..] {
      var i :| 0 <= i < |fs.history[k..]| && fs.history[k..][i] == r;
      assert fs.history[k + i] == r;
    }
  }

  // ----- Any number of boots -----

  /** The same disk, except perhaps for block b. */
  ghost predicate SameBut(d: Disk, e: Disk, b: U32) {
    d.slots == e.slots && forall c: U32 :: c != b ==> SameAt(d.data, e.data, c)
  }

  /** What is journal business among the writes: all but those to block b. */
  function Rest(ws: seq<Write>, b: U32): seq<Write>
    decreases |ws|
  {
    if |ws| == 0 then []
    else
      var before, w := Rest(ws[..|ws| - 1], b), ws[|ws| - 1];
      if w.Target? && w.blk == b then before else before + [w]
  }

  lemma {:induction false} RestApplies(d: Disk, e: Disk, ws: seq<Write>, b: U32)
    requires SameBut(d, e, b)
    ensures SameBut(Apply(d, Rest(ws, b)), Apply(e, ws), b)
    decreases |ws|
  {
    if |ws| > 0 {
      var n := |ws| - 1;
      RestApplies(d, e, ws[..n], b);
      var before := Rest(ws[..n], b);
      if !(ws[n].Target? && ws[n].blk == b) {
        assert (before + [ws[n]])[..|before|] == before;
        OneApplies(Apply(d, before), Apply(e, ws[..n]), ws[n], b);
      } else {
        BareApplies(Apply(d, before), Apply(e, ws[..n]), ws[n], b);
      }
    }
  }

  lemma OneApplies(d: Disk, e: Disk, w: Write, b: U32)
    requires SameBut(d, e, b)
    ensures SameBut(Apply1(d, w), Apply1(e, w), b)
  {
    forall c: U32 | c != b
      ensures SameAt(Apply1(d, w).data, Apply1(e, w).data, c)
    {
      assert SameAt(d.data, e.data, c);
    }
  }

  lemma BareApplies(d: Disk, e: Disk, w: Write, b: U32)
    requires SameBut(d, e, b) && w.Target? && w.blk == b
    ensures SameBut(d, Apply1(e, w), b)
  {
    forall c: U32 | c != b
      ensures SameAt(d.data, Apply1(e, w).data, c)
    {
      assert SameAt(d.data, e.data, c);
    }
  }

  /** Replay looks at the journal's blocks only. */
  lemma SameIssues(d: Disk, e: Disk, b: U32, boot: Boot, tb: nat)
    requires SameBut(d, e, b) && d.Valid() && e.Valid() && tb <= BLOCK_SIZE
    ensures BootIssues(d, boot, tb) == BootIssues(e, boot, tb)
  {
    hide Judge;
  }

  lemma SameReplay(d: Disk, e: Disk, b: U32, tb: nat)
    requires SameBut(d, e, b) && d.Valid() && e.Valid() && tb <= BLOCK_SIZE
    ensures SameBut(Replay(d, tb), Replay(e, tb), b)
  {
    hide Judge;
    if Judge(d.slots[SLOT_HDR]).Redo? {
      var ts := Judge(d.slots[SLOT_HDR]).targets;
      forall c: U32 | c != b
        ensures SameAt(Replay(d, tb).data, Replay(e, tb).data, c)
      {
        assert SameAt(d.data, e.data, c);
        WriteTargetsAt(d.data, ts, d.slots[SLOT_DATA0..], tb, c);
        WriteTargetsAt(e.data, ts, e.slots[SLOT_DATA0..], tb, c);
      }
    } else {
      assert forall c: U32 :: c != b ==> SameAt(d.data, e.data, c);
    }
  }

  /** The writes of each boot that reached the disk e: those of the boots bs, with writes to block b anywhere between. */
  ghost predicate WithBare(e: Disk, bs: seq<Boot>, wss: seq<seq<Write>>, b: U32, tb: nat)
    decreases |bs|
  {
    && e.Valid() && tb <= BLOCK_SIZE && |wss| == |bs|
    && (|bs| > 0 ==>
          && ValidRun(bs[0].run) && bs[0].persisted <= |BootWrites(e, bs[0], tb)|
          && Rest(wss[0], b) == BootWrites(e, bs[0], tb)[..bs[0].persisted]
          && WithBare(Apply(e, wss[0]), bs[1..], wss[1..], b, tb))
  }

  function AfterAll(e: Disk, wss: seq<seq<Write>>): (r: Disk)
    ensures |r.slots| == |e.slots|
    decreases |wss|
  {
    if |wss| == 0 then e else AfterAll(Apply(e, wss[0]), wss[1..])
  }

  lemma {:induction false} BareBoots(d: Disk, e: Disk, bs: seq<Boot>, wss: seq<seq<Write>>, b: U32, tb: nat)
    requires SameBut(d, e, b) && ValidBoots(d, bs, tb) && WithBare(e, bs, wss, b, tb)
    ensures SameBut(AfterBoots(d, bs, tb), AfterAll(e, wss), b)
    decreases |bs|
  {
    hide SameBut, BootIssues, RunWrites, RunOk, Apply, Rest;
    if |bs| > 0 {
      SameIssues(d, e, b, bs[0], tb);
      RestApplies(d, e, wss[0], b);
      BareBoots(AfterBoot(d, bs[0], tb), Apply(e, wss[0]), bs[1..], wss[1..], b, tb);
    }
  }

  predicate OneBlocks(ts: seq<Txn>) {
    forall i :: 0 <= i < |ts| ==> ts[i].Valid() && |ts[i].targets| == 1
  }

  /** The transactions as block writes. */
  function TxnWrites(ts: seq<Txn>, tb: nat): (ws: seq<BlockWrite>)
    requires tb <= BLOCK_SIZE && OneBlocks(ts)
    ensures Addressed(ws)
    decreases |ts|
  {
    if |ts| == 0 then []
    else
      var t := ts[|ts| - 1];
      TxnWrites(ts[..|ts| - 1], tb) + [BlockWrite(t.targets[0], t.data[0][..tb], true)]
  }

  lemma {:induction false} TxnsApply(base: Contents, ts: seq<Txn>, tb: nat)
    requires tb <= BLOCK_SIZE && OneBlocks(ts)
    ensures ApplyAll(base, ts, tb) == ApplyChanges(base, TxnWrites(ts, tb))
    decreases |ts|
  {
    hide ApplyTxn;
    if |ts| > 0 {
      var t := ts[|ts| - 1];
      TxnsApply(base, ts[..|ts| - 1], tb);
      OneTarget(ApplyAll(base, ts[..|ts| - 1], tb), t, tb);
      ApplySnoc(base, TxnWrites(ts[..|ts| - 1], tb), BlockWrite(t.targets[0], t.data[0][..tb], true));
    }
  }

  lemma BootsData(d: Disk, bs: seq<Boot>, wss: seq<seq<Write>>, b: U32, tb: nat)
    requires d.Valid() && tb <= BLOCK_SIZE && ValidBoots(d, bs, tb) && WithBare(d, bs, wss, b, tb)
    requires OneBlocks(AllReached(d, bs, tb))
    ensures forall c: U32 :: c != b ==>
              SameAt(ApplyChanges(Recovered(d, tb), TxnWrites(AllReached(d, bs, tb), tb)), Recovered(AfterAll(d, wss), tb), c)
  {
    hide AllReached, AfterBoots, ApplyAll, ApplyChanges, Judge, WithBare, ValidBoots, Replay, TxnWrites, AfterAll, SameAt;
    BareBoots(d, d, bs, wss, b, tb) by { SameItself(d, b); }
    SameReplay(AfterBoots(d, bs, tb), AfterAll(d, wss), b, tb);
    BootsSafe(d, bs, tb);
    TxnsApply(Recovered(d, tb), AllReached(d, bs, tb), tb);
  }

  lemma SameItself(d: Disk, b: U32)
    ensures SameBut(d, d, b)
  {
  }

  lemma SameView(v: Blocks, x: Contents, y: Contents, c: nat)
    requires (forall b: nat :: b in v) && (c < TWO32 ==> SameAt(x, y, c))
    ensures View(v, x)[c] == View(v, y)[c]
  {
  }

  /**
   * Over any number of boots, with bare writes of the superblock b anywhere among their writes: the volume is, but for
   * b, as the transactions that reached the disk have left it, one by one.
   */
  lemma BootsInHistory(d: Disk, bs: seq<Boot>, wss: seq<seq<Write>>, b: U32, tb: nat, v: Blocks, c: nat)
    requires d.Valid() && tb <= BLOCK_SIZE && (forall x: nat :: x in v) && c != b
    requires ValidBoots(d, bs, tb) && WithBare(d, bs, wss, b, tb) && OneBlocks(AllReached(d, bs, tb))
    ensures var start := View(v, Recovered(d, tb));
            var ws := TxnWrites(AllReached(d, bs, tb), tb);
            c in Latest(start, States(start, ws)) &&
            View(v, Recovered(AfterAll(d, wss), tb))[c] == Latest(start, States(start, ws))[c]
  {
    hide AllReached, ApplyChanges, States, WithBare, ValidBoots, Recovered, AfterAll, TxnWrites, View, SameAt, OneBlocks;
    var ws := TxnWrites(AllReached(d, bs, tb), tb);
    BootsData(d, bs, wss, b, tb);
    ViewChanges(v, Recovered(d, tb), ws);
    SameView(v, ApplyChanges(Recovered(d, tb), ws), Recovered(AfterAll(d, wss), tb), c);
  }

  // ----- The journal area -----

  /** Block b of the volume shares bytes with the journal, whose start is counted in the journal's own blocks. */
  predicate InJournal(bs: nat, start: nat, b: nat) {
    b * bs < (start + DEFAULT_BLOCKS) * BLOCK_SIZE && start * BLOCK_SIZE < (b + 1) * bs
  }

  /**
   * The boot reserves the run of ext2 blocks with the numbers of the journal's blocks. They are the journal's area, or
   * cover it, if and only if both kinds of blocks have one size.
   */
  lemma ReservedIffSameSize(bs: nat, start: nat)
    requires 0 < bs <= BLOCK_SIZE && start > 0
    ensures (forall b: nat :: InJournal(bs, start, b) ==> start <= b < start + DEFAULT_BLOCKS) <==> bs == BLOCK_SIZE
    ensures bs == BLOCK_SIZE ==> forall b: nat :: InJournal(bs, start, b) <==> start <= b < start + DEFAULT_BLOCKS
  {
    if bs == BLOCK_SIZE {
      forall b: nat
        ensures InJournal(bs, start, b) <==> start <= b < start + DEFAULT_BLOCKS
      {
      }
    } else {
      var end := start + DEFAULT_BLOCKS;
      var b := LastBlock(bs, end);
      assert InJournal(bs, start, b) && b >= end;
    }
  }

  /** The block with the last byte of the journal. */
  lemma LastBlock(bs: nat, end: nat) returns (b: nat)
    requires 0 < bs < BLOCK_SIZE && end > DEFAULT_BLOCKS
    ensures b >= end && b * bs < end * BLOCK_SIZE <= (b + 1) * bs
  {
    var last := end * BLOCK_SIZE - 1;
    b := last / bs;
    assert last == b * bs + last % bs;
    MulBelow(bs, BLOCK_SIZE, end);
    if b < end {
      MulBelow(b, end, bs);
    }
  }

  lemma RunCovers(g: Ext2Layout.Geometry, e: Blocks, start: nat)
    requires g.Sizes() && Ext2Layout.Sized(g, e) && RunUsed(g, e, start, DEFAULT_BLOCKS)
    requires g.bs == BLOCK_SIZE && 0 < start && start + DEFAULT_BLOCKS <= TWO32
    ensures forall b: nat :: InJournal(g.bs, start, b) && g.InRange(b) ==> Used(g, e, b)
  {
    hide Used, Ext2Layout.Geometry.InRange, InJournal;
    ReservedIffSameSize(g.bs, start);
    forall b: nat | InJournal(g.bs, start, b) && g.InRange(b)
      ensures Used(g, e, b)
    {
      assert RunAt(start, b - start) == b;
    }
  }

  /** The reservation at boot: without I/O errors it keeps the allocators off the journal if the block sizes agree. */
  method ReserveJournal(fs: Volume, start: nat) returns (reserved: nat)
    requires fs.Valid() && 0 < start && start + DEFAULT_BLOCKS <= TWO32
    modifies fs
    ensures fs.Valid() && MarksRun(fs.g, old(fs.disk), fs.disk, start, DEFAULT_BLOCKS)
    ensures fs.lost == old(fs.lost) && fs.g.bs == BLOCK_SIZE ==>
              forall b: nat :: InJournal(fs.g.bs, start, b) && fs.g.InRange(b) ==> Used(fs.g, fs.disk, b)
  {
    hide Volume.Logged, Volume.Tracked, MarksRun, RunUsed, InJournal, Used, Ext2Counts.BlockCounts, Ext2Counts.InodeCounts,
      Ext2Layout.Geometry.Valid, Ext2Layout.Geometry.Sizes, Ext2Layout.Geometry.InRange, Ext2Counts.Sum;
    Ext2Layout.ValidSizes(fs.g);
    reserved := ReserveBlocks(fs, start, DEFAULT_BLOCKS);
    if fs.lost == old(fs.lost) && fs.g.bs == BLOCK_SIZE {
      RunCovers(fs.g, fs.disk, start);
    }
  }
}
