/**
 * Crash safety of journal_commit (src/kernel/fs/journal.c): what replay recovers after
 * a crash at any point of any run of transactions.
 */
module JournalCrash {
  import opened Options
  import opened Words
  import opened JournalFormat
  import opened JournalDisk

  type Contents = map<U32, seq<byte>>

  // ----- The writes of one commit -----

  function DataWrites(t: Txn): (ws: seq<Write>)
    requires t.Valid()
    ensures |ws| == |t.data|
  {
    seq(|t.data|, i requires 0 <= i < |t.data| => Slot(SLOT_DATA0 + i, t.data[i]))
  }

  function PendingHeader(t: Txn): Write
    requires t.Valid()
  {
    Slot(SLOT_HDR, Header(t.id, 0, t.targets))
  }

  function CommittedHeader(t: Txn): Write
    requires t.Valid()
  {
    Slot(SLOT_HDR, Header(t.id, 1, t.targets))
  }

  function ClearHeader(): Write {
    Slot(SLOT_HDR, ZeroBlock())
  }

  /** Which blocks of the journal area a commit writes: the copies from block 2 on, the header in block 1. */
  lemma SlotPlaces(t: Txn, i: nat)
    requires t.Valid() && i < |t.data|
    ensures DataWrites(t)[i] == Slot(2 + i, t.data[i]) && 2 + i < 10
    ensures PendingHeader(t) == Slot(1, Header(t.id, 0, t.targets)) && CommittedHeader(t) == Slot(1, Header(t.id, 1, t.targets))
    ensures ClearHeader() == Slot(1, Zeros(4096))
  {
  }

  function TargetWrites(t: Txn, tb: nat): (ws: seq<Write>)
    requires t.Valid() && tb <= BLOCK_SIZE
    ensures |ws| == |t.targets|
  {
    seq(|t.targets|, i requires 0 <= i < |t.targets| => Target(t.targets[i], t.data[i][..tb]))
  }

  /** One call of journal_commit, by how it ended. */
  datatype Attempt =
    // It returned 0; the header clear and the superblock write at the end may each have failed unnoticed.
    | Done(txn: Txn, cleared: bool, super: seq<Block>)
    // Of the data blocks, the pending header and the committed header, write number `at` failed.
    | Failed(txn: Txn, at: nat)
    // Writing target number `at` failed after the commit point, and the kernel stopped.
    | Panicked(txn: Txn, at: nat)
  {
    predicate Valid() {
      && txn.Valid()
      && (Done? ==> |super| <= 1)
      && (Failed? ==> at <= |txn.data| + 1)
      && (Panicked? ==> at < |txn.data|)
    }

    /** How many of the transaction's blocks reached the journal's data slots. */
    function DataCount(): (n: nat)
      requires Valid()
      ensures n <= |txn.data|
    {
      if Failed? && at < |txn.data| then at else |txn.data|
    }
  }

  function Tail(a: Attempt): seq<Write>
    requires a.Done?
  {
    (if a.cleared then [ClearHeader()] else [])
    + seq(|a.super|, i requires 0 <= i < |a.super| => Slot(SLOT_SUPER, a.super[i]))
  }

  function ToPending(t: Txn): seq<Op>
    requires t.Valid()
  {
    Puts(DataWrites(t) + [PendingHeader(t)]) + [Flush]
  }

  function ToCommitted(t: Txn): seq<Op>
    requires t.Valid()
  {
    ToPending(t) + (Puts([CommittedHeader(t)]) + [Flush])
  }

  /** The device operations of an attempt, in order. */
  function Ops(a: Attempt, tb: nat): seq<Op>
    requires a.Valid() && tb <= BLOCK_SIZE
  {
    match a
    case Failed(t, at) => if at <= |t.data| then Puts(DataWrites(t)[..at]) else ToPending(t)
    case Panicked(t, at) => ToCommitted(t) + Puts(TargetWrites(t, tb)[..at])
    case Done(t, _, _) => ToCommitted(t) + ((Puts(TargetWrites(t, tb)) + [Flush]) + Puts(Tail(a)))
  }

  /** The contents outside the journal once an attempt is over. */
  function After(base: Contents, a: Attempt, tb: nat): Contents
    requires a.Valid() && tb <= BLOCK_SIZE
  {
    if a.Failed? then base else ApplyTxn(base, a.txn, tb)
  }

  // ----- Between attempts -----

  /** Slot i of transaction t is the one its target ends up with. */
  predicate Visible(t: Txn, i: nat) {
    i < |t.targets| && Last(t.targets, t.targets[i]) == i
  }

  /** A write that leaves alone, as far as it shows, the data slots of t. */
  ghost predicate KeepsSlots(t: Txn, w: Write, tb: nat)
    requires t.Valid() && tb <= BLOCK_SIZE
  {
    forall i :: 0 <= i < |t.data| && Visible(t, i) && w.Slot? && w.idx == SLOT_DATA0 + i ==> w.block[..tb] == t.data[i][..tb]
  }

  ghost predicate Settled(base: Contents, t: Txn, tb: nat)
    requires t.Valid() && tb <= BLOCK_SIZE
  {
    ApplyTxn(base, t, tb) == base
  }

  /** A write of the journal that can never start a replay by itself. */
  ghost predicate Harmless(w: Write) {
    w.Slot? && (w.idx == SLOT_HDR ==> !Judge(w.block).Redo?)
  }

  /** The header of a transaction that is already applied is still there, with its blocks. */
  ghost predicate StaleHeader(d: Disk, t: Txn, tb: nat)
    requires d.Valid() && tb <= BLOCK_SIZE
  {
    && t.Valid() && |t.targets| > 0
    && Judge(d.slots[SLOT_HDR]) == Redo(t.targets)
    && Settled(d.data, t, tb)
    && (forall i :: 0 <= i < |t.data| && Visible(t, i) ==> d.slots[SLOT_DATA0 + i][..tb] == t.data[i][..tb])
  }

  /**
   * The journal between attempts: everything is applied to base, and the durable header is
   * harmless or, if stale is given, is the header of that transaction.
   */
  ghost predicate Between(dev: Device, base: Contents, stale: Option<Txn>, tb: nat) {
    && tb <= BLOCK_SIZE && dev.durable.Valid() && dev.durable.data == base
    && (forall w :: w in dev.pending ==> Harmless(w))
    && match stale {
         case None => !Judge(dev.durable.slots[SLOT_HDR]).Redo?
         case Some(t) =>
           && StaleHeader(dev.durable, t, tb)
           && (forall w :: w in dev.pending ==> KeepsSlots(t, w, tb))
       }
  }

  lemma BetweenFacts(dev: Device, base: Contents, stale: Option<Txn>, tb: nat)
    requires Between(dev, base, stale, tb)
    ensures tb <= BLOCK_SIZE && dev.durable.Valid() && dev.durable.data == base && (stale.Some? ==> stale.value.Valid())
  {
    hide Judge, Header;
  }

  lemma HarmlessKeepData(d: Disk, pending: seq<Write>, disk: Disk)
    requires Crash(d, pending, disk)
    requires forall w :: w in pending ==> Harmless(w)
    ensures disk.data == d.data
  {
    forall t: U32
      ensures SameAt(disk.data, d.data, t)
    {
      assert !Harmless(Target(t, if t in disk.data then disk.data[t] else []));
    }
    MapsEqual(disk.data, d.data);
  }

  lemma SameBlocksWrite(data: Contents, t: Txn, blocks: seq<Block>, tb: nat)
    requires t.Valid() && tb <= BLOCK_SIZE && |blocks| >= |t.data|
    requires forall i :: 0 <= i < |t.targets| && Last(t.targets, t.targets[i]) == i ==>
               blocks[i][..tb] == t.data[i][..tb]
    ensures WriteTargets(data, t.targets, blocks, tb) == ApplyTxn(data, t, tb)
  {
    WriteTargetsSame(data, data, t.targets, blocks, t.data, tb);
  }

  lemma StaleBlocksWrite(disk: Disk, t: Txn, blocks: seq<Block>, tb: nat)
    requires disk.Valid() && tb <= BLOCK_SIZE && t.Valid()
    requires blocks == disk.slots[SLOT_DATA0..]
    requires forall i :: 0 <= i < |t.data| && Visible(t, i) ==> disk.slots[SLOT_DATA0 + i][..tb] == t.data[i][..tb]
    ensures WriteTargets(disk.data, t.targets, blocks, tb) == ApplyTxn(disk.data, t, tb)
  {
    forall i | 0 <= i < |t.targets| && Last(t.targets, t.targets[i]) == i
      ensures blocks[i][..tb] == t.data[i][..tb]
    {
      assert Visible(t, i) && blocks[i] == disk.slots[SLOT_DATA0 + i];
    }
    SameBlocksWrite(disk.data, t, blocks, tb);
  }

  /** A stale header replays to what is there already. */
  lemma StaleReplays(disk: Disk, t: Txn, tb: nat)
    requires disk.Valid() && tb <= BLOCK_SIZE && StaleHeader(disk, t, tb)
    ensures Recovered(disk, tb) == disk.data
  {
    RecoveredRedo(disk, t.targets, tb);
    StaleBlocksWrite(disk, t, disk.slots[SLOT_DATA0..], tb);
  }

  /** Whatever a crash leaves between attempts, replay recovers base. */
  lemma BetweenRecovers(dev: Device, base: Contents, stale: Option<Txn>, tb: nat, disk: Disk)
    requires Between(dev, base, stale, tb)
    requires Crash(dev.durable, dev.pending, disk)
    ensures disk.Valid() && Recovered(disk, tb) == base
  {
    hide Judge;
    HarmlessKeepData(dev.durable, dev.pending, disk);
    var h := disk.slots[SLOT_HDR];
    if h != dev.durable.slots[SLOT_HDR] {
      assert Harmless(Slot(SLOT_HDR, h));
    } else if stale.Some? {
      var t := stale.value;
      forall i | 0 <= i < |t.data| && Visible(t, i)
        ensures disk.slots[SLOT_DATA0 + i][..tb] == t.data[i][..tb]
      {
        var j := SLOT_DATA0 + i;
        if disk.slots[j] != dev.durable.slots[j] {
          assert KeepsSlots(t, Slot(j, disk.slots[j]), tb);
        }
      }
      StaleReplays(disk, t, tb);
    }
  }

  /** More harmless writes keep the journal between attempts. */
  lemma BetweenExtends(dev: Device, base: Contents, stale: Option<Txn>, tb: nat, ws: seq<Write>)
    requires Between(dev, base, stale, tb)
    requires forall w :: w in ws ==> Harmless(w) && (stale.Some? ==> KeepsSlots(stale.value, w, tb))
    ensures Between(Device(dev.durable, dev.pending + ws), base, stale, tb)
  {
  }

  // ----- The steps of a commit -----

  /** The journal's data slots hold the blocks of t. */
  ghost predicate Loaded(d: Disk, t: Txn)
    requires d.Valid() && t.Valid()
  {
    forall i :: 0 <= i < |t.data| ==> d.slots[SLOT_DATA0 + i] == t.data[i]
  }

  lemma {:induction false} ApplyDataWrites(d: Disk, t: Txn, k: nat)
    requires d.Valid() && t.Valid() && k <= |t.data|
    ensures var r := Apply(d, DataWrites(t)[..k]);
            && r.data == d.data
            && (forall i :: 0 <= i < |r.slots| ==>
                  r.slots[i] == if SLOT_DATA0 <= i < SLOT_DATA0 + k then t.data[i - SLOT_DATA0] else d.slots[i])
    decreases k
  {
    if k > 0 {
      ApplyDataWrites(d, t, k - 1);
      assert DataWrites(t)[..k][..k - 1] == DataWrites(t)[..k - 1];
    }
  }

  lemma {:induction false} ApplyTargetWrites(d: Disk, t: Txn, tb: nat, k: nat)
    requires t.Valid() && tb <= BLOCK_SIZE && k <= |t.targets|
    ensures var r := Apply(d, TargetWrites(t, tb)[..k]);
            r.slots == d.slots && r.data == WriteTargets(d.data, t.targets[..k], t.data, tb)
    decreases k
  {
    if k > 0 {
      ApplyTargetWrites(d, t, tb, k - 1);
      assert TargetWrites(t, tb)[..k][..k - 1] == TargetWrites(t, tb)[..k - 1];
      assert t.targets[..k][..k - 1] == t.targets[..k - 1];
    }
  }

  /** The disk once the pending header has been flushed. */
  lemma PendingFlushed(d: Disk, t: Txn)
    requires d.Valid() && t.Valid()
    ensures var r := Apply(d, DataWrites(t) + [PendingHeader(t)]);
            r.Valid() && r.data == d.data && Loaded(r, t) && r.slots[SLOT_HDR] == Header(t.id, 0, t.targets)
  {
    hide Header;
    var ws := DataWrites(t);
    ApplyDataWrites(d, t, |t.data|);
    assert ws[..|t.data|] == ws;
    assert (ws + [PendingHeader(t)])[..|ws|] == ws;
  }

  lemma LoadedBlocks(d: Disk, t: Txn, base: Contents, tb: nat)
    requires d.Valid() && t.Valid() && tb <= BLOCK_SIZE && Loaded(d, t)
    requires forall b: U32 :: b !in t.targets ==> SameAt(d.data, base, b)
    ensures WriteTargets(d.data, t.targets, d.slots[SLOT_DATA0..], tb) == ApplyTxn(base, t, tb)
  {
    WriteTargetsSame(d.data, base, t.targets, d.slots[SLOT_DATA0..], t.data, tb);
  }

  /** With the committed header and the blocks in the journal, replay makes the whole transaction. */
  lemma CommittedRecovers(d: Disk, t: Txn, base: Contents, tb: nat)
    requires d.Valid() && t.Valid() && tb <= BLOCK_SIZE && Loaded(d, t)
    requires d.slots[SLOT_HDR] == Header(t.id, 1, t.targets)
    requires forall b: U32 :: b !in t.targets ==> SameAt(d.data, base, b)
    ensures Recovered(d, tb) == ApplyTxn(base, t, tb)
  {
    hide Judge, Header;
    LoadedBlocks(d, t, base, tb);
    JudgeCommitted(t.id, t.targets);
    if |t.targets| > 0 {
      RecoveredRedo(d, t.targets, tb);
    }
  }

  /** A crash around the commit point: the header decides. */
  lemma CommitPoint(d: Disk, t: Txn, tb: nat, disk: Disk)
    requires d.Valid() && t.Valid() && tb <= BLOCK_SIZE && Loaded(d, t)
    requires d.slots[SLOT_HDR] == Header(t.id, 0, t.targets)
    requires Crash(d, [CommittedHeader(t)], disk)
    ensures disk.Valid()
    ensures Recovered(disk, tb) ==
            if disk.slots[SLOT_HDR] == Header(t.id, 1, t.targets) then ApplyTxn(d.data, t, tb) else d.data
  {
    hide Judge, Header;
    assert Loaded(disk, t);
    assert disk.data == d.data by {
      assert forall b: U32 :: SameAt(disk.data, d.data, b);
      MapsEqual(disk.data, d.data);
    }
    if disk.slots[SLOT_HDR] == Header(t.id, 1, t.targets) {
      CommittedRecovers(disk, t, d.data, tb);
    } else {
      JudgePending(t.id, t.targets);
    }
  }

  /** A crash while the targets are written: replay makes the whole transaction. */
  lemma WhileApplying(d: Disk, t: Txn, tb: nat, ws: seq<Write>, disk: Disk)
    requires d.Valid() && t.Valid() && tb <= BLOCK_SIZE && Loaded(d, t)
    requires d.slots[SLOT_HDR] == Header(t.id, 1, t.targets)
    requires forall w :: w in ws ==> w in TargetWrites(t, tb)
    requires Crash(d, ws, disk)
    ensures disk.Valid() && Recovered(disk, tb) == ApplyTxn(d.data, t, tb)
  {
    hide Judge, Header;
    assert disk.slots == d.slots;
    forall b: U32 | b !in t.targets
      ensures SameAt(disk.data, d.data, b)
    {
      if b in disk.data {
        assert Target(b, disk.data[b]) !in TargetWrites(t, tb);
      }
    }
    CommittedRecovers(disk, t, d.data, tb);
  }

  // ----- One attempt on a reordering device -----

  /** A crash after the first k of ops. */
  ghost predicate CrashesAt(dev: Device, ops: seq<Op>, k: nat, disk: Disk)
    requires k <= |ops|
  {
    var s := Run(dev, ops[..k]);
    Crash(s.durable, s.pending, disk)
  }

  /**
   * What replay must recover after a crash k operations into an attempt: nothing of the transaction
   * before its committed header is issued, all of it once that header has been flushed, and in between
   * all of it exactly if the committed header reached the disk.
   */
  ghost function Expected(base: Contents, a: Attempt, k: nat, disk: Disk, tb: nat): Contents
    requires a.Valid() && tb <= BLOCK_SIZE && disk.Valid()
  {
    var n := |a.txn.data|;
    if k <= n + 2 then base
    else if k == n + 3 && disk.slots[SLOT_HDR] != Header(a.txn.id, 1, a.txn.targets) then base
    else ApplyTxn(base, a.txn, tb)
  }

  /** The transaction whose committed header may still be on the disk after an attempt. */
  function StaleAfter(stale: Option<Txn>, a: Attempt): Option<Txn>
    requires a.Valid()
  {
    match a
    case Failed(t, at) => if at <= |t.data| then stale else None
    case _ => if |a.txn.targets| == 0 then None else Some(a.txn)
  }

  /** The attempt's blocks do not disturb the slots of the transaction whose header may still be there. */
  ghost predicate Compatible(stale: Option<Txn>, a: Attempt, tb: nat)
    requires a.Valid() && tb <= BLOCK_SIZE && (stale.Some? ==> stale.value.Valid())
  {
    stale.Some? ==>
      forall i :: 0 <= i < a.DataCount() && Visible(stale.value, i) ==> a.txn.data[i][..tb] == stale.value.data[i][..tb]
  }

  function PendingDisk(dev: Device, t: Txn): Disk
    requires t.Valid()
  {
    Apply(dev.View(), DataWrites(t) + [PendingHeader(t)])
  }

  function CommittedDisk(dev: Device, t: Txn): Disk
    requires t.Valid()
  {
    Apply(PendingDisk(dev, t), [CommittedHeader(t)])
  }

  function AppliedDisk(dev: Device, t: Txn, tb: nat): Disk
    requires t.Valid() && tb <= BLOCK_SIZE
  {
    Apply(CommittedDisk(dev, t), TargetWrites(t, tb))
  }

  lemma RunWritesFlush(dev: Device, ws: seq<Write>)
    ensures Run(dev, Puts(ws) + [Flush]) == Device(Apply(dev.View(), ws), [])
  {
    RunPuts(dev, ws);
    ApplyConcat(dev.durable, dev.pending, ws);
    assert (Puts(ws) + [Flush])[..|ws|] == Puts(ws);
  }

  lemma RunToCommitted(dev: Device, t: Txn)
    requires t.Valid()
    ensures Run(dev, ToPending(t)) == Device(PendingDisk(dev, t), [])
    ensures Run(dev, ToCommitted(t)) == Device(CommittedDisk(dev, t), [])
  {
    hide Header;
    RunWritesFlush(dev, DataWrites(t) + [PendingHeader(t)]);
    RunConcat(dev, ToPending(t), Puts([CommittedHeader(t)]) + [Flush]);
    RunWritesFlush(Device(PendingDisk(dev, t), []), [CommittedHeader(t)]);
  }

  lemma ViewBetween(dev: Device, base: Contents, stale: Option<Txn>, tb: nat)
    requires Between(dev, base, stale, tb)
    ensures dev.View().Valid() && dev.View().data == base
  {
    hide Judge;
    PrefixIsCrash(dev.durable, dev.pending, |dev.pending|);
    assert dev.pending[..|dev.pending|] == dev.pending;
    HarmlessKeepData(dev.durable, dev.pending, dev.View());
  }

  /** The disk at each flush of a commit. */
  lemma CommitDisks(dev: Device, base: Contents, stale: Option<Txn>, tb: nat, t: Txn)
    requires Between(dev, base, stale, tb) && t.Valid()
    ensures var d := PendingDisk(dev, t);
            d.Valid() && d.data == base && Loaded(d, t) && d.slots[SLOT_HDR] == Header(t.id, 0, t.targets)
    ensures var d := CommittedDisk(dev, t);
            d.Valid() && d.data == base && Loaded(d, t) && d.slots[SLOT_HDR] == Header(t.id, 1, t.targets)
    ensures var d := AppliedDisk(dev, t, tb);
            && d.Valid() && d.data == ApplyTxn(base, t, tb) && Loaded(d, t)
            && d.slots[SLOT_HDR] == Header(t.id, 1, t.targets)
  {
    hide Judge, Header;
    ViewBetween(dev, base, stale, tb);
    PendingFlushed(dev.View(), t);
    var c := CommittedDisk(dev, t);
    ApplyOne(PendingDisk(dev, t), CommittedHeader(t));
    ApplyTargetWrites(c, t, tb, |t.targets|);
    assert TargetWrites(t, tb)[..|t.targets|] == TargetWrites(t, tb) && t.targets[..|t.targets|] == t.targets;
  }

  /** The journal after the pending header has been flushed. */
  lemma BetweenPending(dev: Device, base: Contents, stale: Option<Txn>, tb: nat, t: Txn)
    requires Between(dev, base, stale, tb) && t.Valid()
    ensures Between(Device(PendingDisk(dev, t), []), base, None, tb)
  {
    hide Header;
    CommitDisks(dev, base, stale, tb, t);
    JudgePending(t.id, t.targets);
  }

  lemma SettledAfter(base: Contents, t: Txn, tb: nat)
    requires t.Valid() && tb <= BLOCK_SIZE
    ensures Settled(ApplyTxn(base, t, tb), t, tb)
  {
    forall b: U32 | b !in t.targets
      ensures SameAt(ApplyTxn(base, t, tb), base, b)
    {
      WriteTargetsAt(base, t.targets, t.data, tb, b);
    }
    WriteTargetsSame(ApplyTxn(base, t, tb), base, t.targets, t.data, t.data, tb);
  }

  /** The journal once the targets have been flushed: the header just used is now the stale one. */
  lemma BetweenApplied(dev: Device, base: Contents, stale: Option<Txn>, tb: nat, t: Txn)
    requires Between(dev, base, stale, tb) && t.Valid()
    ensures Between(Device(AppliedDisk(dev, t, tb), []), ApplyTxn(base, t, tb),
                    if |t.targets| == 0 then None else Some(t), tb)
  {
    hide Judge, Header;
    CommitDisks(dev, base, stale, tb, t);
    JudgeCommitted(t.id, t.targets);
    SettledAfter(base, t, tb);
  }

  /** The data blocks and the pending header, as far as they have been issued, change nothing. */
  lemma BetweenLoading(dev: Device, base: Contents, stale: Option<Txn>, tb: nat, a: Attempt, k: nat)
    requires Between(dev, base, stale, tb) && a.Valid() && Compatible(stale, a, tb)
    requires k <= if a.DataCount() < |a.txn.data| then a.DataCount() else |a.txn.data| + 1
    ensures Between(Device(dev.durable, dev.pending + (DataWrites(a.txn) + [PendingHeader(a.txn)])[..k]), base, stale, tb)
  {
    hide Judge, Header;
    var ws := (DataWrites(a.txn) + [PendingHeader(a.txn)])[..k];
    JudgePending(a.txn.id, a.txn.targets);
    BetweenExtends(dev, base, stale, tb, ws);
  }

  lemma BetweenTail(dev: Device, base: Contents, stale: Option<Txn>, tb: nat, a: Attempt, k: nat)
    requires Between(dev, base, stale, tb) && a.Done? && k <= |Tail(a)|
    ensures Between(Device(dev.durable, dev.pending + Tail(a)[..k]), base, stale, tb)
  {
    hide Judge;
    JudgeZero();
    BetweenExtends(dev, base, stale, tb, Tail(a)[..k]);
  }

  /** Cutting a run of writes followed by a flush. */
  lemma RunCut(dev: Device, ws: seq<Write>, k: nat)
    requires k <= |ws| + 1
    ensures Run(dev, (Puts(ws) + [Flush])[..k]) ==
            if k <= |ws| then Device(dev.durable, dev.pending + ws[..k]) else Device(Apply(dev.View(), ws), [])
  {
    if k <= |ws| {
      assert (Puts(ws) + [Flush])[..k] == Puts(ws[..k]);
      RunPuts(dev, ws[..k]);
    } else {
      assert (Puts(ws) + [Flush])[..k] == Puts(ws) + [Flush];
      RunWritesFlush(dev, ws);
    }
  }

  lemma SafeLoading(dev: Device, base: Contents, stale: Option<Txn>, tb: nat, a: Attempt, k: nat, disk: Disk)
    requires Between(dev, base, stale, tb) && a.Valid() && Compatible(stale, a, tb)
    requires k <= |Ops(a, tb)| && k <= |a.txn.data| + 2
    requires CrashesAt(dev, Ops(a, tb), k, disk)
    ensures disk.Valid() && Recovered(disk, tb) == base
  {
    hide Judge, Header;
    var t := a.txn;
    var ws := DataWrites(t) + [PendingHeader(t)];
    if a.Failed? && a.at <= |t.data| {
      assert Ops(a, tb)[..k] == Puts(ws[..k]);
      RunPuts(dev, ws[..k]);
    } else {
      assert Ops(a, tb)[..k] == (Puts(ws) + [Flush])[..k];
      RunCut(dev, ws, k);
    }
    if k <= |ws| {
      BetweenLoading(dev, base, stale, tb, a, k);
      BetweenRecovers(Device(dev.durable, dev.pending + ws[..k]), base, stale, tb, disk);
    } else {
      BetweenPending(dev, base, stale, tb, t);
      BetweenRecovers(Device(PendingDisk(dev, t), []), base, None, tb, disk);
    }
  }

  lemma SafeAtCommit(dev: Device, base: Contents, stale: Option<Txn>, tb: nat, a: Attempt, disk: Disk)
    requires Between(dev, base, stale, tb) && a.Valid()
    requires |a.txn.data| + 3 <= |Ops(a, tb)|
    requires CrashesAt(dev, Ops(a, tb), |a.txn.data| + 3, disk)
    ensures disk.Valid() && Recovered(disk, tb) == Expected(base, a, |a.txn.data| + 3, disk, tb)
  {
    hide Judge, Header, Ops, Run, Crash, Loaded, PendingDisk, Recovered, ApplyTxn;
    var t := a.txn;
    RunAtCommit(dev, tb, a);
    CommitDisks(dev, base, stale, tb, t);
    CommitPoint(PendingDisk(dev, t), t, tb, disk);
  }

  /** The state of the device when the committed header has been issued and nothing else. */
  lemma RunAtCommit(dev: Device, tb: nat, a: Attempt)
    requires a.Valid() && tb <= BLOCK_SIZE && |a.txn.data| + 3 <= |Ops(a, tb)|
    ensures Run(dev, Ops(a, tb)[..|a.txn.data| + 3]) == Device(PendingDisk(dev, a.txn), [CommittedHeader(a.txn)])
  {
    hide Header, Run, PendingDisk;
    var t := a.txn;
    var ws := [CommittedHeader(t)];
    assert Ops(a, tb)[..|t.data| + 3] == ToPending(t) + Puts(ws);
    RunConcat(dev, ToPending(t), Puts(ws));
    RunToCommitted(dev, t);
    RunPuts(Device(PendingDisk(dev, t), []), ws);
    assert [] + ws == ws;
  }

  /** The state of the device while the targets are being written in place. */
  lemma RunApplying(dev: Device, tb: nat, a: Attempt, k: nat)
    requires a.Valid() && !a.Failed? && tb <= BLOCK_SIZE
    requires |a.txn.data| + 4 <= k <= |Ops(a, tb)| && k <= 2 * |a.txn.data| + 4
    ensures Run(dev, Ops(a, tb)[..k]) ==
            Device(CommittedDisk(dev, a.txn), TargetWrites(a.txn, tb)[..k - (|a.txn.data| + 4)])
  {
    hide Header, Run, CommittedDisk;
    var t := a.txn;
    var ws := TargetWrites(t, tb)[..k - (|t.data| + 4)];
    OpsApplying(a, tb, k);
    hide Ops;
    RunConcat(dev, ToCommitted(t), Puts(ws));
    RunToCommitted(dev, t);
    RunPuts(Device(CommittedDisk(dev, t), []), ws);
    assert [] + ws == ws;
  }

  /** The operations up to some of the target writes. */
  lemma OpsApplying(a: Attempt, tb: nat, k: nat)
    requires a.Valid() && !a.Failed? && tb <= BLOCK_SIZE
    requires |a.txn.data| + 4 <= k <= |Ops(a, tb)| && k <= 2 * |a.txn.data| + 4
    ensures Ops(a, tb)[..k] == ToCommitted(a.txn) + Puts(TargetWrites(a.txn, tb)[..k - (|a.txn.data| + 4)])
  {
    hide Header;
  }

  lemma SafeApplying(dev: Device, base: Contents, stale: Option<Txn>, tb: nat, a: Attempt, k: nat, disk: Disk)
    requires Between(dev, base, stale, tb) && a.Valid() && !a.Failed?
    requires |a.txn.data| + 4 <= k <= |Ops(a, tb)| && k <= 2 * |a.txn.data| + 4
    requires CrashesAt(dev, Ops(a, tb), k, disk)
    ensures disk.Valid() && Recovered(disk, tb) == ApplyTxn(base, a.txn, tb)
  {
    hide Judge, Header, Ops, Run, Crash, Loaded, CommittedDisk, Recovered, TargetWrites, ApplyTxn;
    var t := a.txn;
    var c := CommittedDisk(dev, t);
    var ws := TargetWrites(t, tb)[..k - (|t.data| + 4)];
    RunApplying(dev, tb, a, k);
    CommitDisks(dev, base, stale, tb, t);
    WhileApplying(c, t, tb, ws, disk);
  }

  lemma RunApplied(dev: Device, t: Txn, tb: nat, tail: seq<Write>, j: nat)
    requires t.Valid() && tb <= BLOCK_SIZE && j <= |tail|
    ensures var ops := ToCommitted(t) + ((Puts(TargetWrites(t, tb)) + [Flush]) + Puts(tail));
            var k := 2 * |t.data| + 5 + j;
            k <= |ops| && Run(dev, ops[..k]) == Device(AppliedDisk(dev, t, tb), tail[..j])
  {
    hide Header, Run, CommittedDisk, Apply;
    var third, last := Puts(TargetWrites(t, tb)) + [Flush], Puts(tail[..j]);
    var ops, k := ToCommitted(t) + (third + Puts(tail)), 2 * |t.data| + 5 + j;
    assert ops[..k] == ToCommitted(t) + (third + last);
    RunConcat(dev, ToCommitted(t), third + last);
    RunToCommitted(dev, t);
    var c := Device(CommittedDisk(dev, t), []);
    RunConcat(c, third, last);
    RunWritesFlush(c, TargetWrites(t, tb));
    assert c.View() == c.durable by { ApplyNone(c.durable); }
    RunPuts(Device(AppliedDisk(dev, t, tb), []), tail[..j]);
    assert [] + tail[..j] == tail[..j];
  }

  lemma ApplyNone(d: Disk)
    ensures Apply(d, []) == d
  {
  }

  lemma SafeApplied(dev: Device, base: Contents, stale: Option<Txn>, tb: nat, a: Attempt, k: nat, disk: Disk)
    requires Between(dev, base, stale, tb) && a.Valid() && a.Done?
    requires 2 * |a.txn.data| + 5 <= k <= |Ops(a, tb)|
    requires CrashesAt(dev, Ops(a, tb), k, disk)
    ensures disk.Valid() && Recovered(disk, tb) == ApplyTxn(base, a.txn, tb)
  {
    hide Judge, Header;
    var t := a.txn;
    var j := k - (2 * |t.data| + 5);
    RunApplied(dev, t, tb, Tail(a), j);
    BetweenApplied(dev, base, stale, tb, t);
    var left := if |t.targets| == 0 then None else Some(t);
    BetweenTail(Device(AppliedDisk(dev, t, tb), []), ApplyTxn(base, t, tb), left, tb, a, j);
    assert [] + Tail(a)[..j] == Tail(a)[..j];
    BetweenRecovers(Device(AppliedDisk(dev, t, tb), Tail(a)[..j]), ApplyTxn(base, t, tb), left, tb, disk);
  }

  /** Crash atomicity of one attempt, on a device that may persist any subset of the writes not yet flushed. */
  lemma AttemptSafe(dev: Device, base: Contents, stale: Option<Txn>, tb: nat, a: Attempt, k: nat, disk: Disk)
    requires Between(dev, base, stale, tb) && a.Valid() && Compatible(stale, a, tb)
    requires k <= |Ops(a, tb)| && CrashesAt(dev, Ops(a, tb), k, disk)
    ensures disk.Valid() && Recovered(disk, tb) == Expected(base, a, k, disk, tb)
  {
    hide Judge, Header;
    var n := |a.txn.data|;
    if k <= n + 2 {
      SafeLoading(dev, base, stale, tb, a, k, disk);
    } else if k == n + 3 {
      SafeAtCommit(dev, base, stale, tb, a, disk);
    } else if k <= 2 * n + 4 {
      SafeApplying(dev, base, stale, tb, a, k, disk);
    } else {
      SafeApplied(dev, base, stale, tb, a, k, disk);
    }
  }

  lemma FailedBetween(dev: Device, base: Contents, stale: Option<Txn>, tb: nat, a: Attempt)
    requires Between(dev, base, stale, tb) && a.Valid() && a.Failed? && Compatible(stale, a, tb)
    ensures Between(Run(dev, Ops(a, tb)), base, StaleAfter(stale, a), tb)
  {
    hide Judge, Header, Between;
    var t := a.txn;
    if a.at <= |t.data| {
      BetweenLoading(dev, base, stale, tb, a, a.at);
      assert (DataWrites(t) + [PendingHeader(t)])[..a.at] == DataWrites(t)[..a.at];
      RunPuts(dev, DataWrites(t)[..a.at]);
    } else {
      RunToCommitted(dev, t);
      BetweenPending(dev, base, stale, tb, t);
    }
  }

  lemma RunDone(dev: Device, a: Attempt, tb: nat)
    requires a.Valid() && a.Done? && tb <= BLOCK_SIZE
    ensures Run(dev, Ops(a, tb)) == Device(AppliedDisk(dev, a.txn, tb), Tail(a))
  {
    hide Header;
    var third := Puts(TargetWrites(a.txn, tb)) + [Flush];
    RunToCommitted(dev, a.txn);
    RunConcat(dev, ToCommitted(a.txn), third + Puts(Tail(a)));
    RunConcat(Device(CommittedDisk(dev, a.txn), []), third, Puts(Tail(a)));
    RunWritesFlush(Device(CommittedDisk(dev, a.txn), []), TargetWrites(a.txn, tb));
    RunPuts(Device(AppliedDisk(dev, a.txn, tb), []), Tail(a));
    assert [] + Tail(a) == Tail(a);
  }

  lemma DoneBetween(dev: Device, base: Contents, stale: Option<Txn>, tb: nat, a: Attempt)
    requires Between(dev, base, stale, tb) && a.Valid() && a.Done?
    ensures Between(Run(dev, Ops(a, tb)), ApplyTxn(base, a.txn, tb), StaleAfter(stale, a), tb)
  {
    hide Judge, Header;
    var t, tail := a.txn, Tail(a);
    RunDone(dev, a, tb);
    BetweenApplied(dev, base, stale, tb, t);
    BetweenTail(Device(AppliedDisk(dev, t, tb), []), ApplyTxn(base, t, tb), StaleAfter(stale, a), tb, a, |tail|);
    assert [] + tail[..|tail|] == tail;
  }

  /** What an attempt leaves for the next one. */
  lemma AttemptBetween(dev: Device, base: Contents, stale: Option<Txn>, tb: nat, a: Attempt)
    requires Between(dev, base, stale, tb) && a.Valid() && !a.Panicked? && Compatible(stale, a, tb)
    ensures Between(Run(dev, Ops(a, tb)), After(base, a, tb), StaleAfter(stale, a), tb)
  {
    if a.Failed? {
      FailedBetween(dev, base, stale, tb, a);
    } else {
      DoneBetween(dev, base, stale, tb, a);
    }
  }
}
