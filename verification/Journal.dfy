/** The journal as the kernel runs it (src/kernel/fs/journal.c): a device, one transaction slot, commit and replay. */
module Journal {
  import opened Errno
  import opened Options
  import opened Words
  import opened JournalFormat
  import opened JournalDisk
  import opened JournalCrash
  import opened JournalOrdered
  import opened JournalSuper

  /** How a call ends: it returns, or the kernel stops for good. */
  datatype Outcome = Returned(rc: int) | Halted

  /** A block device. Any request may fail; a failed write changes nothing. */
  class BlockDevice {
    var disk: Disk              // what a read sees
    ghost var trace: seq<Op>    // every write and flush that took effect
    ghost var errors: nat       // requests that failed

    constructor (d: Disk)
      requires d.Valid()
      ensures disk == d && trace == []
    {
      disk, trace := d, [];
    }

    method Write(w: Write) returns (rc: int)
      requires disk.Valid()
      modifies this
      ensures disk.Valid() && rc <= 0
      ensures rc == 0 ==> disk == Apply1(old(disk), w) && trace == old(trace) + [Put(w)] && errors == old(errors)
      ensures rc < 0 ==> disk == old(disk) && trace == old(trace) && errors == old(errors) + 1
    {
      rc := *;
      if rc < 0 {
        errors := errors + 1;
        return;
      }
      rc := 0;
      disk := Apply1(disk, w);
      trace := trace + [Put(w)];
    }

    method Flush()
      modifies this
      ensures disk == old(disk) && trace == old(trace) + [Op.Flush] && errors == old(errors)
    {
      trace := trace + [Op.Flush];
    }

    /** Write them all, in order, up to the first failure. */
    method WriteAll(ws: seq<Write>) returns (rc: int, n: nat)
      requires disk.Valid()
      modifies this
      ensures disk.Valid() && rc <= 0 && n <= |ws| && (rc == 0 <==> n == |ws|)
      ensures disk == Apply(old(disk), ws[..n]) && trace == old(trace) + Puts(ws[..n])
      ensures errors == old(errors) + if rc < 0 then 1 else 0
    {
      hide Header;
      n, rc := 0, 0;
      while n < |ws|
        invariant disk.Valid() && n <= |ws| && rc == 0 && errors == old(errors)
        invariant disk == Apply(old(disk), ws[..n]) && trace == old(trace) + Puts(ws[..n])
      {
        rc := Write(ws[n]);
        if rc < 0 {
          return;
        }
        PutsSnoc(ws, n);
        assert ws[..n + 1][..n] == ws[..n];
        n := n + 1;
      }
    }

    method ReadSlot(i: nat) returns (rc: int, b: Block)
      requires disk.Valid() && i < |disk.slots|
      modifies this`errors
      ensures rc <= 0 && (rc == 0 ==> b == disk.slots[i]) && errors == old(errors) + if rc < 0 then 1 else 0
    {
      rc := *;
      b := ZeroBlock();
      if rc < 0 {
        errors := errors + 1;
        return;
      }
      rc := 0;
      b := disk.slots[i];
    }
  }

  lemma PutsSnoc(ws: seq<Write>, n: nat)
    requires n < |ws|
    ensures Puts(ws[..n + 1]) == Puts(ws[..n]) + [Put(ws[n])]
  {
  }

  /** Block b is the superblock sb with the given next transaction id. */
  predicate Saves(b: Block, sb: Block, next: U32) {
    GetU32(b, 12) == next && forall i :: 0 <= i < BLOCK_SIZE && !(12 <= i < 16) ==> b[i] == sb[i]
  }

  /** A journal with nothing in it: zeroes after a superblock of magic, version, 32 blocks and next id 1. */
  ghost predicate Fresh(d: Disk) {
    && d.Valid() && (forall i :: 1 <= i < |d.slots| ==> forall j :: 0 <= j < BLOCK_SIZE ==> d.slots[i][j] == 0)
    && SuperOk(d.slots[0]) && GetU32(d.slots[0], 8) == 32 && GetU32(d.slots[0], 12) == 1
    && forall j :: 16 <= j < BLOCK_SIZE ==> d.slots[0][j] == 0
  }

  class TransactionLog {
    const dev: BlockDevice
    const targetBytes: nat      // g_target_sectors, in bytes
    var initialized: bool
    var sb: Block               // g_sb, but for txn_id_next
    var nextId: U32             // g_sb.txn_id_next
    var inUse: bool             // g_txn
    var txnId: U32
    var targets: seq<U32>
    var buffers: seq<Block>
    var liveBuffers: nat        // kmalloc'ed and not yet freed
    ghost var starved: nat      // kmalloc calls that failed

    constructor (d: BlockDevice, tb: nat)
      requires d.disk.Valid() && tb <= BLOCK_SIZE
      ensures Valid() && dev == d && targetBytes == tb && !initialized && !inUse
    {
      dev, targetBytes := d, tb;
      initialized, inUse, sb, nextId := false, false, ZeroBlock(), 0;
      txnId, targets, buffers, liveBuffers := 0, [], [], 0;
    }

    /**
     * The buffers of the transaction are the only live ones; a free slot holds none. Once initialised, the superblock has
     * its magic and its version.
     */
    ghost predicate Valid()
      reads this, dev
    {
      && dev.disk.Valid() && targetBytes <= BLOCK_SIZE
      && |targets| == |buffers| <= MAX_PER_TXN && liveBuffers == |buffers|
      && (!inUse ==> buffers == []) && (inUse ==> initialized) && (initialized ==> SuperOk(sb))
    }

    /**
     * journal_init. A superblock with magic and version is taken as it is, and the disk stays; otherwise the journal is
     * formatted, and whatever was in it is gone. The blocks outside the journal stay in any case.
     */
    method Init() returns (rc: int)
      requires Valid() && !initialized
      modifies this, dev
      ensures Valid() && (rc == 0 <==> initialized) && rc <= 0 && !inUse && dev.disk.data == old(dev.disk.data)
      ensures dev.errors >= old(dev.errors) && (rc < 0 <==> dev.errors > old(dev.errors))
      ensures old(SuperOk(dev.disk.slots[SLOT_SUPER])) ==> dev.disk == old(dev.disk) && dev.trace == old(dev.trace)
      ensures rc == 0 ==> sb == dev.disk.slots[SLOT_SUPER] && nextId == GetU32(sb, 12)
      ensures rc == 0 && !old(SuperOk(dev.disk.slots[SLOT_SUPER])) ==> Fresh(dev.disk)
    {
      hide GetU32, SuperOk;
      rc, sb := dev.ReadSlot(SLOT_SUPER);
      if rc < 0 {
        return;
      }
      if !SuperOk(sb) {
        rc := FormatFresh();
        if rc < 0 {
          return;
        }
      }
      nextId := GetU32(sb, 12);
      initialized := true;
      rc := 0;
    }

    /** journal_format_fresh: zeroes first, the superblock last. */
    method FormatFresh() returns (rc: int)
      requires Valid() && !initialized
      modifies dev, this`sb
      ensures Valid() && rc <= 0 && dev.disk.data == old(dev.disk.data) && (rc == 0 ==> Fresh(dev.disk))
      ensures rc == 0 ==> sb == dev.disk.slots[SLOT_SUPER] && SuperOk(sb)
      ensures dev.errors >= old(dev.errors) && (rc < 0 <==> dev.errors > old(dev.errors))
      ensures rc < 0 ==> dev.disk.slots[SLOT_SUPER] == old(dev.disk.slots[SLOT_SUPER])
      ensures rc == 0 ==> |dev.trace| > 0 && dev.trace[|dev.trace| - 1] == Put(Slot(0, sb))
    {
      hide GetU32, PutU32, SuperOk;
      var i := 1;
      while i < DEFAULT_BLOCKS
        invariant 1 <= i <= DEFAULT_BLOCKS && Valid() && dev.disk.data == old(dev.disk.data) && dev.errors == old(dev.errors)
        invariant forall k :: 1 <= k < i ==> dev.disk.slots[k] == ZeroBlock()
        invariant dev.disk.slots[SLOT_SUPER] == old(dev.disk.slots[SLOT_SUPER])
      {
        rc := dev.Write(Slot(i, ZeroBlock()));
        if rc < 0 {
          return;
        }
        i := i + 1;
      }
      FreshSuperReads();
      sb := FreshSuper();
      rc := dev.Write(Slot(SLOT_SUPER, sb));
    }

    function Current(): (t: Txn)
      requires Valid()
      reads this, dev
      ensures t.Valid()
    {
      Txn(txnId, targets, buffers)
    }

    /** journal_begin, once the slot is free. */
    method Begin() returns (ok: bool)
      requires Valid() && !inUse
      modifies this
      ensures Valid() && ok == old(initialized) == inUse && dev.disk == old(dev.disk)
      ensures ok ==> Current() == Txn(old(nextId), [], []) && nextId == (old(nextId) + 1) % TWO32
      ensures !ok ==> nextId == old(nextId)
      ensures initialized == old(initialized) && starved == old(starved) && sb == old(sb)
    {
      hide SuperOk;
      ok := initialized;
      if ok {
        inUse, txnId := true, nextId;
        nextId := (nextId + 1) % TWO32;
        targets, buffers := [], [];
      }
    }

    /** journal_log_block. */
    method LogBlock(target: U32, data: Block) returns (rc: int)
      requires Valid() && inUse
      modifies this
      ensures Valid() && inUse && nextId == old(nextId) && initialized == old(initialized) && sb == old(sb)
      ensures rc == 0 || rc == -ENOMEM
      ensures |old(buffers)| == MAX_PER_TXN ==> rc == -ENOMEM
      ensures rc == 0 ==> Current() == Txn(old(txnId), old(targets) + [target], old(buffers) + [data])
      ensures rc != 0 ==> Current() == old(Current())
      ensures starved >= old(starved) && (rc != 0 && |old(buffers)| < MAX_PER_TXN ==> starved > old(starved))
    {
      hide SuperOk;
      if |buffers| >= MAX_PER_TXN {
        return -ENOMEM;
      }
      var haveMemory: bool := *;
      if !haveMemory {
        starved := starved + 1;
        return -ENOMEM;
      }
      liveBuffers := liveBuffers + 1;
      targets, buffers := targets + [target], buffers + [data];
      rc := 0;
    }

    /** journal_abort: every buffer is freed and the slot is free again. */
    method Abort()
      requires Valid()
      modifies this
      ensures Valid() && !inUse && liveBuffers == 0
      ensures nextId == old(nextId) && initialized == old(initialized) && starved == old(starved) && sb == old(sb)
    {
      hide SuperOk;
      var i := 0;
      while i < |buffers|
        invariant i <= |buffers| && liveBuffers == |buffers| - i
        invariant buffers == old(buffers) && targets == old(targets) && inUse == old(inUse)
        invariant nextId == old(nextId) && initialized == old(initialized) && starved == old(starved) && sb == old(sb)
      {
        liveBuffers := liveBuffers - 1;
        i := i + 1;
      }
      targets, buffers, inUse := [], [], false;
    }

    /** The first half of journal_commit: up to the flush of the committed header. */
    method WriteIntent(t: Txn) returns (rc: int, ghost at: nat)
      requires Valid() && t.Valid()
      modifies dev
      ensures Valid() && rc <= 0
      ensures rc == 0 ==> dev.trace == old(dev.trace) + ToCommitted(t) && dev.disk == Apply(old(dev.disk), Committing(t))
      ensures rc < 0 ==>
                && Failed(t, at).Valid()
                && dev.trace == old(dev.trace) + Ops(Failed(t, at), targetBytes)
                && dev.disk == Apply(old(dev.disk), Writes(Failed(t, at), targetBytes))
      ensures dev.errors == old(dev.errors) + if rc < 0 then 1 else 0
    {
      hide Header, Apply, SuperOk;
      var n;
      rc, n := dev.WriteAll(DataWrites(t));
      at := n;
      assert Loading(t)[..n] == DataWrites(t)[..n];
      if rc < 0 {
        return;
      }
      assert DataWrites(t)[..n] == DataWrites(t);
      rc := dev.Write(PendingHeader(t));
      if rc < 0 {
        return;
      }
      dev.Flush();
      at := n + 1;
      LoadedTrace(t, old(dev.disk), old(dev.trace));
      assert Loading(t)[..n + 1] == Loading(t);
      rc := dev.Write(CommittedHeader(t));
      if rc < 0 {
        return;
      }
      dev.Flush();
      CommittedTrace(t, old(dev.disk), old(dev.trace));
    }

    /**
     * Its end: clear the header and save the next transaction id, which is above that of the transaction; neither failure
     * is reported.
     */
    method Retire(t: Txn) returns (ghost a: Attempt)
      requires Valid() && t.Valid()
      modifies dev, this`nextId
      ensures Valid() && a.Done? && a.Valid() && a.txn == t
      ensures dev.trace == old(dev.trace) + Puts(Tail(a)) && dev.disk == Apply(old(dev.disk), Tail(a))
      ensures dev.errors >= old(dev.errors) && (dev.errors == old(dev.errors) ==> a.cleared && |a.super| == 1)
      ensures nextId == Max(old(nextId), (t.id + 1) % TWO32)
      ensures |a.super| == 1 ==> Saves(a.super[0], sb, nextId) && dev.disk.slots[SLOT_SUPER] == a.super[0]
      ensures |a.super| == 0 ==> dev.disk.slots[SLOT_SUPER] == old(dev.disk.slots[SLOT_SUPER])
    {
      hide WithNext, Apply, Tail, GetU32;
      var rc := dev.Write(ClearHeader());
      var cleared := rc == 0;
      if (t.id + 1) % TWO32 > nextId {
        nextId := (t.id + 1) % TWO32;
      }
      var super := WithNext(sb, nextId);
      WithNextReads(sb, nextId);
      rc := dev.Write(Slot(SLOT_SUPER, super));
      a := Done(t, cleared, if rc == 0 then [super] else []);
      TailDisk(a, old(dev.disk));
      TailTrace(a, old(dev.trace));
    }

    /**
     * journal_commit. The attempt says which device operations were made; a call that returns
     * leaves the slot and its buffers free.
     */
    method Commit() returns (outcome: Outcome, ghost attempt: Option<Attempt>)
      requires Valid()
      modifies this, dev
      ensures initialized == old(initialized)
      ensures attempt.None? <==> !old(inUse)
      ensures attempt.None? ==> outcome == Returned(-EINVAL) && dev.trace == old(dev.trace) && dev.disk == old(dev.disk)
      ensures attempt.Some? ==>
                var a := attempt.value;
                && a.Valid() && a.txn == old(Current())
                && dev.trace == old(dev.trace) + Ops(a, targetBytes)
                && dev.disk == Apply(old(dev.disk), Writes(a, targetBytes))
                && (outcome == Returned(0) <==> a.Done?)
                && (outcome.Halted? <==> a.Panicked?)
                && (outcome.Returned? ==> outcome.rc <= 0)
                && (dev.errors == old(dev.errors) ==> a.Done? && a.cleared && |a.super| == 1)
                && StoresSuper(a) && (a.Done? && |a.super| == 1 ==> Saves(dev.disk.slots[SLOT_SUPER], sb, nextId))
      ensures sb == old(sb) && nextId == if outcome == Returned(0) then Max(old(nextId), (old(txnId) + 1) % TWO32) else old(nextId)
      ensures dev.disk.Valid() && (old(SuperOk(dev.disk.slots[SLOT_SUPER])) ==> SuperOk(dev.disk.slots[SLOT_SUPER]))
      ensures outcome.Returned? ==> Valid() && !inUse && liveBuffers == 0
      ensures starved == old(starved) && dev.errors >= old(dev.errors)
    {
      hide Apply, ToCommitted, Committing, TargetWrites, Tail, SuperOk, StoresSuper, Saves, Ops, Writes;
      if !inUse {
        return Returned(-EINVAL), None;
      }
      var t := Current();
      ghost var at;
      var rc;
      rc, at := WriteIntent(t);
      if rc < 0 {
        Abort();
        NoSuper(Failed(t, at));
        AttemptSuper(Failed(t, at), targetBytes, old(dev.disk));
        return Returned(rc), Some(Failed(t, at));
      }
      var ws := TargetWrites(t, targetBytes);
      var n;
      rc, n := dev.WriteAll(ws);
      if rc < 0 {
        ApplyConcat(old(dev.disk), Committing(t), ws[..n]);
        PanickedIs(t, n, targetBytes, old(dev.trace));
        NoSuper(Panicked(t, n));
        AttemptSuper(Panicked(t, n), targetBytes, old(dev.disk));
        return Halted, Some(Panicked(t, n));
      }
      assert ws[..n] == ws;
      dev.Flush();
      ghost var a := Retire(t);
      SavesSuper(a, sb, nextId);
      AttemptSuper(a, targetBytes, old(dev.disk));
      DoneDisk(a, targetBytes, old(dev.disk));
      DoneTrace(a, targetBytes, old(dev.trace));
      Abort();
      return Returned(0), Some(a);
    }

    /**
     * journal_replay: it issues the writes of a replay in order, up to the first failure; only the failure of the last
     * one, the clear, goes unnoticed. Whatever fails, the disk is worth what it was; without errors it is as Replay says.
     */
    method Replay() returns (rc: int, ghost cleared: bool, ghost n: nat)
      requires Valid()
      modifies dev
      ensures Valid() && rc <= 0
      ensures !initialized ==> rc == -EINVAL && dev.disk == old(dev.disk) && dev.trace == old(dev.trace)
      ensures initialized ==> Replaying(old(dev.disk), cleared, n, old(dev.trace), dev.disk, dev.trace)
      ensures rc == 0 ==> n == |ReplayIssues(old(dev.disk), cleared, targetBytes)| && dev.disk.data == Recovered(old(dev.disk), targetBytes)
      ensures Recovered(dev.disk, targetBytes) == Recovered(old(dev.disk), targetBytes)
      ensures initialized && dev.errors == old(dev.errors) ==>
                rc == 0 && cleared && dev.disk == JournalDisk.Replay(old(dev.disk), targetBytes)
    {
      hide Judge, Recovered, Replaying, ReplayIssues, JournalDisk.Replay;
      rc, cleared, n := -EINVAL, true, 0;
      if !initialized {
        return;
      }
      ghost var d := dev.disk;
      ReplayingStart(d, dev.trace);
      ReplayCutSafe(d, true, targetBytes, 0);
      var hdr;
      rc, hdr := dev.ReadSlot(SLOT_HDR);
      if rc < 0 {
        return;
      }
      var verdict := Examine(hdr);
      match verdict {
        case Ignore =>
          IssuesAre(d, true, targetBytes);
          rc := 0;
        case Discard =>
          rc := dev.Write(ClearHeader());
          IssuesAre(d, true, targetBytes);
          if rc == 0 {
            n := 1;
            ReplayingNext(d, true, 0, old(dev.trace), d, old(dev.trace));
          }
        case Redo(ts) =>
          rc, cleared, n := Redo(ts);
      }
      if rc == 0 {
        ReplayDone(d, cleared, targetBytes);
        ReplayingAll(d, cleared, n, old(dev.trace), dev.disk, dev.trace);
      }
      if cleared {
        ReplayIssued(d, targetBytes);
      }
    }

    /** Its loop over the targets, and the clear. */
    method Redo(ts: seq<U32>) returns (rc: int, ghost cleared: bool, ghost n: nat)
      requires Valid() && Judge(dev.disk.slots[SLOT_HDR]) == Verdict.Redo(ts)
      modifies dev
      ensures Valid() && rc <= 0
      ensures Replaying(old(dev.disk), cleared, n, old(dev.trace), dev.disk, dev.trace)
      ensures Recovered(dev.disk, targetBytes) == Recovered(old(dev.disk), targetBytes)
      ensures rc == 0 ==> n == |ReplayIssues(old(dev.disk), cleared, targetBytes)|
      ensures dev.errors >= old(dev.errors) && (dev.errors == old(dev.errors) ==> rc == 0 && cleared)
    {
      hide Judge, Recovered, Replaying, ReplayIssues;
      ghost var d, trace := dev.disk, dev.trace;
      IssuesAre(d, true, targetBytes);
      IssuesAre(d, false, targetBytes);
      ReplayingStart(d, trace);
      rc, cleared, n := 0, true, 0;
      var i := 0;
      ReplayCutSafe(d, true, targetBytes, 0);
      while i < |ts|
        invariant i <= |ts| && n == i && cleared && Valid() && dev.errors == old(dev.errors)
        invariant Replaying(d, true, i, trace, dev.disk, dev.trace)
        invariant Recovered(dev.disk, targetBytes) == Recovered(d, targetBytes)
      {
        SlotsStay(d, ts, i, trace, dev.disk, dev.trace);
        var buf;
        rc, buf := dev.ReadSlot(SLOT_DATA0 + i);
        if rc < 0 {
          return;
        }
        ghost var e, t := dev.disk, dev.trace;
        rc := dev.Write(Target(ts[i], buf[..targetBytes]));
        if rc < 0 {
          return;
        }
        ReplayingNext(d, true, i, trace, e, t);
        i := i + 1;
        n := i;
        ReplayCutSafe(d, true, targetBytes, i);
        ReplayingIs(d, true, i, trace, dev.disk, dev.trace);
      }
      ghost var e, t := dev.disk, dev.trace;
      rc := dev.Write(ClearHeader());
      if rc == 0 {
        ReplayingNext(d, true, i, trace, e, t);
        n := i + 1;
        ReplayCutSafe(d, true, targetBytes, n);
        ReplayingIs(d, true, n, trace, dev.disk, dev.trace);
      } else {
        ReplayingUncleared(d, i, trace, e, t);
        cleared := false;
      }
      rc := 0;
    }

    /** The first n writes of a replay of d have been made, and nothing else. */
    ghost predicate Replaying(d: Disk, cleared: bool, n: nat, was: seq<Op>, e: Disk, trace: seq<Op>) {
      && targetBytes <= BLOCK_SIZE && d.Valid() && n <= |ReplayIssues(d, cleared, targetBytes)|
      && e == Apply(d, ReplayIssues(d, cleared, targetBytes)[..n])
      && trace == was + Puts(ReplayIssues(d, cleared, targetBytes)[..n])
    }

    lemma ReplayingStart(d: Disk, trace: seq<Op>)
      requires targetBytes <= BLOCK_SIZE && d.Valid()
      ensures Replaying(d, true, 0, trace, d, trace)
      ensures Apply(d, ReplayIssues(d, true, targetBytes)[..0]) == d
    {
      hide ReplayIssues;
    }

    lemma ReplayingIs(d: Disk, cleared: bool, n: nat, was: seq<Op>, e: Disk, trace: seq<Op>)
      requires Replaying(d, cleared, n, was, e, trace)
      ensures targetBytes <= BLOCK_SIZE && d.Valid() && n <= |ReplayIssues(d, cleared, targetBytes)|
      ensures e == Apply(d, ReplayIssues(d, cleared, targetBytes)[..n])
    {
      hide ReplayIssues, Apply;
    }

    lemma ReplayingAll(d: Disk, cleared: bool, n: nat, was: seq<Op>, e: Disk, trace: seq<Op>)
      requires Replaying(d, cleared, n, was, e, trace) && n == |ReplayIssues(d, cleared, targetBytes)|
      ensures e == Apply(d, ReplayIssues(d, cleared, targetBytes))
    {
      hide ReplayIssues, Apply;
      var ws := ReplayIssues(d, cleared, targetBytes);
      assert ws[..n] == ws;
    }

    lemma ReplayingNext(d: Disk, cleared: bool, n: nat, was: seq<Op>, e: Disk, trace: seq<Op>)
      requires Replaying(d, cleared, n, was, e, trace) && n < |ReplayIssues(d, cleared, targetBytes)|
      ensures var w := ReplayIssues(d, cleared, targetBytes)[n];
              Replaying(d, cleared, n + 1, was, Apply1(e, w), trace + [Put(w)])
    {
      hide ReplayIssues, Apply1;
      var ws := ReplayIssues(d, cleared, targetBytes);
      assert ws[..n + 1][..n] == ws[..n];
      PutsSnoc(ws, n);
    }

    /** Without the clear, the writes so far are the whole replay. */
    lemma ReplayingUncleared(d: Disk, n: nat, was: seq<Op>, e: Disk, trace: seq<Op>)
      requires Replaying(d, true, n, was, e, trace) && n + 1 == |ReplayIssues(d, true, targetBytes)|
      requires Judge(d.slots[SLOT_HDR]).Redo?
      ensures Replaying(d, false, n, was, e, trace) && n == |ReplayIssues(d, false, targetBytes)|
    {
      hide Judge, Apply;
      var a, b := ReplayIssues(d, true, targetBytes), ReplayIssues(d, false, targetBytes);
      assert a[..n] == b[..n];
    }

    /** The targets written so far do not touch the journal's own slots. */
    lemma SlotsStay(d: Disk, ts: seq<U32>, n: nat, was: seq<Op>, e: Disk, trace: seq<Op>)
      requires Replaying(d, true, n, was, e, trace) && n < |ts| <= MAX_PER_TXN
               && Judge(d.slots[SLOT_HDR]) == Verdict.Redo(ts)
      ensures e.slots == d.slots
      ensures Issue(d, targetBytes, n) == Some(Target(ts[n], d.slots[SLOT_DATA0 + n][..targetBytes]))
    {
      hide Judge, Apply, ReplayIssues, TargetWrites;
      ApplyTargetWrites(d, HeaderTxn(d, ts), targetBytes, n);
      IssueAt(d, ts, targetBytes, n);
    }

    /**
     * journaled_write of src/kernel/fs/ext2.c: an atomic block store. A return of 0 has written the block and
     * nothing else outside the journal; any other return has changed nothing there; and every return has
     * released the transaction slot and its buffers.
     */
    method JournaledWrite(windowOpen: bool, blk: U32, buf: Block) returns (outcome: Outcome,
        ghost attempt: Option<Attempt>)
      requires Valid() && !inUse
      modifies this, dev
      ensures outcome.Returned? ==> Valid() && !inUse && liveBuffers == 0 && outcome.rc <= 0
      ensures outcome == Returned(0) ==> dev.disk.data == old(dev.disk.data)[blk := buf[..targetBytes]]
      ensures outcome.Returned? && outcome.rc < 0 ==> dev.disk.data == old(dev.disk.data)
      ensures attempt.None? ==> outcome.Returned? && dev.trace == old(dev.trace)
      ensures attempt.Some? ==>
                && windowOpen && old(initialized) && attempt.value.Valid() && attempt.value.txn == Txn(old(nextId), [blk], [buf])
                && dev.trace == old(dev.trace) + Ops(attempt.value, targetBytes)
      ensures windowOpen && old(initialized) && dev.errors == old(dev.errors) && starved == old(starved) ==>
                outcome == Returned(0) && Saves(dev.disk.slots[SLOT_SUPER], sb, nextId)
      ensures sb == old(sb) && initialized == old(initialized)
      ensures nextId == (old(nextId) + if windowOpen && old(initialized) then 1 else 0) % TWO32
      ensures dev.disk.Valid() && (old(SuperOk(dev.disk.slots[SLOT_SUPER])) ==> SuperOk(dev.disk.slots[SLOT_SUPER]))
    {
      hide Ops, Writes, SuperOk, Saves, StoresSuper, Apply, ApplyTxn;
      attempt := None;
      if !windowOpen {
        return Returned(-EIO), None;
      }
      var ok := Begin();
      if !ok {
        return Returned(-EIO), None;
      }
      var rc := LogBlock(blk, buf);
      if rc < 0 {
        Abort();
        return Returned(rc), None;
      }
      outcome, attempt := Commit();
      AttemptData(attempt.value, targetBytes, old(dev.disk));
      OneBlock(old(dev.disk.data), attempt.value.txn, targetBytes);
    }

    /** Two calls in a row: their transactions have different ids. */
    method WriteTwice(windowOpen: bool, b: U32, x: Block, c: U32, y: Block) returns (done: bool,
        ghost first: Option<Attempt>, ghost second: Option<Attempt>)
      requires Valid() && !inUse
      modifies this, dev
      ensures first.Some? && second.Some? ==> first.value.txn.id != second.value.txn.id
      ensures done ==> second.Some? ==> second.value.txn.id == (old(nextId) + 1) % TWO32
    {
      hide Ops, SuperOk, Saves;
      var outcome;
      done, second := false, None;
      outcome, first := JournaledWrite(windowOpen, b, x);
      if outcome.Returned? {
        outcome, second := JournaledWrite(windowOpen, c, y);
        done := true;
      }
    }
  }

  lemma PanickedIs(t: Txn, n: nat, tb: nat, trace: seq<Op>)
    requires t.Valid() && n < |t.data| && tb <= BLOCK_SIZE
    ensures var a, ws := Panicked(t, n), TargetWrites(t, tb)[..n];
            a.Valid() && Writes(a, tb) == Committing(t) + ws && trace + ToCommitted(t) + Puts(ws) == trace + Ops(a, tb)
  {
    hide Committing, ToCommitted;
  }

  /** A stored superblock has magic and version if the one it comes from has. */
  lemma SavesSuper(a: Attempt, sb: Block, next: U32)
    requires a.Valid() && SuperOk(sb) && (a.Done? && |a.super| == 1 ==> Saves(a.super[0], sb, next))
    ensures StoresSuper(a)
  {
    hide SuperOk, Saves;
    if a.Done? && |a.super| == 1 {
      SavesOk(a.super[0], sb, next);
    }
  }

  lemma SavesOk(b: Block, sb: Block, next: U32)
    requires Saves(b, sb, next)
    ensures GetU32(b, 8) == GetU32(sb, 8) && (SuperOk(sb) ==> SuperOk(b))
  {
    hide GetU32;
    SameWord(b, sb, 0);
    SameWord(b, sb, 4);
    SameWord(b, sb, 8);
  }

  lemma NoSuper(a: Attempt)
    requires !a.Done?
    ensures StoresSuper(a)
  {
  }

  lemma AttemptSuper(a: Attempt, tb: nat, d: Disk)
    requires a.Valid() && tb <= BLOCK_SIZE && d.Valid() && StoresSuper(a)
    ensures var e := Apply(d, Writes(a, tb));
            e.Valid() && (SuperOk(d.slots[SLOT_SUPER]) ==> SuperOk(e.slots[SLOT_SUPER]))
  {
    hide Writes, SuperOk;
    AttemptKeepsSuper(a, tb);
    if SuperOk(d.slots[SLOT_SUPER]) {
      ApplyKeepsSuper(d, Writes(a, tb));
    }
  }

  lemma {:induction false} SlotWritesKeepData(d: Disk, ws: seq<Write>)
    requires forall w :: w in ws ==> w.Slot?
    ensures Apply(d, ws).data == d.data
    decreases |ws|
  {
    if |ws| > 0 {
      SlotWritesKeepData(d, ws[..|ws| - 1]);
    }
  }

  /** What the writes of an attempt that returned do to the blocks outside the journal. */
  lemma AttemptData(a: Attempt, tb: nat, d: Disk)
    requires a.Valid() && tb <= BLOCK_SIZE
    ensures !a.Panicked? ==> Apply(d, Writes(a, tb)).data == After(d.data, a, tb)
  {
    hide Header, Apply;
    var t := a.txn;
    SlotWritesKeepData(d, Committing(t));
    if a.Failed? {
      SlotWritesKeepData(d, Writes(a, tb));
    } else if a.Done? {
      DoneDisk(a, tb, d);
      var c := Apply(d, Committing(t));
      ApplyTargetWrites(c, t, tb, |t.targets|);
      assert TargetWrites(t, tb)[..|t.targets|] == TargetWrites(t, tb) && t.targets[..|t.targets|] == t.targets;
      SlotWritesKeepData(Apply(c, TargetWrites(t, tb)), Tail(a));
    }
  }

  lemma OneBlock(data: Contents, t: Txn, tb: nat)
    requires t.Valid() && |t.targets| == 1 && tb <= BLOCK_SIZE
    ensures ApplyTxn(data, t, tb) == data[t.targets[0] := t.data[0][..tb]]
  {
    assert WriteTargets(data, t.targets[..0], t.data, tb) == data;
  }

  lemma ReplayDone(d: Disk, cleared: bool, tb: nat)
    requires d.Valid() && tb <= BLOCK_SIZE
    ensures var r := Apply(d, ReplayIssues(d, cleared, tb));
            r.Valid() && r.data == Recovered(d, tb) && Recovered(r, tb) == Recovered(d, tb)
  {
    hide Judge, Recovered;
    var r := Apply(d, ReplayIssues(d, cleared, tb));
    ReplayBetween(d, cleared, tb);
    PrefixIsCrash(r, [], 0);
    BetweenRecovers(At(r), Recovered(d, tb), ReplayStale(d, cleared), tb, r);
  }

  /** The writes of a replay, by what the header says. */
  lemma IssuesAre(d: Disk, cleared: bool, tb: nat)
    requires d.Valid() && tb <= BLOCK_SIZE
    ensures var ws := ReplayIssues(d, cleared, tb);
            var c := if cleared then 1 else 0;
            match Judge(d.slots[SLOT_HDR])
            case Ignore => ws == []
            case Discard => |ws| == c && (cleared ==> ws[0] == ClearHeader())
            case Redo(ts) => |ts| <= MAX_PER_TXN && |ws| == |ts| + c && (cleared ==> ws[|ts|] == ClearHeader())
  {
    hide Judge;
  }

  function Issue(d: Disk, tb: nat, n: nat): Option<Write>
    requires d.Valid() && tb <= BLOCK_SIZE
  {
    var ws := ReplayIssues(d, true, tb);
    if n < |ws| then Some(ws[n]) else None
  }

  /** Write number n of a redo, and the ones before it. */
  lemma IssueAt(d: Disk, ts: seq<U32>, tb: nat, n: nat)
    requires d.Valid() && tb <= BLOCK_SIZE && Judge(d.slots[SLOT_HDR]) == Redo(ts) && n < |ts| <= MAX_PER_TXN
    ensures var ws := ReplayIssues(d, true, tb);
            && n < |ws| && ws[..n] == TargetWrites(HeaderTxn(d, ts), tb)[..n]
            && ws[n] == Target(ts[n], d.slots[SLOT_DATA0 + n][..tb])
  {
    hide Judge;
  }

  /** All of them, the clear included, make the disk that Replay describes. */
  lemma ReplayIssued(d: Disk, tb: nat)
    requires d.Valid() && tb <= BLOCK_SIZE
    ensures Apply(d, ReplayIssues(d, true, tb)) == JournalDisk.Replay(d, tb)
  {
    hide Judge;
    ApplyOne(d, ClearHeader());
    match Judge(d.slots[SLOT_HDR])
    case Redo(ts) =>
      var ws := TargetWrites(HeaderTxn(d, ts), tb);
      ApplyConcat(d, ws, [ClearHeader()]);
      RedoneDisk(d, ts, tb);
      ApplyOne(Apply(d, ws), ClearHeader());
      WriteTargetsSame(d.data, d.data, ts, HeaderTxn(d, ts).data, d.slots[SLOT_DATA0..], tb);
    case _ =>
  }

  lemma LoadedTrace(t: Txn, d: Disk, trace: seq<Op>)
    requires t.Valid()
    ensures trace + Puts(DataWrites(t)) + [Put(PendingHeader(t))] + [Flush] == trace + ToPending(t)
    ensures Apply1(Apply(d, DataWrites(t)), PendingHeader(t)) == Apply(d, Loading(t))
  {
    hide Header;
    assert Puts(Loading(t)) == Puts(DataWrites(t)) + [Put(PendingHeader(t))];
    assert Loading(t)[..|t.data|] == DataWrites(t);
  }

  lemma CommittedTrace(t: Txn, d: Disk, trace: seq<Op>)
    requires t.Valid()
    ensures trace + ToPending(t) + [Put(CommittedHeader(t))] + [Flush] == trace + ToCommitted(t)
    ensures Apply1(Apply(d, Loading(t)), CommittedHeader(t)) == Apply(d, Committing(t))
  {
    hide Header;
    assert Puts([CommittedHeader(t)]) == [Put(CommittedHeader(t))];
    assert Committing(t)[..|t.data| + 1] == Loading(t);
  }

  /** The tail of an attempt, as two optional writes. */
  lemma TailParts(a: Attempt)
    requires a.Done? && |a.super| <= 1
    ensures Tail(a) == (if a.cleared then [ClearHeader()] else [])
                       + (if |a.super| == 1 then [Slot(SLOT_SUPER, a.super[0])] else [])
  {
  }

  lemma TailDisk(a: Attempt, d: Disk)
    requires a.Done? && |a.super| <= 1
    ensures var c := if a.cleared then Apply1(d, ClearHeader()) else d;
            Apply(d, Tail(a)) == if |a.super| == 1 then Apply1(c, Slot(SLOT_SUPER, a.super[0])) else c
  {
    var x := if a.cleared then [ClearHeader()] else [];
    var y := if |a.super| == 1 then [Slot(SLOT_SUPER, a.super[0])] else [];
    TailParts(a);
    ApplyConcat(d, x, y);
    ApplyOne(d, ClearHeader());
    if |a.super| == 1 {
      ApplyOne(Apply(d, x), Slot(SLOT_SUPER, a.super[0]));
    }
  }

  lemma TailTrace(a: Attempt, trace: seq<Op>)
    requires a.Done? && |a.super| <= 1
    ensures var tc := if a.cleared then trace + [Put(ClearHeader())] else trace;
            trace + Puts(Tail(a)) == if |a.super| == 1 then tc + [Put(Slot(SLOT_SUPER, a.super[0]))] else tc
  {
    TailParts(a);
    hide Tail, ClearHeader;
  }

  lemma DoneDisk(a: Attempt, tb: nat, d: Disk)
    requires a.Valid() && a.Done? && tb <= BLOCK_SIZE
    ensures Apply(Apply(Apply(d, Committing(a.txn)), TargetWrites(a.txn, tb)), Tail(a)) == Apply(d, Writes(a, tb))
  {
    hide Apply, Committing, TargetWrites, Tail;
    ApplyConcat(d, Committing(a.txn), TargetWrites(a.txn, tb) + Tail(a));
    ApplyConcat(Apply(d, Committing(a.txn)), TargetWrites(a.txn, tb), Tail(a));
  }

  lemma Reassociate<T>(a: seq<T>, b: seq<T>, c: seq<T>, d: seq<T>, e: seq<T>)
    ensures a + b + c + d + e == a + (b + ((c + d) + e))
  {
  }

  lemma DoneTrace(a: Attempt, tb: nat, trace: seq<Op>)
    requires a.Valid() && a.Done? && tb <= BLOCK_SIZE
    ensures trace + ToCommitted(a.txn) + Puts(TargetWrites(a.txn, tb)) + [Flush] + Puts(Tail(a)) == trace + Ops(a, tb)
  {
    hide ToCommitted, TargetWrites, Tail;
    Reassociate(trace, ToCommitted(a.txn), Puts(TargetWrites(a.txn, tb)), [Flush], Puts(Tail(a)));
  }
}
