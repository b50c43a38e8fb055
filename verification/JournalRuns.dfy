/**
 * Whole runs of transactions on a device that may persist any subset of the writes not yet
 * flushed. The clear that ends a commit is not flushed (src/kernel/fs/journal.c:278), so such a
 * run is safe exactly if no transaction disturbs the journal slots of the one before it.
 */
module JournalRuns {
  import opened Options
  import opened Words
  import opened JournalFormat
  import opened JournalDisk
  import opened JournalCrash

  /** Only the last attempt of a run can be one that stopped the kernel. */
  predicate ValidRun(run: seq<Attempt>) {
    forall i :: 0 <= i < |run| ==> run[i].Valid() && (i < |run| - 1 ==> !run[i].Panicked?)
  }

  function RunOps(run: seq<Attempt>, tb: nat): seq<Op>
    requires ValidRun(run) && tb <= BLOCK_SIZE
    decreases |run|
  {
    if |run| == 0 then [] else RunOps(run[..|run| - 1], tb) + Ops(run[|run| - 1], tb)
  }

  function RunContents(base: Contents, run: seq<Attempt>, tb: nat): Contents
    requires ValidRun(run) && tb <= BLOCK_SIZE
    decreases |run|
  {
    if |run| == 0 then base else After(RunContents(base, run[..|run| - 1], tb), run[|run| - 1], tb)
  }

  function RunStale(run: seq<Attempt>): (s: Option<Txn>)
    requires ValidRun(run)
    ensures s.Some? ==> s.value.Valid()
    decreases |run|
  {
    if |run| == 0 then None else StaleAfter(RunStale(run[..|run| - 1]), run[|run| - 1])
  }

  /** No attempt disturbs the slots of a transaction whose committed header may still be on the disk. */
  ghost predicate Undisturbed(run: seq<Attempt>, tb: nat)
    requires ValidRun(run) && tb <= BLOCK_SIZE
  {
    forall i :: 0 <= i < |run| ==> Compatible(RunStale(run[..i]), run[i], tb)
  }

  /** A crash k operations into attempt i of a run started on disk d. */
  ghost predicate RunCrashes(d: Disk, run: seq<Attempt>, tb: nat, i: nat, k: nat, disk: Disk)
    requires ValidRun(run) && tb <= BLOCK_SIZE && i < |run|
  {
    k <= |Ops(run[i], tb)| && CrashesAt(Run(Device(d, []), RunOps(run[..i], tb)), Ops(run[i], tb), k, disk)
  }

  /** Replay then recovers the transactions before attempt i and, as the commit point decides, that of attempt i. */
  ghost predicate RecoversAt(d: Disk, run: seq<Attempt>, tb: nat, i: nat, k: nat, disk: Disk)
    requires ValidRun(run) && tb <= BLOCK_SIZE && i < |run|
  {
    disk.Valid() && Recovered(disk, tb) == Expected(RunContents(d.data, run[..i], tb), run[i], k, disk, tb)
  }

  ghost predicate CleanStart(d: Disk) {
    d.Valid() && !Judge(d.slots[SLOT_HDR]).Redo?
  }

  lemma {:induction false} RunBetween(d: Disk, run: seq<Attempt>, tb: nat, n: nat)
    requires CleanStart(d) && ValidRun(run) && tb <= BLOCK_SIZE && n <= |run|
    requires forall i :: 0 <= i < n ==> Compatible(RunStale(run[..i]), run[i], tb)
    requires n == |run| ==> (n == 0 || !run[n - 1].Panicked?)
    ensures Between(Run(Device(d, []), RunOps(run[..n], tb)), RunContents(d.data, run[..n], tb), RunStale(run[..n]), tb)
    decreases n
  {
    hide Judge, Ops, Compatible;
    if n > 0 {
      RunBetween(d, run, tb, n - 1);
      var before := run[..n - 1];
      assert run[..n][..n - 1] == before && run[..n][n - 1] == run[n - 1];
      RunConcat(Device(d, []), RunOps(before, tb), Ops(run[n - 1], tb));
      AttemptBetween(Run(Device(d, []), RunOps(before, tb)), RunContents(d.data, before, tb), RunStale(before), tb, run[n - 1]);
    }
  }

  /** A run that disturbs nothing is safe at every crash point. */
  lemma UndisturbedRunSafe(d: Disk, run: seq<Attempt>, tb: nat, i: nat, k: nat, disk: Disk)
    requires CleanStart(d) && ValidRun(run) && tb <= BLOCK_SIZE && i < |run|
    requires Undisturbed(run, tb)
    requires RunCrashes(d, run, tb, i, k, disk)
    ensures RecoversAt(d, run, tb, i, k, disk)
  {
    hide Judge, Header, Run, RunOps, RunContents, RunStale, Ops, Recovered, CleanStart, Expected, Compatible;
    RunBetween(d, run, tb, i);
    AttemptSafe(Run(Device(d, []), RunOps(run[..i], tb)), RunContents(d.data, run[..i], tb), RunStale(run[..i]), tb,
                run[i], k, disk);
  }

  // ----- Disturbing a slot is fatal -----

  /** A stale header over a block that is not the transaction's: replay puts that block in the target. */
  lemma DisturbedReplay(disk: Disk, t: Txn, tb: nat, i: nat)
    requires disk.Valid() && tb <= BLOCK_SIZE && t.Valid() && i < |t.targets|
    requires Judge(disk.slots[SLOT_HDR]) == Redo(t.targets)
    requires Settled(disk.data, t, tb) && Visible(t, i)
    requires disk.slots[SLOT_DATA0 + i][..tb] != t.data[i][..tb]
    ensures Recovered(disk, tb) != disk.data
  {
    hide Judge;
    var b := t.targets[i];
    RecoveredRedo(disk, t.targets, tb);
    WriteTargetsAt(disk.data, t.targets, disk.slots[SLOT_DATA0..], tb, b);
    WriteTargetsAt(disk.data, t.targets, t.data, tb, b);
  }

  /** The crash that shows it: right after the disturbing block has been written. */
  lemma DisturbingCrash(dev: Device, base: Contents, stale: Txn, tb: nat, a: Attempt, i: nat) returns (disk: Disk)
    requires Between(dev, base, Some(stale), tb) && a.Valid()
    requires i < a.DataCount() && Visible(stale, i) && a.txn.data[i][..tb] != stale.data[i][..tb]
    ensures disk.Valid() && i + 1 <= |Ops(a, tb)| && CrashesAt(dev, Ops(a, tb), i + 1, disk)
    ensures Recovered(disk, tb) != base
  {
    hide Judge, Header, Recovered, Ops, Crash, Run;
    var ws := DataWrites(a.txn)[..i + 1];
    disk := Apply(dev.durable, ws);
    ApplyDataWrites(dev.durable, a.txn, i + 1);
    PrefixIsCrash(dev.durable, ws, i + 1);
    assert ws[..i + 1] == ws;
    OpsStart(a, tb, i + 1);
    RunPuts(dev, ws);
    CrashMore(dev.durable, dev.pending, ws, disk);
    DisturbedReplay(disk, stale, tb, i);
  }

  /** An attempt starts with its data blocks. */
  lemma OpsStart(a: Attempt, tb: nat, n: nat)
    requires a.Valid() && tb <= BLOCK_SIZE && n <= a.DataCount()
    ensures n <= |Ops(a, tb)| && Ops(a, tb)[..n] == Puts(DataWrites(a.txn)[..n])
  {
    hide Header;
  }

  /** More pending writes allow the same crashes. */
  lemma CrashMore(d: Disk, before: seq<Write>, ws: seq<Write>, disk: Disk)
    requires Crash(d, ws, disk)
    ensures Crash(d, before + ws, disk)
  {
  }

  lemma DisturbedSlot(stale: Option<Txn>, a: Attempt, tb: nat) returns (i: nat)
    requires a.Valid() && tb <= BLOCK_SIZE && (stale.Some? ==> stale.value.Valid())
    requires !Compatible(stale, a, tb)
    ensures stale.Some? && i < a.DataCount() && Visible(stale.value, i)
    ensures a.txn.data[i][..tb] != stale.value.data[i][..tb]
  {
    i :| 0 <= i < a.DataCount() && Visible(stale.value, i) && a.txn.data[i][..tb] != stale.value.data[i][..tb];
  }

  lemma DisturbedRunUnsafe(d: Disk, run: seq<Attempt>, tb: nat, n: nat) returns (k: nat, disk: Disk)
    requires CleanStart(d) && ValidRun(run) && tb <= BLOCK_SIZE && n < |run|
    requires forall i :: 0 <= i < n ==> Compatible(RunStale(run[..i]), run[i], tb)
    requires !Compatible(RunStale(run[..n]), run[n], tb)
    ensures RunCrashes(d, run, tb, n, k, disk) && !RecoversAt(d, run, tb, n, k, disk)
  {
    hide Judge, Header, Run, RunOps, RunContents, RunStale, Ops, Between, Recovered, CleanStart;
    RunBetween(d, run, tb, n);
    var dev, base := Run(Device(d, []), RunOps(run[..n], tb)), RunContents(d.data, run[..n], tb);
    var i := DisturbedSlot(RunStale(run[..n]), run[n], tb);
    disk := DisturbingCrash(dev, base, RunStale(run[..n]).value, tb, run[n], i);
    k := i + 1;
  }

  /** Every crash point of the run is safe. */
  ghost predicate RunSafe(d: Disk, run: seq<Attempt>, tb: nat)
    requires ValidRun(run) && tb <= BLOCK_SIZE
  {
    forall i, k, disk :: 0 <= i < |run| && 0 <= k && RunCrashes(d, run, tb, i, k, disk) ==> RecoversAt(d, run, tb, i, k, disk)
  }

  /**
   * From a durably clean header, on a reordering device, a run of transactions is safe at every crash point
   * if and only if no transaction disturbs the slots of an earlier one whose header may still be there.
   */
  lemma RunSafeIffUndisturbed(d: Disk, run: seq<Attempt>, tb: nat)
    requires CleanStart(d) && ValidRun(run) && tb <= BLOCK_SIZE
    ensures RunSafe(d, run, tb) <==> Undisturbed(run, tb)
  {
    hide RunCrashes, RecoversAt, CleanStart, Compatible;
    if Undisturbed(run, tb) {
      forall i, k, disk | 0 <= i < |run| && 0 <= k && RunCrashes(d, run, tb, i, k, disk)
        ensures RecoversAt(d, run, tb, i, k, disk)
      {
        UndisturbedRunSafe(d, run, tb, i, k, disk);
      }
    } else {
      var n := FirstDisturbed(run, tb);
      var k, disk := DisturbedRunUnsafe(d, run, tb, n);
    }
  }

  lemma FirstDisturbed(run: seq<Attempt>, tb: nat) returns (n: nat)
    requires ValidRun(run) && tb <= BLOCK_SIZE && !Undisturbed(run, tb)
    ensures n < |run| && !Compatible(RunStale(run[..n]), run[n], tb)
    ensures forall i :: 0 <= i < n ==> Compatible(RunStale(run[..i]), run[i], tb)
  {
    hide Compatible, RunStale;
    n := 0;
    while Compatible(RunStale(run[..n]), run[n], tb)
      invariant n < |run|
      invariant forall i :: 0 <= i < n ==> Compatible(RunStale(run[..i]), run[i], tb)
      decreases |run| - n
    {
      n := n + 1;
    }
  }

  /** One transaction, from a durably clean header: after any crash, all old or all new, and nothing else changed. */
  lemma CommitAtomic(d: Disk, a: Attempt, tb: nat, k: nat, disk: Disk)
    requires CleanStart(d) && a.Valid() && tb <= BLOCK_SIZE
    requires k <= |Ops(a, tb)| && CrashesAt(Device(d, []), Ops(a, tb), k, disk)
    ensures disk.Valid()
    ensures Replay(disk, tb).data == d.data || Replay(disk, tb).data == ApplyTxn(d.data, a.txn, tb)
    ensures a.Done? && k == |Ops(a, tb)| ==> Replay(disk, tb).data == ApplyTxn(d.data, a.txn, tb)
  {
    hide Judge, Header;
    AttemptSafe(Device(d, []), d.data, None, tb, a, k, disk);
  }

  // ----- Replay itself on a reordering device -----

  function ReplayWrites(d: Disk, tb: nat): seq<Write>
    requires d.Valid() && tb <= BLOCK_SIZE
  {
    match Judge(d.slots[SLOT_HDR])
    case Ignore => []
    case Discard => [ClearHeader()]
    case Redo(ts) => RedoWrites(d, ts, tb) + [ClearHeader()]
  }

  function RedoWrites(d: Disk, ts: seq<U32>, tb: nat): (ws: seq<Write>)
    requires d.Valid() && tb <= BLOCK_SIZE && |ts| <= MAX_PER_TXN
    ensures |ws| == |ts|
  {
    seq(|ts|, i requires 0 <= i < |ts| => Target(ts[i], d.slots[SLOT_DATA0 + i][..tb]))
  }

  /** Everything that replay would write outside the journal is there already. */
  ghost predicate InPlace(d: Disk, tb: nat)
    requires d.Valid() && tb <= BLOCK_SIZE
  {
    forall b: U32, bytes :: Target(b, bytes) in ReplayWrites(d, tb) ==> b in d.data && d.data[b] == bytes
  }

  /** Every crash during or right after a replay of d, on a reordering device, still recovers what d was worth. */
  ghost predicate ReplaySafe(d: Disk, tb: nat)
    requires d.Valid() && tb <= BLOCK_SIZE
  {
    forall disk :: Crash(d, ReplayWrites(d, tb), disk) ==> disk.Valid() && Recovered(disk, tb) == Recovered(d, tb)
  }

  lemma InPlaceRecovers(d: Disk, tb: nat)
    requires d.Valid() && tb <= BLOCK_SIZE && InPlace(d, tb)
    ensures Recovered(d, tb) == d.data
  {
    hide Judge;
    if Judge(d.slots[SLOT_HDR]).Redo? {
      var ts := Judge(d.slots[SLOT_HDR]).targets;
      var r := WriteTargets(d.data, ts, d.slots[SLOT_DATA0..], tb);
      forall b: U32
        ensures SameAt(r, d.data, b)
      {
        WriteTargetsAt(d.data, ts, d.slots[SLOT_DATA0..], tb, b);
        var i := Last(ts, b);
        if i >= 0 {
          assert RedoWrites(d, ts, tb)[i] in ReplayWrites(d, tb);
        }
      }
      MapsEqual(r, d.data);
    }
  }

  lemma InPlaceSafe(d: Disk, tb: nat, disk: Disk)
    requires d.Valid() && tb <= BLOCK_SIZE && InPlace(d, tb)
    requires Crash(d, ReplayWrites(d, tb), disk)
    ensures disk.Valid() && Recovered(disk, tb) == Recovered(d, tb)
  {
    hide Judge;
    InPlaceRecovers(d, tb);
    assert disk.data == d.data by {
      assert forall b: U32 :: SameAt(disk.data, d.data, b);
      MapsEqual(disk.data, d.data);
    }
    assert forall i :: 0 <= i < |d.slots| && i != SLOT_HDR ==> disk.slots[i] == d.slots[i];
    assert disk.slots[SLOT_DATA0..] == d.slots[SLOT_DATA0..];
    JudgeZero();
    assert disk.slots[SLOT_HDR] == d.slots[SLOT_HDR] || disk.slots[SLOT_HDR] == ZeroBlock();
  }

  lemma NotInPlaceUnsafe(d: Disk, tb: nat, b: U32, bytes: seq<byte>)
    requires d.Valid() && tb <= BLOCK_SIZE
    requires Target(b, bytes) in ReplayWrites(d, tb) && !(b in d.data && d.data[b] == bytes)
    ensures !ReplaySafe(d, tb)
  {
    hide Judge;
    JudgeZero();
    var cleared := d.slots[SLOT_HDR := ZeroBlock()];
    var lost, stray := Disk(cleared, d.data), Disk(cleared, d.data[b := bytes]);
    assert ClearHeader() in ReplayWrites(d, tb);
    assert Crash(d, ReplayWrites(d, tb), lost);
    assert Crash(d, ReplayWrites(d, tb), stray);
    assert Recovered(lost, tb) != Recovered(stray, tb) by {
      assert Recovered(lost, tb) == d.data && Recovered(stray, tb) == d.data[b := bytes];
      assert b in d.data[b := bytes] && d.data[b := bytes][b] == bytes;
    }
  }

  /**
   * Replay does not flush before it clears the header (src/kernel/fs/journal.c:176). On a reordering device
   * a crash during or after a replay can lose a committed transaction; it never does
   * if and only if everything to be replayed was in place already.
   */
  lemma ReplaySafeIffInPlace(d: Disk, tb: nat)
    requires d.Valid() && tb <= BLOCK_SIZE
    ensures ReplaySafe(d, tb) <==> InPlace(d, tb)
  {
    hide Judge, ReplayWrites, Crash, Recovered;
    if InPlace(d, tb) {
      forall disk | Crash(d, ReplayWrites(d, tb), disk)
        ensures disk.Valid() && Recovered(disk, tb) == Recovered(d, tb)
      {
        InPlaceSafe(d, tb, disk);
      }
    } else {
      var b: U32, bytes :| Target(b, bytes) in ReplayWrites(d, tb) && !(b in d.data && d.data[b] == bytes);
      NotInPlaceUnsafe(d, tb, b, bytes);
    }
  }
}
