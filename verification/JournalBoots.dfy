/**
 * Crash safety over any number of boots, each with its replay, its transactions and its crash
 * (src/kernel/fs/journal.c:129-292). The boot goes on whatever replay returns (src/kernel/init/main.c:112-123), so
 * transactions may also follow a replay that stopped on an error.
 */
module JournalBoots {
  import opened Options
  import opened JournalFormat
  import opened JournalDisk
  import opened JournalCrash
  import opened JournalRuns
  import opened JournalOrdered

  // ----- After a replay that stopped -----

  /** The header asks to redo t, the slots hold it, and base is what the disk would be worth with t applied. */
  ghost predicate Halted(d: Disk, base: Contents, t: Txn, tb: nat) {
    && d.Valid() && tb <= BLOCK_SIZE && t.Valid() && |t.targets| > 0
    && Judge(d.slots[SLOT_HDR]) == Redo(t.targets)
    && (forall i :: 0 <= i < |t.data| && Visible(t, i) ==> d.slots[SLOT_DATA0 + i][..tb] == t.data[i][..tb])
    && ApplyTxn(d.data, t, tb) == base
  }

  lemma HaltedRecovers(d: Disk, base: Contents, t: Txn, tb: nat)
    requires Halted(d, base, t, tb)
    ensures Recovered(d, tb) == base
  {
    hide Judge;
    RecoveredRedo(d, t.targets, tb);
    WriteTargetsSame(d.data, d.data, t.targets, d.slots[SLOT_DATA0..], t.data, tb);
  }

  /** The attempt fails before it touches the header. */
  predicate Short(a: Attempt) {
    a.Failed? && a.at <= |a.txn.data|
  }

  lemma HaltedLoads(d: Disk, base: Contents, t: Txn, tb: nat, a: Attempt, m: nat)
    requires Halted(d, base, t, tb) && a.Valid() && Compatible(Some(t), a, tb) && m <= a.DataCount()
    ensures var e := Apply(d, DataWrites(a.txn)[..m]);
            Halted(e, base, t, tb) && e.data == d.data
  {
    hide Judge, ApplyTxn;
    ApplyDataWrites(d, a.txn, m);
  }

  lemma ShortWrites(a: Attempt, tb: nat)
    requires a.Valid() && tb <= BLOCK_SIZE && Short(a)
    ensures a.DataCount() == a.at <= |DataWrites(a.txn)| && Writes(a, tb) == DataWrites(a.txn)[..a.at]
  {
    hide Header;
  }

  /** Every attempt fails before it touches the header, and none disturbs the slots of t. */
  ghost predicate Gentle(t: Txn, run: seq<Attempt>, tb: nat)
    requires ValidRun(run) && tb <= BLOCK_SIZE && t.Valid()
  {
    forall i :: 0 <= i < |run| ==> Short(run[i]) && Compatible(Some(t), run[i], tb)
  }

  /** After any prefix of a gentle run the next replay has all it needs, and nothing has been committed. */
  lemma {:induction false} GentleRun(d: Disk, base: Contents, t: Txn, run: seq<Attempt>, tb: nat, j: nat)
    requires Halted(d, base, t, tb) && ValidRun(run) && Gentle(t, run, tb) && j <= |RunWrites(run, tb)|
    ensures var e := Apply(d, RunWrites(run, tb)[..j]);
            Halted(e, base, t, tb) && e.data == d.data && Reached(run, tb, j) == []
    decreases |run|
  {
    hide Halted, Compatible, Writes, Header, Judge;
    HaltedFacts(d, base, t, tb);
    if |run| > 0 {
      var before, a := run[..|run| - 1], run[|run| - 1];
      var ws := RunWrites(before, tb);
      var k := if j <= |ws| then j else |ws|;
      GentleRun(d, base, t, before, tb, k);
      if j <= |ws| {
        assert RunWrites(run, tb)[..j] == ws[..j];
      } else {
        assert ws[..k] == ws;
        ShortWrites(a, tb);
        HaltedLoads(Apply(d, ws), base, t, tb, a, j - k);
        assert RunWrites(run, tb)[..j] == ws + DataWrites(a.txn)[..j - k];
        ApplyConcat(d, ws, DataWrites(a.txn)[..j - k]);
      }
    }
  }

  lemma HaltedFacts(d: Disk, base: Contents, t: Txn, tb: nat)
    requires Halted(d, base, t, tb)
    ensures d.Valid() && tb <= BLOCK_SIZE && t.Valid()
  {
    hide Judge, ApplyTxn;
  }

  lemma GentleSafe(d: Disk, base: Contents, t: Txn, run: seq<Attempt>, tb: nat, j: nat)
    requires Halted(d, base, t, tb) && ValidRun(run) && Gentle(t, run, tb) && j <= |RunWrites(run, tb)|
    ensures PrefixRecovers(d, base, run, tb, j)
  {
    hide Halted, Gentle, RunWrites, Reached, Recovered;
    HaltedFacts(d, base, t, tb);
    GentleRun(d, base, t, run, tb, j);
    HaltedRecovers(Apply(d, RunWrites(run, tb)[..j]), base, t, tb);
  }

  /** A block of another transaction in a slot of t: replay puts that block in the target. */
  lemma HaltedDisturbed(d: Disk, base: Contents, t: Txn, tb: nat, a: Attempt, i: nat)
    requires Halted(d, base, t, tb) && a.Valid()
    requires i < a.DataCount() && Visible(t, i) && a.txn.data[i][..tb] != t.data[i][..tb]
    ensures Recovered(Apply(d, DataWrites(a.txn)[..i + 1]), tb) != base
  {
    hide Judge, Apply, WriteTargets, Recovered;
    var e := Apply(d, DataWrites(a.txn)[..i + 1]);
    ApplyDataWrites(d, a.txn, i + 1);
    assert e.slots[SLOT_DATA0..][i] == a.txn.data[i];
    RecoveredRedo(e, t.targets, tb);
    LastBlock(e.data, t, e.slots[SLOT_DATA0..], tb, i);
    LastBlock(d.data, t, t.data, tb, i);
  }

  /** A visible slot is what its target ends up with. */
  lemma LastBlock(data: Contents, t: Txn, blocks: seq<Block>, tb: nat, i: nat)
    requires t.Valid() && |blocks| >= |t.targets| && tb <= BLOCK_SIZE && Visible(t, i)
    ensures var r := WriteTargets(data, t.targets, blocks, tb);
            t.targets[i] in r && r[t.targets[i]] == blocks[i][..tb]
  {
    WriteTargetsAt(data, t.targets, blocks, tb, t.targets[i]);
  }

  /** Once the pending header is written, the rest of t is lost. */
  lemma HaltedOverwritten(d: Disk, a: Attempt, tb: nat)
    requires d.Valid() && tb <= BLOCK_SIZE && a.Valid()
    ensures Recovered(Apply(d, Loading(a.txn)), tb) == d.data
  {
    hide Judge, Header;
    var t := a.txn;
    ApplyDataWrites(d, t, |t.data|);
    assert DataWrites(t)[..|t.data|] == DataWrites(t);
    ApplyConcat(d, DataWrites(t), [PendingHeader(t)]);
    assert [PendingHeader(t)][..0] == [];
    JudgePending(t.id, t.targets);
  }

  /** The writes of an attempt that is not short begin with its data blocks and its pending header. */
  lemma LongWrites(a: Attempt, tb: nat)
    requires a.Valid() && tb <= BLOCK_SIZE && !Short(a)
    ensures |Loading(a.txn)| <= |Writes(a, tb)| && Writes(a, tb)[..|Loading(a.txn)|] == Loading(a.txn)
  {
    hide Header;
    var ws := Loading(a.txn);
    if a.Failed? {
      assert ws[..|ws|] == ws;
    }
  }

  lemma FirstRough(t: Txn, run: seq<Attempt>, tb: nat) returns (n: nat)
    requires ValidRun(run) && tb <= BLOCK_SIZE && t.Valid() && !Gentle(t, run, tb)
    ensures n < |run| && !(Short(run[n]) && Compatible(Some(t), run[n], tb)) && Gentle(t, run[..n], tb)
  {
    hide Compatible, Short;
    n := 0;
    while Short(run[n]) && Compatible(Some(t), run[n], tb)
      invariant n < |run|
      invariant forall i :: 0 <= i < n ==> Short(run[i]) && Compatible(Some(t), run[i], tb)
      decreases |run| - n
    {
      n := n + 1;
    }
  }

  /** A prefix of the run's writes that ends inside the last attempt. */
  lemma IntoLast(d: Disk, run: seq<Attempt>, before: seq<Attempt>, a: Attempt, tb: nat, m: nat)
    requires ValidRun(run) && |run| > 0 && tb <= BLOCK_SIZE && m <= |a.txn.data| + 1
    requires ValidRun(before) && before == run[..|run| - 1] && a == run[|run| - 1] && a.Valid() && m <= |Writes(a, tb)|
    ensures var ws := RunWrites(before, tb);
            && |ws| + m <= |RunWrites(run, tb)|
            && Apply(d, RunWrites(run, tb)[..|ws| + m]) == Apply(Apply(d, ws), Writes(a, tb)[..m])
            && Reached(run, tb, |ws| + m) == Reached(before, tb, |ws|)
  {
    hide Writes, Apply;
    var ws := RunWrites(before, tb);
    assert RunWrites(run, tb)[..|ws| + m] == ws + Writes(a, tb)[..m];
    ApplyConcat(d, ws, Writes(a, tb)[..m]);
    assert Reached(before, tb, |ws|) + [] == Reached(before, tb, |ws|);
  }

  /** The attempt is not gentle: some prefix of its writes loses part of t. */
  lemma RoughAttempt(d: Disk, base: Contents, t: Txn, a: Attempt, tb: nat) returns (m: nat)
    requires tb <= BLOCK_SIZE && t.Valid() && a.Valid() && !(Short(a) && Compatible(Some(t), a, tb))
    requires Halted(d, base, t, tb) && d.data != base
    ensures m <= |a.txn.data| + 1 && m <= |Writes(a, tb)| && Recovered(Apply(d, Writes(a, tb)[..m]), tb) != base
  {
    hide Halted, Compatible, Writes, Header, Judge, Recovered, Apply;
    HaltedFacts(d, base, t, tb);
    if !Compatible(Some(t), a, tb) {
      var i := DisturbedSlot(Some(t), a, tb);
      HaltedDisturbed(d, base, t, tb, a, i);
      WritesStart(a, tb, i + 1);
      m := i + 1;
    } else {
      LongWrites(a, tb);
      HaltedOverwritten(d, a, tb);
      m := |Loading(a.txn)|;
    }
  }

  /** The last attempt of the run is the first that is not gentle. */
  lemma RoughUnsafe(d: Disk, base: Contents, t: Txn, run: seq<Attempt>, before: seq<Attempt>, a: Attempt, tb: nat)
    returns (j: nat)
    requires tb <= BLOCK_SIZE && t.Valid() && d.Valid() && ValidRun(run) && |run| > 0
    requires ValidRun(before) && before == run[..|run| - 1] && a == run[|run| - 1] && a.Valid()
    requires Gentle(t, before, tb) && !(Short(a) && Compatible(Some(t), a, tb))
    requires Halted(d, base, t, tb) && d.data != base
    ensures j <= |RunWrites(run, tb)| && !PrefixRecovers(d, base, run, tb, j)
  {
    hide Halted, Compatible, Writes, Header, Judge, Recovered, Gentle, RunWrites, Apply, Reached, Short;
    var ws := RunWrites(before, tb);
    GentleRun(d, base, t, before, tb, |ws|);
    assert ws[..|ws|] == ws;
    var m := RoughAttempt(Apply(d, ws), base, t, a, tb);
    IntoLast(d, run, before, a, tb, m);
    j := |ws| + m;
  }

  /** The runs that are safe on a disk with a transaction half redone. */
  ghost predicate SafeAfterStop(d: Disk, base: Contents, t: Txn, run: seq<Attempt>, tb: nat)
    requires ValidRun(run) && tb <= BLOCK_SIZE && t.Valid()
  {
    if d.data == base then OrderedUndisturbed(Some(t), run, tb) else Gentle(t, run, tb)
  }

  /**
   * A run that follows a replay which stopped is safe if and only if it disturbs no slot of the transaction that was to
   * be redone and, unless all its targets happened to be right, never gets as far as a header.
   */
  lemma StoppedSafeIff(d: Disk, base: Contents, t: Txn, run: seq<Attempt>, tb: nat)
    requires Halted(d, base, t, tb) && ValidRun(run)
    ensures OrderedSafe(d, base, run, tb) <==> SafeAfterStop(d, base, t, run, tb)
  {
    hide Compatible, RunWrites, Reached, Judge, OrderedStale, Gentle, Recovered, ApplyTxn;
    if d.data == base {
      OrderedSafeIffUndisturbed(d, base, Some(t), run, tb);
    } else if Gentle(t, run, tb) {
      forall j | 0 <= j <= |RunWrites(run, tb)|
        ensures PrefixRecovers(d, base, run, tb, j)
      {
        GentleSafe(d, base, t, run, tb, j);
      }
    } else {
      var n := FirstRough(t, run, tb);
      assert run[..n + 1][..n] == run[..n];
      var j := RoughUnsafe(d, base, t, run[..n + 1], run[..n], run[n], tb);
      RunPrefixAgrees(run, tb, n + 1, j);
      assert !PrefixRecovers(d, base, run, tb, j);
    }
  }

  /** The writes of a replay that stops after k targets, or on the header. */
  function StopIssues(d: Disk, k: nat, tb: nat): seq<Write>
    requires d.Valid() && tb <= BLOCK_SIZE
  {
    match Judge(d.slots[SLOT_HDR])
    case Redo(ts) => if k <= |ts| then TargetWrites(HeaderTxn(d, ts), tb)[..k] else TargetWrites(HeaderTxn(d, ts), tb)
    case _ => []
  }

  /** Replay has stopped: the disk is worth what it was, and the header is still there. */
  lemma StopHalts(d: Disk, ts: seq<U32>, k: nat, tb: nat)
    requires d.Valid() && tb <= BLOCK_SIZE && Judge(d.slots[SLOT_HDR]) == Redo(ts) && k <= |ts| <= MAX_PER_TXN
    ensures Halted(Apply(d, TargetWrites(HeaderTxn(d, ts), tb)[..k]), Recovered(d, tb), HeaderTxn(d, ts), tb)
  {
    hide Recovered, Judge, WriteTargets;
    RedoSome(d, ts);
    var t := HeaderTxn(d, ts);
    ApplyTargetWrites(d, t, tb, k);
    HeaderTxnRecovers(d, ts, tb);
    RewriteSame(d.data, ts, t.data, t.data, tb, k);
  }

  lemma RedoSome(d: Disk, ts: seq<U32>)
    requires d.Valid() && Judge(d.slots[SLOT_HDR]) == Redo(ts)
    ensures 0 < |ts| <= MAX_PER_TXN
  {
  }

  lemma StopPrefix(d: Disk, ts: seq<U32>, k: nat, tb: nat)
    requires d.Valid() && tb <= BLOCK_SIZE && Judge(d.slots[SLOT_HDR]) == Redo(ts) && |ts| <= MAX_PER_TXN
    ensures var m := if k <= |ts| then k else |ts|;
            StopIssues(d, k, tb) == TargetWrites(HeaderTxn(d, ts), tb)[..m]
  {
    hide Judge;
    var ws := TargetWrites(HeaderTxn(d, ts), tb);
    assert ws[..|ts|] == ws;
  }

  /** A replay that stopped, cut short by a crash, leaves the disk worth the same. */
  lemma StopCutSafe(d: Disk, k: nat, tb: nat, j: nat)
    requires d.Valid() && tb <= BLOCK_SIZE && j <= |StopIssues(d, k, tb)|
    ensures Recovered(Apply(d, StopIssues(d, k, tb)[..j]), tb) == Recovered(d, tb)
  {
    hide Judge, Recovered;
    if Judge(d.slots[SLOT_HDR]).Redo? {
      var ts := Judge(d.slots[SLOT_HDR]).targets;
      RedoSome(d, ts);
      StopPrefix(d, ts, k, tb);
      assert StopIssues(d, k, tb)[..j] == TargetWrites(HeaderTxn(d, ts), tb)[..j];
      RedoPrefix(d, ts, tb, j);
    } else {
      assert StopIssues(d, k, tb)[..j] == [];
    }
  }

  /** The runs that are safe after a replay which stopped. */
  ghost predicate StopOk(d: Disk, k: nat, run: seq<Attempt>, tb: nat)
    requires d.Valid() && tb <= BLOCK_SIZE && ValidRun(run)
  {
    match Judge(d.slots[SLOT_HDR])
    case Redo(ts) => SafeAfterStop(Apply(d, StopIssues(d, k, tb)), Recovered(d, tb), HeaderTxn(d, ts), run, tb)
    case _ => OrderedUndisturbed(None, run, tb)
  }

  /** A run after a replay that stopped is safe if and only if it is one of those. */
  lemma StopSafeIff(d: Disk, k: nat, run: seq<Attempt>, tb: nat)
    requires d.Valid() && tb <= BLOCK_SIZE && ValidRun(run)
    ensures OrderedSafe(Apply(d, StopIssues(d, k, tb)), Recovered(d, tb), run, tb) <==> StopOk(d, k, run, tb)
  {
    hide Judge, OrderedSafe, SafeAfterStop, OrderedUndisturbed, Halted;
    if Judge(d.slots[SLOT_HDR]).Redo? {
      var ts := Judge(d.slots[SLOT_HDR]).targets;
      RedoSome(d, ts);
      StopPrefix(d, ts, k, tb);
      StopHalts(d, ts, if k <= |ts| then k else |ts|, tb);
      StoppedSafeIff(Apply(d, StopIssues(d, k, tb)), Recovered(d, tb), HeaderTxn(d, ts), run, tb);
    } else {
      OrderedSafeIffUndisturbed(d, d.data, None, run, tb);
    }
  }

  // ----- Any number of boots -----

  /**
   * One boot: replay, which may stop after some targets, a run of transactions, and a crash after `persisted` of all the
   * writes.
   */
  datatype Boot = Boot(stopped: Option<nat>, cleared: bool, run: seq<Attempt>, persisted: nat)

  /** The writes of the boot's replay. */
  function BootIssues(d: Disk, b: Boot, tb: nat): seq<Write>
    requires d.Valid() && tb <= BLOCK_SIZE
  {
    match b.stopped
    case None => ReplayIssues(d, b.cleared, tb)
    case Some(k) => StopIssues(d, k, tb)
  }

  function BootWrites(d: Disk, b: Boot, tb: nat): seq<Write>
    requires d.Valid() && tb <= BLOCK_SIZE && ValidRun(b.run)
  {
    BootIssues(d, b, tb) + RunWrites(b.run, tb)
  }

  /** The run is safe after the replay. */
  ghost predicate RunOk(d: Disk, b: Boot, tb: nat)
    requires d.Valid() && tb <= BLOCK_SIZE && ValidRun(b.run)
  {
    match b.stopped
    case None => OrderedUndisturbed(ReplayStale(d, b.cleared), b.run, tb)
    case Some(k) => StopOk(d, k, b.run, tb)
  }

  ghost predicate ValidBoot(d: Disk, b: Boot, tb: nat) {
    && d.Valid() && tb <= BLOCK_SIZE && ValidRun(b.run)
    && b.persisted <= |BootWrites(d, b, tb)| && RunOk(d, b, tb)
  }

  function AfterBoot(d: Disk, b: Boot, tb: nat): (r: Disk)
    requires d.Valid() && tb <= BLOCK_SIZE && ValidRun(b.run) && b.persisted <= |BootWrites(d, b, tb)|
    ensures r.Valid()
  {
    Apply(d, BootWrites(d, b, tb)[..b.persisted])
  }

  /** The transactions of a boot whose committed header reached the disk. */
  function BootReached(d: Disk, b: Boot, tb: nat): (ts: seq<Txn>)
    requires d.Valid() && tb <= BLOCK_SIZE && ValidRun(b.run)
    ensures forall i :: 0 <= i < |ts| ==> ts[i].Valid()
  {
    var m := |BootIssues(d, b, tb)|;
    if b.persisted <= m then [] else Reached(b.run, tb, b.persisted - m)
  }

  lemma BootCutSafe(d: Disk, b: Boot, tb: nat, j: nat)
    requires d.Valid() && tb <= BLOCK_SIZE && j <= |BootIssues(d, b, tb)|
    ensures Recovered(Apply(d, BootIssues(d, b, tb)[..j]), tb) == Recovered(d, tb)
  {
    hide Recovered, ReplayIssues, StopIssues;
    match b.stopped
    case None => ReplayCutSafe(d, b.cleared, tb, j);
    case Some(k) => StopCutSafe(d, k, tb, j);
  }

  /** The run of the boot, on what its replay has left, is safe if and only if it is one of those. */
  lemma BootRunSafe(d: Disk, b: Boot, tb: nat)
    requires d.Valid() && tb <= BLOCK_SIZE && ValidRun(b.run)
    ensures OrderedSafe(Apply(d, BootIssues(d, b, tb)), Recovered(d, tb), b.run, tb) <==> RunOk(d, b, tb)
  {
    hide Recovered, ReplayIssues, ReplayStale, StopIssues, StopOk, OrderedSafe, OrderedUndisturbed, Between;
    match b.stopped
    case None =>
      ReplayBetween(d, b.cleared, tb);
      OrderedSafeIffUndisturbed(Apply(d, BootIssues(d, b, tb)), Recovered(d, tb), ReplayStale(d, b.cleared), b.run, tb);
    case Some(k) => StopSafeIff(d, k, b.run, tb);
  }

  lemma BootSafe(d: Disk, b: Boot, tb: nat)
    requires ValidBoot(d, b, tb)
    ensures Recovered(AfterBoot(d, b, tb), tb) == ApplyAll(Recovered(d, tb), BootReached(d, b, tb), tb)
  {
    hide Recovered, BootIssues, RunWrites, Reached, RunOk;
    var ws := BootIssues(d, b, tb);
    if b.persisted <= |ws| {
      BootCutSafe(d, b, tb, b.persisted);
      assert BootWrites(d, b, tb)[..b.persisted] == ws[..b.persisted];
    } else {
      var j := b.persisted - |ws|;
      BootRunSafe(d, b, tb);
      assert PrefixRecovers(Apply(d, ws), Recovered(d, tb), b.run, tb, j);
      assert BootWrites(d, b, tb)[..b.persisted] == ws + RunWrites(b.run, tb)[..j];
      ApplyConcat(d, ws, RunWrites(b.run, tb)[..j]);
    }
  }

  /** Boots that follow one another. */
  ghost predicate ValidBoots(d: Disk, bs: seq<Boot>, tb: nat)
    decreases |bs|
  {
    d.Valid() && tb <= BLOCK_SIZE && (|bs| > 0 ==> ValidBoot(d, bs[0], tb) && ValidBoots(AfterBoot(d, bs[0], tb), bs[1..], tb))
  }

  ghost function AfterBoots(d: Disk, bs: seq<Boot>, tb: nat): (r: Disk)
    requires ValidBoots(d, bs, tb)
    ensures r.Valid()
    decreases |bs|
  {
    if |bs| == 0 then d else AfterBoots(AfterBoot(d, bs[0], tb), bs[1..], tb)
  }

  ghost function AllReached(d: Disk, bs: seq<Boot>, tb: nat): (ts: seq<Txn>)
    requires ValidBoots(d, bs, tb)
    ensures forall i :: 0 <= i < |ts| ==> ts[i].Valid()
    decreases |bs|
  {
    if |bs| == 0 then [] else BootReached(d, bs[0], tb) + AllReached(AfterBoot(d, bs[0], tb), bs[1..], tb)
  }

  /**
   * Crash safety over whole runs: after any number of boots and crashes, including crashes during replay,
   * a completed replay leaves outside the journal exactly the transactions whose committed header
   * reached the disk, applied in order to what the first disk was worth.
   */
  lemma {:induction false} BootsSafe(d: Disk, bs: seq<Boot>, tb: nat)
    requires ValidBoots(d, bs, tb)
    ensures Replay(AfterBoots(d, bs, tb), tb).data == ApplyAll(Recovered(d, tb), AllReached(d, bs, tb), tb)
    decreases |bs|
  {
    hide Judge, AfterBoot, BootReached, BootWrites, RunOk;
    if |bs| > 0 {
      var d1 := AfterBoot(d, bs[0], tb);
      BootSafe(d, bs[0], tb);
      BootsSafe(d1, bs[1..], tb);
      ApplyAllConcat(Recovered(d, tb), BootReached(d, bs[0], tb), AllReached(d1, bs[1..], tb), tb);
    }
  }
}
