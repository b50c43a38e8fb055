/**
 * Crash safety over a run of transactions, and of replay, on a device that persists writes in the order they are issued
 * (src/kernel/fs/journal.c:129-292).
 */
module JournalOrdered {
  import opened Options
  import opened JournalFormat
  import opened JournalDisk
  import opened JournalCrash
  import opened JournalRuns

  // ----- What such a device leaves after a crash -----

  /** The writes among ops. */
  function WritesOf(ops: seq<Op>): seq<Write>
    decreases |ops|
  {
    if |ops| == 0 then []
    else
      var before := WritesOf(ops[..|ops| - 1]);
      match ops[|ops| - 1]
      case Put(w) => before + [w]
      case Flush => before
  }

  /** Some of the writes held back are lost, but always the latest ones. */
  ghost predicate OrderedCrash(dev: Device, disk: Disk) {
    exists j :: 0 <= j <= |dev.pending| && disk == Apply(dev.durable, dev.pending[..j])
  }

  lemma {:induction false} RunSplits(d: Disk, ops: seq<Op>) returns (m: nat)
    ensures var ws := WritesOf(ops); var dev := Run(Device(d, []), ops);
            m <= |ws| && dev.durable == Apply(d, ws[..m]) && dev.pending == ws[m..]
    decreases |ops|
  {
    if |ops| == 0 {
      m := 0;
    } else {
      var before := ops[..|ops| - 1];
      m := RunSplits(d, before);
      match ops[|ops| - 1] {
        case Put(w) =>
          assert (WritesOf(before) + [w])[..m] == WritesOf(before)[..m];
          assert (WritesOf(before) + [w])[m..] == WritesOf(before)[m..] + [w];
        case Flush =>
          var ws := WritesOf(before);
          ApplyConcat(d, ws[..m], ws[m..]);
          assert ws[..m] + ws[m..] == ws;
          m := |ws|;
          assert ws[..m] == ws;
      }
    }
  }

  /** A crash of an ordered device leaves a prefix of everything written. */
  lemma OrderedCrashIsPrefix(d: Disk, ops: seq<Op>, disk: Disk) returns (j: nat)
    requires OrderedCrash(Run(Device(d, []), ops), disk)
    ensures j <= |WritesOf(ops)| && disk == Apply(d, WritesOf(ops)[..j])
  {
    var dev, ws := Run(Device(d, []), ops), WritesOf(ops);
    var m := RunSplits(d, ops);
    var i: nat :| i <= |dev.pending| && disk == Apply(dev.durable, dev.pending[..i]);
    ApplyConcat(d, ws[..m], ws[m..][..i]);
    j := m + i;
    assert ws[..m] + ws[m..][..i] == ws[..j];
  }

  lemma {:induction false} WritesConcat(a: seq<Op>, b: seq<Op>)
    ensures WritesOf(a + b) == WritesOf(a) + WritesOf(b)
    decreases |b|
  {
    if |b| == 0 {
      assert a + b == a;
    } else {
      assert (a + b)[..|a + b| - 1] == a + b[..|b| - 1];
      WritesConcat(a, b[..|b| - 1]);
    }
  }

  lemma {:induction false} WritesOfPuts(ws: seq<Write>)
    ensures WritesOf(Puts(ws)) == ws
    decreases |ws|
  {
    if |ws| > 0 {
      assert Puts(ws)[..|ws| - 1] == Puts(ws[..|ws| - 1]);
      WritesOfPuts(ws[..|ws| - 1]);
    }
  }

  // ----- One attempt -----

  function Loading(t: Txn): (ws: seq<Write>)
    requires t.Valid()
    ensures |ws| == |t.data| + 1
  {
    DataWrites(t) + [PendingHeader(t)]
  }

  /** Everything up to and including the committed header. */
  function Committing(t: Txn): (ws: seq<Write>)
    requires t.Valid()
    ensures |ws| == |t.data| + 2
  {
    Loading(t) + [CommittedHeader(t)]
  }

  function Writes(a: Attempt, tb: nat): seq<Write>
    requires a.Valid() && tb <= BLOCK_SIZE
  {
    match a
    case Failed(t, at) => Loading(t)[..at]
    case Panicked(t, at) => Committing(t) + TargetWrites(t, tb)[..at]
    case Done(t, _, _) => Committing(t) + (TargetWrites(t, tb) + Tail(a))
  }

  lemma WritesOfWritesFlush(ws: seq<Write>)
    ensures WritesOf(Puts(ws) + [Flush]) == ws
  {
    WritesConcat(Puts(ws), [Flush]);
    WritesOfPuts(ws);
    assert WritesOf([Flush]) == [] && ws + [] == ws;
  }

  lemma WritesToCommitted(t: Txn)
    requires t.Valid()
    ensures WritesOf(ToPending(t)) == Loading(t) && WritesOf(ToCommitted(t)) == Committing(t)
  {
    hide Header;
    WritesOfWritesFlush(Loading(t));
    WritesOfWritesFlush([CommittedHeader(t)]);
    WritesConcat(ToPending(t), Puts([CommittedHeader(t)]) + [Flush]);
  }

  /** The writes of an attempt are those of its device operations. */
  lemma AttemptWrites(a: Attempt, tb: nat)
    requires a.Valid() && tb <= BLOCK_SIZE
    ensures WritesOf(Ops(a, tb)) == Writes(a, tb)
  {
    hide Header;
    WritesToCommitted(a.txn);
    match a
    case Failed(t, at) =>
      if at <= |t.data| {
        WritesOfPuts(DataWrites(t)[..at]);
        assert Loading(t)[..at] == DataWrites(t)[..at];
      } else {
        assert Loading(t)[..at] == Loading(t);
      }
    case Panicked(t, at) =>
      WritesConcat(ToCommitted(t), Puts(TargetWrites(t, tb)[..at]));
      WritesOfPuts(TargetWrites(t, tb)[..at]);
    case Done(t, _, _) =>
      var third := Puts(TargetWrites(t, tb)) + [Flush];
      WritesConcat(ToCommitted(t), third + Puts(Tail(a)));
      WritesConcat(third, Puts(Tail(a)));
      WritesOfWritesFlush(TargetWrites(t, tb));
      WritesOfPuts(Tail(a));
  }

  /** As on any device, except that a clear that succeeded has been persisted before anything after it. */
  function OrderedStaleAfter(stale: Option<Txn>, a: Attempt): Option<Txn>
    requires a.Valid()
  {
    if a.Done? && a.cleared then None else StaleAfter(stale, a)
  }

  function At(d: Disk): Device {
    Device(d, [])
  }

  lemma LoadingSafe(d: Disk, base: Contents, stale: Option<Txn>, tb: nat, a: Attempt, j: nat)
    requires Between(At(d), base, stale, tb) && a.Valid() && Compatible(stale, a, tb)
    requires j <= |Writes(a, tb)| && j <= |a.txn.data| + 1
    ensures Recovered(Apply(d, Writes(a, tb)[..j]), tb) == base
  {
    hide Judge, Header, Recovered;
    var ws := Loading(a.txn);
    assert Writes(a, tb)[..j] == ws[..j];
    BetweenLoading(At(d), base, stale, tb, a, j);
    assert [] + ws[..j] == ws[..j];
    PrefixIsCrash(d, ws[..j], j);
    assert ws[..j][..j] == ws[..j];
    BetweenRecovers(Device(d, ws[..j]), base, stale, tb, Apply(d, ws[..j]));
  }

  /** Where the writes of a commit lead. */
  lemma CommittingDisk(d: Disk, t: Txn, rest: seq<Write>)
    requires t.Valid()
    ensures Apply(d, Loading(t)) == PendingDisk(At(d), t)
    ensures Apply(d, Committing(t)) == CommittedDisk(At(d), t)
    ensures Apply(d, Committing(t) + rest) == Apply(CommittedDisk(At(d), t), rest)
  {
    hide Header;
    ApplyConcat(d, Loading(t), [CommittedHeader(t)]);
    ApplyConcat(d, Committing(t), rest);
  }

  lemma ApplyingSafe(d: Disk, base: Contents, stale: Option<Txn>, tb: nat, a: Attempt, j: nat)
    requires Between(At(d), base, stale, tb) && a.Valid() && !a.Failed?
    requires |a.txn.data| + 2 <= j <= |Writes(a, tb)| && j <= 2 * |a.txn.data| + 2
    ensures Recovered(Apply(d, Writes(a, tb)[..j]), tb) == ApplyTxn(base, a.txn, tb)
  {
    hide Judge, Header, Recovered, Writes, Between, CommittedDisk, Loaded, ApplyTxn;
    BetweenFacts(At(d), base, stale, tb);
    var t, i := a.txn, j - (|a.txn.data| + 2);
    var c, ws := CommittedDisk(At(d), t), TargetWrites(t, tb)[..i];
    WritesApplying(a, tb, j);
    CommittingDisk(d, t, ws);
    CommitDisks(At(d), base, stale, tb, t);
    PrefixIsCrash(c, ws, i);
    assert ws[..i] == ws;
    WhileApplying(c, t, tb, ws, Apply(c, ws));
  }

  /** After the committed header come the targets. */
  lemma WritesApplying(a: Attempt, tb: nat, j: nat)
    requires a.Valid() && !a.Failed? && tb <= BLOCK_SIZE
    requires |a.txn.data| + 2 <= j <= |Writes(a, tb)| && j <= 2 * |a.txn.data| + 2
    ensures Writes(a, tb)[..j] == Committing(a.txn) + TargetWrites(a.txn, tb)[..j - (|a.txn.data| + 2)]
  {
    hide Header;
  }

  /** A successful clear leaves a harmless header. */
  lemma ClearedBetween(d: Disk, base: Contents, stale: Option<Txn>, tb: nat, super: seq<Write>)
    requires Between(At(d), base, stale, tb)
    requires forall w :: w in super ==> w.Slot? && w.idx == SLOT_SUPER
    ensures Between(At(Apply(d, [ClearHeader()] + super)), base, None, tb)
  {
    hide Judge;
    JudgeZero();
    ApplyConcat(d, [ClearHeader()], super);
    ApplyOne(d, ClearHeader());
    var c := Apply1(d, ClearHeader());
    PrefixIsCrash(c, super, |super|);
    assert super[..|super|] == super;
    HarmlessKeepData(c, super, Apply(c, super));
  }

  /** Writes that only extend what is between attempts may as well have been persisted, if they spare the header. */
  lemma PersistedBetween(d: Disk, base: Contents, stale: Option<Txn>, tb: nat, ws: seq<Write>)
    requires Between(Device(d, ws), base, stale, tb)
    requires forall w :: w in ws ==> w.Slot? && w.idx != SLOT_HDR
    ensures Between(At(Apply(d, ws)), base, stale, tb)
  {
    hide Judge;
    PrefixIsCrash(d, ws, |ws|);
    assert ws[..|ws|] == ws;
    var r := Apply(d, ws);
    HarmlessKeepData(d, ws, r);
    assert r.slots[SLOT_HDR] == d.slots[SLOT_HDR];
    if stale.Some? {
      var t := stale.value;
      forall i | 0 <= i < |t.data| && Visible(t, i)
        ensures r.slots[SLOT_DATA0 + i][..tb] == t.data[i][..tb]
      {
        var k := SLOT_DATA0 + i;
        if r.slots[k] != d.slots[k] {
          assert KeepsSlots(t, Slot(k, r.slots[k]), tb);
        }
      }
    }
  }

  lemma TailBetween(d: Disk, base: Contents, stale: Option<Txn>, tb: nat, a: Attempt, j: nat)
    requires Between(At(d), base, stale, tb) && a.Done? && j <= |Tail(a)|
    ensures Between(At(Apply(d, Tail(a)[..j])), base, if a.cleared && j > 0 then None else stale, tb)
  {
    hide Judge;
    if a.cleared && j > 0 {
      var super := Tail(a)[1..j];
      assert Tail(a)[..j] == [ClearHeader()] + super;
      ClearedBetween(d, base, stale, tb, super);
    } else {
      BetweenTail(At(d), base, stale, tb, a, j);
      assert [] + Tail(a)[..j] == Tail(a)[..j];
      PersistedBetween(d, base, stale, tb, Tail(a)[..j]);
    }
  }

  lemma AppliedBetween(d: Disk, base: Contents, stale: Option<Txn>, tb: nat, a: Attempt, j: nat)
    requires Between(At(d), base, stale, tb) && a.Valid() && a.Done?
    requires 2 * |a.txn.data| + 2 <= j <= |Writes(a, tb)|
    ensures Between(At(Apply(d, Writes(a, tb)[..j])), ApplyTxn(base, a.txn, tb),
                    if a.cleared && j > 2 * |a.txn.data| + 2 then None else StaleAfter(stale, a), tb)
  {
    hide Judge, Header;
    var t, i := a.txn, j - (2 * |a.txn.data| + 2);
    var rest := TargetWrites(t, tb) + Tail(a)[..i];
    assert Writes(a, tb)[..j] == Committing(t) + rest;
    CommittingDisk(d, t, rest);
    ApplyConcat(CommittedDisk(At(d), t), TargetWrites(t, tb), Tail(a)[..i]);
    BetweenApplied(At(d), base, stale, tb, t);
    TailBetween(AppliedDisk(At(d), t, tb), ApplyTxn(base, t, tb), StaleAfter(stale, a), tb, a, i);
  }

  /** After any prefix of an attempt's writes replay recovers the transaction if its committed header is among them. */
  lemma AttemptOrderedSafe(d: Disk, base: Contents, stale: Option<Txn>, tb: nat, a: Attempt, j: nat)
    requires Between(At(d), base, stale, tb) && a.Valid() && Compatible(stale, a, tb)
    requires j <= |Writes(a, tb)|
    ensures Recovered(Apply(d, Writes(a, tb)[..j]), tb) ==
            if j >= |a.txn.data| + 2 then ApplyTxn(base, a.txn, tb) else base
  {
    hide Judge, Header, Recovered;
    var n := |a.txn.data|;
    if j <= n + 1 {
      LoadingSafe(d, base, stale, tb, a, j);
    } else if j <= 2 * n + 2 {
      ApplyingSafe(d, base, stale, tb, a, j);
    } else {
      var disk := Apply(d, Writes(a, tb)[..j]);
      AppliedBetween(d, base, stale, tb, a, j);
      PrefixIsCrash(disk, [], 0);
      BetweenRecovers(At(disk), ApplyTxn(base, a.txn, tb), if a.cleared then None else StaleAfter(stale, a), tb, disk);
    }
  }

  lemma FailedOrderedBetween(d: Disk, base: Contents, stale: Option<Txn>, tb: nat, a: Attempt)
    requires Between(At(d), base, stale, tb) && a.Valid() && a.Failed? && Compatible(stale, a, tb)
    ensures Between(At(Apply(d, Writes(a, tb))), base, StaleAfter(stale, a), tb)
  {
    hide Judge, Header;
    var t := a.txn;
    if a.at <= |t.data| {
      var ws := Loading(t)[..a.at];
      BetweenLoading(At(d), base, stale, tb, a, a.at);
      assert [] + ws == ws;
      PersistedBetween(d, base, stale, tb, ws);
    } else {
      assert Loading(t)[..a.at] == Loading(t);
      CommittingDisk(d, t, []);
      BetweenPending(At(d), base, stale, tb, t);
    }
  }

  lemma AttemptOrderedBetween(d: Disk, base: Contents, stale: Option<Txn>, tb: nat, a: Attempt)
    requires Between(At(d), base, stale, tb) && a.Valid() && !a.Panicked? && Compatible(stale, a, tb)
    ensures Between(At(Apply(d, Writes(a, tb))), After(base, a, tb), OrderedStaleAfter(stale, a), tb)
  {
    hide Judge, Header;
    if a.Failed? {
      FailedOrderedBetween(d, base, stale, tb, a);
    } else {
      var ws := Writes(a, tb);
      AppliedBetween(d, base, stale, tb, a, |ws|);
      assert ws[..|ws|] == ws;
    }
  }

  // ----- A run of attempts -----

  function RunWrites(run: seq<Attempt>, tb: nat): seq<Write>
    requires ValidRun(run) && tb <= BLOCK_SIZE
    decreases |run|
  {
    if |run| == 0 then [] else RunWrites(run[..|run| - 1], tb) + Writes(run[|run| - 1], tb)
  }

  /** The transactions whose committed header is among the first j writes of the run. */
  function Reached(run: seq<Attempt>, tb: nat, j: nat): (ts: seq<Txn>)
    requires ValidRun(run) && tb <= BLOCK_SIZE
    ensures forall i :: 0 <= i < |ts| ==> ts[i].Valid()
    decreases |run|
  {
    if |run| == 0 then []
    else
      var before, a := run[..|run| - 1], run[|run| - 1];
      var m := |RunWrites(before, tb)|;
      if j <= m then Reached(before, tb, j)
      else Reached(before, tb, m) + if !a.Failed? && j - m >= |a.txn.data| + 2 then [a.txn] else []
  }

  function ApplyAll(base: Contents, ts: seq<Txn>, tb: nat): Contents
    requires tb <= BLOCK_SIZE && forall i :: 0 <= i < |ts| ==> ts[i].Valid()
    decreases |ts|
  {
    if |ts| == 0 then base else ApplyTxn(ApplyAll(base, ts[..|ts| - 1], tb), ts[|ts| - 1], tb)
  }

  lemma {:induction false} ApplyAllConcat(base: Contents, a: seq<Txn>, b: seq<Txn>, tb: nat)
    requires tb <= BLOCK_SIZE
    requires (forall i :: 0 <= i < |a| ==> a[i].Valid()) && (forall i :: 0 <= i < |b| ==> b[i].Valid())
    ensures ApplyAll(base, a + b, tb) == ApplyAll(ApplyAll(base, a, tb), b, tb)
    decreases |b|
  {
    if |b| == 0 {
      assert a + b == a;
    } else {
      assert (a + b)[..|a + b| - 1] == a + b[..|b| - 1];
      ApplyAllConcat(base, a, b[..|b| - 1], tb);
    }
  }

  function OrderedStale(stale: Option<Txn>, run: seq<Attempt>): (s: Option<Txn>)
    requires ValidRun(run) && (stale.Some? ==> stale.value.Valid())
    ensures s.Some? ==> s.value.Valid()
    decreases |run|
  {
    if |run| == 0 then stale else OrderedStaleAfter(OrderedStale(stale, run[..|run| - 1]), run[|run| - 1])
  }

  /** No attempt disturbs the slots of a transaction whose committed header a failed clear has left behind. */
  ghost predicate OrderedUndisturbed(stale: Option<Txn>, run: seq<Attempt>, tb: nat)
    requires ValidRun(run) && tb <= BLOCK_SIZE && (stale.Some? ==> stale.value.Valid())
  {
    forall i :: 0 <= i < |run| ==> Compatible(OrderedStale(stale, run[..i]), run[i], tb)
  }

  /** If every clear succeeds, nothing is ever disturbed. */
  lemma {:induction false} ClearsSucceed(run: seq<Attempt>, tb: nat)
    requires ValidRun(run) && tb <= BLOCK_SIZE
    requires forall i :: 0 <= i < |run| && run[i].Done? ==> run[i].cleared
    ensures OrderedUndisturbed(None, run, tb)
    ensures (|run| == 0 || !run[|run| - 1].Panicked?) ==> OrderedStale(None, run) == None
    decreases |run|
  {
    if |run| > 0 {
      var before := run[..|run| - 1];
      ClearsSucceed(before, tb);
      forall i | 0 <= i < |run|
        ensures Compatible(OrderedStale(None, run[..i]), run[i], tb)
      {
        if i < |before| {
          assert before[..i] == run[..i] && before[i] == run[i];
          assert Compatible(OrderedStale(None, before[..i]), before[i], tb);
        } else {
          assert run[..i] == before;
        }
      }
    }
  }

  /** Recovery after j writes of the run, started on disk d worth base. */
  ghost predicate PrefixRecovers(d: Disk, base: Contents, run: seq<Attempt>, tb: nat, j: nat)
    requires ValidRun(run) && tb <= BLOCK_SIZE && d.Valid() && j <= |RunWrites(run, tb)|
  {
    Recovered(Apply(d, RunWrites(run, tb)[..j]), tb) == ApplyAll(base, Reached(run, tb, j), tb)
  }

  lemma {:induction false} OrderedRunBetween(d: Disk, base: Contents, stale: Option<Txn>, run: seq<Attempt>, tb: nat)
    requires Between(At(d), base, stale, tb) && ValidRun(run)
    requires OrderedUndisturbed(stale, run, tb)
    requires |run| == 0 || !run[|run| - 1].Panicked?
    ensures Between(At(Apply(d, RunWrites(run, tb))),
                    ApplyAll(base, Reached(run, tb, |RunWrites(run, tb)|), tb), OrderedStale(stale, run), tb)
    decreases |run|
  {
    hide Judge, Header, Compatible, Recovered, Writes;
    if |run| > 0 {
      var before, a := run[..|run| - 1], run[|run| - 1];
      UndisturbedPrefix(stale, run, tb, |run| - 1);
      OrderedRunBetween(d, base, stale, before, tb);
      ReachedLast(run, before, a, base, tb);
      ApplyConcat(d, RunWrites(before, tb), Writes(a, tb));
      assert run[..|run| - 1] == before;
      AttemptOrderedBetween(Apply(d, RunWrites(before, tb)), ApplyAll(base, Reached(before, tb, |RunWrites(before, tb)|), tb),
                            OrderedStale(stale, before), tb, a);
    }
  }

  lemma ApplyAllSnoc(base: Contents, ts: seq<Txn>, t: Txn, tb: nat)
    requires tb <= BLOCK_SIZE && t.Valid() && forall i :: 0 <= i < |ts| ==> ts[i].Valid()
    ensures ApplyAll(base, ts + [t], tb) == ApplyTxn(ApplyAll(base, ts, tb), t, tb)
  {
    assert (ts + [t])[..|ts|] == ts;
  }

  /** How many writes an attempt makes. */
  lemma WriteCount(a: Attempt, tb: nat)
    requires a.Valid() && tb <= BLOCK_SIZE
    ensures a.Failed? ==> |Writes(a, tb)| == a.at
    ensures a.Done? ==> |Writes(a, tb)| >= |a.txn.data| + 2
  {
    hide Header;
  }

  /** What the last attempt of a run adds. */
  lemma ReachedLast(run: seq<Attempt>, before: seq<Attempt>, a: Attempt, base: Contents, tb: nat)
    requires ValidRun(run) && tb <= BLOCK_SIZE && |run| > 0
    requires ValidRun(before) && before == run[..|run| - 1] && a == run[|run| - 1] && a.Valid() && !a.Panicked?
    ensures ApplyAll(base, Reached(run, tb, |RunWrites(run, tb)|), tb)
            == After(ApplyAll(base, Reached(before, tb, |RunWrites(before, tb)|), tb), a, tb)
  {
    hide Writes, ApplyTxn, ApplyAll;
    var m := |RunWrites(before, tb)|;
    var ts := Reached(before, tb, m);
    WriteCount(a, tb);
    assert |RunWrites(run, tb)| == m + |Writes(a, tb)|;
    if a.Done? {
      ApplyAllSnoc(base, ts, a.txn, tb);
    } else {
      assert ts + [] == ts;
    }
  }

  lemma UndisturbedPrefix(stale: Option<Txn>, run: seq<Attempt>, tb: nat, n: nat)
    requires ValidRun(run) && tb <= BLOCK_SIZE && (stale.Some? ==> stale.value.Valid()) && n <= |run|
    requires OrderedUndisturbed(stale, run, tb)
    ensures OrderedUndisturbed(stale, run[..n], tb)
  {
    hide Compatible, OrderedStale;
    forall i | 0 <= i < n
      ensures Compatible(OrderedStale(stale, run[..n][..i]), run[..n][i], tb)
    {
      assert run[..n][..i] == run[..i] && run[..n][i] == run[i];
    }
  }

  lemma PrefixInLast(d: Disk, base: Contents, stale: Option<Txn>, run: seq<Attempt>, tb: nat, j: nat)
    requires Between(At(d), base, stale, tb) && ValidRun(run) && |run| > 0
    requires OrderedUndisturbed(stale, run, tb)
    requires |RunWrites(run[..|run| - 1], tb)| < j <= |RunWrites(run, tb)|
    ensures PrefixRecovers(d, base, run, tb, j)
  {
    hide Judge, Header, Compatible, Recovered, Writes, ApplyTxn, ApplyAll, OrderedStale;
    var before, a := run[..|run| - 1], run[|run| - 1];
    var ws, i := RunWrites(before, tb), j - |RunWrites(before, tb)|;
    UndisturbedPrefix(stale, run, tb, |run| - 1);
    OrderedRunBetween(d, base, stale, before, tb);
    assert RunWrites(run, tb) == ws + Writes(a, tb);
    assert RunWrites(run, tb)[..j] == ws + Writes(a, tb)[..i];
    ApplyConcat(d, ws, Writes(a, tb)[..i]);
    var ts := Reached(before, tb, |ws|);
    AttemptOrderedSafe(Apply(d, ws), ApplyAll(base, ts, tb), OrderedStale(stale, before), tb, a, i);
    WriteCount(a, tb);
    if a.Failed? || i < |a.txn.data| + 2 {
      assert ts + [] == ts;
    } else {
      ApplyAllSnoc(base, ts, a.txn, tb);
    }
  }

  /** A run that disturbs nothing recovers, after any prefix of its writes, exactly the transactions that reached the disk. */
  lemma {:induction false} OrderedRunSafe(d: Disk, base: Contents, stale: Option<Txn>, run: seq<Attempt>, tb: nat,
      j: nat)
    requires Between(At(d), base, stale, tb) && ValidRun(run)
    requires OrderedUndisturbed(stale, run, tb)
    requires j <= |RunWrites(run, tb)|
    ensures PrefixRecovers(d, base, run, tb, j)
    decreases |run|
  {
    hide Judge, Header, Compatible, Recovered, Between, Writes, OrderedUndisturbed, OrderedStale;
    BetweenFacts(At(d), base, stale, tb);
    if |run| == 0 {
      PrefixIsCrash(d, [], 0);
      BetweenRecovers(At(d), base, stale, tb, d);
    } else {
      var before := run[..|run| - 1];
      if j <= |RunWrites(before, tb)| {
        UndisturbedPrefix(stale, run, tb, |run| - 1);
        OrderedRunSafe(d, base, stale, before, tb, j);
        assert RunWrites(run, tb)[..j] == RunWrites(before, tb)[..j];
      } else {
        PrefixInLast(d, base, stale, run, tb, j);
      }
    }
  }

  // ----- Disturbing a slot is fatal here, too -----

  /** Right after the disturbing block has been written, replay spoils what was there. */
  lemma DisturbingPrefix(d: Disk, base: Contents, stale: Txn, tb: nat, a: Attempt, i: nat)
    requires Between(At(d), base, Some(stale), tb) && a.Valid()
    requires i < a.DataCount() && Visible(stale, i) && a.txn.data[i][..tb] != stale.data[i][..tb]
    ensures i + 1 <= |Writes(a, tb)| && Recovered(Apply(d, Writes(a, tb)[..i + 1]), tb) != base
  {
    hide Judge, Header, Recovered, Writes;
    var ws := DataWrites(a.txn)[..i + 1];
    WritesStart(a, tb, i + 1);
    ApplyDataWrites(d, a.txn, i + 1);
    DisturbedReplay(Apply(d, ws), stale, tb, i);
  }

  /** An attempt begins with its data blocks. */
  lemma WritesStart(a: Attempt, tb: nat, m: nat)
    requires a.Valid() && tb <= BLOCK_SIZE && m <= a.DataCount()
    ensures m <= |Writes(a, tb)| && m <= |DataWrites(a.txn)| && Writes(a, tb)[..m] == DataWrites(a.txn)[..m]
  {
    hide Header;
  }

  lemma OrderedDisturbed(
    d: Disk, base: Contents, stale: Option<Txn>, run: seq<Attempt>, before: seq<Attempt>, a: Attempt, tb: nat)
    returns (j: nat)
    requires Between(At(d), base, stale, tb) && ValidRun(run) && |run| > 0
    requires ValidRun(before) && before == run[..|run| - 1] && a == run[|run| - 1] && a.Valid()
    requires |before| == 0 || !before[|before| - 1].Panicked?
    requires OrderedUndisturbed(stale, before, tb)
    requires !Compatible(OrderedStale(stale, before), a, tb)
    ensures j <= |RunWrites(run, tb)| && !PrefixRecovers(d, base, run, tb, j)
  {
    hide Judge, Header, Recovered, ApplyAll, OrderedStale, Writes, Compatible, Visible, RunWrites, Reached, Between,
      OrderedUndisturbed, Apply;
    BetweenFacts(At(d), base, stale, tb);
    OrderedRunBetween(d, base, stale, before, tb);
    var ws := RunWrites(before, tb);
    var ts := Reached(before, tb, |ws|);
    var i := DisturbedSlot(OrderedStale(stale, before), a, tb);
    DisturbingPrefix(Apply(d, ws), ApplyAll(base, ts, tb), OrderedStale(stale, before).value, tb, a, i);
    j := |ws| + i + 1;
    RunWritesInto(run, tb, i + 1);
    ApplyConcat(d, ws, Writes(a, tb)[..i + 1]);
  }

  /** The first m data blocks of the last attempt, after everything before it. */
  lemma RunWritesInto(run: seq<Attempt>, tb: nat, m: nat)
    requires ValidRun(run) && |run| > 0 && tb <= BLOCK_SIZE && m <= run[|run| - 1].DataCount()
    ensures var before, a := run[..|run| - 1], run[|run| - 1];
            var k := |RunWrites(before, tb)|;
            && m <= |Writes(a, tb)| && k + m <= |RunWrites(run, tb)|
            && RunWrites(run, tb)[..k + m] == RunWrites(before, tb) + Writes(a, tb)[..m]
            && Reached(run, tb, k + m) == Reached(before, tb, k)
  {
    hide Writes, Header;
    var before, a := run[..|run| - 1], run[|run| - 1];
    WritesStart(a, tb, m);
    var ts := Reached(before, tb, |RunWrites(before, tb)|);
    assert ts + [] == ts;
  }

  /** The first writes of a run do not depend on the attempts after them. */
  lemma {:induction false} RunPrefixAgrees(run: seq<Attempt>, tb: nat, n: nat, j: nat)
    requires ValidRun(run) && tb <= BLOCK_SIZE && n <= |run| && j <= |RunWrites(run[..n], tb)|
    ensures j <= |RunWrites(run, tb)| && RunWrites(run, tb)[..j] == RunWrites(run[..n], tb)[..j]
    ensures Reached(run, tb, j) == Reached(run[..n], tb, j)
    decreases |run|
  {
    hide Writes;
    if n < |run| {
      var before := run[..|run| - 1];
      assert before[..n] == run[..n];
      RunPrefixAgrees(before, tb, n, j);
    } else {
      assert run[..n] == run;
    }
  }

  lemma FirstOrderedDisturbed(stale: Option<Txn>, run: seq<Attempt>, tb: nat) returns (n: nat)
    requires ValidRun(run) && tb <= BLOCK_SIZE && (stale.Some? ==> stale.value.Valid())
    requires !OrderedUndisturbed(stale, run, tb)
    ensures n < |run| && !Compatible(OrderedStale(stale, run[..n]), run[n], tb)
    ensures OrderedUndisturbed(stale, run[..n], tb)
  {
    hide Compatible, OrderedStale;
    n := 0;
    while Compatible(OrderedStale(stale, run[..n]), run[n], tb)
      invariant n < |run|
      invariant forall i :: 0 <= i < n ==> Compatible(OrderedStale(stale, run[..i]), run[i], tb)
      decreases |run| - n
    {
      n := n + 1;
    }
    forall i | 0 <= i < n
      ensures Compatible(OrderedStale(stale, run[..n][..i]), run[..n][i], tb)
    {
      assert run[..n][..i] == run[..i] && run[..n][i] == run[i];
    }
  }

  /** Every prefix of the run's writes recovers exactly the transactions that reached the disk. */
  ghost predicate OrderedSafe(d: Disk, base: Contents, run: seq<Attempt>, tb: nat)
    requires ValidRun(run) && tb <= BLOCK_SIZE && d.Valid()
  {
    forall j :: 0 <= j <= |RunWrites(run, tb)| ==> PrefixRecovers(d, base, run, tb, j)
  }

  /** On an ordered device a run is safe if and only if no attempt disturbs the slots of a header left by a failed clear. */
  lemma OrderedSafeIffUndisturbed(d: Disk, base: Contents, stale: Option<Txn>, run: seq<Attempt>, tb: nat)
    requires Between(At(d), base, stale, tb) && ValidRun(run)
    ensures OrderedSafe(d, base, run, tb) <==> OrderedUndisturbed(stale, run, tb)
  {
    hide Judge, Compatible, OrderedStale, RunWrites, Reached;
    if OrderedUndisturbed(stale, run, tb) {
      forall j | 0 <= j <= |RunWrites(run, tb)|
        ensures PrefixRecovers(d, base, run, tb, j)
      {
        OrderedRunSafe(d, base, stale, run, tb, j);
      }
    } else {
      var n := FirstOrderedDisturbed(stale, run, tb);
      assert run[..n + 1][..n] == run[..n];
      var j := OrderedDisturbed(d, base, stale, run[..n + 1], run[..n], run[n], tb);
      RunPrefixAgrees(run, tb, n + 1, j);
      assert !PrefixRecovers(d, base, run, tb, j);
    }
  }

  // ----- Replay -----

  /** The transaction that a disk's header asks to replay. */
  function HeaderTxn(d: Disk, ts: seq<U32>): (t: Txn)
    requires d.Valid() && |ts| <= MAX_PER_TXN
    ensures t.Valid()
  {
    Txn(0, ts, d.slots[SLOT_DATA0..SLOT_DATA0 + |ts|])
  }

  function IssuesFor(d: Disk, verdict: Verdict, cleared: bool, tb: nat): seq<Write>
    requires d.Valid() && tb <= BLOCK_SIZE && (verdict.Redo? ==> |verdict.targets| <= MAX_PER_TXN)
  {
    var clear := if cleared then [ClearHeader()] else [];
    match verdict
    case Ignore => []
    case Discard => clear
    case Redo(ts) => TargetWrites(HeaderTxn(d, ts), tb) + clear
  }

  /** The writes of a replay that meets no read or target error; its clear may fail unnoticed. */
  function ReplayIssues(d: Disk, cleared: bool, tb: nat): seq<Write>
    requires d.Valid() && tb <= BLOCK_SIZE
  {
    IssuesFor(d, Judge(d.slots[SLOT_HDR]), cleared, tb)
  }

  function ReplayStale(d: Disk, cleared: bool): (s: Option<Txn>)
    requires d.Valid()
    ensures s.Some? ==> s.value.Valid()
  {
    if Judge(d.slots[SLOT_HDR]).Redo? && !cleared then Some(HeaderTxn(d, Judge(d.slots[SLOT_HDR]).targets)) else None
  }

  lemma HeaderTxnRecovers(d: Disk, ts: seq<U32>, tb: nat)
    requires d.Valid() && tb <= BLOCK_SIZE && Judge(d.slots[SLOT_HDR]) == Redo(ts)
    ensures Recovered(d, tb) == ApplyTxn(d.data, HeaderTxn(d, ts), tb)
  {
    hide Judge;
    RecoveredRedo(d, ts, tb);
    WriteTargetsSame(d.data, d.data, ts, d.slots[SLOT_DATA0..], HeaderTxn(d, ts).data, tb);
  }

  /** Redoing k of the targets leaves the disk worth the same. */
  lemma RedoPrefix(d: Disk, ts: seq<U32>, tb: nat, k: nat)
    requires d.Valid() && tb <= BLOCK_SIZE && Judge(d.slots[SLOT_HDR]) == Redo(ts) && k <= |ts| <= MAX_PER_TXN
    ensures Recovered(Apply(d, TargetWrites(HeaderTxn(d, ts), tb)[..k]), tb) == Recovered(d, tb)
  {
    hide Judge, Recovered;
    var t := HeaderTxn(d, ts);
    ApplyTargetWrites(d, t, tb, k);
    var r := Apply(d, TargetWrites(t, tb)[..k]);
    RecoveredRedo(d, ts, tb);
    RecoveredRedo(r, ts, tb);
    RewriteSame(d.data, ts, t.data, d.slots[SLOT_DATA0..], tb, k);
  }

  lemma RewriteSame(data: Contents, ts: seq<U32>, x: seq<Block>, y: seq<Block>, tb: nat, k: nat)
    requires |x| >= |ts| && |y| >= |ts| && tb <= BLOCK_SIZE && k <= |ts|
    ensures WriteTargets(WriteTargets(data, ts[..k], x, tb), ts, y, tb) == WriteTargets(data, ts, y, tb)
  {
    var r := WriteTargets(data, ts[..k], x, tb);
    forall b: U32 | b !in ts
      ensures SameAt(r, data, b)
    {
      WriteTargetsAt(data, ts[..k], x, tb, b);
    }
    WriteTargetsSame(r, data, ts, y, y, tb);
  }

  lemma RedoneBetween(d: Disk, ts: seq<U32>, tb: nat)
    requires d.Valid() && tb <= BLOCK_SIZE && Judge(d.slots[SLOT_HDR]) == Redo(ts)
    ensures var t := HeaderTxn(d, ts);
            Between(At(Apply(d, TargetWrites(t, tb))), Recovered(d, tb), Some(t), tb)
  {
    hide Judge, Recovered, Apply, ApplyTxn, Settled;
    var t := HeaderTxn(d, ts);
    RedoneDisk(d, ts, tb);
    HeaderTxnRecovers(d, ts, tb);
    SettledAfter(d.data, t, tb);
  }

  /** The disk once every target has been written again. */
  lemma RedoneDisk(d: Disk, ts: seq<U32>, tb: nat)
    requires d.Valid() && tb <= BLOCK_SIZE && |ts| <= MAX_PER_TXN
    ensures var t := HeaderTxn(d, ts);
            Apply(d, TargetWrites(t, tb)) == Disk(d.slots, ApplyTxn(d.data, t, tb))
  {
    var t := HeaderTxn(d, ts);
    ApplyTargetWrites(d, t, tb, |ts|);
    assert TargetWrites(t, tb)[..|ts|] == TargetWrites(t, tb) && ts[..|ts|] == ts;
  }

  /** After a complete replay the journal is between attempts, and the contents are what the disk was worth. */
  lemma ReplayBetween(d: Disk, cleared: bool, tb: nat)
    requires d.Valid() && tb <= BLOCK_SIZE
    ensures Between(At(Apply(d, ReplayIssues(d, cleared, tb))), Recovered(d, tb), ReplayStale(d, cleared), tb)
  {
    hide Judge;
    match Judge(d.slots[SLOT_HDR])
    case Ignore =>
    case Discard =>
      if cleared {
        ClearedBetween(d, d.data, None, tb, []);
        assert [ClearHeader()] + [] == [ClearHeader()];
      }
    case Redo(ts) =>
      var t := HeaderTxn(d, ts);
      RedoneBetween(d, ts, tb);
      if cleared {
        ApplyConcat(d, TargetWrites(t, tb), [ClearHeader()]);
        ClearedBetween(Apply(d, TargetWrites(t, tb)), Recovered(d, tb), Some(t), tb, []);
        assert [ClearHeader()] + [] == [ClearHeader()];
      } else {
        assert TargetWrites(t, tb) + [] == TargetWrites(t, tb);
      }
  }

  /** A replay cut short leaves the disk worth the same. */
  lemma ReplayCutSafe(d: Disk, cleared: bool, tb: nat, j: nat)
    requires d.Valid() && tb <= BLOCK_SIZE && j <= |ReplayIssues(d, cleared, tb)|
    ensures Recovered(Apply(d, ReplayIssues(d, cleared, tb)[..j]), tb) == Recovered(d, tb)
  {
    hide Judge;
    var ws := ReplayIssues(d, cleared, tb);
    if j == |ws| {
      assert ws[..j] == ws;
      ReplayBetween(d, cleared, tb);
      PrefixIsCrash(Apply(d, ws), [], 0);
      BetweenRecovers(At(Apply(d, ws)), Recovered(d, tb), ReplayStale(d, cleared), tb, Apply(d, ws));
    } else if Judge(d.slots[SLOT_HDR]).Redo? {
      var ts := Judge(d.slots[SLOT_HDR]).targets;
      assert ws[..j] == TargetWrites(HeaderTxn(d, ts), tb)[..j];
      RedoPrefix(d, ts, tb, j);
    } else {
      assert ws[..j] == [];
    }
  }
}
