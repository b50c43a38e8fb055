/**
 * That the conditions of the crash-safety theorems can fail: two commits in a row whose blocks differ, and a committed
 * transaction that is not yet in place (src/kernel/fs/journal.c:159-179, 218-292).
 */
module JournalWitness {
  import opened Options
  import opened JournalFormat
  import opened JournalDisk
  import opened JournalCrash
  import opened JournalRuns
  import opened JournalOrdered

  /** A transaction of one block. */
  function Single(id: U32, b: U32, x: Block): (t: Txn)
    ensures t.Valid()
  {
    Txn(id, [b], [x])
  }

  /** Two commits in a row, the first of which did or did not get its header cleared. */
  function Two(b: U32, x: Block, c: U32, y: Block, cleared: bool): (run: seq<Attempt>)
    ensures ValidRun(run)
  {
    [Done(Single(1, b, x), cleared, []), Done(Single(2, c, y), true, [])]
  }

  /** The block of the second commit takes the slot of the first. */
  lemma SecondDisturbs(b: U32, x: Block, c: U32, y: Block, cleared: bool, tb: nat)
    requires tb <= BLOCK_SIZE && x[..tb] != y[..tb]
    ensures !Compatible(Some(Single(1, b, x)), Two(b, x, c, y, cleared)[1], tb)
  {
    var t := Single(1, b, x);
    assert t.targets[..0] == [] && Visible(t, 0);
  }

  /** Two commits of different blocks are not safe on a reordering device, whatever the clean disk they start from. */
  lemma TwoCommitsUnsafe(d: Disk, b: U32, x: Block, c: U32, y: Block, tb: nat)
    requires CleanStart(d) && tb <= BLOCK_SIZE && x[..tb] != y[..tb]
    ensures !RunSafe(d, Two(b, x, c, y, true), tb)
  {
    hide RunSafe, Compatible, Judge, Single;
    var run := Two(b, x, c, y, true);
    RunSafeIffUndisturbed(d, run, tb);
    SecondDisturbs(b, x, c, y, true, tb);
    StaleFirst(b, x, c, y, true);
    assert !Compatible(RunStale(run[..1]), run[1], tb);
  }

  lemma StaleFirst(b: U32, x: Block, c: U32, y: Block, cleared: bool)
    ensures var run := Two(b, x, c, y, cleared);
            && RunStale(run[..1]) == Some(Single(1, b, x))
            && OrderedStale(None, run[..1]) == if cleared then None else Some(Single(1, b, x))
  {
    var run := Two(b, x, c, y, cleared);
    assert run[..1][..0] == [] && run[..1][0] == run[0];
  }

  /** On an ordered device they are unsafe if the first clear failed. */
  lemma FailedClearUnsafe(d: Disk, base: Contents, b: U32, x: Block, c: U32, y: Block, tb: nat)
    requires Between(At(d), base, None, tb) && x[..tb] != y[..tb]
    ensures !OrderedSafe(d, base, Two(b, x, c, y, false), tb)
  {
    hide OrderedSafe, Compatible, Judge, Single, Between;
    BetweenFacts(At(d), base, None, tb);
    var run := Two(b, x, c, y, false);
    OrderedSafeIffUndisturbed(d, base, None, run, tb);
    SecondDisturbs(b, x, c, y, false, tb);
    StaleFirst(b, x, c, y, false);
    assert !Compatible(OrderedStale(None, run[..1]), run[1], tb);
  }

  /** A committed transaction that is not yet in place can be lost by a crash right after its replay. */
  lemma ReplayUnsafe(d: Disk, b: U32, x: Block, tb: nat)
    requires d.Valid() && tb <= BLOCK_SIZE && d.slots[SLOT_HDR] == Header(1, 1, [b]) && d.slots[SLOT_DATA0] == x
    requires b !in d.data || d.data[b] != x[..tb]
    ensures !ReplaySafe(d, tb)
  {
    hide Header, ReplaySafe, Judge;
    JudgeCommitted(1, [b]);
    ReplaySafeIffInPlace(d, tb);
    var w := Target(b, x[..tb]);
    assert RedoWrites(d, [b], tb)[0] == w;
    assert ReplayWrites(d, tb)[0] == w;
    assert w in ReplayWrites(d, tb);
  }
}
