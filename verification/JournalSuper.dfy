/**
 * The journal's superblock in slot 0 (include/kernel/journal.h:14-20). journal_init formats the journal, and loses what is
 * in it, if the magic or the version is not there (src/kernel/fs/journal.c:107-118).
 */
module JournalSuper {
  import opened Options
  import opened Words
  import opened JournalFormat
  import opened JournalDisk
  import opened JournalCrash
  import opened JournalRuns
  import opened JournalOrdered
  import opened JournalBoots

  const VERSION: nat := 1

  /** What journal_init looks for. */
  predicate SuperOk(b: Block) {
    GetU32(b, 0) == MAGIC && GetU32(b, 4) == VERSION
  }

  /** The superblock with another next transaction id. */
  function WithNext(sb: Block, next: U32): Block {
    Splice(sb, 12, PutU32(next))
  }

  /** It has this id, and all else is as it was. */
  lemma WithNextReads(sb: Block, next: U32)
    ensures var b := WithNext(sb, next);
            && GetU32(b, 12) == next && (forall i :: 0 <= i < BLOCK_SIZE && !(12 <= i < 16) ==> b[i] == sb[i])
            && GetU32(b, 0) == GetU32(sb, 0) && GetU32(b, 4) == GetU32(sb, 4) && GetU32(b, 8) == GetU32(sb, 8)
  {
    var b := WithNext(sb, next);
    assert b[12..16] == PutU32(next);
    U32At(b, 12, next);
    SameWord(b, sb, 0);
    SameWord(b, sb, 4);
    SameWord(b, sb, 8);
  }

  lemma SameWord(a: seq<byte>, b: seq<byte>, off: nat)
    requires off + 4 <= |a| && off + 4 <= |b| && a[off] == b[off] && a[off + 1] == b[off + 1]
    requires a[off + 2] == b[off + 2] && a[off + 3] == b[off + 3]
    ensures GetU32(a, off) == GetU32(b, off)
  {
  }

  /** The superblock of a journal just formatted. */
  function FreshSuper(): Block {
    PutU32(MAGIC) + PutU32(VERSION) + PutU32(DEFAULT_BLOCKS) + PutU32(1) + Zeros(BLOCK_SIZE - 16)
  }

  lemma FreshSuperReads()
    ensures SuperOk(FreshSuper()) && GetU32(FreshSuper(), 8) == 32 && GetU32(FreshSuper(), 12) == 1
    ensures forall i :: 16 <= i < BLOCK_SIZE ==> FreshSuper()[i] == 0
  {
    hide PutU32, GetU32;
    var b := FreshSuper();
    assert b[0..4] == PutU32(MAGIC) && b[4..8] == PutU32(VERSION) && b[8..12] == PutU32(DEFAULT_BLOCKS) && b[12..16] == PutU32(1);
    U32At(b, 0, MAGIC);
    U32At(b, 4, VERSION);
    U32At(b, 8, DEFAULT_BLOCKS);
    U32At(b, 12, 1);
  }

  // ----- Every write keeps it -----

  /** A write that leaves slot 0 alone or puts a superblock there. */
  predicate KeepsSuper(w: Write) {
    w.Slot? && w.idx == SLOT_SUPER ==> SuperOk(w.block)
  }

  predicate AllKeepSuper(ws: seq<Write>) {
    forall i :: 0 <= i < |ws| ==> KeepsSuper(ws[i])
  }

  lemma {:induction false} ApplyKeepsSuper(d: Disk, ws: seq<Write>)
    requires d.Valid() && SuperOk(d.slots[SLOT_SUPER]) && AllKeepSuper(ws)
    ensures Apply(d, ws).Valid() && SuperOk(Apply(d, ws).slots[SLOT_SUPER])
    decreases |ws|
  {
    hide SuperOk;
    if |ws| > 0 {
      ApplyKeepsSuper(d, ws[..|ws| - 1]);
      assert KeepsSuper(ws[|ws| - 1]);
    }
  }

  /** An attempt that stores a superblock, if it gets that far. */
  predicate StoresSuper(a: Attempt) {
    a.Done? ==> forall i :: 0 <= i < |a.super| ==> SuperOk(a.super[i])
  }

  lemma AttemptKeepsSuper(a: Attempt, tb: nat)
    requires a.Valid() && tb <= BLOCK_SIZE && StoresSuper(a)
    ensures AllKeepSuper(Writes(a, tb))
  {
    hide Header, SuperOk;
  }

  lemma KeepConcat(a: seq<Write>, b: seq<Write>)
    requires AllKeepSuper(a) && AllKeepSuper(b)
    ensures AllKeepSuper(a + b)
  {
    hide KeepsSuper;
  }

  lemma KeepPrefix(a: seq<Write>, n: nat)
    requires AllKeepSuper(a) && n <= |a|
    ensures AllKeepSuper(a[..n])
  {
    hide KeepsSuper;
  }

  predicate RunStoresSuper(run: seq<Attempt>) {
    forall i :: 0 <= i < |run| ==> StoresSuper(run[i])
  }

  lemma {:induction false} RunKeepsSuper(run: seq<Attempt>, tb: nat)
    requires ValidRun(run) && tb <= BLOCK_SIZE && RunStoresSuper(run)
    ensures AllKeepSuper(RunWrites(run, tb))
    decreases |run|
  {
    hide AllKeepSuper, Writes, StoresSuper;
    if |run| > 0 {
      RunKeepsSuper(run[..|run| - 1], tb);
      AttemptKeepsSuper(run[|run| - 1], tb);
      KeepConcat(RunWrites(run[..|run| - 1], tb), Writes(run[|run| - 1], tb));
    } else {
      NoneKeeps();
    }
  }

  lemma NoneKeeps()
    ensures AllKeepSuper([])
  {
  }

  lemma IssuesKeepSuper(d: Disk, b: Boot, tb: nat)
    requires d.Valid() && tb <= BLOCK_SIZE
    ensures AllKeepSuper(BootIssues(d, b, tb))
  {
    hide Judge, SuperOk;
  }

  /** Over any number of boots and crashes the superblock is there, so that no later boot formats the journal. */
  lemma {:induction false} NeverFormatted(d: Disk, bs: seq<Boot>, tb: nat)
    requires ValidBoots(d, bs, tb) && d.Valid() && SuperOk(d.slots[SLOT_SUPER])
    requires forall i :: 0 <= i < |bs| ==> RunStoresSuper(bs[i].run)
    ensures SuperOk(AfterBoots(d, bs, tb).slots[SLOT_SUPER])
    decreases |bs|
  {
    hide SuperOk, AllKeepSuper, RunStoresSuper, RunWrites, BootIssues, RunOk;
    if |bs| > 0 {
      var b := bs[0];
      RunKeepsSuper(b.run, tb);
      IssuesKeepSuper(d, b, tb);
      KeepConcat(BootIssues(d, b, tb), RunWrites(b.run, tb));
      KeepPrefix(BootWrites(d, b, tb), b.persisted);
      ApplyKeepsSuper(d, BootWrites(d, b, tb)[..b.persisted]);
      NeverFormatted(AfterBoot(d, b, tb), bs[1..], tb);
    }
  }
}
