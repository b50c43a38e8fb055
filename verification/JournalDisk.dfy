/**
 * The disk under the journal: writes, flushes, what a crash may leave behind, and what
 * journal_replay makes of it (src/kernel/fs/journal.c).
 */
module JournalDisk {
  import opened Words
  import opened JournalFormat

  const SLOT_SUPER: nat := 0
  const SLOT_HDR: nat := 1
  const SLOT_DATA0: nat := 2

  /** The journal's own blocks, and every block outside the journal that has ever been written. */
  datatype Disk = Disk(slots: seq<Block>, data: map<U32, seq<byte>>) {
    predicate Valid() {
      |slots| == DEFAULT_BLOCKS
    }
  }

  /** One block write. It lands whole or not at all. */
  datatype Write =
    | Slot(idx: nat, block: Block)
    | Target(blk: U32, bytes: seq<byte>)

  datatype Op = Put(w: Write) | Flush

  function Apply1(d: Disk, w: Write): Disk {
    match w
    case Slot(i, b) => if i < |d.slots| then d.(slots := d.slots[i := b]) else d
    case Target(t, bytes) => d.(data := d.data[t := bytes])
  }

  function Apply(d: Disk, ws: seq<Write>): (r: Disk)
    ensures |r.slots| == |d.slots|
    decreases |ws|
  {
    if |ws| == 0 then d else Apply1(Apply(d, ws[..|ws| - 1]), ws[|ws| - 1])
  }

  lemma {:induction false} ApplyConcat(d: Disk, a: seq<Write>, b: seq<Write>)
    ensures Apply(d, a + b) == Apply(Apply(d, a), b)
    decreases |b|
  {
    if |b| == 0 {
      assert a + b == a;
    } else {
      var n := |b| - 1;
      assert (a + b)[..|a + b| - 1] == a + b[..n];
      ApplyConcat(d, a, b[..n]);
    }
  }

  lemma ApplyOne(d: Disk, w: Write)
    ensures Apply(d, [w]) == Apply1(d, w)
  {
    assert [w][..0] == [];
    assert Apply(d, [w][..0]) == d;
  }

  // ----- A device that holds writes back until it is flushed -----

  datatype Device = Device(durable: Disk, pending: seq<Write>) {
    /** What a read sees. */
    function View(): Disk {
      Apply(durable, pending)
    }
  }

  function Run(dev: Device, ops: seq<Op>): Device
    decreases |ops|
  {
    if |ops| == 0 then dev
    else
      var before := Run(dev, ops[..|ops| - 1]);
      match ops[|ops| - 1]
      case Put(w) => Device(before.durable, before.pending + [w])
      case Flush => Device(before.View(), [])
  }

  lemma {:induction false} RunConcat(dev: Device, a: seq<Op>, b: seq<Op>)
    ensures Run(dev, a + b) == Run(Run(dev, a), b)
    decreases |b|
  {
    if |b| == 0 {
      assert a + b == a;
    } else {
      var n := |b| - 1;
      assert (a + b)[..|a + b| - 1] == a + b[..n];
      RunConcat(dev, a, b[..n]);
    }
  }

  function Puts(ws: seq<Write>): (ops: seq<Op>)
    ensures |ops| == |ws|
    ensures forall i :: 0 <= i < |ws| ==> ops[i] == Put(ws[i])
  {
    seq(|ws|, i requires 0 <= i < |ws| => Put(ws[i]))
  }

  lemma {:induction false} RunPuts(dev: Device, ws: seq<Write>)
    ensures Run(dev, Puts(ws)) == Device(dev.durable, dev.pending + ws)
    decreases |ws|
  {
    if |ws| == 0 {
      assert dev.pending + ws == dev.pending;
    } else {
      var n := |ws| - 1;
      assert Puts(ws)[..n] == Puts(ws[..n]);
      RunPuts(dev, ws[..n]);
      assert dev.pending + ws == dev.pending + ws[..n] + [ws[n]];
    }
  }

  /** Two block maps agree at t. */
  ghost predicate SameAt(a: map<U32, seq<byte>>, b: map<U32, seq<byte>>, t: U32) {
    (t in a <==> t in b) && (t in a ==> a[t] == b[t])
  }

  /**
   * A reordering device: after a crash every block holds what was durable,
   * or what some write still held back would have put there.
   */
  ghost predicate Crash(durable: Disk, pending: seq<Write>, disk: Disk) {
    && |disk.slots| == |durable.slots|
    && (forall i :: 0 <= i < |disk.slots| ==>
          disk.slots[i] == durable.slots[i] || Slot(i, disk.slots[i]) in pending)
    && (forall t: U32 ::
          SameAt(disk.data, durable.data, t) || (t in disk.data && Target(t, disk.data[t]) in pending))
  }

  /** Losing nothing, or a suffix of the writes, are two of the ways to crash. */
  lemma {:induction false} PrefixIsCrash(d: Disk, ws: seq<Write>, k: nat)
    requires k <= |ws|
    ensures Crash(d, ws, Apply(d, ws[..k]))
    decreases k
  {
    if k > 0 {
      PrefixIsCrash(d, ws, k - 1);
      assert ws[..k][..k - 1] == ws[..k - 1];
      assert ws[k - 1] in ws;
    }
  }

  // ----- Applying a transaction -----

  /** The place of the last copy of t in ts, or -1. */
  function Last(ts: seq<U32>, t: U32): (i: int)
    ensures -1 <= i < |ts|
    ensures i >= 0 ==> ts[i] == t
    ensures i < 0 ==> t !in ts
    ensures forall j :: i < j < |ts| ==> ts[j] != t
  {
    if |ts| == 0 then -1
    else if ts[|ts| - 1] == t then |ts| - 1
    else Last(ts[..|ts| - 1], t)
  }

  /** The blocks outside the journal after blocks[i] has been written to ts[i], in order; tb bytes of each are used. */
  function WriteTargets(data: map<U32, seq<byte>>, ts: seq<U32>, blocks: seq<Block>, tb: nat): map<U32, seq<byte>>
    requires |blocks| >= |ts| && tb <= BLOCK_SIZE
    decreases |ts|
  {
    if |ts| == 0 then data
    else
      var n := |ts| - 1;
      WriteTargets(data, ts[..n], blocks, tb)[ts[n] := blocks[n][..tb]]
  }

  function ApplyTxn(data: map<U32, seq<byte>>, t: Txn, tb: nat): map<U32, seq<byte>>
    requires t.Valid() && tb <= BLOCK_SIZE
  {
    WriteTargets(data, t.targets, t.data, tb)
  }

  /** The last copy of a target wins; every other block keeps its contents. */
  lemma {:induction false} WriteTargetsAt(data: map<U32, seq<byte>>, ts: seq<U32>, blocks: seq<Block>, tb: nat, t: U32)
    requires |blocks| >= |ts| && tb <= BLOCK_SIZE
    ensures var r := WriteTargets(data, ts, blocks, tb);
            var i := Last(ts, t);
            if i < 0 then SameAt(r, data, t) else t in r && r[t] == blocks[i][..tb]
    decreases |ts|
  {
    if |ts| > 0 {
      WriteTargetsAt(data, ts[..|ts| - 1], blocks, tb, t);
    }
  }

  lemma MapsEqual(a: map<U32, seq<byte>>, b: map<U32, seq<byte>>)
    requires forall t: U32 :: SameAt(a, b, t)
    ensures a == b
  {
    assert forall t: U32 :: t in a ==> SameAt(a, b, t);
    assert forall t: U32 :: t in b ==> SameAt(a, b, t);
  }

  /** Writing the same targets with blocks that agree where it shows, over maps that agree elsewhere, gives one result. */
  lemma WriteTargetsSame(
    a: map<U32, seq<byte>>, b: map<U32, seq<byte>>, ts: seq<U32>, x: seq<Block>, y: seq<Block>, tb: nat)
    requires |x| >= |ts| && |y| >= |ts| && tb <= BLOCK_SIZE
    requires forall t: U32 :: t !in ts ==> SameAt(a, b, t)
    requires forall i :: 0 <= i < |ts| && Last(ts, ts[i]) == i ==> x[i][..tb] == y[i][..tb]
    ensures WriteTargets(a, ts, x, tb) == WriteTargets(b, ts, y, tb)
  {
    forall t: U32
      ensures SameAt(WriteTargets(a, ts, x, tb), WriteTargets(b, ts, y, tb), t)
    {
      WriteTargetsAt(a, ts, x, tb, t);
      WriteTargetsAt(b, ts, y, tb, t);
      if Last(ts, t) < 0 {
        assert SameAt(a, b, t);
      }
    }
    MapsEqual(WriteTargets(a, ts, x, tb), WriteTargets(b, ts, y, tb));
  }

  // ----- Replay -----

  /** The disk after a replay that met no I/O error. */
  function Replay(d: Disk, tb: nat): (r: Disk)
    requires d.Valid() && tb <= BLOCK_SIZE
    ensures r.Valid()
  {
    var cleared := d.slots[SLOT_HDR := ZeroBlock()];
    match Judge(d.slots[SLOT_HDR])
    case Ignore => d
    case Discard => d.(slots := cleared)
    case Redo(ts) => Disk(cleared, WriteTargets(d.data, ts, d.slots[SLOT_DATA0..], tb))
  }

  /** What the blocks outside the journal are worth: their contents once replay has been run. */
  function Recovered(d: Disk, tb: nat): map<U32, seq<byte>>
    requires d.Valid() && tb <= BLOCK_SIZE
  {
    Replay(d, tb).data
  }

  lemma RecoveredRedo(d: Disk, ts: seq<U32>, tb: nat)
    requires d.Valid() && tb <= BLOCK_SIZE && Judge(d.slots[SLOT_HDR]) == Redo(ts)
    ensures Recovered(d, tb) == WriteTargets(d.data, ts, d.slots[SLOT_DATA0..], tb)
  {
  }

  /** Replaying twice is replaying once. */
  lemma ReplayIdempotent(d: Disk, tb: nat)
    requires d.Valid() && tb <= BLOCK_SIZE
    ensures Replay(Replay(d, tb), tb) == Replay(d, tb)
    ensures !Judge(Replay(d, tb).slots[SLOT_HDR]).Redo?
  {
    JudgeZero();
  }
}
