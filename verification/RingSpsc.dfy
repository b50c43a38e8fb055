/**
 * One producer and one consumer on a ring buffer, interleaved at every load and store of ringbuf_push, ringbuf_pop,
 * ringbuf_discard and ringbuf_clear (include/kernel/ringbuf.h:41-64, 100-108). The barrier keeps the data access before
 * the index store.
 */
module RingSpsc {
  import opened Words
  import opened RingIndex
  import opened RingBuffer

  /** Where the producer is in a push of c. */
  datatype Producer =
    | Outside
    | GotHead(c: byte, head: nat)               // head loaded
    | MayStore(c: byte, head: nat)              // the tail did not stand in the way
    | MayPublish(c: byte, head: nat)            // the byte is stored

  /** Where the consumer is in a pop, a discard or a clear. */
  datatype Consumer =
    | Out
    | GotTail(tail: nat)                        // tail loaded
    | MayLoad(tail: nat)                        // the head showed a byte
    | MayRelease(tail: nat, c: byte)            // the byte is loaded
    | MayDrop(tail: nat, n: nat)                // the head showed that n bytes can go
    | MayClear(tail: nat, head: nat, upto: nat) // head loaded, when upto bytes had been pushed

  /** The shared buffer, both parties, what has been pushed so far, and what has been popped or dropped. */
  datatype State = State(
    size: nat, head: nat, tail: nat, data: seq<byte>, prod: Producer, cons: Consumer,
    pushed: seq<byte>, taken: seq<byte>)

  datatype Action =
    | StartPush(c: byte) | CheckFull | Store | Publish
    | StartPop | CheckEmpty | Load | Release
    | StartDiscard(n: nat) | Drop | StartClear | Clear

  predicate Shaped(s: State) {
    s.size > 0 && |s.data| == s.size && s.head < s.size && s.tail < s.size
  }

  /** The first n bytes. */
  function Upto(bytes: seq<byte>, n: nat): seq<byte> {
    if n <= |bytes| then bytes[..n] else bytes
  }

  /** One load or store by one of the parties; anything else leaves the state alone. */
  function Do(s: State, a: Action): State
    requires s.size > 0
  {
    match a
    case StartPush(c) => if s.prod.Outside? then s.(prod := GotHead(c, s.head)) else s
    case CheckFull =>
      if s.prod.GotHead? then
        s.(prod := if Mask(s.size, s.prod.head + 1) == s.tail then Outside else MayStore(s.prod.c, s.prod.head))
      else s
    case Store =>
      if s.prod.MayStore? && s.prod.head < |s.data| then
        s.(data := s.data[s.prod.head := s.prod.c], prod := MayPublish(s.prod.c, s.prod.head))
      else s
    case Publish =>
      if s.prod.MayPublish? then
        s.(head := Mask(s.size, s.prod.head + 1), pushed := s.pushed + [s.prod.c], prod := Outside)
      else s
    case StartPop => if s.cons.Out? then s.(cons := GotTail(s.tail)) else s
    case CheckEmpty =>
      if s.cons.GotTail? then s.(cons := if s.cons.tail == s.head then Out else MayLoad(s.cons.tail)) else s
    case Load =>
      if s.cons.MayLoad? && s.cons.tail < |s.data| then
        s.(cons := MayRelease(s.cons.tail, s.data[s.cons.tail]))
      else s
    case Release =>
      if s.cons.MayRelease? then
        s.(tail := Mask(s.size, s.cons.tail + 1), taken := s.taken + [s.cons.c], cons := Out)
      else s
    case StartDiscard(n) =>
      if s.cons.Out? then
        var avail := Mask(s.size, s.head - s.tail);
        s.(cons := MayDrop(s.tail, if n > avail then avail else n))
      else s
    case Drop =>
      if s.cons.MayDrop? then
        s.(tail := Mask(s.size, s.cons.tail + s.cons.n), taken := Upto(s.pushed, |s.taken| + s.cons.n), cons := Out)
      else s
    case StartClear => if s.cons.Out? then s.(cons := MayClear(s.tail, s.head, |s.pushed|)) else s
    case Clear =>
      if s.cons.MayClear? then s.(tail := s.cons.head, taken := Upto(s.pushed, s.cons.upto), cons := Out) else s
  }

  /** The buffer right after ringbuf_init, whatever the data bytes are. */
  predicate Init(s: State, k: nat) {
    && k < 32 && s.size == Pow2(k) && |s.data| == s.size && s.head == 0 && s.tail == 0
    && s.prod == Outside && s.cons == Out && s.pushed == [] && s.taken == []
  }

  function Run(s: State, actions: seq<Action>): (r: State)
    requires s.size > 0
    ensures r.size == s.size
    decreases |actions|
  {
    if |actions| == 0 then s else Do(Run(s, actions[..|actions| - 1]), actions[|actions| - 1])
  }

  // ----- The invariant -----

  /** Byte number i is in its slot. */
  ghost predicate Holds(s: State, i: nat)
    requires Shaped(s) && i < |s.pushed|
  {
    s.data[Slot(i, s.size)] == s.pushed[i]
  }

  ghost predicate Inv(s: State, k: nat) {
    && k < 32 && s.size == Pow2(k) && Shaped(s)
    && s.taken <= s.pushed && |s.pushed| - |s.taken| < s.size
    && s.head == Slot(|s.pushed|, s.size) && s.tail == Slot(|s.taken|, s.size)
    && (forall i :: |s.taken| <= i < |s.pushed| ==> Holds(s, i))
    && (!s.prod.Outside? ==> s.prod.head == s.head)
    && (s.prod.MayStore? || s.prod.MayPublish? ==> |s.pushed| - |s.taken| < s.size - 1)
    && (s.prod.MayPublish? ==> s.data[s.head] == s.prod.c)
    && (!s.cons.Out? ==> s.cons.tail == s.tail)
    && (s.cons.MayLoad? || s.cons.MayRelease? ==> |s.taken| < |s.pushed|)
    && (s.cons.MayRelease? ==> s.cons.c == s.pushed[|s.taken|])
    && (s.cons.MayDrop? ==> s.cons.n <= |s.pushed| - |s.taken|)
    && (s.cons.MayClear? ==> |s.taken| <= s.cons.upto <= |s.pushed| && s.cons.head == Slot(s.cons.upto, s.size))
  }

  lemma InitInv(s: State, k: nat)
    requires Init(s, k)
    ensures Inv(s, k)
  {
    ModUnique(0, s.size, 0, 0);
  }

  lemma MaskAdd(s: State, k: nat, n: nat, at: nat, d: nat)
    requires k < 32 && s.size == Pow2(k) && at == Slot(n, s.size)
    ensures Mask(s.size, at + d) == Slot(n + d, s.size)
  {
    MaskWord(at + d, k);
    ModShift(n, d, s.size);
  }

  /** What ringbuf_readable computes is the number of bytes that wait. */
  lemma CountedBy(s: State, k: nat)
    requires k < 32 && s.size == Pow2(k) && |s.taken| <= |s.pushed| < |s.taken| + s.size
    requires s.head == Slot(|s.pushed|, s.size) && s.tail == Slot(|s.taken|, s.size)
    ensures Mask(s.size, s.head - s.tail) == |s.pushed| - |s.taken|
  {
    MaskWord(s.head - s.tail, k);
    Distance(|s.taken|, |s.pushed|, s.size);
  }

  /** The slot after the head is the tail exactly when size - 1 bytes are in the buffer. */
  lemma FullWhen(n: nat, m: nat, size: nat)
    requires m <= n < m + size
    ensures Slot(n + 1, size) == Slot(m, size) <==> n - m == size - 1
    ensures Slot(n, size) == Slot(m, size) <==> n == m
  {
    if n - m < size - 1 {
      SlotsDiffer(m, n + 1, size);
    } else {
      assert n + 1 == m + size;
      var q, r := m / size, m % size;
      assert m + size == (q + 1) * size + r;
      ModUnique(m + size, size, q + 1, r);
    }
    if m < n {
      SlotsDiffer(m, n, size);
    }
  }

  lemma ProducerKeeps(s: State, k: nat, a: Action)
    requires Inv(s, k) && (a.StartPush? || a.CheckFull? || a.Publish?)
    ensures Inv(Do(s, a), k)
  {
    hide Slot, Mask, Pow2;
    MaskAdd(s, k, |s.pushed|, s.head, 1);
    FullWhen(|s.pushed|, |s.taken|, s.size);
    var t := Do(s, a);
    forall i | |t.taken| <= i < |t.pushed|
      ensures Holds(t, i)
    {
      assert i < |s.pushed| ==> Holds(s, i);
    }
  }

  /** The producer's store hits no slot that still holds an unread byte. */
  lemma StoreKeeps(s: State, k: nat)
    requires Inv(s, k)
    ensures Inv(Do(s, Store), k)
    ensures s.prod.MayStore? ==> forall i :: |s.taken| <= i < |s.pushed| ==> Slot(i, s.size) != s.prod.head
  {
    hide Slot, Pow2;
    if s.prod.MayStore? {
      var t := Do(s, Store);
      forall i | |s.taken| <= i < |s.pushed|
        ensures Slot(i, s.size) != s.prod.head && Holds(t, i)
      {
        assert Holds(s, i);
        SlotApart(i, |s.pushed|, s.size);
      }
    }
  }

  lemma SlotApart(i: nat, n: nat, size: nat)
    requires size > 0 && i < n < i + size
    ensures Slot(i, size) != Slot(n, size)
  {
    SlotsDiffer(i, n, size);
  }

  lemma ConsumerKeeps(s: State, k: nat, a: Action)
    requires Inv(s, k) && (a.StartPop? || a.CheckEmpty? || a.Load? || a.Release?)
    ensures Inv(Do(s, a), k)
  {
    hide Slot, Mask, Pow2;
    MaskAdd(s, k, |s.taken|, s.tail, 1);
    FullWhen(|s.pushed|, |s.taken|, s.size);
    if |s.taken| < |s.pushed| {
      assert Holds(s, |s.taken|);
    }
    var t := Do(s, a);
    forall i | |t.taken| <= i < |t.pushed|
      ensures Holds(t, i)
    {
      assert Holds(s, i);
    }
  }

  lemma DropKeeps(s: State, k: nat, a: Action)
    requires Inv(s, k) && (a.StartDiscard? || a.Drop? || a.StartClear? || a.Clear?)
    ensures Inv(Do(s, a), k)
  {
    hide Slot, Mask, Pow2;
    CountedBy(s, k);
    if s.cons.MayDrop? {
      MaskAdd(s, k, |s.taken|, s.tail, s.cons.n);
    }
    var t := Do(s, a);
    forall i | |t.taken| <= i < |t.pushed|
      ensures Holds(t, i)
    {
      assert Holds(s, i);
    }
  }

  lemma StepKeeps(s: State, k: nat, a: Action)
    requires Inv(s, k)
    ensures Inv(Do(s, a), k)
  {
    hide Inv, Do;
    if a.Store? {
      StoreKeeps(s, k);
    } else if a.StartPush? || a.CheckFull? || a.Publish? {
      ProducerKeeps(s, k, a);
    } else if a.StartDiscard? || a.Drop? || a.StartClear? || a.Clear? {
      DropKeeps(s, k, a);
    } else {
      ConsumerKeeps(s, k, a);
    }
  }

  lemma {:induction false} RunKeeps(s: State, k: nat, actions: seq<Action>)
    requires Init(s, k)
    ensures Inv(Run(s, actions), k)
    decreases |actions|
  {
    hide Inv, Do;
    if |actions| == 0 {
      InitInv(s, k);
    } else {
      var n := |actions| - 1;
      RunKeeps(s, k, actions[..n]);
      StepKeeps(Run(s, actions[..n]), k, actions[n]);
    }
  }

  // ----- What every interleaving guarantees -----

  /**
   * For every interleaving: the bytes taken are a prefix of the pushed ones; the readable count is the number in
   * between, and readable and writable make size - 1; the next store cannot hit an unread byte; the next load reads the
   * oldest unread byte.
   */
  lemma EveryInterleaving(s: State, k: nat, actions: seq<Action>)
    requires Init(s, k)
    ensures var t := Run(s, actions);
            && t.taken <= t.pushed
            && Mask(t.size, t.head - t.tail) == |t.pushed| - |t.taken|
            && Mask(t.size, t.head - t.tail) + Mask(t.size, t.tail - t.head - 1) == t.size - 1
            && (t.prod.MayStore? ==> forall i :: |t.taken| <= i < |t.pushed| ==> Slot(i, t.size) != t.prod.head)
            && (t.cons.MayLoad? ==> |t.taken| < |t.pushed| && t.cons.tail < |t.data| && t.data[t.cons.tail] == t.pushed[|t.taken|])
  {
    hide Slot, Do, Run;
    RunKeeps(s, k, actions);
    var t := Run(s, actions);
    CountedBy(t, k);
    ReadableWritable(t.head, t.tail, k);
    StoreKeeps(t, k);
    if t.cons.MayLoad? {
      assert Holds(t, |t.taken|);
    }
  }

  /** A push is refused exactly when size - 1 bytes are waiting, a pop exactly when none is. */
  lemma RefusedOnlyIf(s: State, k: nat, actions: seq<Action>)
    requires Init(s, k)
    ensures var t := Run(s, actions);
            && (t.prod.GotHead? ==> (Do(t, CheckFull).prod == Outside <==> |t.pushed| - |t.taken| == t.size - 1))
            && (t.cons.GotTail? ==> (Do(t, CheckEmpty).cons == Out <==> |t.pushed| == |t.taken|))
  {
    hide Slot, Mask, Run, Pow2;
    RunKeeps(s, k, actions);
    var t := Run(s, actions);
    MaskAdd(t, k, |t.pushed|, t.head, 1);
    FullWhen(|t.pushed|, |t.taken|, t.size);
  }
}
