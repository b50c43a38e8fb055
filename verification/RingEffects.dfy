/** What a push, a pop, a discard and a clear do, whatever the other party does between their loads and stores. */
module RingEffects {
  import opened Words
  import opened RingIndex
  import opened RingBuffer
  import opened RingSpsc

  predicate OfProducer(a: Action) {
    a.StartPush? || a.CheckFull? || a.Store? || a.Publish?
  }

  predicate Producing(actions: seq<Action>) {
    forall i :: 0 <= i < |actions| ==> OfProducer(actions[i])
  }

  predicate Consuming(actions: seq<Action>) {
    forall i :: 0 <= i < |actions| ==> !OfProducer(actions[i])
  }

  lemma {:induction false} RunFrom(s: State, k: nat, actions: seq<Action>)
    requires Inv(s, k)
    ensures Inv(Run(s, actions), k)
    decreases |actions|
  {
    hide Inv, Do;
    InvSize(s, k);
    if |actions| > 0 {
      var n := |actions| - 1;
      RunFrom(s, k, actions[..n]);
      StepKeeps(Run(s, actions[..n]), k, actions[n]);
    }
  }

  lemma InvSize(s: State, k: nat)
    requires Inv(s, k)
    ensures s.size > 0
  {
  }

  /** The producer leaves the consumer where it is, and only adds to what has been pushed. */
  lemma {:induction false} ConsumerStays(s: State, actions: seq<Action>)
    requires s.size > 0 && Producing(actions)
    ensures var t := Run(s, actions); t.cons == s.cons && t.taken == s.taken && s.pushed <= t.pushed
    decreases |actions|
  {
    if |actions| > 0 {
      ConsumerStays(s, actions[..|actions| - 1]);
    }
  }

  /** The consumer leaves the producer where it is. */
  lemma {:induction false} ProducerStays(s: State, actions: seq<Action>)
    requires s.size > 0 && Consuming(actions)
    ensures var t := Run(s, actions); t.prod == s.prod && t.pushed == s.pushed
    decreases |actions|
  {
    if |actions| > 0 {
      ProducerStays(s, actions[..|actions| - 1]);
    }
  }

  /**
   * A push, with anything that the consumer does between its steps: the byte is the next one pushed, unless size - 1
   * bytes wait when it looks at the tail; then nothing is.
   */
  lemma PushAdds(s: State, k: nat, c: byte, b1: seq<Action>, b2: seq<Action>, b3: seq<Action>)
    requires Inv(s, k) && s.size > 0 && s.prod.Outside? && Consuming(b1) && Consuming(b2) && Consuming(b3)
    ensures var u := Run(Do(s, StartPush(c)), b1);
            var t := Do(Run(Do(Run(Do(u, CheckFull), b2), Store), b3), Publish);
            t.prod.Outside? && t.pushed == if |u.pushed| - |u.taken| == u.size - 1 then s.pushed else s.pushed + [c]
  {
    hide Run, Mask, Slot, Pow2;
    var s1 := Do(s, StartPush(c));
    StepKeeps(s, k, StartPush(c));
    RunFrom(s1, k, b1);
    ProducerStays(s1, b1);
    var u := Run(s1, b1);
    Refused(u, k);
    StepKeeps(u, k, CheckFull);
    var v := Do(u, CheckFull);
    ProducerStays(v, b2);
    RunFrom(v, k, b2);
    var w := Run(v, b2);
    StepKeeps(w, k, Store);
    ProducerStays(Do(w, Store), b3);
  }

  lemma Refused(t: State, k: nat)
    requires Inv(t, k) && t.size > 0
    ensures t.prod.GotHead? ==> (Do(t, CheckFull).prod == Outside <==> |t.pushed| - |t.taken| == t.size - 1)
    ensures t.cons.GotTail? ==> (Do(t, CheckEmpty).cons == Out <==> |t.pushed| == |t.taken|)
  {
    hide Slot, Mask, Run, Pow2;
    MaskAdd(t, k, |t.pushed|, t.head, 1);
    FullWhen(|t.pushed|, |t.taken|, t.size);
  }

  /** A pop takes the oldest byte that waits, unless none does when it looks at the head. */
  lemma PopTakes(s: State, k: nat, b1: seq<Action>, b2: seq<Action>, b3: seq<Action>)
    requires Inv(s, k) && s.size > 0 && s.cons.Out? && Producing(b1) && Producing(b2) && Producing(b3)
    ensures var u := Run(Do(s, StartPop), b1);
            var t := Do(Run(Do(Run(Do(u, CheckEmpty), b2), Load), b3), Release);
            && t.cons.Out? && |s.taken| <= |u.pushed|
            && t.taken == if |u.pushed| == |s.taken| then s.taken else s.taken + [u.pushed[|s.taken|]]
  {
    hide Run, Mask, Slot, Pow2;
    var s1 := Do(s, StartPop);
    StepKeeps(s, k, StartPop);
    RunFrom(s1, k, b1);
    ConsumerStays(s1, b1);
    var u := Run(s1, b1);
    Refused(u, k);
    StepKeeps(u, k, CheckEmpty);
    var v := Do(u, CheckEmpty);
    ConsumerStays(v, b2);
    RunFrom(v, k, b2);
    var w := Run(v, b2);
    StepKeeps(w, k, Load);
    var x := Do(w, Load);
    RunFrom(x, k, b3);
    ConsumerStays(x, b3);
    if |u.pushed| != |s.taken| {
      assert w.pushed[|s.taken|] == u.pushed[|s.taken|];
    }
  }

  /** A discard of n takes the oldest n bytes of those that wait when it begins, or all of them. */
  lemma DiscardTakes(s: State, k: nat, n: nat, b: seq<Action>)
    requires Inv(s, k) && s.size > 0 && s.cons.Out? && Producing(b)
    ensures var t := Do(Run(Do(s, StartDiscard(n)), b), Drop);
            t.cons.Out? && t.taken == s.pushed[..|s.taken| + Min(n, |s.pushed| - |s.taken|)]
  {
    hide Run, Mask, Slot, Pow2;
    CountedBy(s, k);
    var s1 := Do(s, StartDiscard(n));
    StepKeeps(s, k, StartDiscard(n));
    RunFrom(s1, k, b);
    ConsumerStays(s1, b);
  }

  /** A clear takes everything that had been pushed when it loaded the head. */
  lemma ClearTakes(s: State, k: nat, b: seq<Action>)
    requires Inv(s, k) && s.size > 0 && s.cons.Out? && Producing(b)
    ensures var t := Do(Run(Do(s, StartClear), b), Clear); t.cons.Out? && t.taken == s.pushed
  {
    hide Run, Mask, Slot, Pow2;
    var s1 := Do(s, StartClear);
    StepKeeps(s, k, StartClear);
    RunFrom(s1, k, b);
    ConsumerStays(s1, b);
  }
}
