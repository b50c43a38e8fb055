/** What a waiter and a waker do: when a waiter goes on, when it returns, and what one wake_all leaves. */
module WaitQueueEffects {
  import opened NumberLists
  import opened WaitQueue

  // ----- A waiter sleeps until it is woken -----

  /** The action makes w ready: a wake_all stores its state, or the wakeup is spurious. */
  predicate Wakes(s: State, a: Action, w: nat) {
    || a == Spurious(w)
    || (a.Advance? && a.k < |s.wakers| && s.wakers[a.k].HaveProc? && s.wakers[a.k].e == w && s.wakers[a.k].proc)
  }

  ghost predicate NeverWoken(s: State, actions: seq<Action>, w: nat)
    requires s.Shaped()
  {
    forall i :: 0 <= i < |actions| ==> !Wakes(Run(s, actions[..i]), actions[i], w)
  }

  /** A step of a waker moves no waiter, and makes at most the process ready whose entry it has read. */
  lemma WakerLeaves(s: State, k: nat, w: nat)
    requires s.Shaped() && k < |s.wakers| && s.Waiter(w)
    ensures var t := WakerStep(s, k);
            t.pc == s.pc && (t.status[w] == s.status[w] || Wakes(s, Advance(k), w))
  {
  }

  /** Nor does a step of another waiter. */
  lemma OtherLeaves(s: State, v: nat, w: nat)
    requires s.Shaped() && s.Waiter(v) && s.Waiter(w) && v != w
    ensures var t := WaiterStep(s, v); t.Waiter(w) && t.pc[w] == s.pc[w] && t.status[w] == s.status[w]
  {
    hide Prepared, Finished;
    EntryLeaves(s, v, w);
  }

  lemma EntryLeaves(s: State, v: nat, w: nat)
    requires s.Shaped() && s.Waiter(v) && s.Waiter(w) && v != w
    ensures Prepared(s, v).pc == s.pc && Prepared(s, v).status[w] == s.status[w]
    ensures Finished(s, v).pc == s.pc && Finished(s, v).status[w] == s.status[w]
  {
    hide Unlink;
  }

  lemma Leaves(s: State, a: Action, w: nat)
    requires s.Shaped() && s.Waiter(w)
    ensures Do(s, a).Waiter(w)
    ensures a != Step(w) ==> Do(s, a).pc[w] == s.pc[w]
    ensures a != Step(w) && !Wakes(s, a, w) ==> Do(s, a).status[w] == s.status[w]
  {
    hide WaiterStep, WakerStep;
    match a
    case Step(v) =>
      if v != w && s.Waiter(v) {
        OtherLeaves(s, v, w);
      }
    case Advance(k) =>
      if k < |s.wakers| {
        WakerLeaves(s, k, w);
      }
    case _ =>
  }

  lemma StillAsleep(s: State, a: Action, w: nat)
    requires s.Shaped() && s.Waiter(w) && s.pc[w] == Sleep && s.status[w] == Blocked && !Wakes(s, a, w)
    ensures var t := Do(s, a); t.Waiter(w) && t.pc[w] == Sleep && t.status[w] == Blocked
  {
    hide WakerStep, Prepared, Finished, Wakes;
    Leaves(s, a, w);
  }

  /** In every run a waiter that has gone to sleep stays where it is until something wakes it. */
  lemma {:induction false} SleepsUntilWoken(s: State, actions: seq<Action>, w: nat)
    requires s.Shaped() && s.Waiter(w) && s.pc[w] == Sleep && s.status[w] == Blocked && NeverWoken(s, actions, w)
    ensures var t := Run(s, actions); t.Waiter(w) && t.pc[w] == Sleep && t.status[w] == Blocked
    decreases |actions|
  {
    hide Do, Wakes;
    if |actions| > 0 {
      var n := |actions| - 1;
      forall i | 0 <= i < n
        ensures !Wakes(Run(s, actions[..n][..i]), actions[..n][i], w)
      {
        assert actions[..n][..i] == actions[..i];
      }
      SleepsUntilWoken(s, actions[..n], w);
      StillAsleep(Run(s, actions[..n]), actions[n], w);
    }
  }

  // ----- A waiter returns only if the condition was true -----

  /** It has seen the condition and is on its way out. */
  predicate Leaving(pc: Pc) {
    pc.Done? || pc.FinishLast? || pc.Leave?
  }

  /** Waiter w looks at the condition and finds it true. */
  predicate Sees(s: State, a: Action, w: nat) {
    a == Step(w) && s.cond && s.Waiter(w) && (s.pc[w].Check? || s.pc[w].Recheck? || s.pc[w].LockedCheck?)
  }

  lemma LeavesByLooking(s: State, a: Action, w: nat)
    requires s.Shaped() && s.Waiter(w)
    ensures var t := Do(s, a); t.Waiter(w) && (Leaving(t.pc[w]) <==> Leaving(s.pc[w]) || Sees(s, a, w))
  {
    hide WakerStep, Prepared, Finished, Wakes;
    Leaves(s, a, w);
  }

  /** It does so in step i of the run. */
  ghost predicate SeesAt(s: State, actions: seq<Action>, w: nat, i: nat)
    requires s.Shaped()
  {
    i < |actions| && Sees(Run(s, actions[..i]), actions[i], w)
  }

  lemma SeesBefore(s: State, actions: seq<Action>, w: nat, n: nat, i: nat)
    requires s.Shaped() && i < n <= |actions|
    ensures SeesAt(s, actions[..n], w, i) <==> SeesAt(s, actions, w, i)
  {
    assert actions[..n][..i] == actions[..i];
  }

  /** In every run a waiter is on its way out if and only if it has found the condition true. */
  lemma {:induction false} ReturnsOnlyIfTrue(s: State, actions: seq<Action>, w: nat)
    requires s.Shaped() && s.Waiter(w) && !Leaving(s.pc[w])
    ensures Run(s, actions).Waiter(w)
    ensures Leaving(Run(s, actions).pc[w]) <==> exists i :: SeesAt(s, actions, w, i)
    decreases |actions|
  {
    hide Do, Sees, SeesAt, Leaving;
    if |actions| == 0 {
      NothingSeen(s, w);
    } else {
      var n := |actions| - 1;
      ReturnsOnlyIfTrue(s, actions[..n], w);
      LeavesByLooking(Run(s, actions[..n]), actions[n], w);
      SeesLast(s, actions, w);
    }
  }

  lemma NothingSeen(s: State, w: nat)
    requires s.Shaped()
    ensures !exists i :: SeesAt(s, [], w, i)
  {
  }

  lemma SeesLast(s: State, actions: seq<Action>, w: nat)
    requires s.Shaped() && |actions| > 0
    ensures var n := |actions| - 1;
            (exists i :: SeesAt(s, actions, w, i))
              <==> (exists i :: SeesAt(s, actions[..n], w, i)) || Sees(Run(s, actions[..n]), actions[n], w)
  {
    hide Run, Sees;
    var n := |actions| - 1;
    if i: nat :| SeesAt(s, actions, w, i) {
      if i < n {
        SeesBefore(s, actions, w, n, i);
      }
    }
    if i: nat :| SeesAt(s, actions[..n], w, i) {
      SeesBefore(s, actions, w, n, i);
    }
    if Sees(Run(s, actions[..n]), actions[n], w) {
      assert SeesAt(s, actions, w, n);
    }
  }

  // ----- It does return -----

  /** n steps of waiter w. */
  function Alone(s: State, w: nat, n: nat): (t: State)
    requires s.Shaped()
    ensures t.Shaped()
    decreases n
  {
    if n == 0 then s else Alone(Do(s, Step(w)), w, n - 1)
  }

  /** Nothing holds w up: it does not sleep, nor is it about to, and it has the lock or can take it. */
  predicate Free(s: State, w: nat) {
    && s.Shaped() && s.Waiter(w) && (s.pc[w].Sleep? ==> s.status[w] != Blocked)
    && !s.pc[w].LockedPrepare? && !s.pc[w].Unlock?
    && s.holder == if s.pc[w].LockedCheck? || s.pc[w].Leave? then w else -1
  }

  /** How many steps are left once the condition is true. */
  function Left(s: State, w: nat): nat
    requires s.Waiter(w) && |s.locked| == |s.pc|
  {
    match s.pc[w]
    case Done => 0
    case Check => 1
    case FinishLast => 1
    case Leave => 1
    case LockedCheck => 2
    case Recheck => 2
    case Lock => 3
    case Prepare => 3
    case Finish => if s.locked[w] then 4 else 2
    case Sleep => if s.locked[w] then 5 else 3
    case LockedPrepare => 0
    case Unlock => 0
  }

  lemma OneLess(s: State, w: nat)
    requires Free(s, w) && s.cond && !s.pc[w].Done?
    ensures var t := Do(s, Step(w)); Free(t, w) && t.cond && Left(t, w) == Left(s, w) - 1
  {
    hide Unlink;
  }

  /** If the condition is true and nothing holds it up, a waiter returns after at most five steps of its own. */
  lemma {:induction false} Returns(s: State, w: nat)
    requires Free(s, w) && s.cond
    ensures Left(s, w) <= 5
    ensures var t := Alone(s, w, Left(s, w)); t.Waiter(w) && t.pc[w].Done?
    decreases Left(s, w)
  {
    hide Do;
    if !s.pc[w].Done? {
      OneLess(s, w);
      Returns(Do(s, Step(w)), w);
    }
  }

  // ----- One wake_all -----

  /** n steps of waker k. */
  function Advances(s: State, k: nat, n: nat): (t: State)
    requires s.Shaped()
    ensures t.Shaped()
    decreases n
  {
    if n == 0 then s else Advances(Do(s, Advance(k)), k, n - 1)
  }

  lemma {:induction false} AdvancesAdd(s: State, k: nat, m: nat, n: nat)
    requires s.Shaped()
    ensures Advances(s, k, m + n) == Advances(Advances(s, k, m), k, n)
    decreases m
  {
    hide Do;
    if m > 0 {
      AdvancesAdd(Do(s, Advance(k)), k, m - 1, n);
    }
  }

  /** Everyone on c who waits is ready, off every list, and nobody else is touched. */
  ghost predicate Woken(s: State, t: State, k: nat, c: seq<nat>) {
    && s.Shaped() && t.Shaped() && |t.pc| == |s.pc| && |t.wakers| == |s.wakers| && k < |s.wakers|
    && t.head == s.head && t.cond == s.cond && t.pc == s.pc && t.queued == s.queued
    && (forall j :: 0 <= j < |s.wakers| && j != k ==> t.wakers[j] == s.wakers[j])
    && forall w :: 0 <= w < |s.pc| ==>
         if w in c then t.next[w] == -1 && t.status[w] == (if s.queued[w] then Ready else s.status[w])
         else t.next[w] == s.next[w] && t.status[w] == s.status[w]
  }

  /** Four steps see to the first entry. */
  lemma VisitOne(s: State, k: nat, c: seq<nat>)
    requires s.Shaped() && k < |s.wakers| && |c| > 0 && c[0] < |s.pc| && s.wakers[k] == Walk(c[0])
    ensures var t := Advances(s, k, 4); Woken(s, t, k, c[..1]) && t.wakers[k] == Walk(s.next[c[0]])
  {
    var a := Do(s, Advance(k));
    var b := Do(a, Advance(k));
    var d := Do(b, Advance(k));
    assert Advances(s, k, 4) == Do(d, Advance(k));
  }

  lemma WokenBoth(s: State, t: State, u: State, k: nat, c: seq<nat>)
    requires |c| > 0 && NoDup(c) && Woken(s, t, k, c[..1]) && Woken(t, u, k, c[1..])
    ensures Woken(s, u, k, c)
  {
    assert c == c[..1] + c[1..];
  }

  /** A walk over the entries c visits each of them and returns, in four steps for each and one more. */
  lemma {:induction false} WalkVisits(s: State, k: nat, at: int, c: seq<nat>)
    requires s.Shaped() && k < |s.wakers| && s.wakers[k] == Walk(at) && Linked(s.next, at, c) && NoDup(c)
    ensures var t := Advances(s, k, 4 * |c| + 1); Woken(s, t, k, c) && t.wakers[k] == Returned
    decreases |c|
  {
    hide Do, Advances, Woken, Linked, NoDup;
    LinkedStart(s.next, at, c);
    if |c| == 0 {
      WalkEnds(s, k);
    } else {
      VisitOne(s, k, c);
      var t := Advances(s, k, 4);
      RestLinked(s, t, k, c);
      WalkVisits(t, k, s.next[c[0]], c[1..]);
      AdvancesAdd(s, k, 4, 4 * |c[1..]| + 1);
      WokenBoth(s, t, Advances(t, k, 4 * |c[1..]| + 1), k, c);
    }
  }

  lemma LinkedStart(next: seq<int>, e: int, c: seq<nat>)
    requires Linked(next, e, c)
    ensures if |c| == 0 then e == -1 else e == c[0] < |next|
  {
  }

  lemma WalkEnds(s: State, k: nat)
    requires s.Shaped() && k < |s.wakers| && s.wakers[k] == Walk(-1)
    ensures var t := Advances(s, k, 4 * 0 + 1); Woken(s, t, k, []) && t.wakers[k] == Returned
  {
    assert Advances(s, k, 1) == Do(s, Advance(k));
  }

  lemma RestLinked(s: State, t: State, k: nat, c: seq<nat>)
    requires s.Shaped() && |c| > 0 && NoDup(c) && Linked(s.next, c[0], c) && Woken(s, t, k, c[..1])
    ensures Linked(t.next, s.next[c[0]], c[1..]) && NoDup(c[1..])
  {
    forall i | 0 <= i < |c[1..]|
      ensures c[1..][i] < |t.next| && t.next[c[1..][i]] == At(c[1..], i + 1)
    {
      assert c[1..][i] == c[i + 1] != c[0];
      assert c[i + 1] !in c[..1];
    }
  }

  /** Everyone on c who waits is ready, and the queue is empty. */
  ghost predicate AllWoken(s: State, t: State, k: nat, c: seq<nat>) {
    && s.Shaped() && t.Shaped() && |t.pc| == |s.pc| && k < |t.wakers| && t.wakers[k] == Returned && t.head == -1
    && forall w :: 0 <= w < |s.pc| ==> t.status[w] == if w in c && s.queued[w] then Ready else s.status[w]
  }

  /** wake_all with nobody in between, on a queue of the entries c. */
  lemma WakesAll(s: State, k: nat, c: seq<nat>)
    requires s.Shaped() && k < |s.wakers| && s.wakers[k] == Called && Linked(s.next, s.head, c) && NoDup(c)
    ensures AllWoken(s, Advances(s, k, 4 * |c| + 2), k, c)
  {
    hide Linked, NoDup;
    var u := Do(s, Advance(k));
    WalkVisits(u, k, s.head, c);
    assert Advances(s, k, 1) == u;
    hide Do, Advances;
    AdvancesAdd(s, k, 1, 4 * |c| + 1);
  }
}
