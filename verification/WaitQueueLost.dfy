/** Two runs of the wait queue that show its limits (src/kernel/core/waitq.c:32-93). */
module WaitQueueLost {
  import opened WaitQueue
  import opened WaitQueueSafe

  // ----- Two wakers at once -----

  function EarlyState(i: nat): State {
    if i == 0 then State(false, -1, -1, [-1], [false], [Running], [Check], [false], [Idle, Idle], false)
    else if i == 1 then State(false, -1, -1, [-1], [false], [Running], [Prepare], [false], [Idle, Idle], false)
    else if i == 2 then State(false, -1, 0, [-1], [true], [Blocked], [Recheck], [false], [Idle, Idle], false)
    else if i == 3 then State(false, -1, 0, [-1], [true], [Blocked], [Sleep], [false], [Idle, Idle], false)
    else if i == 4 then State(true, -1, 0, [-1], [true], [Blocked], [Sleep], [false], [Idle, Idle], false)
    else if i == 5 then State(true, -1, 0, [-1], [true], [Blocked], [Sleep], [false], [Called, Idle], false)
    else if i == 6 then State(true, -1, 0, [-1], [true], [Blocked], [Sleep], [false], [Called, Called], false)
    else if i == 7 then State(true, -1, -1, [-1], [true], [Blocked], [Sleep], [false], [Walk(0), Called], true)
    else if i == 8 then State(true, -1, -1, [-1], [true], [Blocked], [Sleep], [false], [Walk(0), Walk(-1)], true)
    else State(true, -1, -1, [-1], [true], [Blocked], [Sleep], [false], [Walk(0), Returned], true)
  }

  function EarlyAction(i: nat): Action {
    if i <= 2 then Step(0)
    else if i <= 3 then SetCond(true)
    else if i <= 4 then Call(0)
    else if i <= 5 then Call(1)
    else if i <= 6 then Advance(0)
    else Advance(1)
  }

  function EarlySteps(): (steps: seq<Action>)
    ensures |steps| == 9 && forall i :: 0 <= i < |steps| ==> steps[i] == EarlyAction(i)
  {
    seq(9, i requires 0 <= i => EarlyAction(i))
  }

  lemma EarlyMoves0(i: nat)
    requires 0 <= i < 4
    ensures EarlyState(i).Shaped() && Do(EarlyState(i), EarlyAction(i)) == EarlyState(i + 1)
  {
  }

  lemma EarlyMoves4(i: nat)
    requires 4 <= i < 8
    ensures EarlyState(i).Shaped() && Do(EarlyState(i), EarlyAction(i)) == EarlyState(i + 1)
  {
  }

  lemma EarlyMoves8(i: nat)
    requires 8 <= i < 9
    ensures EarlyState(i).Shaped() && Do(EarlyState(i), EarlyAction(i)) == EarlyState(i + 1)
  {
  }

  lemma EarlyShaped()
    ensures EarlyState(0).Shaped() && Init(EarlyState(0))
  {
  }

  lemma {:induction false} EarlyRuns(n: nat)
    requires n <= 9
    ensures EarlyState(0).Shaped() && Run(EarlyState(0), EarlySteps()[..n]) == EarlyState(n)
    decreases n
  {
    hide Do, EarlyState, EarlyAction;
    EarlyShaped();
    if n > 0 {
      EarlyRuns(n - 1);
      assert EarlySteps()[..n][..n - 1] == EarlySteps()[..n - 1];
      if n <= 4 {
        EarlyMoves0(n - 1);
      } else if n <= 8 {
        EarlyMoves4(n - 1);
      } else {
        EarlyMoves8(n - 1);
      }
    }
  }

  /**
   * With two wakers at once, one wake_all can return while a waiter still sleeps: the other one took the entry and has
   * not visited it yet.
   */
  lemma ReturnedEarly()
    ensures Init(EarlyState(0)) && DisciplinedRun(EarlyState(0), EarlySteps())
    ensures var t := Run(EarlyState(0), EarlySteps());
            t.detached && |t.wakers| == 2 && t.wakers[1] == Returned && Asleep(t, 0)
  {
    hide Do, Run;
    var steps := EarlySteps();
    EarlyShaped();
    EarlyRuns(|steps|);
    assert steps[..|steps|] == steps;
    forall i | 0 <= i < |steps|
      ensures Disciplined(Run(EarlyState(0), steps[..i]), steps[i])
    {
      EarlyRuns(i);
    }
  }

  // ----- Entering the queue from a chain -----

  /** Two waiters, one waker; the condition becomes true in state 14, and a wake_all takes the queue after it in 24. */
  function LostAt(i: nat, head: int, next: seq<int>, queued: seq<bool>, status: seq<Status>, pc: seq<Pc>, waker: Waker)
    : State
  {
    State(i >= 14, -1, head, next, queued, status, pc, [false, false], [waker], i >= 24)
  }

  function LostState(i: nat): State {
    if i == 0 then LostAt(i, -1, [-1, -1], [false, false], [Running, Running], [Check, Check], Idle)
    else if i == 1 then LostAt(i, -1, [-1, -1], [false, false], [Running, Running], [Prepare, Check], Idle)
    else if i == 2 then LostAt(i, 0, [-1, -1], [true, false], [Blocked, Running], [Recheck, Check], Idle)
    else if i == 3 then LostAt(i, 0, [-1, -1], [true, false], [Blocked, Running], [Sleep, Check], Idle)
    else if i == 4 then LostAt(i, 0, [-1, -1], [true, false], [Blocked, Running], [Sleep, Prepare], Idle)
    else if i == 5 then LostAt(i, 1, [-1, 0], [true, true], [Blocked, Blocked], [Sleep, Recheck], Idle)
    else if i == 6 then LostAt(i, 1, [-1, 0], [true, true], [Blocked, Blocked], [Sleep, Sleep], Idle)
    else if i == 7 then LostAt(i, 1, [-1, 0], [true, true], [Blocked, Ready], [Sleep, Sleep], Idle)
    else if i == 8 then LostAt(i, 1, [-1, 0], [true, true], [Blocked, Running], [Sleep, Finish], Idle)
    else if i == 9 then LostAt(i, 1, [-1, 0], [true, true], [Blocked, Running], [Sleep, Finish], Called)
    else if i == 10 then LostAt(i, -1, [-1, 0], [true, true], [Blocked, Running], [Sleep, Finish], Walk(1))
    else if i == 11 then LostAt(i, -1, [-1, 0], [true, false], [Blocked, Running], [Sleep, Check], Walk(1))
    else if i == 12 then LostAt(i, -1, [-1, 0], [true, false], [Blocked, Running], [Sleep, Prepare], Walk(1))
    else if i == 13 then LostAt(i, 1, [-1, -1], [true, true], [Blocked, Blocked], [Sleep, Recheck], Walk(1))
    else if i == 14 then LostAt(i, 1, [-1, -1], [true, true], [Blocked, Blocked], [Sleep, Recheck], Walk(1))
    else if i == 15 then LostAt(i, 1, [-1, -1], [true, true], [Blocked, Blocked], [Sleep, FinishLast], Walk(1))
    else if i == 16 then LostAt(i, -1, [-1, -1], [true, false], [Blocked, Running], [Sleep, Done], Walk(1))
    else if i == 17 then LostAt(i, -1, [-1, -1], [true, false], [Blocked, Running], [Sleep, Done], HaveNext(1, -1))
    else if i == 18 then LostAt(i, -1, [-1, -1], [true, false], [Blocked, Running], [Sleep, Done], Cleared(1, -1))
    else if i == 19 then LostAt(i, -1, [-1, -1], [true, false], [Blocked, Running], [Sleep, Done], HaveProc(1, -1, false))
    else if i == 20 then LostAt(i, -1, [-1, -1], [true, false], [Blocked, Running], [Sleep, Done], Walk(-1))
    else if i == 21 then LostAt(i, -1, [-1, -1], [true, false], [Blocked, Running], [Sleep, Done], Returned)
    else if i == 22 then LostAt(i, -1, [-1, -1], [true, false], [Blocked, Running], [Sleep, Done], Idle)
    else if i == 23 then LostAt(i, -1, [-1, -1], [true, false], [Blocked, Running], [Sleep, Done], Called)
    else if i == 24 then LostAt(i, -1, [-1, -1], [true, false], [Blocked, Running], [Sleep, Done], Walk(-1))
    else LostAt(i, -1, [-1, -1], [true, false], [Blocked, Running], [Sleep, Done], Returned)
  }

  function LostAction(i: nat): Action {
    if i <= 2 then Step(0)
    else if i <= 5 then Step(1)
    else if i <= 6 then Spurious(1)
    else if i <= 7 then Step(1)
    else if i <= 8 then Call(0)
    else if i <= 9 then Advance(0)
    else if i <= 12 then Step(1)
    else if i <= 13 then SetCond(true)
    else if i <= 15 then Step(1)
    else if i <= 21 then Advance(0)
    else if i <= 22 then Call(0)
    else Advance(0)
  }

  function LostSteps(): (steps: seq<Action>)
    ensures |steps| == 25 && forall i :: 0 <= i < |steps| ==> steps[i] == LostAction(i)
  {
    seq(25, i requires 0 <= i => LostAction(i))
  }

  lemma LostMoves0(i: nat)
    requires 0 <= i < 4
    ensures LostState(i).Shaped() && Do(LostState(i), LostAction(i)) == LostState(i + 1)
  {
  }

  lemma LostMoves4(i: nat)
    requires 4 <= i < 8
    ensures LostState(i).Shaped() && Do(LostState(i), LostAction(i)) == LostState(i + 1)
  {
  }

  lemma LostMoves8(i: nat)
    requires 8 <= i < 12
    ensures LostState(i).Shaped() && Do(LostState(i), LostAction(i)) == LostState(i + 1)
  {
  }

  lemma LostMoves12(i: nat)
    requires 12 <= i < 16
    ensures LostState(i).Shaped() && Do(LostState(i), LostAction(i)) == LostState(i + 1)
  {
  }

  lemma LostMoves16(i: nat)
    requires 16 <= i < 20
    ensures LostState(i).Shaped() && Do(LostState(i), LostAction(i)) == LostState(i + 1)
  {
  }

  lemma LostMoves20(i: nat)
    requires 20 <= i < 24
    ensures LostState(i).Shaped() && Do(LostState(i), LostAction(i)) == LostState(i + 1)
  {
  }

  lemma LostMoves24(i: nat)
    requires 24 <= i < 25
    ensures LostState(i).Shaped() && Do(LostState(i), LostAction(i)) == LostState(i + 1)
  {
  }

  lemma LostShaped()
    ensures LostState(0).Shaped() && Init(LostState(0))
  {
  }

  lemma {:induction false} LostRuns(n: nat)
    requires n <= 25
    ensures LostState(0).Shaped() && Run(LostState(0), LostSteps()[..n]) == LostState(n)
    decreases n
  {
    hide Do, LostState, LostAction;
    LostShaped();
    if n > 0 {
      LostRuns(n - 1);
      assert LostSteps()[..n][..n - 1] == LostSteps()[..n - 1];
      if n <= 4 {
        LostMoves0(n - 1);
      } else if n <= 8 {
        LostMoves4(n - 1);
      } else if n <= 12 {
        LostMoves8(n - 1);
      } else if n <= 16 {
        LostMoves12(n - 1);
      } else if n <= 20 {
        LostMoves16(n - 1);
      } else if n <= 24 {
        LostMoves20(n - 1);
      } else {
        LostMoves24(n - 1);
      }
    }
  }

  /**
   * A waiter that goes round again while its entry is on the chain of a wake_all cuts off the entries behind it. Here
   * waiter 0 is then on no list: the condition is true, a wake_all has been called since it became true, every
   * wake_all has returned, and it still sleeps.
   */
  lemma LostForever()
    ensures Init(LostState(0))
    ensures var t := Run(LostState(0), LostSteps());
            t.cond && t.detached && t.head == -1 && t.wakers == [Returned] && Asleep(t, 0)
  {
    hide Do, Run;
    var steps := LostSteps();
    LostShaped();
    LostRuns(|steps|);
    assert steps[..|steps|] == steps;
  }

  /** It is not careful: one of its steps enters the queue from a chain. */
  lemma LostIsCareless()
    ensures LostState(0).Shaped() && !CarefulRun(LostState(0), LostSteps())
  {
    hide Do, Run, LostState, LostSteps, CarefulRun, Inv;
    LostForever();
    LostShaped();
    if CarefulRun(LostState(0), LostSteps()) {
      AllWokenWhenReturned(LostState(0), LostSteps(), 0);
    }
  }
}
