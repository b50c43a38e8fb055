/** The scheduler's operations as loops over the processes' pointers (src/kernel/core/sched.c:63-103, 156-233). */
module SchedulerLoops {
  import opened Words
  import opened NumberLists
  import opened SchedQueues
  import opened SchedInvariant
  import opened Scheduler

  const STEAL_MIN_INTERVAL: nat := 4

  /** Queue r belongs to another CPU and has a process to spare. */
  ghost predicate Spare(lists: seq<seq<nat>>, me: nat, r: nat) {
    r < |lists| && r / NUM_QUEUES != me && |lists[r]| >= 2
  }

  class RunQueues {
    var next: seq<int>
    var level: seq<int>
    var owner: seq<nat>
    var heads: seq<int>
    var lastSteal: seq<nat>
    ghost var lists: seq<seq<nat>>    // the processes of every queue, head first

    /** No process is queued anywhere. */
    constructor (cpus: nat, procs: nat)
      ensures Valid() && Now().Cpus() == cpus && |next| == procs && forall r :: 0 <= r < |lists| ==> lists[r] == []
    {
      next, level, owner := seq(procs, _ => -1), seq(procs, _ => 0), seq(procs, _ => 0);
      heads, lastSteal := seq(NUM_QUEUES * cpus, _ => -1), seq(cpus, _ => 0);
      lists := seq(NUM_QUEUES * cpus, _ => []);
    }

    function Now(): Queues
      reads this
    {
      Queues(next, level, owner, heads)
    }

    ghost predicate Valid()
      reads this
    {
      Inv(Now(), lists) && |lastSteal| == Now().Cpus()
    }

    /** add_to_queue. */
    method AddToQueue(cpu: nat, p: nat, queue: int)
      requires Valid() && cpu < Now().Cpus() && Now().Proc(p) && owner[p] == cpu && !Queued(lists, p)
      modifies this
      ensures Valid() && Now() == Enqueue(old(Now()), cpu, p, queue) && lastSteal == old(lastSteal)
      ensures Rq(cpu, Clamp(queue)) < |old(lists)|
      ensures lists == old(lists)[Rq(cpu, Clamp(queue)) := AfterHead(old(lists)[Rq(cpu, Clamp(queue))], p)]
      ensures level == old(level)[p := if queue < 0 then 0 else if queue > 3 then 3 else queue] && owner == old(owner)
    {
      hide Ring, AfterHead;
      EnqueueKeeps(Now(), lists, cpu, p, queue);
      var q := if queue < 0 then 0 else if queue >= NUM_QUEUES then NUM_QUEUES - 1 else queue;
      var r := Rq(cpu, q);
      HeadIs(Now(), lists, r);
      lists := lists[r := AfterHead(lists[r], p)];
      level := level[p := q];
      var h := heads[r];
      if h == -1 {
        heads := heads[r := p];
        next := next[p := p];
      } else {
        next := next[p := next[h]];
        next := next[h := p];
      }
    }

    /** remove_from_queue; the walk round the circle ends. */
    method RemoveFromQueue(cpu: nat, p: nat)
      requires Valid() && cpu < Now().Cpus() && Now().Proc(p)
      modifies this
      ensures Valid() && Now() == Dequeue(old(Now()), cpu, p) && lastSteal == old(lastSteal)
      ensures !Queued(old(lists), p) || owner[p] != cpu ==> Now() == old(Now()) && lists == old(lists)
      ensures Queued(old(lists), p) && owner[p] == cpu ==>
                && 0 <= level[p] < NUM_QUEUES && Rq(cpu, level[p]) < |old(lists)|
                && var r := Rq(cpu, level[p]);
                && p in old(lists)[r] && lists == old(lists)[r := Without(old(lists)[r], IndexOf(old(lists)[r], p))]
    {
      hide Ring, Without, IndexOf, Prev;
      ghost var s := Now();
      WhereQueued(s, lists, p, cpu);
      if level[p] < 0 || level[p] >= NUM_QUEUES {
        return;
      }
      RqFits(s, cpu, level[p]);
      var r := Rq(cpu, level[p]);
      HeadIs(s, lists, r);
      ghost var c := lists[r];
      if p in c {
        DequeueKeeps(s, lists, cpu, p, IndexOf(c, p));
      } else {
        DequeueMisses(s, lists, cpu, p);
      }
      var h := heads[r];
      if h == -1 {
        return;
      }
      if h == p && next[p] == p {
        heads := heads[r := -1];
      } else {
        var prev := h;
        ghost var i := 0;
        while next[prev] != p
          invariant 0 <= i < |c| && prev == c[i] && Now().Proc(prev) && Now() == s && h == c[0]
          invariant Prev(s.next, h, h, p, |s.next|) == Prev(s.next, h, prev, p, |s.next| - i) && |c| <= |s.next|
          invariant Valid() && lists == old(lists) && lastSteal == old(lastSteal)
          decreases |c| - i
        {
          NextInRing(s, lists, r, i);
          PrevUnfold(s.next, h, prev, p, |s.next| - i);
          prev := next[prev];
          if prev == h {
            NotInRing(s, lists, r, p, cpu);
            return;
          }
          i := i + 1;
        }
        PrevUnfold(s.next, h, prev, p, |s.next| - i);
        next := next[prev := next[p]];
        if h == p {
          heads := heads[r := next[p]];
        }
      }
      next := next[p := -1];
      if p in c {
        lists := lists[r := Without(c, IndexOf(c, p))];
      }
    }

    /** *head = (*head)->next. */
    method RotateHead(r: nat)
      requires Valid() && r < |lists| && |lists[r]| > 0
      modifies this
      ensures Valid() && Now() == Rotate(old(Now()), r) && lists == old(lists)[r := Rotated(old(lists)[r])]
    {
      hide Ring;
      HeadIs(Now(), lists, r);
      RotateKeeps(Now(), lists, r);
      lists := lists[r := Rotated(lists[r])];
      heads := heads[r := next[heads[r]]];
    }

    /** The process after the head of queue r goes to the queue of its level of this CPU. */
    method TakeFrom(me: nat, r: nat) returns (stolen: int)
      requires Valid() && me < Now().Cpus() && r < |lists| && |lists[r]| >= 2 && r / NUM_QUEUES != me
      modifies this
      ensures Valid() && lastSteal == old(lastSteal) && stolen == old(lists)[r][1] && Now() == Steal(old(Now()), me, r)
      ensures Rq(me, r % NUM_QUEUES) < |lists| && lists == StolenLists(old(lists), me, r)
    {
      hide Ring, AfterHead, Without;
      ghost var s := Now();
      HeadIs(s, lists, r);
      StealKeeps(s, lists, me, r);
      StealIs(s, lists, me, r);
      var h := heads[r];
      stolen := next[h];
      TakeSecond(s, lists, me, r);
      TakenUnqueued(s, lists, me, r);
      next := next[h := next[stolen]];
      next := next[stolen := -1];
      owner := owner[stolen := me];
      lists := lists[r := Without(lists[r], 1)];
      AddToQueue(me, stolen, level[stolen]);
    }

    /**
     * try_steal_work: at most once per interval, the process after the head of the first queue of another CPU that
     * has one to spare. Nothing is stolen only if no queue has.
     */
    method TryStealWork(me: nat, now: nat) returns (stolen: int)
      requires Valid() && me < Now().Cpus() && now < TWO32
      modifies this
      ensures Valid()
      ensures var throttled := now >= STEAL_MIN_INTERVAL && (now - old(lastSteal)[me]) % TWO32 < STEAL_MIN_INTERVAL;
              && lastSteal == (if throttled then old(lastSteal) else old(lastSteal)[me := now])
              && (throttled ==> stolen == -1)
              && (stolen == -1 ==> Now() == old(Now()) && lists == old(lists))
              && (stolen == -1 && !throttled ==> forall r: nat :: !Spare(old(lists), me, r))
      ensures stolen != -1 ==> StoleFirst(old(Now()), old(lists), me, stolen, Now(), lists)
    {
      hide Ring, AfterHead, Without;
      ghost var s := Now();
      if now >= STEAL_MIN_INTERVAL && (now - lastSteal[me]) % TWO32 < STEAL_MIN_INTERVAL {
        return -1;
      }
      lastSteal := lastSteal[me := now];
      var i := 0;
      while i < |heads| / NUM_QUEUES
        invariant Valid() && Now() == s && lists == old(lists) && lastSteal == old(lastSteal)[me := now]
                  && i <= s.Cpus()
        invariant forall r: nat :: r < NUM_QUEUES * i ==> !Spare(lists, me, r)
      {
        if i != me {
          var q := 0;
          while q < NUM_QUEUES
            invariant Valid() && Now() == s && lists == old(lists) && lastSteal == old(lastSteal)[me := now]
                      && q <= NUM_QUEUES
            invariant forall r: nat :: r < NUM_QUEUES * i + q ==> !Spare(lists, me, r)
          {
            RqFits(s, i, q);
            Pack(i, q);
            var r := Rq(i, q);
            HeadIs(s, lists, r);
            SpareIs(s, lists, me, r);
            var h := heads[r];
            if h != -1 && next[h] != h {
              stolen := TakeFrom(me, r);
              assert StoleAt(s, old(lists), me, r, stolen, Now(), lists);
              return;
            }
            q := q + 1;
          }
        } else {
          OwnQueues(lists, me);
        }
        i := i + 1;
      }
      stolen := -1;
      NoSpare(s, lists, me);
    }

    /**
     * demote_quantum_exhausted, for a process that this CPU owns; curRunning is its state, idle the idle process. Owning
     * it is exactly what keeps the queues intact (DemoteKeepsIff).
     */
    method DemoteQuantumExhausted(me: nat, cur: int, idle: int, curRunning: bool, quantumLeft: nat)
      requires Valid() && me < Now().Cpus()
      requires cur != -1 && cur != idle && curRunning && quantumLeft == 0 ==> Now().Proc(cur) && owner[cur] == me
      modifies this
      ensures Valid() && lastSteal == old(lastSteal)
      ensures cur == -1 || cur == idle || !curRunning || quantumLeft != 0 ==> Now() == old(Now()) && lists == old(lists)
      ensures cur != -1 && cur != idle && curRunning && quantumLeft == 0 ==>
                Now() == Demote(old(Now()), me, cur) && forall x: nat :: Queued(lists, x) <==> Queued(old(lists), x) || x == cur
      ensures cur != -1 && cur != idle && curRunning && quantumLeft == 0 ==>
                |level| == |old(level)|
                && level[cur] == if old(level[cur]) < 0 then 0 else if old(level[cur]) >= 3 then 3 else old(level[cur]) + 1
    {
      hide Ring, Without, AfterHead, IndexOf, Dropped, Queued;
      if cur == -1 || cur == idle || !curRunning || quantumLeft != 0 {
        return;
      }
      ghost var s := Now();
      DemoteKeeps(s, lists, me, cur);
      DropKeeps(s, lists, me, cur);
      RemovedIs(s, lists, me, cur);
      RemoveFromQueue(me, cur);
      var newQueue := if level[cur] + 1 >= NUM_QUEUES then NUM_QUEUES - 1 else level[cur] + 1;
      ClampSame(s, me, cur, newQueue);
      Unqueued(lists, cur);
      AddToQueue(me, cur, newQueue);
      forall x: nat
        ensures Queued(lists, x) <==> Queued(old(lists), x) || x == cur
      {
        DemotedMembers(s, old(lists), me, cur, x);
      }
    }
  }

  /** What RemoveFromQueue does to the lists is what Dropped says. */
  lemma RemovedIs(s: Queues, lists: seq<seq<nat>>, me: nat, p: nat)
    requires Inv(s, lists) && me < s.Cpus() && s.Proc(p) && s.owner[p] == me
    ensures Queued(lists, p) ==>
              && 0 <= s.level[p] < NUM_QUEUES && Rq(me, s.level[p]) < |lists|
              && var r := Rq(me, s.level[p]);
              && p in lists[r] && Dropped(lists, me, s.level[p], p) == lists[r := Without(lists[r], IndexOf(lists[r], p))]
    ensures !Queued(lists, p) ==> Dropped(lists, me, s.level[p], p) == lists
  {
    hide Ring, Without, IndexOf;
    WhereQueued(s, lists, p, me);
  }

  lemma Unqueued(lists: seq<seq<nat>>, p: nat)
    requires forall a :: 0 <= a < |lists| ==> p !in lists[a]
    ensures !Queued(lists, p)
  {
  }

  lemma ClampSame(s: Queues, me: nat, p: nat, q: int)
    requires s.Shaped() && me < s.Cpus() && s.Proc(p)
    requires q == if Dequeue(s, me, p).level[p] + 1 >= NUM_QUEUES then NUM_QUEUES - 1 else Dequeue(s, me, p).level[p] + 1
    ensures Clamp(q) == Clamp(Dequeue(s, me, p).level[p] + 1)
    ensures Enqueue(Dequeue(s, me, p), me, p, q) == Demote(s, me, p)
  {
  }

  /** The first queue with a process to spare was robbed of the one after its head. */
  ghost predicate StoleFirst(s: Queues, lists: seq<seq<nat>>, me: nat, p: int, t: Queues, more: seq<seq<nat>>) {
    && Inv(s, lists) && me < s.Cpus()
    && exists r: nat :: StoleAt(s, lists, me, r, p, t, more)
  }

  ghost predicate StoleAt(s: Queues, lists: seq<seq<nat>>, me: nat, r: nat, p: int, t: Queues, more: seq<seq<nat>>)
    requires s.Shaped() && |lists| == |s.heads| && me < s.Cpus()
  {
    && Spare(lists, me, r) && (forall a: nat :: a < r ==> !Spare(lists, me, a)) && p == lists[r][1]
    && t == Steal(s, me, r) && Rq(me, r % NUM_QUEUES) < |lists| && more == StolenLists(lists, me, r)
  }

  lemma HeadIs(s: Queues, lists: seq<seq<nat>>, r: nat)
    requires Inv(s, lists) && r < |lists|
    ensures s.heads[r] == (if |lists[r]| == 0 then -1 else lists[r][0])
    ensures s.heads[r] != -1 ==> s.Proc(s.heads[r])
    ensures |lists[r]| <= |s.next|
  {
    RingsBound(s, lists, r);
    assert Ring(s.next, s.heads[r], lists[r]);
    hide Succ;
  }

  lemma NextInRing(s: Queues, lists: seq<seq<nat>>, r: nat, i: nat)
    requires Inv(s, lists) && r < |lists| && i < |lists[r]|
    ensures lists[r][i] < |s.next| && s.next[lists[r][i]] == Succ(lists[r], i) && s.Proc(s.next[lists[r][i]])
    ensures s.next[lists[r][i]] == lists[r][0] <==> i + 1 == |lists[r]|
  {
    RingsBound(s, lists, r);
    assert Ring(s.next, s.heads[r], lists[r]);
    SuccIs(lists[r], i);
    hide Succ;
  }

  lemma PrevUnfold(next: seq<int>, head: int, at: int, p: nat, fuel: nat)
    requires fuel > 0 && 0 <= at < |next|
    ensures Prev(next, head, at, p, fuel) ==
              if next[at] == p then at else if next[at] == head then -1 else Prev(next, head, next[at], p, fuel - 1)
  {
  }

  lemma NotInRing(s: Queues, lists: seq<seq<nat>>, r: nat, p: nat, cpu: nat)
    requires Inv(s, lists) && cpu < s.Cpus() && s.Proc(p) && 0 <= s.level[p] < NUM_QUEUES && r == Rq(cpu, s.level[p])
             && r < |lists|
    requires |lists[r]| > 0 && Prev(s.next, lists[r][0], lists[r][0], p, |s.next|) == -1
    ensures p !in lists[r]
  {
    var c := lists[r];
    RingsBound(s, lists, r);
    assert Ring(s.next, s.heads[r], c);
    if p in c {
      PrevFinds(s.next, c, 0, IndexOf(c, p), |s.next|);
    }
  }

  /** A queued process is on the queue that its level and its owner name. */
  lemma WhereQueued(s: Queues, lists: seq<seq<nat>>, p: nat, cpu: nat)
    requires Inv(s, lists) && s.Proc(p)
    ensures Queued(lists, p) ==> 0 <= s.level[p] < NUM_QUEUES && Rq(s.owner[p], s.level[p]) < |lists| && p in lists[Rq(s.owner[p], s.level[p])]
    ensures s.owner[p] != cpu && 0 <= s.level[p] < NUM_QUEUES && Rq(cpu, s.level[p]) < |lists| ==>
              p !in lists[Rq(cpu, s.level[p])]
  {
    hide Ring;
    if Queued(lists, p) {
      var a :| 0 <= a < |lists| && p in lists[a];
      assert Home(s, a, p);
      Unpack(a);
    }
    if 0 <= s.level[p] < NUM_QUEUES && Rq(cpu, s.level[p]) < |lists| && p in lists[Rq(cpu, s.level[p])] {
      assert Home(s, Rq(cpu, s.level[p]), p);
      Pack(cpu, s.level[p]);
    }
  }

  lemma SpareIs(s: Queues, lists: seq<seq<nat>>, me: nat, r: nat)
    requires Inv(s, lists) && r < |lists| && r / NUM_QUEUES != me
    ensures Spare(lists, me, r) <==> s.heads[r] != -1 && s.Proc(s.heads[r]) && s.next[s.heads[r]] != s.heads[r]
  {
    HeadIs(s, lists, r);
    if |lists[r]| > 0 {
      NextInRing(s, lists, r, 0);
    }
    hide Ring, Succ;
  }

  lemma StealIs(s: Queues, lists: seq<seq<nat>>, me: nat, r: nat)
    requires Inv(s, lists) && me < s.Cpus() && r < |lists| && |lists[r]| >= 2
    ensures var c := lists[r];
            && c[0] < |s.next| && c[1] < |s.next| && s.next[c[0]] == c[1]
            && var u := s.(next := s.next[c[0] := s.next[c[1]]][c[1] := -1], owner := s.owner[c[1] := me]);
            && u.Shaped() && Steal(s, me, r) == Enqueue(u, me, c[1], u.level[c[1]])
            && 0 <= u.level[c[1]] < NUM_QUEUES && Clamp(u.level[c[1]]) == r % NUM_QUEUES
  {
    TakeSecond(s, lists, me, r);
    assert Home(s, r, lists[r][1]);
    hide Ring, Enqueue;
  }

  lemma TakenUnqueued(s: Queues, lists: seq<seq<nat>>, me: nat, r: nat)
    requires Inv(s, lists) && r < |lists| && |lists[r]| >= 2
    ensures !Queued(lists[r := Without(lists[r], 1)], lists[r][1])
  {
    WithoutMembers(s, lists, r, 1, lists[r][1]);
  }

  lemma OwnQueues(lists: seq<seq<nat>>, me: nat)
    ensures forall r: nat :: NUM_QUEUES * me <= r < NUM_QUEUES * me + NUM_QUEUES ==> !Spare(lists, me, r)
  {
  }

  lemma NoSpare(s: Queues, lists: seq<seq<nat>>, me: nat)
    requires s.Shaped() && |lists| == |s.heads| && forall r: nat :: r < NUM_QUEUES * s.Cpus() ==> !Spare(lists, me, r)
    ensures forall r: nat :: !Spare(lists, me, r)
  {
  }

  /**
   * A process that another CPU has stolen must not be demoted here: its old CPU finds it on no queue of its own and
   * enqueues it a second time, which breaks the thief's circle.
   */
  lemma DemotingStolenBreaks()
    ensures var s := Queues([1, 0], [0, 0], [1, 1], [-1, -1, -1, -1, 0, -1, -1, -1]);
            && Inv(s, [[], [], [], [], [0, 1], [], [], []])
            && forall lists :: !Inv(Demote(s, 0, 1), lists)
  {
    var s := Queues([1, 0], [0, 0], [1, 1], [-1, -1, -1, -1, 0, -1, -1, -1]);
    DemoteKeepsIff(s, [[], [], [], [], [0, 1], [], [], []], 0, 1);
    hide Demote;
  }
}
