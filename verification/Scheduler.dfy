/** Runs of scheduler operations, and the scheduler's own loops (src/kernel/core/sched.c:63-233). */
module Scheduler {
  import opened NumberLists
  import opened SchedQueues
  import opened SchedInvariant

  // ----- Every sequence of operations -----

  datatype Op =
    | Add(cpu: nat, p: nat)         // scheduler_add_process places p on a CPU
    | Remove(p: nat)                // scheduler_remove_process
    | RotateHead(r: nat)            // *head = (*head)->next
    | StealFrom(me: nat, r: nat)    // try_steal_work finds queue r of another CPU
    | DemoteOn(me: nat, p: nat)     // demote_quantum_exhausted

  function Do(s: Queues, op: Op): Queues
    requires s.Shaped()
  {
    match op
    case Add(cpu, p) => if cpu < s.Cpus() && s.Proc(p) then Enqueue(s.(owner := s.owner[p := cpu]), cpu, p, 0) else s
    case Remove(p) => if s.Proc(p) && s.owner[p] < s.Cpus() then Dequeue(s, s.owner[p], p) else s
    case RotateHead(r) => if r < |s.heads| then Rotate(s, r) else s
    case StealFrom(me, r) => if me < s.Cpus() && r < |s.heads| then Steal(s, me, r) else s
    case DemoteOn(me, p) => if me < s.Cpus() && s.Proc(p) then Demote(s, me, p) else s
  }

  /** The queues as lists: what each operation means. */
  ghost function DoLists(s: Queues, lists: seq<seq<nat>>, op: Op): seq<seq<nat>>
    requires Inv(s, lists) && Allowed(s, lists, op)
  {
    match op
    case Add(cpu, p) =>
      RqFits(s, cpu, 0);
      lists[Rq(cpu, 0) := AfterHead(lists[Rq(cpu, 0)], p)]
    case Remove(p) =>
      if 0 <= s.level[p] < NUM_QUEUES && Rq(s.owner[p], s.level[p]) < |lists| then
        var r := Rq(s.owner[p], s.level[p]);
        if p in lists[r] then lists[r := Without(lists[r], IndexOf(lists[r], p))] else lists
      else lists
    case RotateHead(r) => lists[r := Rotated(lists[r])]
    case StealFrom(me, r) =>
      RqFits(s, me, r % NUM_QUEUES);
      if |lists[r]| >= 2 then StolenLists(lists, me, r) else lists
    case DemoteOn(me, p) =>
      RqFits(s, me, Clamp(s.level[p] + 1));
      DemotedLists(lists, me, s.level[p], p)
  }

  /** Only an unqueued process is added, only a queue with processes rotates, only a process of this CPU is demoted. */
  ghost predicate Allowed(s: Queues, lists: seq<seq<nat>>, op: Op)
    requires s.Shaped() && |lists| == |s.heads|
  {
    match op
    case Add(cpu, p) => cpu < s.Cpus() && s.Proc(p) && !Queued(lists, p)
    case Remove(p) => s.Proc(p) && s.owner[p] < s.Cpus()
    case RotateHead(r) => r < |lists| && |lists[r]| > 0
    case StealFrom(me, r) => me < s.Cpus() && r < |lists| && r / NUM_QUEUES != me
    case DemoteOn(me, p) => me < s.Cpus() && s.Proc(p) && s.owner[p] == me
  }

  lemma AddKeeps(s: Queues, lists: seq<seq<nat>>, cpu: nat, p: nat)
    requires Inv(s, lists) && cpu < s.Cpus() && s.Proc(p) && !Queued(lists, p)
    ensures Inv(Do(s, Add(cpu, p)), DoLists(s, lists, Add(cpu, p)))
  {
    var u := s.(owner := s.owner[p := cpu]);
    hide Ring, Enqueue, AfterHead;
    forall r, x | 0 <= r < |lists| && x in lists[r]
      ensures Home(u, r, x)
    {
      assert Home(s, r, x);
    }
    EnqueueKeeps(u, lists, cpu, p, 0);
  }

  lemma RemoveKeeps(s: Queues, lists: seq<seq<nat>>, p: nat)
    requires Inv(s, lists) && s.Proc(p) && s.owner[p] < s.Cpus()
    ensures Inv(Do(s, Remove(p)), DoLists(s, lists, Remove(p)))
  {
    hide Ring, Dequeue, Without, IndexOf;
    var cpu := s.owner[p];
    if 0 <= s.level[p] < NUM_QUEUES {
      RqFits(s, cpu, s.level[p]);
      var r := Rq(cpu, s.level[p]);
      if p in lists[r] {
        DequeueKeeps(s, lists, cpu, p, IndexOf(lists[r], p));
      } else {
        DequeueMisses(s, lists, cpu, p);
      }
    } else {
      DequeueMisses(s, lists, cpu, p);
    }
  }

  /** A queue with fewer than two processes is passed over. */
  lemma StealMisses(s: Queues, lists: seq<seq<nat>>, me: nat, r: nat)
    requires Inv(s, lists) && me < s.Cpus() && r < |lists| && |lists[r]| < 2
    ensures Steal(s, me, r) == s
  {
    var c := lists[r];
    assert Ring(s.next, s.heads[r], c);
    if |c| == 1 {
      SuccIs(c, 0);
    }
    hide Enqueue, Succ;
  }

  lemma StepKeeps(s: Queues, lists: seq<seq<nat>>, op: Op)
    requires Inv(s, lists) && Allowed(s, lists, op)
    ensures Inv(Do(s, op), DoLists(s, lists, op))
  {
    hide Ring, Enqueue, Dequeue, Steal, Rotate, Demote, AfterHead, Without, Rotated, StolenLists, DemotedLists, IndexOf;
    match op
    case Add(cpu, p) => AddKeeps(s, lists, cpu, p);
    case Remove(p) => RemoveKeeps(s, lists, p);
    case RotateHead(r) => RotateKeeps(s, lists, r);
    case StealFrom(me, r) =>
      if |lists[r]| >= 2 {
        StealKeeps(s, lists, me, r);
      } else {
        StealMisses(s, lists, me, r);
      }
    case DemoteOn(me, p) => DemoteKeeps(s, lists, me, p);
  }

  /** Every operation is allowed where it happens; the state and the lists it leads to. */
  ghost predicate Leads(s: Queues, lists: seq<seq<nat>>, ops: seq<Op>, t: Queues, more: seq<seq<nat>>)
    decreases |ops|
  {
    if |ops| == 0 then t == s && more == lists
    else
      && Inv(s, lists) && Allowed(s, lists, ops[0])
      && Leads(Do(s, ops[0]), DoLists(s, lists, ops[0]), ops[1..], t, more)
  }

  /** The run queues stay intact over every run. */
  lemma {:induction false} RunKeeps(s: Queues, lists: seq<seq<nat>>, ops: seq<Op>, t: Queues, more: seq<seq<nat>>)
    requires Inv(s, lists) && Leads(s, lists, ops, t, more)
    ensures Inv(t, more)
    decreases |ops|
  {
    hide Ring, Do, DoLists, Allowed;
    if |ops| > 0 {
      StepKeeps(s, lists, ops[0]);
      RunKeeps(Do(s, ops[0]), DoLists(s, lists, ops[0]), ops[1..], t, more);
    }
  }

  /** No operation but adding and demoting puts a process on a queue, and none but removing takes one off. */
  lemma QueuedChanges(s: Queues, lists: seq<seq<nat>>, op: Op, x: nat)
    requires Inv(s, lists) && Allowed(s, lists, op)
    ensures Queued(DoLists(s, lists, op), x) <==>
              (Queued(lists, x) && !(op.Remove? && op.p == x)) || ((op.Add? || op.DemoteOn?) && op.p == x)
  {
    hide AfterHead, Without, Rotated, Ring, IndexOf;
    match op
    case Add(cpu, p) =>
      RqFits(s, cpu, 0);
      RingNoDup(s, lists, Rq(cpu, 0));
      AddedMembers(lists, Rq(cpu, 0), p, x);
    case Remove(p) => RemovedMembers(s, lists, p, x);
    case RotateHead(r) =>
      RingNoDup(s, lists, r);
      RotatedNoDup(lists[r]);
      SameMembers(lists, lists[r := Rotated(lists[r])], r, x);
    case StealFrom(me, r) =>
      if |lists[r]| >= 2 {
        StealConserves(s, lists, me, r);
      }
    case DemoteOn(me, p) => DemotedMembers(s, lists, me, p, x);
  }

  lemma RingNoDup(s: Queues, lists: seq<seq<nat>>, r: nat)
    requires Inv(s, lists) && r < |lists|
    ensures NoDup(lists[r])
  {
  }

  lemma AddedMembers(lists: seq<seq<nat>>, r: nat, p: nat, x: nat)
    requires r < |lists| && NoDup(lists[r]) && p !in lists[r]
    ensures Queued(lists[r := AfterHead(lists[r], p)], x) <==> Queued(lists, x) || x == p
  {
    AfterHeadNoDup(lists[r], p);
    hide AfterHead;
    var more := lists[r := AfterHead(lists[r], p)];
    if Queued(more, x) {
      var a :| 0 <= a < |more| && x in more[a];
      assert x != p ==> x in lists[a];
    }
    if Queued(lists, x) {
      var a :| 0 <= a < |lists| && x in lists[a];
      assert x in more[a];
    }
    assert p in more[r];
  }

  lemma SameMembers(lists: seq<seq<nat>>, more: seq<seq<nat>>, r: nat, x: nat)
    requires r < |lists| == |more| && (forall y: nat :: y in more[r] <==> y in lists[r])
    requires forall a :: 0 <= a < |lists| && a != r ==> more[a] == lists[a]
    ensures Queued(more, x) <==> Queued(lists, x)
  {
    if Queued(more, x) {
      var a :| 0 <= a < |more| && x in more[a];
      assert x in lists[a];
    }
    if Queued(lists, x) {
      var a :| 0 <= a < |lists| && x in lists[a];
      assert x in more[a];
    }
  }

  lemma WithoutMembers(s: Queues, lists: seq<seq<nat>>, r: nat, j: nat, x: nat)
    requires Inv(s, lists) && r < |lists| && j < |lists[r]|
    ensures Queued(lists[r := Without(lists[r], j)], x) <==> Queued(lists, x) && x != lists[r][j]
    ensures !Queued(lists[r := Without(lists[r], j)], lists[r][j])
  {
    RingNoDup(s, lists, r);
    WithoutNoDup(lists[r], j);
    hide Without, Ring;
    var p, less := lists[r][j], lists[r := Without(lists[r], j)];
    forall a | 0 <= a < |lists|
      ensures p !in less[a]
    {
      if a != r && p in lists[a] {
        AtMostOne(s, lists, a, r, p);
      }
    }
    if Queued(less, x) {
      var a :| 0 <= a < |less| && x in less[a];
      assert x in lists[a];
    }
    if Queued(lists, x) && x != p {
      var a :| 0 <= a < |lists| && x in lists[a];
      assert x in less[a];
    }
  }

  lemma RemovedMembers(s: Queues, lists: seq<seq<nat>>, p: nat, x: nat)
    requires Inv(s, lists) && s.Proc(p) && s.owner[p] < s.Cpus()
    ensures Queued(DoLists(s, lists, Remove(p)), x) <==> Queued(lists, x) && x != p
  {
    hide Without, Ring, IndexOf;
    if Queued(lists, p) {
      var a :| 0 <= a < |lists| && p in lists[a];
      AtMostOne(s, lists, a, a, p);
      assert Home(s, a, p);
      WithoutMembers(s, lists, a, IndexOf(lists[a], p), x);
    }
  }

  /** Dropping p from its queue leaves every other process where it was. */
  lemma DroppedMembers(s: Queues, lists: seq<seq<nat>>, me: nat, p: nat, x: nat)
    requires Inv(s, lists) && me < s.Cpus() && s.Proc(p) && s.owner[p] == me && x != p
    ensures Queued(Dropped(lists, me, s.level[p], p), x) <==> Queued(lists, x)
  {
    hide Ring, Without, IndexOf, Queued;
    if 0 <= s.level[p] < NUM_QUEUES && Rq(me, s.level[p]) < |lists| && p in lists[Rq(me, s.level[p])] {
      WithoutMembers(s, lists, Rq(me, s.level[p]), IndexOf(lists[Rq(me, s.level[p])], p), x);
    }
  }

  lemma DemotedMembers(s: Queues, lists: seq<seq<nat>>, me: nat, p: nat, x: nat)
    requires Inv(s, lists) && Allowed(s, lists, DemoteOn(me, p))
    ensures Queued(DoLists(s, lists, DemoteOn(me, p)), x) <==> Queued(lists, x) || x == p
  {
    hide Ring, Dropped, AfterHead, Queued, Dequeue;
    var to := Rq(me, Clamp(s.level[p] + 1));
    RqFits(s, me, Clamp(s.level[p] + 1));
    var less := Dropped(lists, me, s.level[p], p);
    DropKeeps(s, lists, me, p);
    RingNoDup(Dequeue(s, me, p), less, to);
    AddedMembers(less, to, p, x);
    if x != p {
      DroppedMembers(s, lists, me, p, x);
    }
  }
}
