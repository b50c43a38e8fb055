/** What every scheduler operation keeps: closed cycles, one queue per process (src/kernel/core/sched.c:63-103, 156-233). */
module SchedInvariant {
  import opened NumberLists
  import opened SchedQueues

  /** Every queue is one cycle, and a process is only on the queue that its level and its owner name. */
  ghost predicate Inv(s: Queues, lists: seq<seq<nat>>) {
    && s.Shaped() && |lists| == |s.heads|
    && (forall r :: 0 <= r < |lists| ==> Ring(s.next, s.heads[r], lists[r]))
    && (forall r, p :: 0 <= r < |lists| && p in lists[r] ==> Home(s, r, p))
  }

  /** Process p belongs on queue r. */
  predicate Home(s: Queues, r: nat, p: nat) {
    s.Shaped() && s.Proc(p) && s.level[p] == r % NUM_QUEUES && s.owner[p] == r / NUM_QUEUES
  }

  ghost predicate Queued(lists: seq<seq<nat>>, p: nat) {
    exists r :: 0 <= r < |lists| && p in lists[r]
  }

  /** Each process is on at most one queue, at its own level of its own CPU. */
  lemma AtMostOne(s: Queues, lists: seq<seq<nat>>, a: nat, b: nat, p: nat)
    requires Inv(s, lists) && a < |lists| && b < |lists| && p in lists[a] && p in lists[b]
    ensures a == b && a == Rq(s.owner[p], s.level[p])
  {
    hide Ring;
    assert Home(s, a, p) && Home(s, b, p);
    Unpack(a);
    Unpack(b);
  }

  lemma Unpack(r: nat)
    ensures r == Rq(r / NUM_QUEUES, r % NUM_QUEUES)
  {
  }

  lemma Pack(cpu: nat, q: nat)
    requires q < NUM_QUEUES
    ensures Rq(cpu, q) / NUM_QUEUES == cpu && Rq(cpu, q) % NUM_QUEUES == q
  {
  }

  lemma RingsBound(s: Queues, lists: seq<seq<nat>>, r: nat)
    requires Inv(s, lists) && r < |lists|
    ensures forall i :: 0 <= i < |lists[r]| ==> lists[r][i] < |s.next|
    ensures |lists[r]| <= |s.next|
  {
    RingBounds(s.next, s.heads[r], lists[r]);
    hide Ring;
  }

  // ----- add_to_queue -----

  lemma EnqueueKeeps(s: Queues, lists: seq<seq<nat>>, cpu: nat, p: nat, q: int)
    requires Inv(s, lists) && cpu < s.Cpus() && s.Proc(p) && s.owner[p] == cpu
    requires forall r :: 0 <= r < |lists| ==> p !in lists[r]
    ensures Rq(cpu, Clamp(q)) < |lists|
    ensures Inv(Enqueue(s, cpu, p, q), lists[Rq(cpu, Clamp(q)) := AfterHead(lists[Rq(cpu, Clamp(q))], p)])
  {
    var lv := Clamp(q);
    RqFits(s, cpu, lv);
    Pack(cpu, lv);
    var r := Rq(cpu, lv);
    var c := lists[r];
    assert Ring(s.next, s.heads[r], c);
    var t, more := Enqueue(s, cpu, p, q), lists[r := AfterHead(c, p)];
    AfterHeadNoDup(c, p);
    RingsBound(s, lists, r);
    if |c| > 0 {
      RingInsert(s.next, c, p);
      assert t.next == s.next[p := s.next[c[0]]][c[0] := p];
    } else {
      RingOne(s.next, p);
    }
    assert Ring(t.next, t.heads[r], more[r]);
    EnqueueRings(s, lists, t, p, r);
    hide Ring, Enqueue, AfterHead;
    forall a, x | 0 <= a < |more| && x in more[a]
      ensures Home(t, a, x)
    {
      assert x != p ==> x in lists[a] && Home(s, a, x);
    }
  }

  /** Enqueueing on r leaves the other rings alone. */
  lemma EnqueueRings(s: Queues, lists: seq<seq<nat>>, t: Queues, p: nat, r: nat)
    requires Inv(s, lists) && r < |lists| && s.Proc(p) && (forall a :: 0 <= a < |lists| ==> p !in lists[a])
    requires |t.next| == |s.next|
    requires if |lists[r]| == 0 then t.next == s.next[p := p]
             else lists[r][0] < |s.next| && t.next == s.next[p := s.next[lists[r][0]]][lists[r][0] := p]
    ensures forall a :: 0 <= a < |lists| && a != r ==> Ring(t.next, s.heads[a], lists[a])
  {
    hide Ring;
    forall a | 0 <= a < |lists| && a != r
      ensures Ring(t.next, s.heads[a], lists[a])
    {
      if |lists[r]| == 0 {
        RingFrame(s.next, s.heads[a], lists[a], p, p);
      } else {
        var h := lists[r][0];
        if h in lists[a] {
          AtMostOne(s, lists, a, r, h);
        }
        RingFrame(s.next, s.heads[a], lists[a], p, s.next[h]);
        RingFrame(s.next[p := s.next[h]], s.heads[a], lists[a], h, p);
      }
    }
  }

  // ----- remove_from_queue -----

  /** Two next pointers inside list r change: the other rings stay. */
  lemma TwoFrame(s: Queues, lists: seq<seq<nat>>, r: nat, x: nat, v: int, y: nat, w: int)
    requires Inv(s, lists) && r < |lists| && x in lists[r] && y in lists[r] && s.Proc(x) && s.Proc(y)
    ensures forall a :: 0 <= a < |lists| && a != r ==> Ring(s.next[x := v][y := w], s.heads[a], lists[a])
  {
    hide Ring;
    forall a | 0 <= a < |lists| && a != r
      ensures Ring(s.next[x := v][y := w], s.heads[a], lists[a])
    {
      if x in lists[a] {
        AtMostOne(s, lists, a, r, x);
      }
      if y in lists[a] {
        AtMostOne(s, lists, a, r, y);
      }
      RingFrame(s.next, s.heads[a], lists[a], x, v);
      RingFrame(s.next[x := v], s.heads[a], lists[a], y, w);
    }
  }

  lemma DequeueShape(s: Queues, lists: seq<seq<nat>>, cpu: nat, p: nat, j: nat)
    requires Inv(s, lists) && cpu < s.Cpus() && s.Proc(p) && 0 <= s.level[p] < NUM_QUEUES
    requires Rq(cpu, s.level[p]) < |lists| && j < |lists[Rq(cpu, s.level[p])]| && lists[Rq(cpu, s.level[p])][j] == p
    ensures var r := Rq(cpu, s.level[p]);
            var c := lists[r];
            var before := if j == 0 then c[|c| - 1] else c[j - 1];
            Dequeue(s, cpu, p) ==
              if |c| == 1 then s.(heads := s.heads[r := -1], next := s.next[p := -1])
              else s.(next := s.next[before := s.next[p]][p := -1], heads := if j == 0 then s.heads[r := s.next[p]] else s.heads)
  {
    var r := Rq(cpu, s.level[p]);
    var c := lists[r];
    assert Ring(s.next, s.heads[r], c);
    RingsBound(s, lists, r);
    SuccIs(c, j);
    hide Succ;
    if |c| > 1 {
      PrevFinds(s.next, c, 0, j, |s.next|);
      assert j == 0 ==> s.next[p] != p;
    }
  }

  lemma DequeueKeeps(s: Queues, lists: seq<seq<nat>>, cpu: nat, p: nat, j: nat)
    requires Inv(s, lists) && cpu < s.Cpus() && s.Proc(p) && 0 <= s.level[p] < NUM_QUEUES
    requires Rq(cpu, s.level[p]) < |lists| && j < |lists[Rq(cpu, s.level[p])]| && lists[Rq(cpu, s.level[p])][j] == p
    ensures var r := Rq(cpu, s.level[p]); Inv(Dequeue(s, cpu, p), lists[r := Without(lists[r], j)])
    ensures Dequeue(s, cpu, p).next[p] == -1
  {
    hide Ring, Dequeue, Without, Succ;
    DequeueShape(s, lists, cpu, p, j);
    var r := Rq(cpu, s.level[p]);
    var c := lists[r];
    RingFacts(s.next, s.heads[r], c, j);
    RingsBound(s, lists, r);
    WithoutNoDup(c, j);
    var t, less := Dequeue(s, cpu, p), lists[r := Without(c, j)];
    if |c| == 1 {
      TwoFrame(s, lists, r, p, -1, p, -1);
      assert s.next[p := -1][p := -1] == s.next[p := -1];
      EmptyRing(t.next, c);
    } else {
      var before := if j == 0 then c[|c| - 1] else c[j - 1];
      RingRemove(s.next, c, j);
      TwoFrame(s, lists, r, before, s.next[p], p, -1);
    }
    forall a, x | 0 <= a < |less| && x in less[a]
      ensures Home(t, a, x)
    {
      assert x in lists[a] && Home(s, a, x);
    }
  }

  lemma RingFacts(next: seq<int>, head: int, c: seq<nat>, j: nat)
    requires Ring(next, head, c) && j < |c|
    ensures NoDup(c) && head == c[0] && c[j] < |next| && (j + 1 < |c| ==> next[c[j]] == c[j + 1])
  {
  }

  lemma EmptyRing(next: seq<int>, c: seq<nat>)
    requires |c| == 1
    ensures Ring(next, -1, Without(c, 0))
  {
  }

  /** The walk comes round to the head, and nothing changes. */
  lemma DequeueMisses(s: Queues, lists: seq<seq<nat>>, cpu: nat, p: nat)
    requires Inv(s, lists) && cpu < s.Cpus() && s.Proc(p)
    requires 0 <= s.level[p] < NUM_QUEUES && Rq(cpu, s.level[p]) < |lists| ==> p !in lists[Rq(cpu, s.level[p])]
    ensures Dequeue(s, cpu, p) == s
  {
    if 0 <= s.level[p] < NUM_QUEUES {
      RqFits(s, cpu, s.level[p]);
      var r := Rq(cpu, s.level[p]);
      var c := lists[r];
      assert Ring(s.next, s.heads[r], c);
      if |c| > 0 {
        PrevMisses(s.next, c, 0, p, |s.next|);
      }
    }
  }

  // ----- Rotation and stealing -----

  lemma RotateKeeps(s: Queues, lists: seq<seq<nat>>, r: nat)
    requires Inv(s, lists) && r < |lists| && |lists[r]| > 0
    ensures Inv(Rotate(s, r), lists[r := Rotated(lists[r])])
  {
    var c := lists[r];
    assert Ring(s.next, s.heads[r], c);
    RingRotate(s.next, c);
    RotatedNoDup(c);
    var t, more := Rotate(s, r), lists[r := Rotated(c)];
    hide Ring, Rotated;
    forall a, x | 0 <= a < |more| && x in more[a]
      ensures Home(t, a, x)
    {
      assert x in lists[a] && Home(s, a, x);
    }
  }

  /** Queue r once the process after its head is taken away. */
  lemma TakeSecond(s: Queues, lists: seq<seq<nat>>, me: nat, r: nat)
    requires Inv(s, lists) && me < s.Cpus() && r < |lists| && |lists[r]| >= 2
    ensures var c := lists[r];
            && c[0] < |s.next| && c[1] < |s.next| && s.heads[r] == c[0] && s.next[c[0]] == c[1] && c[1] != c[0]
            && Inv(s.(next := s.next[c[0] := s.next[c[1]]][c[1] := -1], owner := s.owner[c[1] := me]), lists[r := Without(c, 1)])
  {
    var c := lists[r];
    assert Ring(s.next, s.heads[r], c);
    RingsBound(s, lists, r);
    SuccIs(c, 0);
    RingRemove(s.next, c, 1);
    WithoutNoDup(c, 1);
    TwoFrame(s, lists, r, c[0], s.next[c[1]], c[1], -1);
    var t, less := s.(next := s.next[c[0] := s.next[c[1]]][c[1] := -1], owner := s.owner[c[1] := me]), lists[r := Without(c, 1)];
    hide Ring, Without, Succ;
    forall a, x | 0 <= a < |less| && x in less[a]
      ensures Home(t, a, x)
    {
      assert x in lists[a] && Home(s, a, x);
      if x == c[1] {
        AtMostOne(s, lists, a, r, x);
      }
    }
  }

  /** Where a stolen process ends up. */
  function StolenLists(lists: seq<seq<nat>>, me: nat, r: nat): seq<seq<nat>>
    requires r < |lists| && |lists[r]| >= 2 && Rq(me, r % NUM_QUEUES) < |lists|
  {
    var less := lists[r := Without(lists[r], 1)];
    var to := Rq(me, r % NUM_QUEUES);
    less[to := AfterHead(less[to], lists[r][1])]
  }

  lemma StealKeeps(s: Queues, lists: seq<seq<nat>>, me: nat, r: nat)
    requires Inv(s, lists) && me < s.Cpus() && r < |lists| && |lists[r]| >= 2
    ensures Rq(me, r % NUM_QUEUES) < |lists| && Inv(Steal(s, me, r), StolenLists(lists, me, r))
  {
    RqFits(s, me, r % NUM_QUEUES);
    TakeSecond(s, lists, me, r);
    var c := lists[r];
    var p := c[1];
    var u, less := s.(next := s.next[c[0] := s.next[p]][p := -1], owner := s.owner[p := me]), lists[r := Without(c, 1)];
    assert Ring(s.next, s.heads[r], c);
    WithoutNoDup(c, 1);
    assert Home(s, r, p);
    hide Ring, Without, Enqueue;
    forall a | 0 <= a < |less|
      ensures p !in less[a]
    {
      if a != r && p in lists[a] {
        AtMostOne(s, lists, a, r, p);
      }
    }
    EnqueueKeeps(u, less, me, p, u.level[p]);
    assert Steal(s, me, r) == Enqueue(u, me, p, u.level[p]);
  }

  /** Stealing moves one process to the thief and loses none; the victim's queue keeps its head. */
  lemma StealConserves(s: Queues, lists: seq<seq<nat>>, me: nat, r: nat)
    requires Inv(s, lists) && me < s.Cpus() && r < |lists| && |lists[r]| >= 2 && r / NUM_QUEUES != me
    ensures var more := StolenLists(lists, me, r);
            && |more| == |lists|
            && (forall p: nat :: Queued(more, p) <==> Queued(lists, p))
            && |more[r]| == |lists[r]| - 1 && more[r][0] == lists[r][0]
            && lists[r][1] in more[Rq(me, r % NUM_QUEUES)]
            && (forall a :: 0 <= a < |lists| && a != r && a != Rq(me, r % NUM_QUEUES) ==> more[a] == lists[a])
  {
    var more, to, c := StolenLists(lists, me, r), Rq(me, r % NUM_QUEUES), lists[r];
    RqFits(s, me, r % NUM_QUEUES);
    Pack(me, r % NUM_QUEUES);
    assert Ring(s.next, s.heads[r], c) && Ring(s.next, s.heads[to], lists[to]);
    WithoutNoDup(c, 1);
    if c[1] in lists[to] {
      AtMostOne(s, lists, to, r, c[1]);
    }
    AfterHeadNoDup(lists[to], c[1]);
    hide Ring, Inv;
    StolenMembers(lists, more, r, to, c[1]);
  }

  lemma StolenMembers(lists: seq<seq<nat>>, more: seq<seq<nat>>, r: nat, to: nat, p: nat)
    requires |more| == |lists| && r < |lists| && to < |lists| && r != to && p in lists[r]
    requires forall x: nat :: x in more[r] <==> x in lists[r] && x != p
    requires forall x: nat :: x in more[to] <==> x == p || x in lists[to]
    requires forall a :: 0 <= a < |lists| && a != r && a != to ==> more[a] == lists[a]
    ensures forall x: nat :: Queued(more, x) <==> Queued(lists, x)
  {
    forall x: nat
      ensures Queued(more, x) <==> Queued(lists, x)
    {
      if Queued(more, x) {
        var a :| 0 <= a < |more| && x in more[a];
        assert x in lists[if x == p then r else a];
      }
      if Queued(lists, x) {
        var a :| 0 <= a < |lists| && x in lists[a];
        assert x in more[if x == p then to else a];
      }
    }
  }

  // ----- Demotion -----

  /** The lists once p is off its queue, if it was on the one that its level names on this CPU. */
  function Dropped(lists: seq<seq<nat>>, me: nat, q: int, p: nat): (less: seq<seq<nat>>)
    ensures |less| == |lists|
  {
    if 0 <= q < NUM_QUEUES && Rq(me, q) < |lists| && p in lists[Rq(me, q)] then
      lists[Rq(me, q) := Without(lists[Rq(me, q)], IndexOf(lists[Rq(me, q)], p))]
    else lists
  }

  function DemotedLists(lists: seq<seq<nat>>, me: nat, q: int, p: nat): seq<seq<nat>>
    requires Rq(me, Clamp(q + 1)) < |lists|
  {
    var less, to := Dropped(lists, me, q, p), Rq(me, Clamp(q + 1));
    less[to := AfterHead(less[to], p)]
  }

  /** remove_from_queue on the owner: afterwards p is on no queue. */
  lemma DropKeeps(s: Queues, lists: seq<seq<nat>>, me: nat, p: nat)
    requires Inv(s, lists) && me < s.Cpus() && s.Proc(p) && s.owner[p] == me
    ensures var u, less := Dequeue(s, me, p), Dropped(lists, me, s.level[p], p);
            && Inv(u, less) && u.level == s.level && u.owner == s.owner
            && forall a :: 0 <= a < |less| ==> p !in less[a]
  {
    hide Ring, Without, Dequeue, IndexOf;
    if 0 <= s.level[p] < NUM_QUEUES && Rq(me, s.level[p]) < |lists| && p in lists[Rq(me, s.level[p])] {
      var j := IndexOf(lists[Rq(me, s.level[p])], p);
      DequeueKeeps(s, lists, me, p, j);
      DequeuedOut(s, lists, me, p, j);
    } else {
      DequeueMisses(s, lists, me, p);
      forall a | 0 <= a < |lists|
        ensures p !in lists[a]
      {
        if p in lists[a] {
          assert Home(s, a, p);
          AtMostOne(s, lists, a, a, p);
        }
      }
    }
  }

  /** A process that this CPU owns goes one level down. */
  lemma DemoteKeeps(s: Queues, lists: seq<seq<nat>>, me: nat, p: nat)
    requires Inv(s, lists) && me < s.Cpus() && s.Proc(p) && s.owner[p] == me
    ensures Rq(me, Clamp(s.level[p] + 1)) < |lists|
    ensures Inv(Demote(s, me, p), DemotedLists(lists, me, s.level[p], p))
    ensures Demote(s, me, p).level[p] == if s.level[p] < 0 then 0 else if s.level[p] >= 3 then 3 else s.level[p] + 1
  {
    hide Ring, Dropped, Dequeue, Home;
    RqFits(s, me, Clamp(s.level[p] + 1));
    DropKeeps(s, lists, me, p);
    EnqueueKeeps(Dequeue(s, me, p), Dropped(lists, me, s.level[p], p), me, p, s.level[p] + 1);
  }

  /** Right after an enqueue the process follows the head of the queue, so it must belong there. */
  lemma EnqueuedIsHome(s: Queues, cpu: nat, p: nat, q: int, more: seq<seq<nat>>)
    requires s.Shaped() && cpu < s.Cpus() && s.Proc(p) && Inv(Enqueue(s, cpu, p, q), more)
    requires Rq(cpu, Clamp(q)) < |s.heads| && s.heads[Rq(cpu, Clamp(q))] != p
    ensures s.owner[p] == cpu
  {
    var t, r := Enqueue(s, cpu, p, q), Rq(cpu, Clamp(q));
    Pack(cpu, Clamp(q));
    assert Ring(t.next, t.heads[r], more[r]);
    SuccIs(more[r], 0);
    assert p in more[r] && Home(t, r, p);
  }

  /** Demoting a process that this CPU does not own leaves no intact queues. */
  lemma ForeignBreaks(s: Queues, lists: seq<seq<nat>>, me: nat, p: nat, more: seq<seq<nat>>)
    requires Inv(s, lists) && me < s.Cpus() && s.Proc(p) && s.owner[p] != me
    ensures !Inv(Demote(s, me, p), more)
  {
    hide Ring, Dequeue, Enqueue;
    forall q | 0 <= q < NUM_QUEUES && Rq(me, q) < |lists|
      ensures p !in lists[Rq(me, q)]
    {
      Pack(me, q);
      assert p in lists[Rq(me, q)] ==> Home(s, Rq(me, q), p);
    }
    DequeueMisses(s, lists, me, p);
    RqFits(s, me, Clamp(s.level[p] + 1));
    HeadListed(s, lists, Rq(me, Clamp(s.level[p] + 1)));
    if Inv(Demote(s, me, p), more) {
      EnqueuedIsHome(s, me, p, s.level[p] + 1, more);
    }
  }

  lemma HeadListed(s: Queues, lists: seq<seq<nat>>, r: nat)
    requires Inv(s, lists) && r < |lists|
    ensures s.heads[r] == -1 || (s.heads[r] >= 0 && s.heads[r] in lists[r])
  {
    assert Ring(s.next, s.heads[r], lists[r]);
  }

  /** Demotion keeps the queues intact if and only if this CPU owns the process. */
  lemma DemoteKeepsIff(s: Queues, lists: seq<seq<nat>>, me: nat, p: nat)
    requires Inv(s, lists) && me < s.Cpus() && s.Proc(p)
    ensures (exists more :: Inv(Demote(s, me, p), more)) <==> s.owner[p] == me
  {
    hide Ring, Home, Demote;
    if s.owner[p] == me {
      DemoteKeeps(s, lists, me, p);
    } else {
      forall more
        ensures !Inv(Demote(s, me, p), more)
      {
        ForeignBreaks(s, lists, me, p, more);
      }
    }
  }

  /** A process taken off its queue is on none. */
  lemma DequeuedOut(s: Queues, lists: seq<seq<nat>>, me: nat, p: nat, j: nat)
    requires Inv(s, lists) && me < s.Cpus() && s.Proc(p) && 0 <= s.level[p] < NUM_QUEUES
    requires Rq(me, s.level[p]) < |lists| && j < |lists[Rq(me, s.level[p])]| && lists[Rq(me, s.level[p])][j] == p
    ensures var r := Rq(me, s.level[p]);
            var less := lists[r := Without(lists[r], j)];
            forall a :: 0 <= a < |less| ==> p !in less[a]
    ensures Dequeue(s, me, p).level == s.level && Dequeue(s, me, p).owner == s.owner && s.owner[p] == me
  {
    hide Without, Dequeue, Succ;
    var r := Rq(me, s.level[p]);
    Pack(me, s.level[p]);
    DequeueShape(s, lists, me, p, j);
    assert Ring(s.next, s.heads[r], lists[r]) && Home(s, r, p);
    WithoutNoDup(lists[r], j);
    forall a | 0 <= a < |lists| && a != r
      ensures p !in lists[a]
    {
      if p in lists[a] {
        AtMostOne(s, lists, a, r, p);
      }
    }
  }
}
