/**
 * Adding a process that may be on a queue already: scheduler_add_process and add_to_queue do not look
 * (src/kernel/core/sched.c:63-78).
 */
module SchedAgain {
  import opened NumberLists
  import opened SchedQueues
  import opened SchedInvariant
  import opened Scheduler

  /** Queue r has the process. */
  ghost predicate On(lists: seq<seq<nat>>, r: nat, p: nat) {
    r < |lists| && p in lists[r]
  }

  /** The queues are intact, and every process that was on one still is. */
  ghost predicate KeepsAll(lists: seq<seq<nat>>, t: Queues, more: seq<seq<nat>>) {
    Inv(t, more) && forall x: nat :: Queued(lists, x) ==> Queued(more, x)
  }

  /** Two rings with one head agree as long as the pointers do. */
  lemma {:induction false} Follows(next: seq<int>, now: seq<int>, head: int, c: seq<nat>, d: seq<nat>, k: nat)
    requires Ring(next, head, c) && Ring(now, head, d) && |now| == |next| && k < |c|
    requires forall i :: 0 <= i < k ==> now[c[i]] == next[c[i]]
    ensures k < |d| && d[k] == c[k]
    decreases k
  {
    if k > 0 {
      Follows(next, now, head, c, d, k - 1);
      SuccIs(c, k - 1);
      SuccIs(d, k - 1);
    }
  }

  lemma RingOf(s: Queues, lists: seq<seq<nat>>, r: nat)
    requires Inv(s, lists) && r < |s.heads|
    ensures s.Shaped() && |lists| == |s.heads| && Ring(s.next, s.heads[r], lists[r])
  {
  }

  lemma HomeOf(s: Queues, lists: seq<seq<nat>>, r: nat, x: nat)
    requires Inv(s, lists) && On(lists, r, x)
    ensures s.Shaped() && |lists| == |s.heads| && s.Proc(x) && r == Rq(s.owner[x], s.level[x])
  {
    assert Home(s, r, x);
    Unpack(r);
  }

  /** What adding does to pointers, owners and levels. */
  lemma AddShape(s: Queues, cpu: nat, p: nat)
    requires s.Shaped() && cpu < s.Cpus() && s.Proc(p)
    ensures Rq(cpu, 0) < |s.heads|
    ensures var t := Do(s, Add(cpu, p));
            && t.Shaped() && |t.next| == |s.next| && |t.heads| == |s.heads| && |t.owner| == |s.owner|
            && |t.level| == |s.level| && t.owner[p] == cpu && t.level[p] == 0
            && (forall x :: 0 <= x < |s.next| && x != p ==> t.owner[x] == s.owner[x] && t.level[x] == s.level[x])
            && (forall x :: 0 <= x < |s.next| && x != p && x != s.heads[Rq(cpu, 0)] ==> t.next[x] == s.next[x])
            && (forall r :: 0 <= r < |s.heads| && r != Rq(cpu, 0) ==> t.heads[r] == s.heads[r])
  {
    RqFits(s, cpu, 0);
  }

  /** On another queue: that one still leads to the process, which is at home elsewhere now. */
  lemma ElsewhereBreaks(s: Queues, lists: seq<seq<nat>>, cpu: nat, p: nat, r: nat, more: seq<seq<nat>>)
    requires Inv(s, lists) && cpu < s.Cpus() && s.Proc(p) && On(lists, r, p) && r != Rq(cpu, 0)
    ensures !Inv(Do(s, Add(cpu, p)), more)
  {
    HomeOf(s, lists, r, p);
    hide Inv, Do, Ring, Rq;
    var t, r0 := Do(s, Add(cpu, p)), Rq(cpu, 0);
    AddShape(s, cpu, p);
    if Inv(t, more) {
      var c, k := lists[r], IndexOf(lists[r], p);
      RingOf(s, lists, r);
      RingOf(t, more, r);
      HeadListed(s, lists, r0);
      forall i | 0 <= i < k
        ensures c[i] < |s.next| && t.next[c[i]] == s.next[c[i]]
      {
        NotBefore(s.next, s.heads[r], c, p, i, k);
        if c[i] == s.heads[r0] {
          HomeOf(s, lists, r, c[i]);
          HomeOf(s, lists, r0, c[i]);
        }
      }
      Follows(s.next, t.next, s.heads[r], c, more[r], k);
      HomeOf(t, more, r, p);
    }
  }

  lemma NotBefore(next: seq<int>, head: int, c: seq<nat>, p: nat, i: nat, k: nat)
    requires Ring(next, head, c) && i < k < |c| && c[k] == p
    ensures c[i] != p && c[i] < |next|
  {
  }

  /** At the head of the same queue: the ones behind it are cut off. */
  lemma HeadCutsOff(s: Queues, lists: seq<seq<nat>>, cpu: nat, p: nat, more: seq<seq<nat>>)
    requires Inv(s, lists) && cpu < s.Cpus() && s.Proc(p) && Rq(cpu, 0) < |lists|
    requires |lists[Rq(cpu, 0)]| > 1 && lists[Rq(cpu, 0)][0] == p
    ensures !KeepsAll(lists, Do(s, Add(cpu, p)), more)
  {
    var r := Rq(cpu, 0);
    HomeOf(s, lists, r, p);
    hide Inv, Do;
    var c, t := lists[r], Do(s, Add(cpu, p));
    RingOf(s, lists, r);
    AddShape(s, cpu, p);
    var y := c[1];
    NotBefore(s.next, s.heads[r], c, y, 0, 1);
    HomeOf(s, lists, r, y);
    HeadAlone(s, cpu, p);
    if KeepsAll(lists, t, more) {
      assert Queued(lists, y);
      var a :| 0 <= a < |more| && y in more[a];
      RingOf(t, more, r);
      OnlyHead(t.next, more[r], p);
      HomeOf(t, more, a, y);
    }
  }

  lemma HeadAlone(s: Queues, cpu: nat, p: nat)
    requires s.Shaped() && cpu < s.Cpus() && s.Proc(p) && Rq(cpu, 0) < |s.heads| && s.heads[Rq(cpu, 0)] == p
    ensures var t := Do(s, Add(cpu, p)); |t.next| == |s.next| && t.next[p] == p && t.heads == s.heads
  {
  }

  lemma OnlyHead(next: seq<int>, d: seq<nat>, p: nat)
    requires Ring(next, p, d) && p < |next| && next[p] == p
    ensures d == [p]
  {
    SuccIs(d, 0);
  }

  /** Behind the head of the same queue: the pointers come back to the process and not to the head. */
  lemma BehindLoops(s: Queues, lists: seq<seq<nat>>, cpu: nat, p: nat, k: nat, more: seq<seq<nat>>)
    requires Inv(s, lists) && cpu < s.Cpus() && s.Proc(p) && Rq(cpu, 0) < |lists|
    requires 0 < k < |lists[Rq(cpu, 0)]| && lists[Rq(cpu, 0)][k] == p
    ensures !Inv(Do(s, Add(cpu, p)), more)
  {
    RingOf(s, lists, Rq(cpu, 0));
    hide Inv;
    var t, r := Do(s, Add(cpu, p)), Rq(cpu, 0);
    if Inv(t, more) {
      NoRing(s.next, t.next, s.heads[r], lists[r], more[r], k) by { RingOf(t, more, r); }
      RingOf(t, more, r);
    }
  }

  /** With the process p = c[k] put behind the head a second time, no list is a ring from the head on. */
  lemma NoRing(next: seq<int>, now: seq<int>, head: int, c: seq<nat>, d: seq<nat>, k: nat)
    requires Ring(next, head, c) && 0 < k < |c| && now == next[c[k] := next[c[0]]][c[0] := c[k]]
    ensures !Ring(now, head, d)
  {
    SuccIs(c, 0);
    SuccIs(c, k - 1);
    assert c[0] != c[k];
    assert k > 1 ==> c[k - 1] != c[k] && c[k - 1] != c[0];
    if Ring(now, head, d) {
      SecondIs(now, head, d, c[0], c[k]);
      if k > 1 {
        LoopFollows(next, now, head, c, d, k, k - 1);
        hide Ring;
        NoReturn(now, head, d, k);
      } else {
        hide Ring;
        NoReturn(now, head, d, 1);
      }
    }
  }

  lemma SecondIs(now: seq<int>, head: int, d: seq<nat>, h: nat, p: nat)
    requires Ring(now, head, d) && head == h != p && h < |now| && now[h] == p
    ensures |d| > 1 && d[0] == h && d[1] == p
  {
    SuccIs(d, 0);
  }

  /** Nothing from the second on leads to the second. */
  lemma NoReturn(now: seq<int>, head: int, d: seq<nat>, i: nat)
    requires Ring(now, head, d) && 1 <= i < |d|
    ensures d[i] < |now| && now[d[i]] != d[1]
  {
    SuccIs(d, i);
  }

  lemma {:induction false} LoopFollows(next: seq<int>, now: seq<int>, head: int, c: seq<nat>, d: seq<nat>, k: nat, i: nat)
    requires Ring(next, head, c) && Ring(now, head, d) && 1 <= i < k < |c|
    requires now == next[c[k] := next[c[0]]][c[0] := c[k]]
    ensures i + 1 < |d| && d[1] == c[k] && d[i + 1] == c[i]
    decreases i
  {
    SuccIs(c, 0);
    SuccIs(d, 0);
    if i == 1 {
      SuccIs(d, 1);
    } else {
      LoopFollows(next, now, head, c, d, k, i - 1);
      SuccIs(c, i - 1);
      SuccIs(d, i);
    }
  }

  /**
   * Adding keeps the queues intact, with everyone who was on one, if and only if the process is on none, or is alone on
   * the very queue it is added to.
   */
  lemma AddKeepsIff(s: Queues, lists: seq<seq<nat>>, cpu: nat, p: nat)
    requires Inv(s, lists) && cpu < s.Cpus() && s.Proc(p) && Rq(cpu, 0) < |lists|
    ensures (exists more :: KeepsAll(lists, Do(s, Add(cpu, p)), more)) <==>
            !Queued(lists, p) || lists[Rq(cpu, 0)] == [p]
  {
    RingOf(s, lists, Rq(cpu, 0));
    hide Inv, Do;
    var t := Do(s, Add(cpu, p));
    if !Queued(lists, p) {
      AddedAll(s, lists, cpu, p);
    } else if lists[Rq(cpu, 0)] == [p] {
      SameAgain(s, lists, cpu, p);
      assert KeepsAll(lists, t, lists);
    } else {
      var r :| 0 <= r < |lists| && p in lists[r];
      forall more
        ensures !KeepsAll(lists, t, more)
      {
        AgainBreaks(s, lists, cpu, p, r, more);
      }
    }
  }

  lemma AddedAll(s: Queues, lists: seq<seq<nat>>, cpu: nat, p: nat)
    requires Inv(s, lists) && cpu < s.Cpus() && s.Proc(p) && Rq(cpu, 0) < |lists| && !Queued(lists, p)
    ensures exists more :: KeepsAll(lists, Do(s, Add(cpu, p)), more)
  {
    AddKeeps(s, lists, cpu, p);
    hide Inv, Do, AfterHead;
    var r, c := Rq(cpu, 0), lists[Rq(cpu, 0)];
    var more := lists[r := AfterHead(c, p)];
    AfterHeadKeeps(c, p);
    forall x: nat | Queued(lists, x)
      ensures Queued(more, x)
    {
      var a :| 0 <= a < |lists| && x in lists[a];
      assert x in more[a];
    }
    assert KeepsAll(lists, Do(s, Add(cpu, p)), more);
  }

  lemma AfterHeadKeeps(c: seq<nat>, p: nat)
    ensures forall x :: x in c ==> x in AfterHead(c, p)
  {
  }

  /** A process alone on the queue changes nothing by being added to it again. */
  lemma SameAgain(s: Queues, lists: seq<seq<nat>>, cpu: nat, p: nat)
    requires Inv(s, lists) && cpu < s.Cpus() && s.Proc(p) && Rq(cpu, 0) < |lists| && lists[Rq(cpu, 0)] == [p]
    ensures Do(s, Add(cpu, p)) == s
  {
    var r := Rq(cpu, 0);
    Pack(cpu, 0);
    assert Ring(s.next, s.heads[r], lists[r]);
    SuccIs(lists[r], 0);
    assert p in lists[r] && Home(s, r, p);
  }

  lemma AgainBreaks(s: Queues, lists: seq<seq<nat>>, cpu: nat, p: nat, r: nat, more: seq<seq<nat>>)
    requires Inv(s, lists) && cpu < s.Cpus() && s.Proc(p) && On(lists, r, p) && Rq(cpu, 0) < |lists|
    requires lists[Rq(cpu, 0)] != [p]
    ensures !KeepsAll(lists, Do(s, Add(cpu, p)), more)
  {
    hide Inv, Do;
    if r != Rq(cpu, 0) {
      ElsewhereBreaks(s, lists, cpu, p, r, more);
    } else {
      var k := IndexOf(lists[r], p);
      if k > 0 {
        BehindLoops(s, lists, cpu, p, k, more);
      } else {
        HeadCutsOff(s, lists, cpu, p, more);
      }
    }
  }
}
