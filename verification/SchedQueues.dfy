/**
 * The scheduler's run queues (src/kernel/core/sched.c): per CPU and level a circular list through the next pointers of
 * the processes. Processes and CPUs are numbered; -1 is the null pointer.
 */
module SchedQueues {
  import opened NumberLists

  const NUM_QUEUES: nat := 4

  /** next, mlfq_queue and owner_cpu of every process, and the head of every queue of every CPU. */
  datatype Queues = Queues(next: seq<int>, level: seq<int>, owner: seq<nat>, heads: seq<int>) {
    predicate Shaped() {
      |next| == |level| == |owner| && |heads| % NUM_QUEUES == 0
    }

    function Cpus(): nat {
      |heads| / NUM_QUEUES
    }

    predicate Proc(p: int) {
      0 <= p < |next|
    }
  }

  /** The index of level q of a CPU in heads. */
  function Rq(cpu: nat, q: nat): nat {
    NUM_QUEUES * cpu + q
  }

  lemma RqFits(s: Queues, cpu: nat, q: nat)
    requires s.Shaped() && cpu < s.Cpus() && q < NUM_QUEUES
    ensures Rq(cpu, q) < |s.heads|
  {
  }

  // ----- Circular lists -----

  /** The element after number i, round the circle. */
  function Succ(c: seq<nat>, i: nat): nat
    requires i < |c|
  {
    if i + 1 < |c| then c[i + 1] else c[0]
  }

  /** One closed cycle through exactly the processes of c, with c[0] at the head. */
  ghost predicate Ring(next: seq<int>, head: int, c: seq<nat>) {
    && head == (if |c| == 0 then -1 else c[0])
    && NoDup(c)
    && (forall i :: 0 <= i < |c| ==> c[i] < |next| && next[c[i]] == Succ(c, i))
  }

  lemma SuccIs(c: seq<nat>, i: nat)
    requires i < |c|
    ensures Succ(c, i) == if i + 1 < |c| then c[i + 1] else c[0]
  {
  }

  lemma RingFrame(next: seq<int>, head: int, c: seq<nat>, p: nat, v: int)
    requires Ring(next, head, c) && p < |next| && p !in c
    ensures Ring(next[p := v], head, c)
  {
    hide Succ;
  }

  /** The process before p, walking round from at; -1 if the walk comes back to the head first. */
  function Prev(next: seq<int>, head: int, at: int, p: nat, fuel: nat): int
    decreases fuel
  {
    if fuel == 0 || !(0 <= at < |next|) then -1
    else if next[at] == p then at
    else if next[at] == head then -1
    else Prev(next, head, next[at], p, fuel - 1)
  }

  lemma {:induction false} PrevFinds(next: seq<int>, c: seq<nat>, i: nat, j: nat, fuel: nat)
    requires |c| > 0 && Ring(next, c[0], c) && j < |c| && (if j == 0 then i < |c| else i < j) && fuel >= |c| - i
    ensures Prev(next, c[0], c[i], c[j], fuel) == if j == 0 then c[|c| - 1] else c[j - 1]
    decreases |c| - i
  {
    hide Succ;
    SuccIs(c, i);
    if next[c[i]] != c[j] {
      assert i + 1 < |c|;
      PrevFinds(next, c, i + 1, j, fuel - 1);
    }
  }

  lemma {:induction false} PrevMisses(next: seq<int>, c: seq<nat>, i: nat, p: nat, fuel: nat)
    requires |c| > 0 && Ring(next, c[0], c) && i < |c| && p !in c
    ensures Prev(next, c[0], c[i], p, fuel) == -1
    decreases |c| - i
  {
    hide Succ;
    SuccIs(c, i);
    if fuel > 0 && i + 1 < |c| {
      PrevMisses(next, c, i + 1, p, fuel - 1);
    }
  }

  lemma RingBounds(next: seq<int>, head: int, c: seq<nat>)
    requires Ring(next, head, c)
    ensures |c| <= |next| && forall i :: 0 <= i < |c| ==> c[i] < |next|
  {
    hide Succ;
    NoDupShort(c, |next|);
  }

  /** Taking process number j out of a circle of at least two. */
  lemma RingRemove(next: seq<int>, c: seq<nat>, j: nat)
    requires |c| >= 2 && Ring(next, c[0], c) && j < |c|
    ensures var before := if j == 0 then c[|c| - 1] else c[j - 1];
            && before < |next| && c[j] < |next|
            && Ring(next[before := next[c[j]]][c[j] := -1], if j == 0 then c[1] else c[0], Without(c, j))
  {
    hide Succ;
    var before := if j == 0 then c[|c| - 1] else c[j - 1];
    var nx, d := next[before := next[c[j]]][c[j] := -1], Without(c, j);
    WithoutNoDup(c, j);
    SuccIs(c, j);
    forall i | 0 <= i < |d|
      ensures d[i] < |nx| && nx[d[i]] == Succ(d, i)
    {
      var x := if i < j then i else i + 1;
      assert d[i] == c[x];
      SuccIs(c, x);
      SuccIs(d, i);
    }
  }

  /** Putting p right after the head. */
  lemma RingInsert(next: seq<int>, c: seq<nat>, p: nat)
    requires |c| > 0 && Ring(next, c[0], c) && p < |next| && p !in c
    ensures Ring(next[p := next[c[0]]][c[0] := p], c[0], AfterHead(c, p))
  {
    hide Succ;
    var nx, d := next[p := next[c[0]]][c[0] := p], AfterHead(c, p);
    SuccIs(c, 0);
    AfterHeadNoDup(c, p);
    forall i | 0 <= i < |d|
      ensures d[i] < |nx| && nx[d[i]] == Succ(d, i)
    {
      SuccIs(d, i);
      if i >= 2 {
        assert d[i] == c[i - 1];
        SuccIs(c, i - 1);
      }
    }
  }

  /** c with p put in right after the first element. */
  function AfterHead(c: seq<nat>, p: nat): seq<nat> {
    if |c| == 0 then [p] else [c[0], p] + c[1..]
  }

  lemma AfterHeadNoDup(c: seq<nat>, p: nat)
    requires NoDup(c) && p !in c
    ensures NoDup(AfterHead(c, p)) && forall x: nat :: x in AfterHead(c, p) <==> x == p || x in c
  {
    var d := AfterHead(c, p);
    if |c| > 0 {
      assert c == [c[0]] + c[1..];
      assert forall i :: 2 <= i < |d| ==> d[i] == c[i - 1];
      forall x: nat | x in c
        ensures x in d
      {
        var i :| 0 <= i < |c| && c[i] == x;
        assert d[if i == 0 then 0 else i + 1] == x;
      }
    }
  }

  lemma RingOne(next: seq<int>, p: nat)
    requires p < |next|
    ensures Ring(next[p := p], p, [p])
  {
  }

  /** Moving the head on by one. */
  lemma RingRotate(next: seq<int>, c: seq<nat>)
    requires |c| > 0 && Ring(next, c[0], c)
    ensures c[0] < |next| && Ring(next, next[c[0]], Rotated(c))
  {
    hide Succ;
    var d := Rotated(c);
    SuccIs(c, 0);
    forall i | 0 <= i < |d|
      ensures d[i] < |next| && next[d[i]] == Succ(d, i)
    {
      SuccIs(d, i);
      if i + 1 < |c| {
        assert d[i] == c[i + 1];
        SuccIs(c, i + 1);
      }
    }
    RotatedNoDup(c);
  }

  function Rotated(c: seq<nat>): seq<nat>
    requires |c| > 0
  {
    c[1..] + [c[0]]
  }

  lemma RotatedNoDup(c: seq<nat>)
    requires |c| > 0 && NoDup(c)
    ensures NoDup(Rotated(c)) && forall x: nat :: x in Rotated(c) <==> x in c
  {
    assert c == [c[0]] + c[1..];
  }

  // ----- The operations -----

  function Clamp(q: int): (r: nat)
    ensures r < NUM_QUEUES
  {
    if q < 0 then 0 else if q >= NUM_QUEUES then NUM_QUEUES - 1 else q
  }

  /** add_to_queue. */
  function Enqueue(s: Queues, cpu: nat, p: nat, q: int): (t: Queues)
    requires s.Shaped() && cpu < s.Cpus() && s.Proc(p)
    ensures t.Shaped() && |t.heads| == |s.heads| && |t.next| == |s.next|
  {
    var lv := Clamp(q);
    RqFits(s, cpu, lv);
    var r := Rq(cpu, lv);
    var u := s.(level := s.level[p := lv]);
    var h := u.heads[r];
    if h == -1 then u.(heads := u.heads[r := p], next := u.next[p := p])
    else if u.Proc(h) then u.(next := u.next[p := u.next[h]][h := p])
    else u
  }

  /** remove_from_queue. */
  function Dequeue(s: Queues, cpu: nat, p: nat): (t: Queues)
    requires s.Shaped() && cpu < s.Cpus() && s.Proc(p)
    ensures t.Shaped() && |t.heads| == |s.heads| && |t.next| == |s.next|
  {
    if s.level[p] < 0 || s.level[p] >= NUM_QUEUES then s
    else
      RqFits(s, cpu, s.level[p]);
      var r := Rq(cpu, s.level[p]);
      var h := s.heads[r];
      if h == -1 then s
      else if h == p && s.next[p] == p then s.(heads := s.heads[r := -1], next := s.next[p := -1])
      else
        var before := Prev(s.next, h, h, p, |s.next|);
        if s.Proc(before) then
          s.(next := s.next[before := s.next[p]][p := -1], heads := if h == p then s.heads[r := s.next[p]] else s.heads)
        else s
  }

  /** The head of a queue moves to the next process. */
  function Rotate(s: Queues, r: nat): (t: Queues)
    requires s.Shaped() && r < |s.heads|
    ensures t.Shaped() && |t.heads| == |s.heads| && |t.next| == |s.next|
  {
    if s.Proc(s.heads[r]) then s.(heads := s.heads[r := s.next[s.heads[r]]]) else s
  }

  /** The process after the head of victim queue r goes to CPU me. */
  function Steal(s: Queues, me: nat, r: nat): (t: Queues)
    requires s.Shaped() && me < s.Cpus() && r < |s.heads|
    ensures t.Shaped() && |t.heads| == |s.heads| && |t.next| == |s.next|
  {
    var h := s.heads[r];
    if s.Proc(h) && s.Proc(s.next[h]) && s.next[h] != h then
      var p := s.next[h];
      var u := s.(next := s.next[h := s.next[p]][p := -1], owner := s.owner[p := me]);
      Enqueue(u, me, p, u.level[p])
    else s
  }

  /** Demotion: out of its queue, and into the next one down. */
  function Demote(s: Queues, me: nat, p: nat): (t: Queues)
    requires s.Shaped() && me < s.Cpus() && s.Proc(p)
    ensures t.Shaped() && |t.heads| == |s.heads| && |t.next| == |s.next|
  {
    var u := Dequeue(s, me, p);
    Enqueue(u, me, p, u.level[p] + 1)
  }
}
