/** No lost wakeup, over every interleaving (include/kernel/waitq.h:27-57, src/kernel/core/waitq.c:32-93). */
module WaitQueueSafe {
  import opened NumberLists
  import opened WaitQueue

  /** Where the entry of a waiter is: on no list, on the queue, or among those that waker k still has to visit. */
  datatype Place = Nowhere | InList | OnChain(k: nat)

  // ----- Lists and the pointers that make them -----

  lemma LinkedFrame(next: seq<int>, e: int, c: seq<nat>, w: nat, v: int)
    requires Linked(next, e, c) && w < |next| && w !in c
    ensures Linked(next[w := v], e, c)
  {
    hide At;
  }

  lemma LinkedPush(next: seq<int>, head: int, c: seq<nat>, w: nat)
    requires Linked(next, head, c) && NoDup(c) && w < |next| && w !in c
    ensures Linked(next[w := head], w, [w] + c) && NoDup([w] + c)
  {
    hide At;
    var d, nx := [w] + c, next[w := head];
    forall i | 0 <= i < |d|
      ensures d[i] < |nx| && nx[d[i]] == At(d, i + 1)
    {
      AtIs(d, i + 1);
      AtIs(c, i);
      if i > 0 {
        assert d[i] == c[i - 1] && c[i - 1] in c;
      }
    }
    AtIs(d, 0);
    forall i, j | 0 <= i < j < |d|
      ensures d[i] != d[j]
    {
      assert d[j] == c[j - 1] && c[j - 1] in c;
    }
  }

  lemma LinkedTail(next: seq<int>, e: int, c: seq<nat>)
    requires Linked(next, e, c) && NoDup(c) && |c| > 0
    ensures e == c[0] && c[0] < |next| && Linked(next, next[e], c[1..]) && NoDup(c[1..]) && c[0] !in c[1..]
  {
    hide At;
    AtIs(c, 0);
    AtIs(c, 1);
    var d := c[1..];
    AtIs(d, 0);
    forall i | 0 <= i < |d|
      ensures d[i] < |next| && next[d[i]] == At(d, i + 1)
    {
      assert d[i] == c[i + 1];
      AtIs(d, i + 1);
      AtIs(c, i + 2);
    }
  }

  lemma {:induction false} BeforeFinds(next: seq<int>, c: seq<nat>, i: nat, j: nat, fuel: nat)
    requires i < j < |c| && Linked(next, c[0], c) && NoDup(c) && fuel >= j - i
    ensures Before(next, c[i], c[j], fuel) == c[j - 1]
    decreases j - i
  {
    hide At;
    AtIs(c, i + 1);
    if i + 1 < j {
      BeforeFinds(next, c, i + 1, j, fuel - 1);
    }
  }

  lemma {:induction false} BeforeMisses(next: seq<int>, c: seq<nat>, i: nat, w: nat, fuel: nat)
    requires i <= |c| && Linked(next, At(c, 0), c) && w !in c
    ensures Before(next, At(c, i), w, fuel) == -1
    decreases |c| - i
  {
    hide At;
    AtIs(c, i);
    AtIs(c, i + 1);
    if i < |c| && fuel > 0 {
      BeforeMisses(next, c, i + 1, w, fuel - 1);
    }
  }

  lemma UnlinkMisses(head: int, next: seq<int>, c: seq<nat>, w: nat)
    requires Linked(next, head, c) && w < |next| && w !in c
    ensures Unlink(head, next, w) == (head, next)
  {
    hide At;
    AtIs(c, 0);
    BeforeMisses(next, c, 0, w, |next|);
  }

  lemma WithoutAt(c: seq<nat>, j: nat, i: nat)
    requires j < |c|
    ensures At(Without(c, j), i) == if i < j then At(c, i) else At(c, i + 1)
  {
  }

  /** The pointers once the entry at j is taken out. */
  lemma UnlinkShape(head: int, next: seq<int>, c: seq<nat>, j: nat)
    requires Linked(next, head, c) && NoDup(c) && j < |c|
    ensures Unlink(head, next, c[j]) == if j == 0 then (At(c, 1), next[c[0] := -1])
                                        else (head, next[c[j - 1] := At(c, j + 1)][c[j] := -1])
  {
    hide At;
    AtIs(c, 0);
    if j > 0 {
      NoDupShort(c, |next|);
      BeforeFinds(next, c, 0, j, |next|);
    }
  }

  /** Taking the entry at j out of the list. */
  lemma UnlinkFinds(head: int, next: seq<int>, c: seq<nat>, j: nat)
    requires Linked(next, head, c) && NoDup(c) && j < |c|
    ensures var (h, nx) := Unlink(head, next, c[j]); Linked(nx, h, Without(c, j))
    ensures var nx := Unlink(head, next, c[j]).1; forall x: nat :: x < |next| && x !in c ==> nx[x] == next[x]
  {
    hide At, Unlink;
    UnlinkShape(head, next, c, j);
    var d := Without(c, j);
    var (h, nx) := Unlink(head, next, c[j]);
    forall i | 0 <= i < |d|
      ensures d[i] < |nx| && nx[d[i]] == At(d, i + 1)
    {
      var x := if i < j then i else i + 1;
      assert d[i] == c[x];
      WithoutAt(c, j, i + 1);
    }
    WithoutAt(c, j, 0);
  }

  // ----- The invariant -----

  /** What the pointer of waker k stands for. */
  ghost predicate ChainOk(next: seq<int>, wk: Waker, c: seq<nat>) {
    match wk
    case Walk(at) => Linked(next, at, c)
    case HaveNext(e, nx) => |c| > 0 && c[0] == e && e < |next| && next[e] == nx && Linked(next, nx, c[1..])
    case Cleared(e, nx) => |c| > 0 && c[0] == e && e < |next| && Linked(next, nx, c[1..])
    case HaveProc(e, nx, _) => |c| > 0 && c[0] == e && e < |next| && Linked(next, nx, c[1..])
    case _ => c == []
  }

  /** The pointers of the queue and of every waker make these lists. */
  ghost predicate Pointers(next: seq<int>, head: int, wakers: seq<Waker>, list: seq<nat>, chains: seq<seq<nat>>) {
    && |chains| == |wakers| && Linked(next, head, list) && NoDup(list)
    && (forall k :: 0 <= k < |chains| ==> ChainOk(next, wakers[k], chains[k]) && NoDup(chains[k]))
  }

  function PlaceOf(place: seq<Place>, w: nat): Place {
    if w < |place| then place[w] else Nowhere
  }

  /** The list c holds exactly the entries whose place is p. */
  ghost predicate Holds(c: seq<nat>, place: seq<Place>, p: Place) {
    forall w: nat :: w in c <==> PlaceOf(place, w) == p
  }

  /** The lists hold exactly the entries placed there. */
  ghost predicate Placed(list: seq<nat>, chains: seq<seq<nat>>, place: seq<Place>) {
    && Holds(list, place, InList)
    && (forall k: nat :: k < |chains| ==> Holds(chains[k], place, OnChain(k)))
    && (forall w :: 0 <= w < |place| && place[w].OnChain? ==> place[w].k < |chains|)
  }

  ghost predicate Lists(s: State, list: seq<nat>, chains: seq<seq<nat>>, place: seq<Place>) {
    s.Shaped() && |place| == |s.pc| && Pointers(s.next, s.head, s.wakers, list, chains) && Placed(list, chains, place)
  }

  predicate Entered(pc: Pc) {
    pc.Recheck? || pc.Sleep? || pc.Finish? || pc.FinishLast? || pc.Unlock?
  }

  predicate Holding(pc: Pc) {
    pc.LockedCheck? || pc.LockedPrepare? || pc.Unlock? || pc.Leave?
  }

  predicate Preparing(pc: Pc) {
    pc.Prepare? || pc.LockedPrepare?
  }

  ghost predicate WaiterOk(cond: bool, detached: bool, holder: int, w: nat, queued: bool, status: Status, pc: Pc,
      place: Place) {
    && (queued <==> Entered(pc))
    && (place == InList ==> queued)
    && (Holding(pc) <==> holder == w)
    && (pc.LockedPrepare? || pc.Unlock? ==> !cond)
    && ((pc.Recheck? || pc.Unlock? || pc.Sleep?) && place == Nowhere ==> status != Blocked)
    && (pc.Sleep? && detached ==> place != InList)
  }

  ghost predicate WaitersOk(s: State, place: seq<Place>)
    requires s.Shaped() && |place| == |s.pc|
  {
    forall w :: 0 <= w < |s.pc| ==>
      WaiterOk(s.cond, s.detached, s.holder, w, s.queued[w], s.status[w], s.pc[w], place[w])
  }

  ghost predicate WakerOk(s: State, wk: Waker)
    requires s.Shaped()
  {
    wk.HaveProc? && !wk.proc && s.Waiter(wk.e) ==> !s.queued[wk.e]
  }

  ghost predicate Known(s: State, list: seq<nat>, chains: seq<seq<nat>>, place: seq<Place>) {
    && Lists(s, list, chains, place) && WaitersOk(s, place)
    && (forall k :: 0 <= k < |s.wakers| ==> WakerOk(s, s.wakers[k]))
    && (s.detached ==> s.cond) && s.holder < |s.pc|
  }

  ghost predicate Inv(s: State) {
    exists list, chains, place :: Known(s, list, chains, place)
  }

  lemma InitInv(s: State)
    requires Init(s)
    ensures Inv(s)
  {
    var place := seq(|s.pc|, _ => Nowhere);
    var chains: seq<seq<nat>> := seq(|s.wakers|, _ => []);
    assert Known(s, [], chains, place);
  }

  // ----- Steps of a waiter -----

  /** Only the program counter, the status, the holder or the condition changes. */
  lemma QuietKeeps(s: State, t: State, list: seq<nat>, chains: seq<seq<nat>>, place: seq<Place>)
    requires Known(s, list, chains, place)
    requires t == s.(pc := t.pc, status := t.status, holder := t.holder, cond := t.cond, detached := t.detached)
    requires t.Shaped() && |t.pc| == |s.pc| && WaitersOk(t, place) && t.holder < |t.pc| && (t.detached ==> t.cond)
    ensures Known(t, list, chains, place)
  {
    hide WaitersOk;
    forall k | 0 <= k < |t.wakers|
      ensures WakerOk(t, t.wakers[k])
    {
      assert WakerOk(s, s.wakers[k]);
    }
  }

  predicate Stays(pc: Pc) {
    !(pc.Prepare? || pc.LockedPrepare? || pc.Finish? || pc.FinishLast?)
  }

  ghost predicate OkAt(s: State, place: seq<Place>, v: nat)
    requires s.Shaped() && |place| == |s.pc| && v < |s.pc|
  {
    WaiterOk(s.cond, s.detached, s.holder, v, s.queued[v], s.status[v], s.pc[v], place[v])
  }

  lemma PcStepOk(s: State, w: nat, place: seq<Place>, v: nat)
    requires s.Shaped() && s.Waiter(w) && |place| == |s.pc| && v < |s.pc| && Stays(s.pc[w])
    requires OkAt(s, place, w) && OkAt(s, place, v) && (s.detached ==> s.cond)
    ensures OkAt(WaiterStep(s, w), place, v)
  {
    hide Prepared, Finished;
  }

  lemma PcStepKeeps(s: State, w: nat, list: seq<nat>, chains: seq<seq<nat>>, place: seq<Place>)
    requires Known(s, list, chains, place) && s.Waiter(w) && Stays(s.pc[w])
    ensures Known(WaiterStep(s, w), list, chains, place)
  {
    hide Prepared, Finished, WaiterOk, Stays, Linked, NoDup, ChainOk;
    var t := WaiterStep(s, w);
    assert OkAt(s, place, w);
    forall v | 0 <= v < |s.pc|
      ensures OkAt(t, place, v)
    {
      assert OkAt(s, place, v);
      PcStepOk(s, w, place, v);
    }
    PcStepShape(s, w);
    hide WaiterStep, OkAt, Lists;
    OkAll(t, place);
    QuietKeeps(s, t, list, chains, place);
  }

  lemma OkAll(t: State, place: seq<Place>)
    requires t.Shaped() && |place| == |t.pc| && forall v :: 0 <= v < |t.pc| ==> OkAt(t, place, v)
    ensures WaitersOk(t, place)
  {
    hide WaiterOk;
    forall w | 0 <= w < |t.pc|
      ensures WaiterOk(t.cond, t.detached, t.holder, w, t.queued[w], t.status[w], t.pc[w], place[w])
    {
      assert OkAt(t, place, w);
    }
  }

  lemma PcStepShape(s: State, w: nat)
    requires s.Shaped() && s.Waiter(w) && Stays(s.pc[w]) && s.holder < |s.pc|
    ensures var t := WaiterStep(s, w);
            && t == s.(pc := t.pc, status := t.status, holder := t.holder, cond := t.cond, detached := t.detached)
            && t.cond == s.cond && t.detached == s.detached && t.holder < |t.pc|
  {
    hide Prepared, Finished;
    var t := WaiterStep(s, w);
    assert t.next == s.next && t.queued == s.queued && t.wakers == s.wakers && t.head == s.head;
  }

  // ----- Entering the queue -----

  lemma ChainFrame(next: seq<int>, wk: Waker, c: seq<nat>, w: nat, v: int)
    requires ChainOk(next, wk, c) && w < |next| && w !in c
    ensures ChainOk(next[w := v], wk, c)
  {
    hide Linked;
    if |c| > 0 {
      assert c == [c[0]] + c[1..];
    }
    match wk
    case Walk(at) => LinkedFrame(next, at, c, w, v);
    case HaveNext(e, nx) => LinkedFrame(next, nx, c[1..], w, v);
    case Cleared(e, nx) => LinkedFrame(next, nx, c[1..], w, v);
    case HaveProc(e, nx, _) => LinkedFrame(next, nx, c[1..], w, v);
    case _ =>
  }

  lemma PlacedPush(list: seq<nat>, chains: seq<seq<nat>>, place: seq<Place>, w: nat)
    requires Placed(list, chains, place) && w < |place| && place[w] == Nowhere
    ensures Placed([w] + list, chains, place[w := InList])
  {
    var p2 := place[w := InList];
    forall k: nat | k < |chains|
      ensures Holds(chains[k], p2, OnChain(k))
    {
      assert Holds(chains[k], place, OnChain(k));
    }
  }

  lemma PlacedDrop(list: seq<nat>, chains: seq<seq<nat>>, place: seq<Place>, w: nat, rest: seq<nat>)
    requires Placed(list, chains, place) && w < |place| && place[w] == InList
    requires forall x: nat :: x in rest <==> x in list && x != w
    ensures Placed(rest, chains, place[w := Nowhere])
  {
    var p2 := place[w := Nowhere];
    forall k: nat | k < |chains|
      ensures Holds(chains[k], p2, OnChain(k))
    {
      assert Holds(chains[k], place, OnChain(k));
    }
  }

  lemma PreparedLists(s: State, w: nat, list: seq<nat>, chains: seq<seq<nat>>, place: seq<Place>)
    requires Lists(s, list, chains, place) && s.Waiter(w) && place[w] == Nowhere && !s.queued[w]
    ensures Lists(Prepared(s, w), [w] + list, chains, place[w := InList])
  {
    PlacedPush(list, chains, place, w);
    forall k: nat | k < |chains|
      ensures w !in chains[k]
    {
      assert Holds(chains[k], place, OnChain(k));
    }
    assert w !in list;
    hide Linked, NoDup, ChainOk, Placed;
    var t := Prepared(s, w);
    LinkedPush(s.next, s.head, list, w);
    forall k | 0 <= k < |chains|
      ensures ChainOk(t.next, t.wakers[k], chains[k])
    {
      ChainFrame(s.next, s.wakers[k], chains[k], w, s.head);
    }
  }

  lemma PreparedKeeps(s: State, w: nat, list: seq<nat>, chains: seq<seq<nat>>, place: seq<Place>)
    requires Known(s, list, chains, place) && s.Waiter(w) && Preparing(s.pc[w]) && !place[w].OnChain?
    ensures Known(WaiterStep(s, w), [w] + list, chains, place[w := InList])
  {
    hide Linked, NoDup, ChainOk;
    var t, place2 := WaiterStep(s, w), place[w := InList];
    assert OkAt(s, place, w);
    PreparedLists(s, w, list, chains, place);
    forall v | 0 <= v < |s.pc|
      ensures OkAt(t, place2, v)
    {
      assert OkAt(s, place, v);
    }
    OkAll(t, place2);
    forall k | 0 <= k < |t.wakers|
      ensures WakerOk(t, t.wakers[k])
    {
      assert WakerOk(s, s.wakers[k]);
      if s.wakers[k].HaveProc? {
        ProcOnChain(s, k, list, chains, place);
      }
    }
    hide WaiterOk;
  }

  /** The entry at hand is still on the chain. */
  lemma ProcOnChain(s: State, k: nat, list: seq<nat>, chains: seq<seq<nat>>, place: seq<Place>)
    requires Lists(s, list, chains, place) && k < |s.wakers| && s.wakers[k].HaveProc?
    ensures PlaceOf(place, s.wakers[k].e) == OnChain(k)
  {
    assert ChainOk(s.next, s.wakers[k], chains[k]) && Holds(chains[k], place, OnChain(k));
    assert s.wakers[k].e in chains[k];
  }

  // ----- Leaving the queue -----

  lemma UnlinkFrame(s: State, w: nat, list: seq<nat>, j: nat, wk: Waker, c: seq<nat>)
    requires s.Shaped() && s.Waiter(w) && Linked(s.next, s.head, list) && NoDup(list) && j < |list| && list[j] == w
    requires ChainOk(s.next, wk, c) && forall x :: x in c ==> x !in list
    ensures ChainOk(Unlink(s.head, s.next, w).1, wk, c)
  {
    hide Linked, Unlink, NoDup, At;
    UnlinkShape(s.head, s.next, list, j);
    LinkedBounds(s.next, s.head, list);
    if j == 0 {
      ChainFrame(s.next, wk, c, list[0], -1);
    } else {
      ChainFrame(s.next, wk, c, list[j - 1], At(list, j + 1));
      ChainFrame(s.next[list[j - 1] := At(list, j + 1)], wk, c, w, -1);
    }
  }

  lemma LinkedBounds(next: seq<int>, e: int, c: seq<nat>)
    requires Linked(next, e, c)
    ensures forall i :: 0 <= i < |c| ==> c[i] < |next|
  {
    hide At;
  }

  /** The places after wait_queue_finish. */
  ghost function Left(place: seq<Place>, w: nat): seq<Place>
    requires w < |place|
  {
    if place[w] == InList then place[w := Nowhere] else place
  }

  lemma PlacedApart(list: seq<nat>, chains: seq<seq<nat>>, place: seq<Place>, k: nat)
    requires Placed(list, chains, place) && k < |chains|
    ensures forall x :: x in chains[k] ==> x !in list
  {
    assert Holds(chains[k], place, OnChain(k));
  }

  lemma FinishedInList(s: State, w: nat, list: seq<nat>, chains: seq<seq<nat>>, place: seq<Place>, j: nat)
    requires Lists(s, list, chains, place) && s.Waiter(w) && j < |list| && list[j] == w
    ensures Lists(Finished(s, w), Without(list, j), chains, place[w := Nowhere])
  {
    assert w in list && place[w] == InList;
    hide Linked, NoDup, ChainOk, Unlink, Without, Placed;
    var t := Finished(s, w);
    UnlinkFinds(s.head, s.next, list, j);
    WithoutNoDup(list, j);
    PlacedDrop(list, chains, place, w, Without(list, j));
    forall k | 0 <= k < |chains|
      ensures ChainOk(t.next, t.wakers[k], chains[k])
    {
      PlacedApart(list, chains, place, k);
      UnlinkFrame(s, w, list, j, s.wakers[k], chains[k]);
    }
  }

  lemma FinishedLists(s: State, w: nat, list: seq<nat>, chains: seq<seq<nat>>,
      place: seq<Place>) returns (rest: seq<nat>)
    requires Lists(s, list, chains, place) && s.Waiter(w)
    ensures Lists(Finished(s, w), rest, chains, Left(place, w))
  {
    hide Linked, NoDup, ChainOk, Unlink;
    if w in list {
      var j :| 0 <= j < |list| && list[j] == w;
      rest := Without(list, j);
      FinishedInList(s, w, list, chains, place, j);
    } else {
      UnlinkMisses(s.head, s.next, list, w);
      rest := list;
    }
  }

  lemma FinishedKeeps(s: State, w: nat, list: seq<nat>, chains: seq<seq<nat>>,
      place: seq<Place>) returns (rest: seq<nat>)
    requires Known(s, list, chains, place) && s.Waiter(w) && (s.pc[w].Finish? || s.pc[w].FinishLast?)
    ensures Known(WaiterStep(s, w), rest, chains, Left(place, w))
  {
    hide Linked, NoDup, ChainOk, Unlink;
    var t, place2 := WaiterStep(s, w), Left(place, w);
    assert OkAt(s, place, w);
    rest := FinishedLists(s, w, list, chains, place);
    forall v | 0 <= v < |s.pc|
      ensures OkAt(t, place2, v)
    {
      assert OkAt(s, place, v);
    }
    OkAll(t, place2);
    forall k | 0 <= k < |t.wakers|
      ensures WakerOk(t, t.wakers[k])
    {
      assert WakerOk(s, s.wakers[k]);
    }
    hide WaiterOk;
  }

  /** Waker k is in the middle of wake_all and still has entry w to visit. */
  ghost predicate WillVisit(s: State, k: nat, w: nat) {
    && k < |s.wakers| && (s.wakers[k].Walk? || s.wakers[k].HaveNext? || s.wakers[k].Cleared? || s.wakers[k].HaveProc?)
    && exists c :: ChainOk(s.next, s.wakers[k], c) && w in c
  }

  /** The entry of w is on the chain of a wake_all in progress. */
  ghost predicate ToVisit(s: State, w: nat) {
    exists k: nat :: WillVisit(s, k, w)
  }

  lemma PlacedOnChain(s: State, w: nat, list: seq<nat>, chains: seq<seq<nat>>, place: seq<Place>)
    requires Known(s, list, chains, place) && s.Waiter(w) && place[w].OnChain?
    ensures WillVisit(s, place[w].k, w)
  {
    var k := place[w].k;
    assert Holds(chains[k], place, OnChain(k)) && PlaceOf(place, w) == OnChain(k);
    assert w in chains[k] && ChainOk(s.next, s.wakers[k], chains[k]);
  }

  lemma WaiterKeeps(s: State, w: nat)
    requires Inv(s) && s.Shaped() && s.Waiter(w) && (Preparing(s.pc[w]) ==> !ToVisit(s, w))
    ensures Inv(WaiterStep(s, w))
  {
    var list: seq<nat>, chains: seq<seq<nat>>, place: seq<Place> :| Known(s, list, chains, place);
    assert |place| == |s.pc|;
    if place[w].OnChain? {
      PlacedOnChain(s, w, list, chains, place);
    }
    hide Known, WaiterStep;
    if Stays(s.pc[w]) {
      PcStepKeeps(s, w, list, chains, place);
    } else if Preparing(s.pc[w]) {
      PreparedKeeps(s, w, list, chains, place);
      var more, place2 := [w] + list, place[w := InList];
      assert Known(WaiterStep(s, w), more, chains, place2);
    } else {
      var rest := FinishedKeeps(s, w, list, chains, place);
      var place2 := Left(place, w);
      assert Known(WaiterStep(s, w), rest, chains, place2);
    }
  }

  // ----- Steps of a waker -----

  /** Only the state of waker k changes, and it stands for the same chain as before. */
  lemma WakerMoves(s: State, k: nat, wk: Waker, list: seq<nat>, chains: seq<seq<nat>>, place: seq<Place>)
    requires Known(s, list, chains, place) && k < |s.wakers|
    requires ChainOk(s.next, wk, chains[k]) && WakerOk(s, wk)
    ensures Known(Put(s, k, wk), list, chains, place)
  {
    hide Linked, NoDup, ChainOk, WaiterOk, Placed;
    var t := Put(s, k, wk);
    forall j | 0 <= j < |t.wakers|
      ensures WakerOk(t, t.wakers[j])
    {
      assert j != k ==> WakerOk(s, s.wakers[j]);
    }
    assert WaitersOk(t, place);
  }

  /** The whole queue goes to waker k. */
  function Detached(place: seq<Place>, k: nat): (p: seq<Place>)
    ensures |p| == |place|
    ensures forall w :: 0 <= w < |p| ==> p[w] == if place[w] == InList then OnChain(k) else place[w]
  {
    seq(|place|, w requires 0 <= w < |place| => if place[w] == InList then OnChain(k) else place[w])
  }

  lemma PlacedDetached(list: seq<nat>, chains: seq<seq<nat>>, place: seq<Place>, k: nat)
    requires Placed(list, chains, place) && k < |chains| && chains[k] == []
    ensures Placed([], chains[k := list], Detached(place, k))
  {
    var p2, c2 := Detached(place, k), chains[k := list];
    assert Holds(chains[k], place, OnChain(k));
    forall j: nat | j < |c2|
      ensures Holds(c2[j], p2, OnChain(j))
    {
      assert Holds(chains[j], place, OnChain(j));
      forall w: nat
        ensures w in c2[j] <==> PlaceOf(p2, w) == OnChain(j)
      {
        assert w in chains[j] <==> PlaceOf(place, w) == OnChain(j);
        assert w in chains[k] <==> PlaceOf(place, w) == OnChain(k);
        assert w in list <==> PlaceOf(place, w) == InList;
      }
    }
  }

  lemma DetachPointers(next: seq<int>, head: int, wakers: seq<Waker>, list: seq<nat>, chains: seq<seq<nat>>, k: nat)
    requires Pointers(next, head, wakers, list, chains) && k < |wakers|
    ensures Pointers(next, -1, wakers[k := Walk(head)], [], chains[k := list])
  {
    AtIs([], 0);
    hide At, ChainOk;
    assert ChainOk(next, Walk(head), list) by { ChainWalk(next, head, list); }
  }

  lemma ChainWalk(next: seq<int>, head: int, list: seq<nat>)
    requires Linked(next, head, list)
    ensures ChainOk(next, Walk(head), list)
  {
  }

  lemma DetachKeeps(s: State, k: nat, list: seq<nat>, chains: seq<seq<nat>>, place: seq<Place>)
    requires Known(s, list, chains, place) && k < |s.wakers| && s.wakers[k] == Called
    ensures Known(WakerStep(s, k), [], chains[k := list], Detached(place, k))
  {
    var t, place2 := WakerStep(s, k), Detached(place, k);
    assert WakerOk(s, s.wakers[k]) && chains[k] == [];
    hide Linked, NoDup, ChainOk, Placed;
    PlacedDetached(list, chains, place, k);
    DetachPointers(s.next, s.head, s.wakers, list, chains, k);
    forall v | 0 <= v < |s.pc|
      ensures OkAt(t, place2, v)
    {
      assert OkAt(s, place, v);
    }
    OkAll(t, place2);
    hide WaiterOk;
    forall j | 0 <= j < |t.wakers|
      ensures WakerOk(t, t.wakers[j])
    {
      assert j != k ==> WakerOk(s, s.wakers[j]);
    }
  }

  /** wake_all loads the next entry, or finds that there is none. */
  lemma WalkKeeps(s: State, k: nat, list: seq<nat>, chains: seq<seq<nat>>, place: seq<Place>)
    requires Known(s, list, chains, place) && k < |s.wakers| && s.wakers[k].Walk?
    ensures Known(WakerStep(s, k), list, chains, place)
  {
    var c, at := chains[k], s.wakers[k].at;
    assert WakerOk(s, s.wakers[k]) && Linked(s.next, at, c) && NoDup(c);
    AtIs(c, 0);
    if |c| > 0 {
      LinkedTail(s.next, at, c);
      WakerMoves(s, k, HaveNext(at, s.next[at]), list, chains, place);
    } else {
      WakerMoves(s, k, Returned, list, chains, place);
    }
  }

  lemma ClearPointers(next: seq<int>, head: int, wakers: seq<Waker>, list: seq<nat>, chains: seq<seq<nat>>,
      place: seq<Place>, k: nat, e: nat, nx: int)
    requires Pointers(next, head, wakers, list, chains) && Placed(list, chains, place) && k < |wakers|
             && wakers[k] == HaveNext(e, nx)
    ensures e < |next| && Pointers(next[e := -1], head, wakers[k := Cleared(e, nx)], list, chains)
  {
    var c := chains[k];
    assert ChainOk(next, wakers[k], c) && NoDup(c);
    assert c == [e] + c[1..] && e in c;
    assert Holds(c, place, OnChain(k));
    assert e !in list;
    assert e !in c[1..];
    LinkedFrame(next, head, list, e, -1);
    LinkedFrame(next, nx, c[1..], e, -1);
    hide Linked, NoDup, At;
    forall j | 0 <= j < |chains|
      ensures ChainOk(next[e := -1], wakers[k := Cleared(e, nx)][j], chains[j])
    {
      if j != k {
        assert Holds(chains[j], place, OnChain(j));
        ChainFrame(next, wakers[j], chains[j], e, -1);
      }
    }
  }

  lemma ClearKeeps(s: State, k: nat, list: seq<nat>, chains: seq<seq<nat>>, place: seq<Place>)
    requires Known(s, list, chains, place) && k < |s.wakers| && s.wakers[k].HaveNext?
    ensures Known(WakerStep(s, k), list, chains, place)
  {
    var e, nx := s.wakers[k].e, s.wakers[k].next;
    assert WakerOk(s, s.wakers[k]);
    hide Linked, NoDup, ChainOk, Placed;
    ClearPointers(s.next, s.head, s.wakers, list, chains, place, k, e, nx);
    var t := WakerStep(s, k);
    hide WaiterOk, Pointers;
    assert WaitersOk(t, place);
    forall j | 0 <= j < |t.wakers|
      ensures WakerOk(t, t.wakers[j])
    {
      assert j != k ==> WakerOk(s, s.wakers[j]);
    }
  }

  /** An entry on a chain whose process is gone belongs to a waiter that is on its way out. */
  lemma ProcKeeps(s: State, k: nat, list: seq<nat>, chains: seq<seq<nat>>, place: seq<Place>)
    requires Known(s, list, chains, place) && k < |s.wakers| && s.wakers[k].Cleared?
    ensures Known(WakerStep(s, k), list, chains, place)
  {
    var c, e := chains[k], s.wakers[k].e;
    assert WakerOk(s, s.wakers[k]) && ChainOk(s.next, s.wakers[k], c);
    assert Holds(c, place, OnChain(k)) && e in c;
    assert OkAt(s, place, e);
    WakerMoves(s, k, HaveProc(e, s.wakers[k].next, s.queued[e]), list, chains, place);
  }

  lemma PlacedVisited(list: seq<nat>, chains: seq<seq<nat>>, place: seq<Place>, k: nat, e: nat)
    requires Placed(list, chains, place) && k < |chains| && |chains[k]| > 0 && chains[k][0] == e && NoDup(chains[k])
    ensures e < |place| && place[e] == OnChain(k) && Placed(list, chains[k := chains[k][1..]], place[e := Nowhere])
  {
    var c := chains[k];
    assert Holds(c, place, OnChain(k)) && e in c;
    var c2, p2 := chains[k := c[1..]], place[e := Nowhere];
    assert c == [e] + c[1..] && e !in c[1..];
    forall j: nat | j < |c2|
      ensures Holds(c2[j], p2, OnChain(j))
    {
      assert Holds(chains[j], place, OnChain(j));
      if j == k {
        forall w: nat
          ensures w in c[1..] <==> w in c && w != e
        {
          assert w in c <==> w in [e] + c[1..];
        }
      }
    }
    assert Holds(list, p2, InList);
  }

  lemma VisitPointers(next: seq<int>, head: int, wakers: seq<Waker>, list: seq<nat>, chains: seq<seq<nat>>, k: nat)
    requires Pointers(next, head, wakers, list, chains) && k < |wakers| && wakers[k].HaveProc?
    ensures |chains[k]| > 0 && chains[k][0] == wakers[k].e && NoDup(chains[k])
    ensures Pointers(next, head, wakers[k := Walk(wakers[k].next)], list, chains[k := chains[k][1..]])
  {
    var c := chains[k];
    assert ChainOk(next, wakers[k], c) && NoDup(c);
    hide Linked, At;
    assert NoDup(c[1..]);
    hide NoDup;
  }

  /** The process is made ready, and the entry is done with. */
  lemma VisitKeeps(s: State, k: nat, list: seq<nat>, chains: seq<seq<nat>>, place: seq<Place>)
    requires Known(s, list, chains, place) && k < |s.wakers| && s.wakers[k].HaveProc?
    ensures |chains[k]| > 0 && s.Waiter(s.wakers[k].e)
    ensures Known(WakerStep(s, k), list, chains[k := chains[k][1..]], place[s.wakers[k].e := Nowhere])
  {
    var e := s.wakers[k].e;
    VisitPointers(s.next, s.head, s.wakers, list, chains, k);
    PlacedVisited(list, chains, place, k, e);
    assert WakerOk(s, s.wakers[k]);
    assert OkAt(s, place, e);
    hide Linked, NoDup, ChainOk, Placed;
    var t, place2 := WakerStep(s, k), place[e := Nowhere];
    forall v | 0 <= v < |s.pc|
      ensures OkAt(t, place2, v)
    {
      assert OkAt(s, place, v);
    }
    OkAll(t, place2);
    hide WaiterOk;
    forall j | 0 <= j < |t.wakers|
      ensures WakerOk(t, t.wakers[j])
    {
      assert j != k ==> WakerOk(s, s.wakers[j]);
    }
  }

  lemma RestKeeps(s: State, k: nat, list: seq<nat>, chains: seq<seq<nat>>, place: seq<Place>)
    requires Known(s, list, chains, place) && k < |s.wakers| && (s.wakers[k].Idle? || s.wakers[k].Returned?)
    ensures Known(WakerStep(s, k), list, chains, place)
  {
    if s.wakers[k].Returned? {
      assert ChainOk(s.next, s.wakers[k], chains[k]);
      WakerMoves(s, k, Idle, list, chains, place);
    }
  }

  lemma WakerKeeps(s: State, k: nat)
    requires Inv(s) && s.Shaped() && k < |s.wakers|
    ensures Inv(WakerStep(s, k))
  {
    var list: seq<nat>, chains: seq<seq<nat>>, place: seq<Place> :| Known(s, list, chains, place);
    assert |chains| == |s.wakers| && |place| == |s.pc|;
    hide Known, WakerStep;
    match s.wakers[k]
    case Called =>
      DetachKeeps(s, k, list, chains, place);
      var c2, p2 := chains[k := list], Detached(place, k);
      assert Known(WakerStep(s, k), [], c2, p2);
    case Walk(_) => WalkKeeps(s, k, list, chains, place);
    case HaveNext(_, _) => ClearKeeps(s, k, list, chains, place);
    case Cleared(_, _) => ProcKeeps(s, k, list, chains, place);
    case HaveProc(e, _, _) =>
      VisitKeeps(s, k, list, chains, place);
      var c2, p2 := chains[k := chains[k][1..]], place[e := Nowhere];
      assert Known(WakerStep(s, k), list, c2, p2);
    case _ => RestKeeps(s, k, list, chains, place);
  }

  // ----- Every step, every run -----

  lemma OtherKeeps(s: State, a: Action, list: seq<nat>, chains: seq<seq<nat>>, place: seq<Place>)
    requires Known(s, list, chains, place) && (a.Spurious? || a.SetCond? || a.Call?)
    ensures Known(Do(s, a), list, chains, place)
  {
    if a.Call? && a.k < |s.wakers| && s.wakers[a.k] == Idle {
      assert ChainOk(s.next, s.wakers[a.k], chains[a.k]);
      WakerMoves(s, a.k, Called, list, chains, place);
    } else {
      var t := Do(s, a);
      hide Linked, NoDup, ChainOk, Placed, Pointers;
      forall v | 0 <= v < |s.pc|
        ensures OkAt(t, place, v)
      {
        assert OkAt(s, place, v);
      }
      OkAll(t, place);
      hide WaiterOk;
      QuietKeeps(s, t, list, chains, place);
    }
  }

  /** No waiter enters the queue while its entry is on the chain of a wake_all in progress. */
  ghost predicate Careful(s: State, a: Action) {
    a.Step? && s.Waiter(a.w) && Preparing(s.pc[a.w]) ==> !ToVisit(s, a.w)
  }

  ghost predicate CarefulAt(s: State, actions: seq<Action>, i: nat)
    requires s.Shaped() && i < |actions|
  {
    Careful(Run(s, actions[..i]), actions[i])
  }

  ghost predicate CarefulRun(s: State, actions: seq<Action>)
    requires s.Shaped()
  {
    forall i :: 0 <= i < |actions| ==> CarefulAt(s, actions, i)
  }

  /** What happens up to action i does not depend on what comes after. */
  lemma CarefulPrefix(s: State, actions: seq<Action>, n: nat, i: nat)
    requires s.Shaped() && i < n <= |actions|
    ensures CarefulAt(s, actions[..n], i) <==> CarefulAt(s, actions, i)
  {
    hide Careful, Run;
    assert actions[..n][..i] == actions[..i];
  }

  lemma StepKeeps(s: State, a: Action)
    requires Inv(s) && s.Shaped() && Careful(s, a)
    ensures Inv(Do(s, a))
  {
    hide Inv, WaiterStep, WakerStep, ToVisit;
    match a
    case Step(w) =>
      if s.Waiter(w) {
        WaiterKeeps(s, w);
      }
    case Advance(k) =>
      if k < |s.wakers| {
        WakerKeeps(s, k);
      }
    case _ => QuietStep(s, a);
  }

  lemma QuietStep(s: State, a: Action)
    requires Inv(s) && (a.Spurious? || a.SetCond? || a.Call?)
    ensures s.Shaped() && Inv(Do(s, a))
  {
    var list: seq<nat>, chains: seq<seq<nat>>, place: seq<Place> :| Known(s, list, chains, place);
    OtherKeeps(s, a, list, chains, place);
    hide Known, Do;
  }

  lemma {:induction false} RunKeeps(s: State, actions: seq<Action>)
    requires Init(s) && CarefulRun(s, actions)
    ensures Inv(Run(s, actions))
    decreases |actions|
  {
    hide Inv, Do, Careful;
    if |actions| == 0 {
      InitInv(s);
    } else {
      var n := |actions| - 1;
      forall i | 0 <= i < n
        ensures CarefulAt(s, actions[..n], i)
      {
        CarefulPrefix(s, actions, n, i);
      }
      RunKeeps(s, actions[..n]);
      assert CarefulAt(s, actions, n);
      StepKeeps(Run(s, actions[..n]), actions[n]);
    }
  }

  /** A waiter that went to sleep after its re-check and has not been made runnable. */
  predicate Asleep(s: State, w: nat) {
    s.Shaped() && s.Waiter(w) && s.pc[w] == Sleep && s.status[w] == Blocked
  }

  /** The entry of w is on the queue, where the next wake_all finds it. */
  ghost predicate OnQueue(s: State, w: nat) {
    exists c :: Linked(s.next, s.head, c) && w in c
  }

  lemma AsleepSomewhere(s: State, w: nat)
    requires Inv(s) && Asleep(s, w)
    ensures ToVisit(s, w) || (OnQueue(s, w) && !s.detached)
  {
    var list: seq<nat>, chains: seq<seq<nat>>, place: seq<Place> :| Known(s, list, chains, place);
    assert OkAt(s, place, w);
    if place[w].OnChain? {
      PlacedOnChain(s, w, list, chains, place);
    } else {
      assert PlaceOf(place, w) == InList && w in list;
      assert Linked(s.next, s.head, list);
    }
  }

  /** No sleeping waiter is ever stranded: it is on the queue, or a wake_all in progress is about to visit it. */
  lemma NeverStranded(s: State, actions: seq<Action>, w: nat)
    requires Init(s) && CarefulRun(s, actions) && Asleep(Run(s, actions), w)
    ensures ToVisit(Run(s, actions), w) || OnQueue(Run(s, actions), w)
  {
    hide Do, Run, CarefulRun, Inv, ToVisit, OnQueue;
    RunKeeps(s, actions);
    AsleepSomewhere(Run(s, actions), w);
  }

  /**
   * No lost wakeup. Once a wake_all has taken the queue since the condition became true, a waiter that sleeps past its
   * re-check is one that a wake_all still in progress is about to visit.
   */
  lemma NoLostWakeup(s: State, actions: seq<Action>, w: nat)
    requires Init(s) && CarefulRun(s, actions)
    requires Run(s, actions).detached && Asleep(Run(s, actions), w)
    ensures ToVisit(Run(s, actions), w)
  {
    hide Do, Run, CarefulRun, Inv, ToVisit, OnQueue;
    RunKeeps(s, actions);
    AsleepSomewhere(Run(s, actions), w);
  }

  /** So when every wake_all has returned, no waiter sleeps past its re-check. */
  lemma AllWokenWhenReturned(s: State, actions: seq<Action>, w: nat)
    requires Init(s) && CarefulRun(s, actions) && Run(s, actions).detached
    requires forall k :: 0 <= k < |Run(s, actions).wakers| ==>
               var wk := Run(s, actions).wakers[k]; wk.Idle? || wk.Called? || wk.Returned?
    ensures !Asleep(Run(s, actions), w)
  {
    hide Do, Run, CarefulRun;
    if Asleep(Run(s, actions), w) {
      NoLostWakeup(s, actions, w);
    }
  }

  // ----- Exactly when entering is safe -----

  /** Following the pointers to w does not depend on where w itself points. */
  lemma {:induction false} StillMet(next: seq<int>, e: int, c: seq<nat>, j: nat, v: int, d: seq<nat>, i: nat)
    requires Linked(next, e, c) && NoDup(c) && i <= j < |c| && Linked(next[c[j] := v], e, d)
    ensures i < |d| && d[i] == c[i]
    decreases i
  {
    hide At;
    AtIs(c, i);
    AtIs(d, i);
    if i > 0 {
      StillMet(next, e, c, j, v, d, i - 1);
    }
  }

  /** A waker that was going to visit w still meets it. */
  lemma ChainStillMet(next: seq<int>, wk: Waker, c: seq<nat>, w: nat, v: int, d: seq<nat>)
    requires ChainOk(next, wk, c) && NoDup(c) && w in c && w < |next| && ChainOk(next[w := v], wk, d)
    ensures w in d
  {
    hide Linked, NoDup;
    if |c| > 0 && c[0] == w && !wk.Walk? {
      assert d[0] == w;
    } else {
      ChainTailMet(next, wk, c, w, v, d);
    }
  }

  lemma ChainTailMet(next: seq<int>, wk: Waker, c: seq<nat>, w: nat, v: int, d: seq<nat>)
    requires ChainOk(next, wk, c) && NoDup(c) && w in c && w < |next| && ChainOk(next[w := v], wk, d)
    requires wk.Walk? || (|c| > 0 && c[0] != w)
    ensures w in d
  {
    hide At;
    var from, start := if wk.Walk? then c else c[1..], if wk.Walk? then wk.at else NextOf(wk);
    var to := if wk.Walk? then d else if |d| > 0 then d[1..] else [];
    var x :| 0 <= x < |c| && c[x] == w;
    var j := if wk.Walk? then x else x - 1;
    assert from[j] == w && NoDup(from);
    StillMet(next, start, from, j, v, to, j);
    assert w in to;
  }

  function NextOf(wk: Waker): int {
    match wk
    case HaveNext(_, nx) => nx
    case Cleared(_, nx) => nx
    case HaveProc(_, nx, _) => nx
    case _ => -1
  }

  /**
   * Entering the queue keeps its lists in order if and only if the entry is not on the chain of a wake_all in progress;
   * wait_queue_prepare does not look.
   */
  lemma PrepareKeepsIff(s: State, w: nat)
    requires Inv(s) && s.Shaped() && s.Waiter(w) && Preparing(s.pc[w])
    ensures Inv(WaiterStep(s, w)) <==> !ToVisit(s, w)
  {
    hide WaiterStep, ToVisit, Inv;
    if !ToVisit(s, w) {
      WaiterKeeps(s, w);
    } else if Inv(WaiterStep(s, w)) {
      PrepareBreaks(s, w);
    }
  }

  lemma PrepareBreaks(s: State, w: nat)
    requires Inv(s) && s.Shaped() && s.Waiter(w) && Preparing(s.pc[w]) && ToVisit(s, w)
    ensures !Inv(WaiterStep(s, w))
  {
    hide WaiterStep, Known, ChainOk, Preparing;
    var t := WaiterStep(s, w);
    if Inv(t) {
      var list: seq<nat>, chains: seq<seq<nat>>, place: seq<Place> :| Known(s, list, chains, place);
      var list2: seq<nat>, chains2: seq<seq<nat>>, place2: seq<Place> :| Known(t, list2, chains2, place2);
      PreparedShape(s, w, list, chains, place);
      var k: nat :| WillVisit(s, k, w);
      var c :| ChainOk(s.next, s.wakers[k], c) && w in c;
      ChainNoDup(s, k, c, list, chains, place);
      InBothLists(s, t, w, k, c, list2, chains2, place2);
    }
  }

  lemma PreparedShape(s: State, w: nat, list: seq<nat>, chains: seq<seq<nat>>, place: seq<Place>)
    requires Known(s, list, chains, place) && s.Waiter(w) && Preparing(s.pc[w])
    ensures var t := WaiterStep(s, w); t.head == w && t.next == s.next[w := s.head] && t.wakers == s.wakers
  {
    assert OkAt(s, place, w);
    hide Lists;
  }

  /** An entry cannot be on the queue and on a chain. */
  lemma InBothLists(s: State, t: State, w: nat, k: nat, c: seq<nat>, list: seq<nat>, chains: seq<seq<nat>>, place: seq<Place>)
    requires s.Shaped() && s.Waiter(w) && t.head == w && t.next == s.next[w := s.head] && t.wakers == s.wakers
    requires k < |s.wakers| && ChainOk(s.next, s.wakers[k], c) && NoDup(c) && w in c
    ensures !Known(t, list, chains, place)
  {
    hide Linked, NoDup, WaitersOk, WakerOk;
    if Known(t, list, chains, place) {
      assert Holds(chains[k], place, OnChain(k));
      HeadHolds(t, w, list, chains, place);
      ChainStillMet(s.next, s.wakers[k], c, w, s.head, chains[k]);
    }
  }

  lemma HeadHolds(t: State, w: nat, list: seq<nat>, chains: seq<seq<nat>>, place: seq<Place>)
    requires Known(t, list, chains, place) && t.head == w
    ensures PlaceOf(place, w) == InList
  {
    AtIs(list, 0);
    assert w in list;
  }

  /** The chain of a waker is fixed by the pointers. */
  lemma ChainNoDup(s: State, k: nat, c: seq<nat>, list: seq<nat>, chains: seq<seq<nat>>, place: seq<Place>)
    requires Known(s, list, chains, place) && k < |s.wakers| && ChainOk(s.next, s.wakers[k], c)
    ensures NoDup(c)
  {
    assert ChainOk(s.next, s.wakers[k], chains[k]) && NoDup(chains[k]);
    SameChain(s.next, s.wakers[k], c, chains[k]);
  }

  lemma SameChain(next: seq<int>, wk: Waker, c: seq<nat>, d: seq<nat>)
    requires ChainOk(next, wk, c) && ChainOk(next, wk, d)
    ensures c == d
  {
    hide Linked;
    match wk
    case Walk(at) => SameLinked(next, at, c, d);
    case HaveNext(e, nx) => SameLinked(next, nx, c[1..], d[1..]); assert c == [e] + c[1..] && d == [e] + d[1..];
    case Cleared(e, nx) => SameLinked(next, nx, c[1..], d[1..]); assert c == [e] + c[1..] && d == [e] + d[1..];
    case HaveProc(e, nx, _) => SameLinked(next, nx, c[1..], d[1..]); assert c == [e] + c[1..] && d == [e] + d[1..];
    case _ =>
  }

  lemma {:induction false} SameLinked(next: seq<int>, e: int, c: seq<nat>, d: seq<nat>)
    requires Linked(next, e, c) && Linked(next, e, d)
    ensures c == d
    decreases |c|
  {
    hide At;
    AtIs(c, 0);
    AtIs(d, 0);
    if |c| > 0 && |d| > 0 {
      TailLinked(next, e, c);
      TailLinked(next, e, d);
      SameLinked(next, next[e], c[1..], d[1..]);
      assert c == [c[0]] + c[1..] && d == [d[0]] + d[1..];
    }
  }

  lemma TailLinked(next: seq<int>, e: int, c: seq<nat>)
    requires Linked(next, e, c) && |c| > 0
    ensures e == c[0] && c[0] < |next| && Linked(next, next[e], c[1..])
  {
    hide At;
    AtIs(c, 0);
    AtIs(c, 1);
    var d := c[1..];
    AtIs(d, 0);
    forall i | 0 <= i < |d|
      ensures d[i] < |next| && next[d[i]] == At(d, i + 1)
    {
      assert d[i] == c[i + 1];
      AtIs(d, i + 1);
      AtIs(c, i + 2);
    }
  }

  // ----- Wakers that keep the discipline -----

  /** Every chain belongs to a true condition, and nobody on a chain is about to enter the queue. */
  ghost predicate Calm(s: State, place: seq<Place>)
    requires s.Shaped() && |place| == |s.pc|
  {
    && (forall w :: 0 <= w < |place| && place[w].OnChain? ==> s.cond && !Preparing(s.pc[w]))
    && (forall k :: 0 <= k < |s.wakers| && s.wakers[k] == Called ==> s.cond)
  }

  ghost predicate CalmInv(s: State) {
    exists list, chains, place :: Known(s, list, chains, place) && Calm(s, place)
  }

  /** What a step of a waiter does to the condition, the wakers and the program counters. */
  lemma PcAfter(s: State, w: nat)
    requires s.Shaped() && s.Waiter(w)
    ensures var t := WaiterStep(s, w);
            && t.Shaped() && t.cond == s.cond && t.wakers == s.wakers && |t.pc| == |s.pc|
            && (forall v :: 0 <= v < |s.pc| && v != w ==> t.pc[v] == s.pc[v])
            && (Preparing(t.pc[w]) ==> !s.cond)
  {
    hide Prepared, Finished;
    EntryStepsQuiet(s, w);
  }

  lemma EntryStepsQuiet(s: State, w: nat)
    requires s.Shaped() && s.Waiter(w)
    ensures var p, f := Prepared(s, w), Finished(s, w);
            && p.pc == s.pc && p.cond == s.cond && p.wakers == s.wakers
            && f.pc == s.pc && f.cond == s.cond && f.wakers == s.wakers
  {
    hide Unlink;
  }

  /** A step of a waiter puts nobody on a chain, and lets nobody prepare once the condition is true. */
  lemma CalmAfter(s: State, w: nat, place: seq<Place>, place2: seq<Place>)
    requires s.Shaped() && s.Waiter(w) && |place| == |s.pc| == |place2| && Calm(s, place)
    requires forall v :: 0 <= v < |place| && place2[v].OnChain? ==> place[v].OnChain?
    ensures WaiterStep(s, w).Shaped() && |WaiterStep(s, w).pc| == |place2| && Calm(WaiterStep(s, w), place2)
  {
    hide WaiterStep, Preparing;
    PcAfter(s, w);
  }

  lemma CalmWaiter(s: State, w: nat)
    requires CalmInv(s) && s.Shaped() && s.Waiter(w)
    ensures CalmInv(WaiterStep(s, w)) && Careful(s, Step(w))
  {
    var list: seq<nat>, chains: seq<seq<nat>>, place: seq<Place> :| Known(s, list, chains, place) && Calm(s, place);
    assert |place| == |s.pc|;
    hide Known, Calm, WaiterStep, ToVisit;
    if Preparing(s.pc[w]) {
      CalmCareful(s, w, list, chains, place);
    }
    if Stays(s.pc[w]) {
      PcStepKeeps(s, w, list, chains, place);
      CalmAfter(s, w, place, place);
    } else if Preparing(s.pc[w]) {
      var more, place2 := [w] + list, place[w := InList];
      CalmPlace(s, w, place);
      PreparedKeeps(s, w, list, chains, place);
      CalmAfter(s, w, place, place2);
      assert Known(WaiterStep(s, w), more, chains, place2) && Calm(WaiterStep(s, w), place2);
    } else {
      var rest := FinishedKeeps(s, w, list, chains, place);
      var place2 := Left(place, w);
      CalmAfter(s, w, place, place2);
      assert Known(WaiterStep(s, w), rest, chains, place2) && Calm(WaiterStep(s, w), place2);
    }
  }

  lemma CalmPlace(s: State, w: nat, place: seq<Place>)
    requires s.Shaped() && |place| == |s.pc| && Calm(s, place) && s.Waiter(w) && Preparing(s.pc[w])
    ensures !place[w].OnChain?
  {
  }

  /** Whoever is on a chain is placed there. */
  lemma CalmCareful(s: State, w: nat, list: seq<nat>, chains: seq<seq<nat>>, place: seq<Place>)
    requires Known(s, list, chains, place) && Calm(s, place) && s.Waiter(w) && Preparing(s.pc[w])
    ensures !ToVisit(s, w)
  {
    hide ChainOk, WaiterOk, Linked, NoDup, WakerOk;
    CalmPlace(s, w, place);
    if ToVisit(s, w) {
      var k: nat :| WillVisit(s, k, w);
      var c :| ChainOk(s.next, s.wakers[k], c) && w in c;
      assert ChainOk(s.next, s.wakers[k], chains[k]) && Holds(chains[k], place, OnChain(k));
      SameChain(s.next, s.wakers[k], c, chains[k]);
    }
  }

  lemma CalmWaker(s: State, k: nat)
    requires CalmInv(s) && s.Shaped() && k < |s.wakers|
    ensures CalmInv(WakerStep(s, k))
  {
    var list: seq<nat>, chains: seq<seq<nat>>, place: seq<Place> :| Known(s, list, chains, place) && Calm(s, place);
    assert |chains| == |s.wakers| && |place| == |s.pc| && WaitersOk(s, place);
    var t := WakerStep(s, k);
    hide Known, WaiterOk, Linked;
    match s.wakers[k]
    case Called =>
      DetachKeeps(s, k, list, chains, place);
      var c2, p2 := chains[k := list], Detached(place, k);
      forall w | 0 <= w < |p2| && p2[w].OnChain?
        ensures t.cond && !Preparing(t.pc[w])
      {
        if place[w] == InList {
          assert OkAt(s, place, w);
          InListEntered(s, place, w);
        }
      }
      assert Known(t, [], c2, p2) && Calm(t, p2);
    case Walk(_) =>
      WalkKeeps(s, k, list, chains, place);
      assert Calm(t, place);
    case HaveNext(_, _) =>
      ClearKeeps(s, k, list, chains, place);
      assert Calm(t, place);
    case Cleared(_, _) =>
      ProcKeeps(s, k, list, chains, place);
      assert Calm(t, place);
    case HaveProc(e, _, _) =>
      VisitKeeps(s, k, list, chains, place);
      var c2, p2 := chains[k := chains[k][1..]], place[e := Nowhere];
      assert Known(t, list, c2, p2) && Calm(t, p2);
    case _ =>
      RestKeeps(s, k, list, chains, place);
      assert Calm(t, place);
  }

  lemma InListEntered(s: State, place: seq<Place>, w: nat)
    requires s.Shaped() && |place| == |s.pc| && w < |s.pc| && OkAt(s, place, w) && place[w] == InList
    ensures !Preparing(s.pc[w])
  {
  }

  lemma CalmOther(s: State, a: Action)
    requires CalmInv(s) && s.Shaped() && Disciplined(s, a) && (a.Spurious? || a.SetCond? || a.Call?)
    ensures CalmInv(Do(s, a))
  {
    var list: seq<nat>, chains: seq<seq<nat>>, place: seq<Place> :| Known(s, list, chains, place) && Calm(s, place);
    OtherKeeps(s, a, list, chains, place);
    assert |place| == |s.pc|;
    hide Known;
    assert Calm(Do(s, a), place);
  }

  lemma CalmStep(s: State, a: Action)
    requires CalmInv(s) && s.Shaped() && Disciplined(s, a)
    ensures CalmInv(Do(s, a)) && Careful(s, a)
  {
    hide CalmInv, WaiterStep, WakerStep, ToVisit;
    match a
    case Step(w) =>
      if s.Waiter(w) {
        CalmWaiter(s, w);
      }
    case Advance(k) =>
      if k < |s.wakers| {
        CalmWaker(s, k);
      }
    case _ => CalmOther(s, a);
  }

  lemma CalmStart(s: State)
    requires Init(s)
    ensures CalmInv(s)
  {
    var place := seq(|s.pc|, _ => Nowhere);
    var chains: seq<seq<nat>> := seq(|s.wakers|, _ => []);
    assert Known(s, [], chains, place) && Calm(s, place);
  }

  /**
   * If wake_all is called only with the condition true, and the condition then stays true, no waiter ever enters the
   * queue from a chain: all of the above holds.
   */
  lemma {:induction false} DisciplinedIsCareful(s: State, actions: seq<Action>)
    requires Init(s) && DisciplinedRun(s, actions)
    ensures CarefulRun(s, actions) && CalmInv(Run(s, actions))
    decreases |actions|
  {
    hide CalmInv, Do, Careful, Disciplined;
    if |actions| == 0 {
      CalmStart(s);
    } else {
      var n := |actions| - 1;
      assert DisciplinedRun(s, actions[..n]) by {
        forall i | 0 <= i < n
          ensures Disciplined(Run(s, actions[..n][..i]), actions[..n][i])
        {
          assert actions[..n][..i] == actions[..i];
          assert Disciplined(Run(s, actions[..i]), actions[i]);
        }
      }
      DisciplinedIsCareful(s, actions[..n]);
      assert Disciplined(Run(s, actions[..n]), actions[n]);
      CalmStep(Run(s, actions[..n]), actions[n]);
      CarefulSnoc(s, actions);
    }
  }

  lemma CarefulSnoc(s: State, actions: seq<Action>)
    requires s.Shaped() && |actions| > 0
    requires var n := |actions| - 1; CarefulRun(s, actions[..n]) && CarefulAt(s, actions, n)
    ensures CarefulRun(s, actions)
  {
    hide CarefulAt;
    var n := |actions| - 1;
    forall i | 0 <= i < |actions|
      ensures CarefulAt(s, actions, i)
    {
      if i < n {
        CarefulPrefix(s, actions, n, i);
      }
    }
  }
}
