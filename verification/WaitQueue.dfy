/**
 * Wait queues (include/kernel/waitq.h, src/kernel/core/waitq.c) as a machine of interleaved steps. What runs under the
 * queue's lock is one step; the walk of wake_all over the detached entries happens outside the lock, one load or
 * store at a time. Waiters are numbered, each with an entry of its own; -1 is the null pointer.
 */
module WaitQueue {
  import opened NumberLists

  datatype Status = Running | Ready | Blocked

  /** Where a waiter is in wait_event, or in wait_event_locked. */
  datatype Pc =
    | Check | Prepare | Recheck | Sleep | Finish | FinishLast | Done
    | Lock | LockedCheck | LockedPrepare | Unlock | Leave

  /** Where a waker is in wake_all; e is the entry at hand and next the one loaded from it. */
  datatype Waker =
    | Idle
    | Called
    | Walk(at: int)
    | HaveNext(e: nat, next: int)
    | Cleared(e: nat, next: int)
    | HaveProc(e: nat, next: int, proc: bool)
    | Returned

  datatype State = State(
    cond: bool, holder: int, head: int, next: seq<int>, queued: seq<bool>, status: seq<Status>, pc: seq<Pc>,
    locked: seq<bool>, wakers: seq<Waker>,
    detached: bool)             // since the condition last became true a wake_all has taken the queue
  {
    /** One entry, one process, one program counter per waiter. */
    predicate Shaped() {
      |next| == |queued| == |status| == |pc| == |locked|
    }

    predicate Waiter(w: int) {
      0 <= w < |pc|
    }
  }

  // ----- The list -----

  /** The entry before w, walking from e; -1 if w is not met. */
  function Before(next: seq<int>, e: int, w: nat, fuel: nat): int
    decreases fuel
  {
    if fuel == 0 || !(0 <= e < |next|) then -1
    else if next[e] == w then e
    else Before(next, next[e], w, fuel - 1)
  }

  /** wait_queue_finish takes w out of the list, if it is in it. */
  function Unlink(head: int, next: seq<int>, w: nat): (r: (int, seq<int>))
    requires w < |next|
    ensures |r.1| == |next|
  {
    if head == w then (next[w], next[w := -1])
    else
      var p := Before(next, head, w, |next|);
      if 0 <= p < |next| then (head, next[p := next[w]][w := -1]) else (head, next)
  }

  /** Element i as a pointer: null past the end. */
  function At(c: seq<nat>, i: nat): int {
    if i < |c| then c[i] else -1
  }

  lemma AtIs(c: seq<nat>, i: nat)
    ensures At(c, i) == if i < |c| then c[i] else -1
  {
  }

  /** The entries from e on are exactly those of c. */
  predicate Linked(next: seq<int>, e: int, c: seq<nat>) {
    e == At(c, 0) && forall i :: 0 <= i < |c| ==> c[i] < |next| && next[c[i]] == At(c, i + 1)
  }

  /** The walk of wait_queue_finish, as it follows the pointers. */
  method UnlinkWalk(head: int, next: seq<int>, w: nat) returns (newHead: int, newNext: seq<int>)
    requires w < |next| && exists c :: Linked(next, head, c) && NoDup(c)
    ensures (newHead, newNext) == Unlink(head, next, w)
  {
    hide At;
    newHead, newNext := head, next;
    if head == w {
      newHead, newNext := next[w], next[w := -1];
      return;
    }
    ghost var c :| Linked(next, head, c) && NoDup(c);
    NoDupShort(c, |next|);
    var at := head;
    ghost var i := 0;
    while at != -1
      invariant 0 <= i <= |c| && at == At(c, i)
      invariant Before(next, head, w, |next|) == Before(next, at, w, |next| - i)
      invariant newHead == head && newNext == next
      decreases |c| - i
    {
      AtIs(c, i);
      if next[at] == w {
        newNext := next[at := next[w]][w := -1];
        return;
      }
      at := next[at];
      i := i + 1;
    }
    AtIs(c, i);
  }

  // ----- Steps -----

  datatype Action =
    | Step(w: nat)              // the next step of waiter w
    | Spurious(w: nat)          // somebody else makes w runnable
    | SetCond(value: bool)
    | Call(k: nat)              // waker k calls wake_all
    | Advance(k: nat)           // the next step of waker k

  /** wait_queue_prepare. */
  function Prepared(s: State, w: nat): (r: State)
    requires s.Shaped() && s.Waiter(w)
    ensures r.Shaped() && |r.pc| == |s.pc| && |r.wakers| == |s.wakers|
  {
    var t := if s.queued[w] then s else s.(queued := s.queued[w := true], next := s.next[w := s.head], head := w);
    t.(status := t.status[w := Blocked])
  }

  /** wait_queue_finish. */
  function Finished(s: State, w: nat): (r: State)
    requires s.Shaped() && s.Waiter(w)
    ensures r.Shaped() && |r.pc| == |s.pc| && |r.wakers| == |s.wakers|
  {
    var (h, nx) := Unlink(s.head, s.next, w);
    var t := s.(head := h, next := nx);
    if t.queued[w] then
      t.(queued := t.queued[w := false], status := if t.status[w] == Blocked then t.status[w := Running] else t.status)
    else t
  }

  function Go(s: State, w: nat, pc: Pc): State
    requires s.Waiter(w)
  {
    s.(pc := s.pc[w := pc])
  }

  function WaiterStep(s: State, w: nat): (r: State)
    requires s.Shaped() && s.Waiter(w)
    ensures r.Shaped() && |r.pc| == |s.pc| && |r.wakers| == |s.wakers|
  {
    match s.pc[w]
    case Check => Go(s, w, if s.cond then Done else Prepare)
    case Prepare => Go(Prepared(s, w), w, Recheck)
    case Recheck => Go(s, w, if s.cond then FinishLast else Sleep)
    case Sleep => if s.status[w] == Blocked then s else Go(s.(status := s.status[w := Running]), w, Finish)
    case Finish => Go(Finished(s, w), w, if s.locked[w] then Lock else Check)
    case FinishLast => Go(Finished(s, w), w, Done)
    case Done => s
    case Lock => if s.holder == -1 then Go(s.(holder := w), w, LockedCheck) else s
    case LockedCheck => Go(s, w, if s.cond then Leave else LockedPrepare)
    case LockedPrepare => Go(Prepared(s, w), w, Unlock)
    case Unlock => Go(s.(holder := -1), w, Sleep)
    case Leave => Go(s.(holder := -1), w, Done)
  }

  function Put(s: State, k: nat, wk: Waker): State
    requires k < |s.wakers|
  {
    s.(wakers := s.wakers[k := wk])
  }

  function WakerStep(s: State, k: nat): (r: State)
    requires s.Shaped() && k < |s.wakers|
    ensures r.Shaped() && |r.pc| == |s.pc| && |r.wakers| == |s.wakers|
  {
    match s.wakers[k]
    case Idle => s
    case Called => Put(s.(head := -1, detached := s.cond), k, Walk(s.head))
    case Walk(at) =>
      if s.Waiter(at) then Put(s, k, HaveNext(at, s.next[at])) else Put(s, k, Returned)
    case HaveNext(e, nx) => if s.Waiter(e) then Put(s.(next := s.next[e := -1]), k, Cleared(e, nx)) else s
    case Cleared(e, nx) => if s.Waiter(e) then Put(s, k, HaveProc(e, nx, s.queued[e])) else s
    case HaveProc(e, nx, p) =>
      if s.Waiter(e) && p then Put(s.(status := s.status[e := Ready]), k, Walk(nx)) else Put(s, k, Walk(nx))
    case Returned => Put(s, k, Idle)
  }

  /** One step of the whole system; an action that does not apply changes nothing. */
  function Do(s: State, a: Action): (r: State)
    requires s.Shaped()
    ensures r.Shaped()
  {
    match a
    case Step(w) => if s.Waiter(w) then WaiterStep(s, w) else s
    case Spurious(w) => if s.Waiter(w) && s.status[w] == Blocked then s.(status := s.status[w := Ready]) else s
    case SetCond(v) => if s.holder == -1 then s.(cond := v, detached := s.detached && v) else s
    case Call(k) => if k < |s.wakers| && s.wakers[k] == Idle then Put(s, k, Called) else s
    case Advance(k) => if k < |s.wakers| then WakerStep(s, k) else s
  }

  /** Nobody waits yet, and nobody has called wake_all. */
  predicate Init(s: State) {
    && s.Shaped() && !s.cond && s.holder == -1 && s.head == -1 && !s.detached
    && (forall w :: 0 <= w < |s.pc| ==>
          s.next[w] == -1 && !s.queued[w] && s.status[w] == Running && s.pc[w] == if s.locked[w] then Lock else Check)
    && (forall k :: 0 <= k < |s.wakers| ==> s.wakers[k] == Idle)
  }

  function Run(s: State, actions: seq<Action>): (r: State)
    requires s.Shaped()
    ensures r.Shaped()
    decreases |actions|
  {
    if |actions| == 0 then s else Do(Run(s, actions[..|actions| - 1]), actions[|actions| - 1])
  }

  /** wake_all is called only with the condition true, and the condition never goes back to false. */
  predicate Disciplined(s: State, a: Action) {
    (a.Call? ==> s.cond) && (a.SetCond? ==> a.value || !s.cond)
  }

  ghost predicate DisciplinedRun(s: State, actions: seq<Action>)
    requires s.Shaped()
  {
    forall i :: 0 <= i < |actions| ==> Disciplined(Run(s, actions[..i]), actions[i])
  }
}
