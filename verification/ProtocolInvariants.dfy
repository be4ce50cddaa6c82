/** The inductive invariant of the work queue, group by group. */
module ProtocolInvariants {
  import opened Semaphores
  import opened Protocol

  // ---------------------------------------------------------------- sequences

  ghost predicate NoDup(q: seq<nat>)
  {
    forall i, j | 0 <= i < j < |q| :: q[i] != q[j]
  }

  ghost function Elements(q: seq<nat>): set<nat>
  {
    set x | x in q
  }

  /** The subsequence of those in `keep`. */
  function Filter(q: seq<nat>, keep: set<nat>): seq<nat>
  {
    if q == [] then []
    else Filter(q[..|q| - 1], keep) + (if q[|q| - 1] in keep then [q[|q| - 1]] else [])
  }

  lemma FilterSnoc(q: seq<nat>, x: nat, keep: set<nat>)
    ensures Filter(q + [x], keep) == Filter(q, keep) + (if x in keep then [x] else [])
  {
    assert (q + [x])[..|q|] == q;
  }

  lemma {:induction false} FilterGrow(q: seq<nat>, keep: set<nat>, x: nat)
    requires x !in q
    ensures Filter(q, keep + {x}) == Filter(q, keep)
  {
    if q != [] {
      FilterGrow(q[..|q| - 1], keep, x);
    }
  }

  function CellOf(s: State, p: nat): Cell
  {
    if p < |s.cells| then s.cells[p] else Cell(0, false, false)
  }

  /** The submissions behind the slots of a queue. */
  function Ids(s: State, q: seq<nat>): (r: seq<nat>)
    ensures |r| == |q|
    ensures forall i | 0 <= i < |q| :: r[i] == CellOf(s, q[i]).id
  {
    if q == [] then [] else [CellOf(s, q[0]).id] + Ids(s, q[1..])
  }

  // ---------------------------------------------------------------- the groups

  /** The slots of submissions between alloc and push. */
  ghost function FillSlots(filling: map<nat, Claim>): set<nat>
  {
    set id | id in filling :: filling[id].slot
  }

  /** Those whose item is not written yet. */
  ghost function RawSlots(filling: map<nat, Claim>): set<nat>
  {
    set id | id in filling && filling[id].stage != Filled :: filling[id].slot
  }

  ghost predicate Apart(filling: map<nat, Claim>)
  {
    forall i, j | i in filling && j in filling && i != j :: filling[i].slot != filling[j].slot
  }

  /** How many owners a slot has: the pool, a submitter filling it, the ring, the processing
      thread, or the client that has to release it. */
  ghost function Owners(s: State, p: nat): nat
  {
    (if p in s.free then 1 else 0) + (if p in FillSlots(s.filling) then 1 else 0) + (if p in s.ring then 1 else 0)
    + (if p in Held(s.consumer) then 1 else 0) + (if p in s.awaiting then 1 else 0)
  }

  /** There is a cell for each slot, and nobody uses a slot that is none. */
  ghost predicate InPool(s: State)
  {
    && |s.cells| == s.capacity
    && (forall p | p in s.free || p in s.ring || p in s.awaiting :: p < s.capacity)
    && (forall id | id in s.filling :: s.filling[id].slot < s.capacity)
    && (s.consumer.Working? || s.consumer.Published? || s.consumer.InCallback? || s.consumer.Releasing?
        ==> s.consumer.slot < s.capacity)
  }

  /** Every slot of the pool has exactly one owner, stands in the ring at most once, and no two
      submitters fill the same. */
  ghost predicate Partition(s: State)
  {
    && |s.cells| == s.capacity
    && NoDup(s.ring)
    && Apart(s.filling)
    && forall p: nat :: Owners(s, p) == if p < s.capacity then 1 else 0
  }

  /** The item the processing thread has popped but not completed. */
  function Current(s: State): seq<nat>
  {
    if s.consumer.Working? then [CellOf(s, s.consumer.slot).id] else []
  }

  /** The log of pushes is what is done, then what is in progress, then what is in the ring. */
  ghost predicate InOrder(s: State)
  {
    && s.log.pushed == s.log.done + Current(s) + Ids(s, s.ring)
    && NoDup(s.log.pushed)
    && (forall id | id in s.log.pushed :: id < s.log.nextId)
  }

  /** A slot that holds the item of some submission. */
  ghost predicate Live(s: State, p: nat)
  {
    p < s.capacity && p !in s.free && p !in RawSlots(s.filling)
  }

  /** No two live slots hold the same submission. */
  ghost predicate CellsDistinct(s: State)
  {
    && (forall p, q | Live(s, p) && Live(s, q) && p != q :: CellOf(s, p).id != CellOf(s, q).id)
    && (forall p | Live(s, p) :: CellOf(s, p).id < s.log.nextId)
    && (forall id | id in s.log.wants :: id < s.log.nextId)
  }

  /** A submission between alloc and push is known to nobody else yet. */
  ghost predicate ClaimsFresh(s: State)
  {
    && (forall id | id in s.filling ::
          id < s.log.nextId && id !in s.log.pushed && id !in s.log.refused && id !in s.log.released)
    && (forall id | id in s.filling :: s.filling[id].hasCallback <==> id in s.log.wants)
    && (forall id | id in s.filling && s.filling[id].stage == Filled ::
          CellOf(s, s.filling[id].slot) == Cell(id, s.filling[id].hasCallback, false))
    && (forall id, p | id in s.filling && s.filling[id].stage != Filled && Live(s, p) :: CellOf(s, p).id != id)
  }

  /** Cells say of their slots what the owners rely on. */
  ghost predicate CellsAgree(s: State)
  {
    && (forall p | Live(s, p) :: CellOf(s, p).hasCallback <==> CellOf(s, p).id in s.log.wants)
    && (forall p | p in s.ring || s.consumer == Working(p) :: !CellOf(s, p).completed)
    && (forall p | p in Kept(s.consumer) ::
          CellOf(s, p).completed && CellOf(s, p).hasCallback && CellOf(s, p).id in s.log.done)
    && (s.consumer.Published? && s.consumer.owned ==> s.consumer.id == CellOf(s, s.consumer.slot).id)
    && (forall p | p in s.awaiting ::
          CellOf(s, p).completed && !CellOf(s, p).hasCallback && CellOf(s, p).id in s.log.done)
  }

  /** The callback that is due, and the slot of a callback item that is due back. */
  function CallbackDue(s: State): seq<nat>
  {
    match s.consumer
    case Published(_, id, owned) => if owned then [id] else []
    case InCallback(p) => [CellOf(s, p).id]
    case _ => []
  }

  function ReturnDue(s: State): seq<nat>
  {
    if s.consumer.Releasing? then [CellOf(s, s.consumer.slot).id] else []
  }

  /** Callbacks and slot returns, in order and once each. */
  ghost predicate CalledInOrder(s: State)
  {
    && s.log.called + CallbackDue(s) == Filter(s.log.done, s.log.wants)
    && Filter(s.log.released, s.log.wants) + ReturnDue(s) == s.log.called
  }

  /** A refused submission never gets a slot; a released one never gets it back. */
  ghost predicate EndedOnce(s: State)
  {
    && NoDup(s.log.refused) && NoDup(s.log.released)
    && (forall id | id in s.log.refused :: id < s.log.nextId && id in s.log.wants && id !in s.log.pushed)
    && (forall id | id in s.log.released :: id in s.log.done)
    && (forall p | Live(s, p) :: CellOf(s, p).id !in s.log.refused && CellOf(s, p).id !in s.log.released)
  }

  /** Nothing a client asked for gets lost. */
  ghost predicate Accounted(s: State)
  {
    && (forall id | id in s.log.wants :: id in s.log.refused || id in s.log.pushed || id in s.filling)
    && (forall id | id in s.log.done :: id in s.log.released || InHand(s, id))
  }

  /** Completed, but its slot is still with the processing thread or the client. */
  ghost predicate InHand(s: State, id: nat)
  {
    || (exists p :: p in s.awaiting && CellOf(s, p).id == id)
    || (exists p :: p in Kept(s.consumer) && CellOf(s, p).id == id)
  }

  /** What stopping and restarting keeps. */
  ghost predicate StopAgrees(s: State)
  {
    && (s.processing <==> s.stopper == Idle)
    && (s.stopper == Joined ==> s.consumer == Exited)
    && (s.consumer == Exited ==> s.stopper != Idle)
    && (forall id | id in s.signalling + s.waking :: id in s.log.pushed)
  }

  /** Each increment of the semaphore was asked for by a push or a stop, and the counter wraps
      only after as many increments as it has values. */
  ghost predicate SignalsCounted(s: State)
  {
    && s.log.signals + |s.signalling| + (if s.stopper == StopRequested then 1 else 0) <= |s.log.pushed| + s.log.stops
    && (if s.log.wrapped then s.log.signals >= UINT32_RANGE else s.log.signals >= s.semaphore)
  }

  /** Only submissions of the context's kinds get into cells; so with one kind only, the
      callback field read is always as the submission had it. */
  ghost predicate KindsAgree(s: State)
  {
    && (forall p | 0 <= p < |s.cells| :: s.cells[p].hasCallback ==> true in s.kinds)
    && (forall id | id in s.filling :: s.filling[id].hasCallback in s.kinds)
    && (forall p | p in s.ring || s.consumer == Working(p) :: CellOf(s, p).hasCallback in s.kinds)
    && (s.consumer.Published? ==> s.consumer.owned in s.kinds)
    && (s.log.misread ==> !OneKind(s.kinds))
  }

  predicate Parked(c: Consumer)
  {
    c == AtWait || c == Asleep
  }

  /** The wakeup argument, for a counter that does not wrap. */
  ghost predicate WakeupsPending(s: State)
  {
    && (Parked(s.consumer) && s.ring != [] ==> s.semaphore + |s.signalling| >= 1)
    && (s.consumer == Asleep && s.semaphore > 0 ==> s.waking != {} || s.stopper == StopSignalled)
    && (s.stopper in {StopSignalled, Joining} && s.consumer !in {AtLoop, Exited} ==> s.semaphore >= 1)
  }

  /** Between publishing the completion of `id` and waking the clients that wait for it. */
  predicate WillNotify(c: Consumer, id: nat)
  {
    c == NotifyingAll(id) || (c.Published? && c.id == id && !c.owned)
  }

  /** Clients sleep on items that will still be completed, or are about to be woken. */
  ghost predicate SleepersServed(s: State)
  {
    forall p | p in s.sleepers ::
      && ClientOwns(s, p)
      && (CellOf(s, p).completed ==> WillNotify(s.consumer, CellOf(s, p).id))
  }

  /** The groups about slots, cells and logs. */
  ghost predicate Books(s: State)
  {
    && Partition(s)
    && InOrder(s)
    && CellsDistinct(s)
    && ClaimsFresh(s)
    && CellsAgree(s)
    && CalledInOrder(s)
    && EndedOnce(s)
    && Accounted(s)
  }

  /** What holds whether or not the race about the callback field was ever lost, and what holds
      as long as it was not. */
  ghost predicate Inv(s: State)
  {
    && InPool(s)
    && StopAgrees(s)
    && SignalsCounted(s)
    && KindsAgree(s)
    && (!s.log.wrapped ==> WakeupsPending(s))
    && (!s.log.misread ==> Books(s) && SleepersServed(s))
  }

  // ---------------------------------------------------------------- it holds at first

  lemma InitHolds(capacity: nat, ringCapacity: nat, kinds: set<bool>)
    ensures Inv(Init(capacity, ringCapacity, kinds))
  {
    assert Elements([]) == {};
  }
}
