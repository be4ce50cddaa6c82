/** The work queue as a labelled transition system: submitters, the processing thread, clients
    waiting for items, and `releaseMount` stopping and restarting the thread.

    Every block the source runs under a lock is one step, and so is every read or write of a
    shared field outside a lock; every label carries all the choices of its step, so a run is
    a sequence of labels. Slots are reused; `id` numbers submissions and exists for the sake of
    stating properties only, as does the log. */
module Protocol {
  import opened Wrappers
  import opened PoolAllocators
  import opened RingBuffers
  import opened Semaphores

  /** A work item in its slot. */
  datatype Cell = Cell(id: nat, hasCallback: bool, completed: bool)

  /** Where the processing thread is. */
  datatype Consumer =
    | AtLoop                    // about to test _processing
    | AtPop                     // about to pop
    | Working(slot: nat)        // has an item that is not completed
    | Published(slot: nat, id: nat, owned: bool)
                                // has published the completion of submission `id`, about to read
                                // the callback field; the slot is its own if `id` has a callback
    | InCallback(slot: nat)     // has read a callback there and is about to make it
    | Releasing(slot: nat)      // has made the callback and is about to return the slot
    | NotifyingAll(id: nat)     // has read that there is no callback, about to wake clients
    | AtWait                    // popped nothing, about to look at the semaphore
    | Asleep                    // sleeping in the semaphore's condition variable
    | Exited

  /** Where the thread inside `releaseMount` (or the destructor) is. */
  datatype Stopper =
    | Idle
    | StopRequested             // has cleared _processing
    | StopSignalled             // has incremented the semaphore, about to wake a sleeper
    | Joining                   // waiting for the processing thread to end
    | Joined

  /** How far a submitter has got with the item in its slot. */
  datatype Stage =
    | Taken                     // has the slot from the pool, the old item still in it
    | Cleared                   // has run the constructor, which clears the callback field
    | Filled                    // has written the callback field too, and is about to push

  /** A submission between alloc and push. */
  datatype Claim = Claim(slot: nat, hasCallback: bool, stage: Stage)

  /** What has happened so far. No step depends on it. */
  datatype Log = Log(
    nextId: nat,                // submissions are numbered
    wants: set<nat>,            // submissions made with a callback
    pushed: seq<nat>,           // submissions in push order
    done: seq<nat>,             // submissions in completion order
    called: seq<nat>,           // callbacks made after processing
    refused: seq<nat>,          // callbacks made at once, for lack of a slot
    released: seq<nat>,         // submissions whose slot went back to the pool
    misread: bool,              // whether the callback field read was ever another submission's
    stops: nat,                 // how often a stop was requested
    signals: nat,               // how often the semaphore was incremented
    wrapped: bool)              // whether its counter ever wrapped

  datatype State = State(
    capacity: nat,              // slots in the pool
    ringCapacity: nat,
    kinds: set<bool>,           // the submissions made here: with a callback, without, or both
    free: set<nat>,             // the pool bitmap
    filling: map<nat, Claim>,   // submissions between alloc and push
    ring: seq<nat>,
    awaiting: set<nat>,         // completed, to be released by their clients
    cells: seq<Cell>,
    semaphore: nat,
    processing: bool,
    consumer: Consumer,
    stopper: Stopper,
    signalling: set<nat>,       // submitters between push and the semaphore increment
    waking: set<nat>,           // submitters between the increment and notify_one
    sleepers: set<nat>,         // slots a client sleeps on in WaitForWorkItem
    log: Log)

  datatype Step =
    | Submit(got: Option<nat>, hasCallback: bool)
    | Construct(id: nat)
    | Fill(id: nat)
    | Push(id: nat)
    | Signal(id: nat)
    | Wake(id: nat)
    | Consume
    | SpuriousWake
    | ClientWait(slot: nat)
    | ClientSpuriousWake(slot: nat)
    | ClientRelease(slot: nat)
    | StopBegin
    | StopSignal
    | StopWake
    | StopJoin
    | Restart

  function Init(capacity: nat, ringCapacity: nat, kinds: set<bool>): State
  {
    State(capacity, ringCapacity, kinds, Slots(capacity), map[], [], {},
          seq(capacity, _ => Cell(0, false, false)), 0, true, AtLoop, Idle,
          {}, {}, {}, Log(0, {}, [], [], [], [], [], false, 0, 0, false))
  }

  /** What `notify_one` on the semaphore's condition variable does to its only waiter. */
  function Woken(c: Consumer): Consumer
  {
    if c == Asleep then AtWait else c
  }

  /** The slot the processing thread owns. */
  function Held(c: Consumer): set<nat>
  {
    match c
    case Working(p) => {p}
    case _ => Kept(c)
  }

  /** The slot of a completed item with callback, until the thread returns it. */
  function Kept(c: Consumer): set<nat>
  {
    match c
    case Published(p, _, owned) => if owned then {p} else {}
    case InCallback(p) => {p}
    case Releasing(p) => {p}
    case _ => {}
  }

  /** `++_value` in the semaphore. */
  function Counted(s: State): State
  {
    s.(semaphore := Incremented(s.semaphore),
       log := s.log.(signals := s.log.signals + 1, wrapped := s.log.wrapped || Incremented(s.semaphore) == 0))
  }

  function SubmitStep(s: State, got: Option<nat>, hasCallback: bool): State
    requires got.Some? ==> got.value < |s.cells|
  {
    var id := s.log.nextId;
    var log := s.log.(nextId := id + 1, wants := if hasCallback then s.log.wants + {id} else s.log.wants);
    match got
    case None => s.(log := if hasCallback then log.(refused := log.refused + [id]) else log)
    case Some(p) => s.(free := s.free - {p}, filling := s.filling[id := Claim(p, hasCallback, Taken)], log := log)
  }

  /** The submission `id` moves on to the next stage, and its item is written. */
  function Staged(s: State, id: nat, stage: Stage, cell: Cell): State
    requires id in s.filling && s.filling[id].slot < |s.cells|
  {
    s.(filling := s.filling[id := s.filling[id].(stage := stage)], cells := s.cells[s.filling[id].slot := cell])
  }

  predicate AtStage(s: State, id: nat, stage: Stage)
  {
    id in s.filling && s.filling[id].stage == stage && s.filling[id].slot < |s.cells|
  }

  function PushStep(s: State, id: nat): Option<State>
  {
    if !AtStage(s, id, Filled) then None
    else
      match PushEffect(s.ring, s.ringCapacity, s.filling[id].slot)
      case QueueFull => None
      case Pushed(queue, notify) =>
        Some(s.(filling := s.filling - {id}, ring := queue, log := s.log.(pushed := s.log.pushed + [id]),
                signalling := if notify then s.signalling + {id} else s.signalling))
  }

  /** The next step of the processing thread; None where it cannot move by itself. */
  function ConsumeStep(s: State): Option<State>
  {
    match s.consumer
    case AtLoop => Some(s.(consumer := if s.processing then AtPop else Exited))
    case AtPop =>
      (match PopEffect(s.ring)
       case QueueEmpty => Some(s.(consumer := AtWait))
       case Popped(queue, slot) => Some(s.(ring := queue, consumer := Working(slot))))
    case Working(p) =>
      if p >= |s.cells| then None
      else
        var cell := s.cells[p];
        Some(s.(cells := s.cells[p := cell.(completed := true)],
                log := s.log.(done := s.log.done + [cell.id]),
                consumer := Published(p, cell.id, cell.hasCallback),
                awaiting := if cell.hasCallback then s.awaiting else s.awaiting + {p}))
    case Published(p, id, owned) =>
      if p >= |s.cells| then None
      else
        var hasCallback := s.cells[p].hasCallback;
        Some(s.(consumer := if hasCallback then InCallback(p) else NotifyingAll(id),
                log := s.log.(misread := s.log.misread || hasCallback != owned)))
    case InCallback(p) =>
      if p >= |s.cells| then None
      else Some(s.(consumer := Releasing(p), log := s.log.(called := s.log.called + [s.cells[p].id])))
    case Releasing(p) =>
      if p >= |s.cells| then None
      else Some(s.(consumer := AtLoop, free := s.free + {p},
                   log := s.log.(released := s.log.released + [s.cells[p].id])))
    case NotifyingAll(_) => Some(s.(consumer := AtLoop, sleepers := {}))
    case AtWait =>
      Some(if s.semaphore > 0 then s.(semaphore := s.semaphore - 1, consumer := AtLoop)
           else s.(consumer := Asleep))
    case Asleep => None
    case Exited => None
  }

  /** A client may use the item it submitted without callback once that is pushed, until it
      releases it. */
  predicate ClientOwns(s: State, slot: nat)
  {
    && slot < |s.cells| && !s.cells[slot].hasCallback
    && (slot in s.ring || s.consumer == Working(slot) || slot in s.awaiting)
  }

  /** The transition function: None where the step is not enabled. */
  ghost function Next(s: State, step: Step): Option<State>
  {
    match step
    case Submit(got, hasCallback) =>
      if hasCallback in s.kinds && Allocates(s.free, got) && (got.Some? ==> got.value < |s.cells|)
      then Some(SubmitStep(s, got, hasCallback)) else None
    case Construct(id) =>
      if AtStage(s, id, Taken)
      then Some(Staged(s, id, Cleared, s.cells[s.filling[id].slot].(hasCallback := false, completed := false)))
      else None
    case Fill(id) =>
      if AtStage(s, id, Cleared) then Some(Staged(s, id, Filled, Cell(id, s.filling[id].hasCallback, false)))
      else None
    case Push(id) => PushStep(s, id)
    case Signal(id) =>
      if id !in s.signalling then None
      else Some(Counted(s).(signalling := s.signalling - {id}, waking := s.waking + {id}))
    case Wake(id) =>
      if id !in s.waking then None
      else Some(s.(waking := s.waking - {id}, consumer := Woken(s.consumer)))
    case Consume => ConsumeStep(s)
    case SpuriousWake => if s.consumer == Asleep then Some(s.(consumer := AtWait)) else None
    case ClientWait(slot) =>
      if !ClientOwns(s, slot) then None
      else if s.cells[slot].completed then Some(s)
      else Some(s.(sleepers := s.sleepers + {slot}))
    case ClientSpuriousWake(slot) =>
      if slot in s.sleepers then Some(s.(sleepers := s.sleepers - {slot})) else None
    case ClientRelease(slot) =>
      // A client releases a completed item, once, and not while it sleeps on it.
      if slot !in s.awaiting || slot in s.sleepers || slot >= |s.cells| then None
      else Some(s.(awaiting := s.awaiting - {slot}, free := s.free + {slot},
                   log := s.log.(released := s.log.released + [s.cells[slot].id])))
    case StopBegin =>
      if s.stopper != Idle then None
      else Some(s.(processing := false, stopper := StopRequested,
                   log := s.log.(stops := s.log.stops + 1)))
    case StopSignal =>
      if s.stopper != StopRequested then None
      else Some(Counted(s).(stopper := StopSignalled))
    case StopWake =>
      if s.stopper != StopSignalled then None
      else Some(s.(stopper := Joining, consumer := Woken(s.consumer)))
    case StopJoin =>
      if s.stopper == Joining && s.consumer == Exited then Some(s.(stopper := Joined)) else None
    case Restart =>
      if s.stopper != Joined then None
      else Some(s.(processing := true, stopper := Idle, consumer := AtLoop))
  }

  ghost function Run(s: State, steps: seq<Step>): Option<State>
    decreases |steps|
  {
    if steps == [] then Some(s)
    else
      match Next(s, steps[0])
      case None => None
      case Some(s') => Run(s', steps[1..])
  }

  lemma {:induction false} RunConcat(s: State, a: seq<Step>, b: seq<Step>)
    ensures Run(s, a + b) == (match Run(s, a) case None => None case Some(m) => Run(m, b))
    decreases |a|
  {
    if a == [] {
      assert a + b == b;
    } else {
      assert (a + b)[0] == a[0] && (a + b)[1..] == a[1..] + b;
      match Next(s, a[0])
      case None =>
      case Some(s') => RunConcat(s', a[1..], b);
    }
  }

  lemma StepKeepsConfig(s: State, step: Step)
    requires Next(s, step).Some?
    ensures var s' := Next(s, step).value;
            s'.capacity == s.capacity && s'.ringCapacity == s.ringCapacity && s'.kinds == s.kinds
  {
  }

  lemma {:induction false} RunKeepsConfig(s: State, steps: seq<Step>)
    requires Run(s, steps).Some?
    ensures var s' := Run(s, steps).value;
            s'.capacity == s.capacity && s'.ringCapacity == s.ringCapacity && s'.kinds == s.kinds
    decreases |steps|
  {
    if steps != [] {
      StepKeepsConfig(s, steps[0]);
      RunKeepsConfig(Next(s, steps[0]).value, steps[1..]);
    }
  }

  /** All submissions with a callback, or all without. */
  predicate OneKind(kinds: set<bool>)
  {
    !(true in kinds && false in kinds)
  }

  /** The states a context can be in. */
  ghost predicate Reachable(s: State)
  {
    exists steps :: Run(Init(s.capacity, s.ringCapacity, s.kinds), steps) == Some(s)
  }

  lemma ReachableAlong(s: State, steps: seq<Step>)
    requires Reachable(s) && Run(s, steps).Some?
    ensures Reachable(Run(s, steps).value)
  {
    var init := Init(s.capacity, s.ringCapacity, s.kinds);
    var before :| Run(init, before) == Some(s);
    RunConcat(init, before, steps);
    RunKeepsConfig(s, steps);
  }

  lemma StepReachable(s: State, step: Step)
    requires Reachable(s) && Next(s, step).Some?
    ensures Reachable(Next(s, step).value)
  {
    assert [step][1..] == [];
    assert Run(s, [step]) == Run(Next(s, step).value, []);
    ReachableAlong(s, [step]);
  }
}
