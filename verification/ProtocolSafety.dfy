/** The other groups of the invariant - pool bounds, stopping, signals, kinds, wakeups, sleepers -
    are kept too; so the whole invariant holds in every reachable state. */
module ProtocolSafety {
  import opened Wrappers
  import opened Protocol
  import opened ProtocolInvariants
  import opened ProtocolPreservation

  // ---------------------------------------------------------------- groups that need no books

  /** What the processing thread never touches. */
  lemma ConsumeFrame(s: State, s': State)
    requires ConsumeStep(s) == Some(s')
    ensures s'.capacity == s.capacity && |s'.cells| == |s.cells| && s'.kinds == s.kinds && s'.filling == s.filling
    ensures s'.log.pushed == s.log.pushed && s'.signalling == s.signalling && s'.waking == s.waking
    ensures s'.processing == s.processing && s'.stopper == s.stopper && s'.log.stops == s.log.stops
    ensures s'.log.signals == s.log.signals && s'.log.wrapped == s.log.wrapped && (s.log.misread ==> s'.log.misread)
    ensures s'.semaphore <= s.semaphore
  {
    match s.consumer
    case AtLoop =>
    case AtPop =>
    case Working(p) =>
    case Published(p, id, owned) =>
    case InCallback(p) =>
    case Releasing(p) =>
    case NotifyingAll(_) =>
    case AtWait =>
    case _ =>
  }

  lemma InPoolKept(s: State, step: Step, s': State)
    requires InPool(s) && Next(s, step) == Some(s')
    ensures InPool(s')
  {
    if step.Consume? {
      InPoolConsume(s, s');
    } else {
      assert forall p | p in s'.ring :: p in s.ring || (step.Push? && p == s.filling[step.id].slot);
    }
  }

  lemma InPoolConsume(s: State, s': State)
    requires InPool(s) && ConsumeStep(s) == Some(s')
    ensures InPool(s')
  {
    ConsumeFrame(s, s');
    assert forall p | p in s'.ring :: p in s.ring;
    assert s.ring != [] ==> s.ring[0] in s.ring;
  }

  lemma StopAgreesKept(s: State, step: Step, s': State)
    requires StopAgrees(s) && Next(s, step) == Some(s')
    ensures StopAgrees(s')
  {
    if step.Consume? {
      ConsumeFrame(s, s');
      assert s'.consumer == Exited ==> !s.processing;
    }
  }

  lemma SignalsCountedKept(s: State, step: Step, s': State)
    requires SignalsCounted(s) && Next(s, step) == Some(s')
    ensures SignalsCounted(s')
  {
    match step {
      case Push(id) => SignalsPush(s, id, s');
      case Signal(id) =>
        assert |s'.signalling| == |s.signalling| - 1;
      case Consume => ConsumeFrame(s, s');
      case _ =>
    }
  }

  lemma SignalsPush(s: State, id: nat, s': State)
    requires SignalsCounted(s) && PushStep(s, id) == Some(s')
    ensures SignalsCounted(s')
  {
    assert |s'.signalling| <= |s.signalling| + 1;
  }

  /** A published item's own cell still says what its submission did, unless the slot was released
      and taken again; and then by a submission of one of the context's kinds. Once the race is
      lost, there are both kinds. */
  lemma KindsAgreeKept(s: State, step: Step, s': State)
    requires InPool(s) && KindsAgree(s) && Next(s, step) == Some(s')
    requires !s.log.misread ==> Partition(s) && ClaimsFresh(s) && CellsAgree(s)
    ensures KindsAgree(s')
  {
    match step {
      case Construct(id) => KindsWrite(s, id, s');
      case Fill(id) => KindsWrite(s, id, s');
      case Push(id) => KindsPush(s, id, s');
      case Consume => KindsConsume(s, s');
      case _ => KindsOther(s, step, s');
    }
  }

  lemma KindsWrite(s: State, id: nat, s': State)
    requires InPool(s) && KindsAgree(s) && (!s.log.misread ==> Partition(s))
    requires Next(s, Construct(id)) == Some(s') || Next(s, Fill(id)) == Some(s')
    ensures KindsAgree(s')
  {
    if !s.log.misread {
      ClaimOwned(s, id);
    }
  }

  lemma KindsPush(s: State, id: nat, s': State)
    requires InPool(s) && KindsAgree(s) && (!s.log.misread ==> ClaimsFresh(s)) && PushStep(s, id) == Some(s')
    ensures KindsAgree(s')
  {
    assert forall p | p in s'.ring :: p in s.ring || p == s.filling[id].slot;
  }

  lemma KindsConsume(s: State, s': State)
    requires InPool(s) && KindsAgree(s) && (!s.log.misread ==> CellsAgree(s)) && ConsumeStep(s) == Some(s')
    ensures KindsAgree(s')
  {
    ConsumeFrame(s, s');
    ConsumeKeepsCallbacks(s, s');
    if s.consumer.Published? && s.consumer.owned {
      assert s.consumer.slot in Kept(s.consumer);
    }
  }

  lemma ConsumeKeepsCallbacks(s: State, s': State)
    requires ConsumeStep(s) == Some(s')
    ensures forall p | 0 <= p < |s.cells| :: p < |s'.cells| && s'.cells[p].hasCallback == s.cells[p].hasCallback
    ensures forall p | p in s'.ring || s'.consumer == Working(p) :: p in s.ring
  {
    assert s.ring != [] ==> s.ring[0] in s.ring;
  }

  lemma KindsOther(s: State, step: Step, s': State)
    requires !step.Construct? && !step.Fill? && !step.Push? && !step.Consume?
    requires KindsAgree(s) && Next(s, step) == Some(s')
    ensures KindsAgree(s')
  {
    assert s'.ring == s.ring && s'.cells == s.cells && s'.kinds == s.kinds;
  }

  // ---------------------------------------------------------------- wakeups

  /** Unless the counter wraps, the wakeup argument is kept by every step. A push raises a signal
      exactly when the ring was empty, and only the processing thread takes tokens. */
  lemma WakeupsKept(s: State, step: Step, s': State)
    requires StopAgrees(s) && WakeupsPending(s) && Next(s, step) == Some(s') && !s'.log.wrapped
    ensures WakeupsPending(s')
  {
    match step {
      case Push(id) => WakeupsPush(s, id, s');
      case Signal(id) => WakeupsSignal(s, id, s');
      case Consume => WakeupsConsume(s, s');
      case StopSignal => WakeupsStopSignal(s, s');
      case _ => WakeupsOther(s, step, s');
    }
  }

  lemma WakeupsSignal(s: State, id: nat, s': State)
    requires WakeupsPending(s) && Next(s, Signal(id)) == Some(s') && !s'.log.wrapped
    ensures WakeupsPending(s')
  {
    assert s'.semaphore != 0 && id in s'.waking;
  }

  lemma WakeupsStopSignal(s: State, s': State)
    requires WakeupsPending(s) && Next(s, StopSignal) == Some(s') && !s'.log.wrapped
    ensures WakeupsPending(s')
  {
    assert s'.semaphore != 0;
  }

  lemma WakeupsOther(s: State, step: Step, s': State)
    requires !step.Push? && !step.Signal? && !step.Consume? && !step.StopSignal?
    requires StopAgrees(s) && WakeupsPending(s) && Next(s, step) == Some(s')
    ensures WakeupsPending(s')
  {
    assert s'.signalling == s.signalling && s'.semaphore == s.semaphore && s'.ring == s.ring;
  }

  lemma WakeupsConsume(s: State, s': State)
    requires StopAgrees(s) && WakeupsPending(s) && ConsumeStep(s) == Some(s')
    ensures WakeupsPending(s')
  {
    ConsumeFrame(s, s');
  }

  lemma WakeupsPush(s: State, id: nat, s': State)
    requires WakeupsPending(s) && PushStep(s, id) == Some(s')
    ensures WakeupsPending(s')
  {
    assert s.ring == [] ==> id in s'.signalling;
  }

  // ---------------------------------------------------------------- sleepers

  lemma SleepersKept(s: State, step: Step, s': State)
    requires Partition(s) && StopAgrees(s) && SleepersServed(s) && Next(s, step) == Some(s') && !s'.log.misread
    ensures SleepersServed(s')
  {
    forall p | p in s'.sleepers
      ensures ClientOwns(s', p)
      ensures CellOf(s', p).completed ==> WillNotify(s'.consumer, CellOf(s', p).id)
    {
      SleeperKept(s, step, s', p);
    }
  }

  lemma SleeperKept(s: State, step: Step, s': State, p: nat)
    requires Partition(s) && StopAgrees(s) && SleepersServed(s) && Next(s, step) == Some(s') && !s'.log.misread
    requires p in s'.sleepers
    ensures ClientOwns(s', p)
    ensures CellOf(s', p).completed ==> WillNotify(s'.consumer, CellOf(s', p).id)
  {
    assert Owners(s, p) == if p < s.capacity then 1 else 0;
    if step.Consume? {
      SleeperServed(s, s', p);
    } else {
      assert p in s.sleepers || step == ClientWait(p);
      assert ClientOwns(s, p);
    }
  }

  lemma SleeperServed(s: State, s': State, p: nat)
    requires SleepersServed(s) && ConsumeStep(s) == Some(s') && !s'.log.misread
    requires p in s'.sleepers && Owners(s, p) == if p < s.capacity then 1 else 0
    ensures ClientOwns(s', p)
    ensures CellOf(s', p).completed ==> WillNotify(s'.consumer, CellOf(s', p).id)
  {
    assert p in s.sleepers && ClientOwns(s, p);
  }

  // ---------------------------------------------------------------- every step, every run

  lemma FlagsStay(s: State, step: Step, s': State)
    requires Next(s, step) == Some(s')
    ensures s.log.wrapped ==> s'.log.wrapped
    ensures s.log.misread ==> s'.log.misread
  {
    if step.Consume? {
      ConsumeFrame(s, s');
    }
  }

  lemma InvKept(s: State, step: Step, s': State)
    requires Inv(s) && Next(s, step) == Some(s')
    ensures Inv(s')
  {
    FlagsStay(s, step, s');
    InPoolKept(s, step, s');
    StopAgreesKept(s, step, s');
    SignalsCountedKept(s, step, s');
    KindsAgreeKept(s, step, s');
    if !s'.log.wrapped {
      WakeupsKept(s, step, s');
    }
    if !s'.log.misread {
      BooksKept(s, step, s');
      SleepersKept(s, step, s');
    }
  }

  lemma {:induction false} RunKeepsInv(s: State, steps: seq<Step>)
    requires Inv(s) && Run(s, steps).Some?
    ensures Inv(Run(s, steps).value)
    decreases |steps|
  {
    if steps != [] {
      var s' := Next(s, steps[0]).value;
      InvKept(s, steps[0], s');
      RunKeepsInv(s', steps[1..]);
    }
  }

  /** The invariant holds in every reachable state: any pool and ring size, any number of
      submitters and clients, any sequence of stops and restarts. */
  lemma ReachableInv(s: State)
    requires Reachable(s)
    ensures Inv(s)
  {
    var steps :| Run(Init(s.capacity, s.ringCapacity, s.kinds), steps) == Some(s);
    InitHolds(s.capacity, s.ringCapacity, s.kinds);
    RunKeepsInv(Init(s.capacity, s.ringCapacity, s.kinds), steps);
  }

  /** Submissions are of one kind, or at least the race about the callback field was never lost. */
  ghost predicate Sound(s: State)
  {
    OneKind(s.kinds) || !s.log.misread
  }

  lemma SoundInv(s: State)
    requires Reachable(s) && Sound(s)
    ensures Inv(s) && !s.log.misread && Books(s) && SleepersServed(s)
  {
    ReachableInv(s);
  }
}
