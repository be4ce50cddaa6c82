/** Left alone, the work queue drains, whatever the scheduler does: every internal step lowers a
    measure, and nothing stops before all pushed work is done. */
module ProtocolProgress {
  import opened Wrappers
  import opened Semaphores
  import opened Protocol
  import opened ProtocolInvariants
  import opened ProtocolSafety
  import opened ProtocolTheorems

  /** How far the processing thread is from sleep, an item apart. */
  function Rank(c: Consumer): nat
  {
    match c
    case Asleep => 0
    case Exited => 0
    case AtWait => 1
    case AtPop => 2
    case AtLoop => 3
    case Releasing(_) => 4
    case NotifyingAll(_) => 4
    case InCallback(_) => 5
    case Published(_, _, _) => 6
    case Working(_) => 7
  }

  function StopRank(t: Stopper): nat
  {
    match t
    case StopRequested => 6
    case StopSignalled => 2
    case _ => 0
  }

  ghost function AtStages(filling: map<nat, Claim>, stage: Stage): set<nat>
  {
    set id | id in filling && filling[id].stage == stage
  }

  /** Each submission under way, queued item, token and pending signal is worth more than the moves
      it can cause. */
  ghost function Effort(s: State): nat
  {
    13 * |s.filling| + 2 * |AtStages(s.filling, Taken)| + |AtStages(s.filling, Cleared)|
    + 6 * |s.ring| + 3 * s.semaphore + 6 * |s.signalling| + 2 * |s.waking| + Rank(s.consumer) + StopRank(s.stopper)
  }

  lemma IncrementedAtMost(v: nat)
    ensures Incremented(v) <= v + 1
  {
  }

  lemma EffortFalls(s: State, step: Step, s': State)
    requires Internal(step) && Next(s, step) == Some(s')
    ensures Effort(s') < Effort(s)
  {
    match step {
      case Construct(id) => EffortFallsStage(s, id, Cleared, s');
      case Fill(id) => EffortFallsStage(s, id, Filled, s');
      case Push(id) => EffortFallsPush(s, id, s');
      case Signal(id) => EffortFallsSignal(s, id, s');
      case Wake(id) =>
        assert |s'.waking| == |s.waking| - 1;
      case Consume => EffortFallsConsume(s, s');
      case _ => EffortFallsStop(s, step, s');
    }
  }

  lemma EffortFallsSignal(s: State, id: nat, s': State)
    requires Next(s, Signal(id)) == Some(s')
    ensures Effort(s') < Effort(s)
  {
    IncrementedAtMost(s.semaphore);
    assert |s'.signalling| == |s.signalling| - 1;
    assert |s'.waking| <= |s.waking| + 1;
  }

  lemma EffortFallsStop(s: State, step: Step, s': State)
    requires (step == StopSignal || step == StopWake) && Next(s, step) == Some(s')
    ensures Effort(s') < Effort(s)
  {
    IncrementedAtMost(s.semaphore);
  }

  lemma EffortFallsStage(s: State, id: nat, stage: Stage, s': State)
    requires stage == Cleared || stage == Filled
    requires AtStage(s, id, if stage == Cleared then Taken else Cleared)
    requires s' == s.(cells := s'.cells, filling := s.filling[id := s.filling[id].(stage := stage)])
    ensures Effort(s') < Effort(s)
  {
    var was, now := s.filling, s'.filling;
    assert now.Keys == was.Keys;
    if stage == Cleared {
      assert AtStages(now, Taken) == AtStages(was, Taken) - {id};
      assert AtStages(now, Cleared) == AtStages(was, Cleared) + {id};
    } else {
      assert AtStages(now, Taken) == AtStages(was, Taken);
      assert AtStages(now, Cleared) == AtStages(was, Cleared) - {id};
    }
  }

  lemma EffortFallsPush(s: State, id: nat, s': State)
    requires PushStep(s, id) == Some(s')
    ensures Effort(s') < Effort(s)
  {
    var was, now := s.filling, s'.filling;
    assert now.Keys == was.Keys - {id};
    assert AtStages(now, Taken) == AtStages(was, Taken);
    assert AtStages(now, Cleared) == AtStages(was, Cleared);
    assert |s'.signalling| <= |s.signalling| + 1;
  }

  lemma EffortFallsConsume(s: State, s': State)
    requires ConsumeStep(s) == Some(s')
    ensures Effort(s') < Effort(s)
  {
    ConsumeFrame(s, s');
  }

  ghost predicate AllInternal(steps: seq<Step>)
  {
    forall i | 0 <= i < |steps| :: Internal(steps[i])
  }

  /** Internal steps neither submit nor request a stop. */
  lemma InternalKeeps(s: State, step: Step, s': State)
    requires Internal(step) && Next(s, step) == Some(s')
    ensures s.log.pushed <= s'.log.pushed && s'.log.nextId == s.log.nextId && s'.log.wants == s.log.wants
    ensures s.stopper == Idle ==> s'.stopper == Idle
    ensures Stopping(s.stopper) ==> Stopping(s'.stopper)
  {
    if step.Consume? {
      InternalConsume(s, s');
    }
  }

  lemma InternalConsume(s: State, s': State)
    requires ConsumeStep(s) == Some(s')
    ensures s'.log.pushed == s.log.pushed && s'.log.nextId == s.log.nextId && s'.log.wants == s.log.wants
    ensures s'.stopper == s.stopper
  {
  }

  lemma {:induction false} InternalRunIsShort(s: State, steps: seq<Step>)
    requires AllInternal(steps) && Run(s, steps).Some?
    ensures |steps| + Effort(Run(s, steps).value) <= Effort(s)
    ensures var s' := Run(s, steps).value;
            s.log.pushed <= s'.log.pushed && s'.log.nextId == s.log.nextId && s'.log.wants == s.log.wants
    ensures s.stopper == Idle ==> Run(s, steps).value.stopper == Idle
    ensures Stopping(s.stopper) ==> Stopping(Run(s, steps).value.stopper)
    decreases |steps|
  {
    if steps != [] {
      var m := Next(s, steps[0]).value;
      EffortFalls(s, steps[0], m);
      InternalKeeps(s, steps[0], m);
      InternalRunIsShort(m, steps[1..]);
    }
  }

  /** Where no thread can move and no stop is under way, no submission is half made, the ring is empty
      and the processing thread asleep; everything pushed is done, and no client sleeps. */
  lemma QuietMeansDone(s: State)
    requires Reachable(s) && !s.log.wrapped && s.stopper == Idle && !CanMove(s) && s.ringCapacity >= 1
    ensures s.consumer == Asleep && s.ring == [] && s.filling == map[]
    ensures Sound(s) ==> s.log.done == s.log.pushed && s.sleepers == {}
  {
    QuietIsEmpty(s);
    if Sound(s) {
      SoundInv(s);
      assert Current(s) == [] && Ids(s, s.ring) == [];
      forall slot | slot in s.sleepers ensures false {
        NoLostCompletion(s, slot);
      }
    }
  }

  lemma QuietIsEmpty(s: State)
    requires Reachable(s) && !s.log.wrapped && s.stopper == Idle && !CanMove(s) && s.ringCapacity >= 1
    ensures s.consumer == Asleep && s.ring == [] && s.filling == map[]
  {
    ReachableInv(s);
    if s.consumer != Asleep {
      ConsumerMoves(s);
    }
    if s.ring != [] {
      QueuedWorkMoves(s);
    }
    forall id | id in s.filling ensures false {
      SubmitterMoves(s, id);
    }
  }

  lemma SubmitterMoves(s: State, id: nat)
    requires InPool(s) && id in s.filling && |s.ring| < s.ringCapacity
    ensures CanMove(s)
  {
    match s.filling[id].stage
    case Taken => assert Next(s, Construct(id)).Some?;
    case Cleared => assert Next(s, Fill(id)).Some?;
    case Filled => assert Next(s, Push(id)).Some?;
  }

  /** Any run of internal steps, scheduled in any way, is at most `Effort` steps long; and when it
      cannot be continued, every submission made before is pushed or refused, every item pushed is
      completed, in push order, every client that waited has been woken, and every callback asked
      for has been made exactly once. */
  lemma LeftAloneDrains(s: State, steps: seq<Step>)
    requires Reachable(s) && s.stopper == Idle && s.ringCapacity >= 1
    requires AllInternal(steps) && Run(s, steps).Some?
    ensures |steps| <= Effort(s)
    ensures var s' := Run(s, steps).value;
            !CanMove(s') && !s'.log.wrapped && Sound(s') ==>
              && s'.filling == map[] && s.log.pushed <= s'.log.pushed == s'.log.done && s'.sleepers == {}
              && forall id | id in s.log.wants :: id in s'.log.refused <==> id !in s'.log.called
  {
    var s' := Run(s, steps).value;
    InternalRunIsShort(s, steps);
    ReachableAlong(s, steps);
    RunKeepsConfig(s, steps);
    if !CanMove(s') && !s'.log.wrapped && Sound(s') {
      QuietMeansDone(s');
      forall id | id in s.log.wants ensures id in s'.log.refused <==> id !in s'.log.called {
        OneCallbackEach(s', id);
      }
    }
  }

  lemma QuietStopIsOver(s: State)
    requires Reachable(s) && !s.log.wrapped && Stopping(s.stopper) && !CanMove(s)
    ensures s.consumer == Exited && s.stopper == Joining
  {
    if s.consumer != Exited {
      StopNeverStuck(s);
    }
    assert Next(s, StopSignal).Some? <==> s.stopper == StopRequested;
    assert Next(s, StopWake).Some? <==> s.stopper == StopSignalled;
  }

  /** A requested stop ends: a run of internal steps is bounded, and where it cannot be continued
      the processing thread has ended and can be joined. */
  lemma RequestedStopEnds(s: State, steps: seq<Step>)
    requires Reachable(s) && Stopping(s.stopper)
    requires AllInternal(steps) && Run(s, steps).Some?
    ensures |steps| <= Effort(s)
    ensures var s' := Run(s, steps).value;
            !CanMove(s') && !s'.log.wrapped ==> s'.consumer == Exited && s'.stopper == Joining
  {
    var s' := Run(s, steps).value;
    InternalRunIsShort(s, steps);
    ReachableAlong(s, steps);
    if !CanMove(s') && !s'.log.wrapped {
      QuietStopIsOver(s');
    }
  }
}
