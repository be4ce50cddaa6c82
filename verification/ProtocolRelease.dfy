/** What a release of a mount waits for. Its documentation says all work items; the code stops the
    processing thread as soon as it looks at its flag again. */
module ProtocolRelease {
  import opened Wrappers
  import opened Semaphores
  import opened Protocol
  import opened ProtocolInvariants
  import opened ProtocolPreservation
  import opened ProtocolSafety
  import opened ProtocolTheorems
  import opened ProtocolRuns

  /** The run ends with the processing thread joined, and does not go past that. */
  ghost predicate JoinedBy(s: State, steps: seq<Step>)
  {
    Run(s, steps).Some? && Restart !in steps && Run(s, steps).value.stopper == Joined
  }

  ghost predicate AllDone(ids: seq<nat>, s: State)
  {
    forall id | id in ids :: id in s.log.done
  }

  /** What the thread has already decided to complete. */
  function Pending(s: State): seq<nat>
  {
    if s.consumer.Working? then [CellOf(s, s.consumer.slot).id]
    else if s.consumer == AtPop && s.ring != [] then [CellOf(s, s.ring[0]).id]
    else []
  }

  /** A stop is under way, and it will not be over before `ids` are done. */
  ghost predicate Awaited(ids: seq<nat>, s: State)
  {
    && s.stopper != Idle
    && forall id | id in ids :: id in s.log.done || id in Pending(s)
  }

  // ---------------------------------------------------------------- what it waits for

  lemma AwaitedKept(ids: seq<nat>, s: State, step: Step, s': State)
    requires Awaited(ids, s) && StopAgrees(s) && Books(s) && step != Restart && Next(s, step) == Some(s')
    ensures Awaited(ids, s')
  {
    match step {
      case Consume => AwaitedConsume(ids, s, s');
      case Construct(id) => AwaitedWrite(ids, s, id, s');
      case Fill(id) => AwaitedWrite(ids, s, id, s');
      case Push(id) => AwaitedPush(ids, s, id, s');
      case _ => AwaitedOther(ids, s, step, s');
    }
  }

  lemma AwaitedConsume(ids: seq<nat>, s: State, s': State)
    requires Awaited(ids, s) && StopAgrees(s) && ConsumeStep(s) == Some(s')
    ensures Awaited(ids, s')
  {
    ConsumeFrame(s, s');
    assert s.consumer == AtPop ==> Pending(s') == Pending(s) && s'.log == s.log;
    assert s.consumer.Working? ==> s'.log.done == s.log.done + Pending(s);
    assert s.consumer != AtPop && !s.consumer.Working? ==> Pending(s) == [] && s'.log.done == s.log.done;
  }

  lemma AwaitedWrite(ids: seq<nat>, s: State, id: nat, s': State)
    requires Awaited(ids, s) && Partition(s)
    requires Next(s, Construct(id)) == Some(s') || Next(s, Fill(id)) == Some(s')
    ensures Awaited(ids, s')
  {
    ClaimOwned(s, id);
    assert s.ring != [] ==> s.ring[0] in s.ring;
    assert s'.log == s.log && Pending(s') == Pending(s);
  }

  lemma AwaitedPush(ids: seq<nat>, s: State, id: nat, s': State)
    requires Awaited(ids, s) && PushStep(s, id) == Some(s')
    ensures Awaited(ids, s')
  {
    assert s'.ring == s.ring + [s.filling[id].slot];
    assert forall i | i in Pending(s) :: i in Pending(s');
  }

  lemma AwaitedOther(ids: seq<nat>, s: State, step: Step, s': State)
    requires !step.Consume? && !step.Construct? && !step.Fill? && !step.Push? && step != Restart
    requires Awaited(ids, s) && Next(s, step) == Some(s')
    ensures Awaited(ids, s')
  {
    assert s'.ring == s.ring && s'.cells == s.cells && s'.log.done == s.log.done;
    assert s'.consumer == s.consumer || (s.consumer == Asleep && s'.consumer == AtWait);
  }

  lemma {:induction false} AwaitedAlong(ids: seq<nat>, s: State, steps: seq<Step>)
    requires Awaited(ids, s) && Reachable(s) && OneKind(s.kinds) && Run(s, steps).Some? && Restart !in steps
    ensures Awaited(ids, Run(s, steps).value)
    decreases |steps|
  {
    if steps != [] {
      var m := Next(s, steps[0]).value;
      SoundInv(s);
      AwaitedKept(ids, s, steps[0], m);
      StepReachable(s, steps[0]);
      StepKeepsConfig(s, steps[0]);
      AwaitedAlong(ids, m, steps[1..]);
    }
  }

  // ---------------------------------------------------------------- and what it does not wait for

  /** Once it is being joined, the thread can end on its own, with at most the item it has at hand. */
  lemma {:induction false} RunsToItsEnd(s: State) returns (steps: seq<Step>, s': State)
    requires Inv(s) && !s.log.wrapped && s.stopper == Joining && s.consumer != Asleep
    ensures Leads(s, steps, s') && Restart !in steps
    ensures s'.consumer == Exited && s'.stopper == Joining && s'.log.pushed == s.log.pushed
    ensures |s'.log.done| <= |s.log.done| + ItemsLeft(s.consumer)
    decreases ExitRank(s.consumer)
  {
    assert Leads(s, [], s);
    if s.consumer == Exited {
      steps, s' := [], s;
    } else {
      NotAsleepNext(s);
      var p, m := Then(s, [], s, Consume);
      InvKept(s, Consume, m);
      ConsumeFrame(s, m);
      JoiningConsume(s, m);
      var q, e := RunsToItsEnd(m);
      Chain(s, [Consume], m, q, e);
      steps, s' := [Consume] + q, e;
    }
  }

  lemma NotAsleepNext(s: State)
    requires InPool(s) && WakeupsPending(s) && s.stopper == Joining && s.consumer != Asleep && s.consumer != Exited
    ensures ConsumeStep(s).Some? && ConsumeStep(s).value.consumer != Asleep
    ensures Leads(s, [Consume], ConsumeStep(s).value)
  {
    var p, m := Then(s, [], s, Consume);
    assert [Consume][1..] == [] && Run(m, []) == Some(m);
  }

  /** From the request on: signal, wakeup, the thread's last moves, join. */
  lemma StopsOnItsOwn(s: State) returns (steps: seq<Step>, s': State)
    requires Reachable(s) && s.stopper == StopRequested && !s.log.wrapped && s.semaphore + 1 < UINT32_RANGE
    ensures JoinedBy(s, steps) && Run(s, steps) == Some(s') && s'.log.pushed == s.log.pushed
    ensures |s'.log.done| <= |s.log.done| + ItemsLeft(s.consumer)
  {
    var p, a := TellsThread(s);
    ReachableAlong(s, p);
    var q, b := ThreadEnds(a);
    Chain(s, p, a, q, b);
    JoinsEnded(s, p + q, b);
    steps, s' := p + q + [StopJoin], b.(stopper := Joined);
    assert Restart !in p + q;
  }

  lemma ThreadEnds(s: State) returns (steps: seq<Step>, s': State)
    requires Reachable(s) && !s.log.wrapped && s.stopper == Joining && s.consumer != Asleep
    ensures Leads(s, steps, s') && Restart !in steps
    ensures s'.consumer == Exited && s'.stopper == Joining && s'.log.pushed == s.log.pushed
    ensures |s'.log.done| <= |s.log.done| + ItemsLeft(s.consumer)
  {
    ReachableInv(s);
    steps, s' := RunsToItsEnd(s);
  }

  lemma JoinsEnded(s: State, p: seq<Step>, b: State)
    requires Leads(s, p, b) && Restart !in p && b.stopper == Joining && b.consumer == Exited
    ensures JoinedBy(s, p + [StopJoin]) && Run(s, p + [StopJoin]) == Some(b.(stopper := Joined))
  {
    var q, c := Then(s, p, b, StopJoin);
  }

  lemma TellsThread(s: State) returns (steps: seq<Step>, s': State)
    requires s.stopper == StopRequested && !s.log.wrapped && s.semaphore + 1 < UINT32_RANGE
    ensures Leads(s, steps, s') && Restart !in steps
    ensures s' == s.(semaphore := s'.semaphore, stopper := Joining, consumer := Woken(s.consumer),
                     log := s.log.(signals := s'.log.signals))
  {
    assert Leads(s, [], s);
    var p, a := Then(s, [], s, StopSignal);
    assert Incremented(s.semaphore) == s.semaphore + 1;
    steps, s' := Then(s, p, a, StopWake);
  }

  /** What a release finishes: with work of one kind and a counter that does not wrap, everything
      pushed before the stop was requested is done in every run that gets to the join if and only
      if the ring was empty then - or held one item that the thread was about to pop. */
  lemma ReleaseFinishesExactly(s: State)
    requires Reachable(s) && OneKind(s.kinds) && s.stopper == StopRequested
    requires !s.log.wrapped && s.semaphore + 1 < UINT32_RANGE
    ensures (forall steps | JoinedBy(s, steps) :: AllDone(s.log.pushed, Run(s, steps).value))
            <==> |s.ring| <= (if s.consumer == AtPop then 1 else 0)
  {
    SoundInv(s);
    if |s.ring| <= (if s.consumer == AtPop then 1 else 0) {
      QueueIsAwaited(s);
      forall steps | JoinedBy(s, steps) ensures AllDone(s.log.pushed, Run(s, steps).value) {
        AwaitedAlong(s.log.pushed, s, steps);
        ReachableAlong(s, steps);
        MountEditIsExclusive(Run(s, steps).value);
      }
    } else {
      var steps, s' := StopsOnItsOwn(s);
      ReachableAlong(s, steps);
      RunKeepsConfig(s, steps);
      assert |s.log.pushed| == |s.log.done| + |Current(s)| + |s.ring|;
      LastIsNotDone(s');
    }
  }

  lemma QueueIsAwaited(s: State)
    requires InOrder(s) && s.stopper != Idle && |s.ring| <= (if s.consumer == AtPop then 1 else 0)
    ensures Awaited(s.log.pushed, s)
  {
    assert Ids(s, s.ring) == if s.ring == [] then [] else [CellOf(s, s.ring[0]).id];
  }

  lemma LastIsNotDone(s: State)
    requires Reachable(s) && Sound(s) && |s.log.done| < |s.log.pushed|
    ensures !AllDone(s.log.pushed, s)
  {
    ProcessedInOrder(s);
    var last := s.log.pushed[|s.log.pushed| - 1];
    assert last in s.log.pushed;
    assert s.log.done <= s.log.pushed;
    assert forall i | 0 <= i < |s.log.done| :: s.log.done[i] == s.log.pushed[i] != last;
  }
}
