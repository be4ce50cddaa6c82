/** What the work queue guarantees in every reachable state. */
module ProtocolTheorems {
  import opened Wrappers
  import opened PoolAllocators
  import opened Protocol
  import opened ProtocolInvariants
  import opened ProtocolPreservation
  import opened ProtocolSafety

  // ---------------------------------------------------------------- slots

  lemma {:induction false} ElementsCount(q: seq<nat>)
    requires NoDup(q)
    ensures |Elements(q)| == |q|
  {
    if q != [] {
      var x, tail := q[0], q[1..];
      ElementsCount(tail);
      assert q == [x] + tail;
      assert x !in tail;
      assert Elements(q) == {x} + Elements(tail);
    }
  }

  lemma DisjointSizes(a: set<nat>, b: set<nat>, c: set<nat>, d: set<nat>, e: set<nat>)
    requires a * b == {} && (a + b) * c == {} && (a + b + c) * d == {} && (a + b + c + d) * e == {}
    ensures |a + b + c + d + e| == |a| + |b| + |c| + |d| + |e|
  {
  }

  /** Which of the five a slot is in: at most one, and one if it belongs to the pool. */
  lemma OneOwner(s: State, p: nat)
    requires Partition(s)
    ensures p in s.free ==> p !in FillSlots(s.filling) && p !in s.ring && p !in Held(s.consumer) && p !in s.awaiting
    ensures p in FillSlots(s.filling) ==> p !in s.ring && p !in Held(s.consumer) && p !in s.awaiting
    ensures p in s.ring ==> p !in Held(s.consumer) && p !in s.awaiting
    ensures p in Held(s.consumer) ==> p !in s.awaiting
    ensures p < s.capacity <==>
            p in s.free || p in FillSlots(s.filling) || p in s.ring || p in Held(s.consumer) || p in s.awaiting
  {
    assert Owners(s, p) == if p < s.capacity then 1 else 0;
  }

  lemma OwnersAreDisjoint(s: State)
    requires Partition(s)
    ensures s.free * FillSlots(s.filling) == {}
    ensures (s.free + FillSlots(s.filling)) * Elements(s.ring) == {}
    ensures (s.free + FillSlots(s.filling) + Elements(s.ring)) * Held(s.consumer) == {}
    ensures (s.free + FillSlots(s.filling) + Elements(s.ring) + Held(s.consumer)) * s.awaiting == {}
  {
    forall p: nat
      ensures p !in s.free * FillSlots(s.filling) && p !in (s.free + FillSlots(s.filling)) * Elements(s.ring)
      ensures p !in (s.free + FillSlots(s.filling) + Elements(s.ring)) * Held(s.consumer)
      ensures p !in (s.free + FillSlots(s.filling) + Elements(s.ring) + Held(s.consumer)) * s.awaiting
    {
      OneOwner(s, p);
    }
  }

  lemma OwnersCoverPool(s: State)
    requires Partition(s)
    ensures s.free + FillSlots(s.filling) + Elements(s.ring) + Held(s.consumer) + s.awaiting == Slots(s.capacity)
  {
    forall p: nat
      ensures p in s.free + FillSlots(s.filling) + Elements(s.ring) + Held(s.consumer) + s.awaiting
              <==> p in Slots(s.capacity)
    {
      OneOwner(s, p);
    }
  }

  /** No two submissions fill one slot, so there are as many as slots being filled. */
  lemma {:induction false} ClaimsCount(filling: map<nat, Claim>)
    requires Apart(filling)
    ensures |FillSlots(filling)| == |filling|
    decreases |filling|
  {
    if filling == map[] {
      assert FillSlots(filling) == {};
    } else {
      var id :| id in filling;
      var rest := filling - {id};
      assert |rest.Keys| == |filling.Keys| - 1 by {
        assert rest.Keys == filling.Keys - {id};
      }
      assert forall i | i in rest :: rest[i] == filling[i] && i != id;
      assert forall i | i in filling && i != id :: i in rest;
      assert FillSlots(filling) == FillSlots(rest) + {filling[id].slot};
      ClaimsCount(rest);
    }
  }

  /** Each slot is free, being filled, in the ring, with the processing thread, or with its
      client - exactly one of these - and the five counts add up to the pool. */
  lemma SlotsConserved(s: State)
    requires Reachable(s) && Sound(s)
    ensures forall p: nat :: Owners(s, p) == if p < s.capacity then 1 else 0
    ensures |s.free| + |s.filling| + |s.ring| + |Held(s.consumer)| + |s.awaiting| == s.capacity
  {
    SoundInv(s);
    ElementsCount(s.ring);
    ClaimsCount(s.filling);
    OwnersAreDisjoint(s);
    OwnersCoverPool(s);
    DisjointSizes(s.free, FillSlots(s.filling), Elements(s.ring), Held(s.consumer), s.awaiting);
  }

  lemma FillsInPool(s: State, id: nat)
    requires Reachable(s) && id in s.filling
    ensures s.filling[id].slot < |s.cells|
  {
    ReachableInv(s);
  }

  /** A ring at least as large as the pool is never found full: every submitter can push. */
  lemma PushNeverBlocks(s: State, id: nat)
    requires Reachable(s) && Sound(s) && s.capacity <= s.ringCapacity
    requires id in s.filling && s.filling[id].stage == Filled
    ensures Next(s, Push(id)).Some?
  {
    SlotsConserved(s);
    FillsInPool(s, id);
    assert s.filling.Keys != {};
    assert |s.ring| < s.ringCapacity;
  }

  // ---------------------------------------------------------------- order

  /** Completed, in progress, and queued items make up the pushes in order, none twice. */
  lemma ProcessedInOrder(s: State)
    requires Reachable(s) && Sound(s)
    ensures s.log.pushed == s.log.done + Current(s) + Ids(s, s.ring)
    ensures NoDup(s.log.pushed)
    ensures forall i, j | 0 <= i < j < |s.log.pushed| && s.log.pushed[j] in s.log.done :: s.log.pushed[i] in s.log.done
  {
    SoundInv(s);
    assert s.log.done <= s.log.pushed;
    forall i, j | 0 <= i < j < |s.log.pushed| && s.log.pushed[j] in s.log.done ensures s.log.pushed[i] in s.log.done {
      var k :| 0 <= k < |s.log.done| && s.log.done[k] == s.log.pushed[j];
      assert s.log.pushed[k] == s.log.pushed[j];
      assert s.log.pushed[i] == s.log.done[i];
    }
  }

  /** What a client reads off its item is true of its submission; so once the item it waited for
      is completed, everything pushed before is. */
  lemma CompletedMeansDone(s: State, slot: nat, i: nat)
    requires Reachable(s) && Sound(s) && ClientOwns(s, slot)
    ensures CellOf(s, slot).completed <==> CellOf(s, slot).id in s.log.done
    ensures CellOf(s, slot).id in s.log.pushed
    ensures CellOf(s, slot).completed && i < |s.log.pushed| && s.log.pushed[i] == CellOf(s, slot).id ==>
              forall j | 0 <= j <= i :: s.log.pushed[j] in s.log.done
  {
    SoundInv(s);
    ProcessedInOrder(s);
    DoneArePushed(s);
    if slot in s.ring || s.consumer == Working(slot) {
      OpenIsNotDone(s, slot);
    }
  }

  /** An item still queued or in progress is pushed and not done. */
  lemma OpenIsNotDone(s: State, slot: nat)
    requires InOrder(s)
    requires slot in s.ring || s.consumer == Working(slot)
    ensures CellOf(s, slot).id in s.log.pushed && CellOf(s, slot).id !in s.log.done
  {
    var rest := Current(s) + Ids(s, s.ring);
    Assoc(s.log.done, Current(s), Ids(s, s.ring));
    if s.consumer == Working(slot) {
      NotInBoth(s.log.done, rest, 0);
    } else {
      var k :| 0 <= k < |s.ring| && s.ring[k] == slot;
      assert rest[|Current(s)| + k] == Ids(s, s.ring)[k];
      NotInBoth(s.log.done, rest, |Current(s)| + k);
    }
  }

  lemma NotInBoth(a: seq<nat>, b: seq<nat>, k: nat)
    requires NoDup(a + b) && k < |b|
    ensures b[k] !in a && b[k] in a + b
  {
    assert (a + b)[|a| + k] == b[k];
    forall i | 0 <= i < |a| ensures a[i] != b[k] {
      assert (a + b)[i] == a[i];
    }
  }

  // ---------------------------------------------------------------- callbacks

  lemma {:induction false} FilterMembers(q: seq<nat>, keep: set<nat>)
    ensures forall x | x in Filter(q, keep) :: x in q && x in keep
    ensures forall x | x in q && x in keep :: x in Filter(q, keep)
    ensures NoDup(q) ==> NoDup(Filter(q, keep))
  {
    if q != [] {
      var init, last := q[..|q| - 1], q[|q| - 1];
      FilterMembers(init, keep);
      assert q == init + [last];
      if NoDup(q) {
        assert last !in init;
      }
    }
  }

  lemma PrefixFacts(q: seq<nat>, due: seq<nat>, all: seq<nat>)
    requires q + due == all && NoDup(all)
    ensures NoDup(q) && (forall x | x in q :: x in all) && (forall x | x in due :: x !in q)
    ensures forall x | x in all :: x in q || x in due
  {
    assert forall i | 0 <= i < |q| :: all[i] == q[i];
    assert forall i | 0 <= i < |due| :: all[|q| + i] == due[i];
  }

  lemma NoDupPrefix(a: seq<nat>, b: seq<nat>)
    requires NoDup(a + b)
    ensures NoDup(a)
  {
    assert forall i | 0 <= i < |a| :: (a + b)[i] == a[i];
  }

  /** Callbacks: never twice, never both at once and later, only for those who asked for one;
      after processing, in push order, for exactly the completed ones but the one now due. */
  lemma CallbacksExact(s: State)
    requires Reachable(s) && Sound(s)
    ensures NoDup(s.log.called) && NoDup(s.log.refused)
    ensures forall id | id in s.log.refused :: id in s.log.wants && id !in s.log.called && id !in s.log.pushed
    ensures forall id :: id in s.log.called <==> id in s.log.done && id in s.log.wants && id !in CallbackDue(s)
    ensures s.log.called + CallbackDue(s) == Filter(s.log.done, s.log.wants)
  {
    SoundInv(s);
    DoneArePushed(s);
    Assoc(s.log.done, Current(s), Ids(s, s.ring));
    NoDupPrefix(s.log.done, Current(s) + Ids(s, s.ring));
    FilterMembers(s.log.done, s.log.wants);
    PrefixFacts(s.log.called, CallbackDue(s), Filter(s.log.done, s.log.wants));
  }

  /** Nothing is being filled, queued, worked on or about to be called. */
  predicate Settled(s: State)
  {
    s.filling == map[] && s.ring == [] && !s.consumer.Working? && !s.consumer.Published? && !s.consumer.InCallback?
  }

  /** Once things have settled, every request with a callback has had exactly one: at once for
      lack of a slot, or after processing. */
  lemma OneCallbackEach(s: State, id: nat)
    requires Reachable(s) && Sound(s) && Settled(s) && id in s.log.wants
    ensures id in s.log.refused <==> id !in s.log.called
  {
    SoundInv(s);
    CallbacksExact(s);
    assert Ids(s, s.ring) == [] && s.log.pushed == s.log.done;
  }

  /** A submission's slot goes back at most once, never before completion; a callback item's
      goes back right after its callback. */
  lemma SlotReturnedOnce(s: State)
    requires Reachable(s) && Sound(s)
    ensures NoDup(s.log.released)
    ensures forall id | id in s.log.released :: id in s.log.done
    ensures forall id | id in s.log.wants :: id in s.log.released <==> id in s.log.called && id !in ReturnDue(s)
    ensures Filter(s.log.released, s.log.wants) + ReturnDue(s) == s.log.called
  {
    SoundInv(s);
    CallbacksExact(s);
    FilterMembers(s.log.released, s.log.wants);
    PrefixFacts(Filter(s.log.released, s.log.wants), ReturnDue(s), s.log.called);
  }

  // ---------------------------------------------------------------- wakeups

  /** The steps that need nobody's decision: those of the processing thread, those that finish what
      a submission or a stop has begun. */
  predicate Internal(step: Step)
  {
    || step.Construct? || step.Fill? || step.Push? || step.Signal? || step.Wake?
    || step.Consume? || step.StopSignal? || step.StopWake?
  }

  ghost predicate CanMove(s: State)
  {
    exists step :: Internal(step) && Next(s, step).Some?
  }

  /** If the processing thread is about to sleep or asleep while the ring holds work, a token is
      there or on its way; and if it sleeps through a token, somebody is about to wake it. That
      holds in every run, however long, in which the counter never wraps. */
  lemma NoLostWakeup(s: State)
    requires Reachable(s) && !s.log.wrapped
    requires Parked(s.consumer) && s.ring != []
    ensures s.semaphore + |s.signalling| >= 1
    ensures s.consumer == Asleep ==> s.signalling != {} || s.waking != {} || s.stopper == StopSignalled
  {
    ReachableInv(s);
  }

  /** So queued work is never stuck: as long as the ring is not empty and no stop has run to its
      end, some thread can move without anybody's help. */
  lemma QueuedWorkMoves(s: State)
    requires Reachable(s) && !s.log.wrapped
    requires s.ring != [] && s.consumer != Exited
    ensures CanMove(s)
  {
    ReachableInv(s);
    if s.consumer == Asleep {
      NoLostWakeup(s);
      SomebodyWakes(s);
    } else {
      ConsumerMoves(s);
    }
  }

  lemma ConsumerMoves(s: State)
    requires InPool(s) && s.consumer != Asleep && s.consumer != Exited
    ensures CanMove(s)
  {
    assert Next(s, Consume).Some?;
  }

  lemma SomebodyWakes(s: State)
    requires s.signalling != {} || s.waking != {} || s.stopper == StopSignalled
    ensures CanMove(s)
  {
    if id :| id in s.signalling {
      assert Next(s, Signal(id)).Some?;
    } else if id :| id in s.waking {
      assert Next(s, Wake(id)).Some?;
    } else {
      assert Next(s, StopWake).Some?;
    }
  }

  /** A client that sleeps on a completed item is about to be woken: the processing thread is
      between publishing that very completion and notify_all. A client that sleeps on an item
      not completed waits for one that is queued or being processed. */
  lemma NoLostCompletion(s: State, slot: nat)
    requires Reachable(s) && Sound(s) && slot in s.sleepers
    ensures CellOf(s, slot).completed ==> WillNotify(s.consumer, CellOf(s, slot).id)
    ensures !CellOf(s, slot).completed ==> slot in s.ring || s.consumer == Working(slot)
  {
    SoundInv(s);
  }

  // ---------------------------------------------------------------- shutdown

  predicate Stopping(t: Stopper)
  {
    t == StopRequested || t == StopSignalled || t == Joining
  }

  /** A requested stop always gets through: until the processing thread has ended, some thread
      can move, and once the signal is given the thread never faces a semaphore without token. */
  lemma StopNeverStuck(s: State)
    requires Reachable(s) && !s.log.wrapped
    requires Stopping(s.stopper) && s.consumer != Exited
    ensures CanMove(s)
    ensures s.stopper != StopRequested && Parked(s.consumer) ==> s.semaphore >= 1
  {
    ReachableInv(s);
    StopMoves(s);
  }

  lemma StopMoves(s: State)
    requires InPool(s) && WakeupsPending(s)
    requires Stopping(s.stopper) && s.consumer != Exited
    ensures CanMove(s)
  {
    if s.stopper == StopRequested {
      assert Next(s, StopSignal).Some?;
    } else if s.consumer == Asleep {
      SomebodyWakes(s);
    } else {
      ConsumerMoves(s);
    }
  }

  /** How many moves the processing thread is away from its end once it is being joined. */
  function ExitRank(c: Consumer): nat
  {
    match c
    case Exited => 0
    case AtLoop => 1
    case AtWait => 2
    case NotifyingAll(_) => 2
    case Releasing(_) => 2
    case Asleep => 3
    case InCallback(_) => 3
    case Published(_, _, _) => 4
    case Working(_) => 5
    case AtPop => 6
  }

  /** Items it may still complete before it ends. */
  function ItemsLeft(c: Consumer): nat
  {
    if c.Working? || c.AtPop? then 1 else 0
  }

  lemma JoiningStep(s: State, step: Step, s': State)
    requires StopAgrees(s) && WakeupsPending(s)
    requires s.stopper == Joining && step != StopJoin && Next(s, step) == Some(s')
    ensures s'.stopper == Joining
    ensures ExitRank(s'.consumer) <= ExitRank(s.consumer)
    ensures step == Consume ==> ExitRank(s'.consumer) < ExitRank(s.consumer)
    ensures |s'.log.done| + ItemsLeft(s'.consumer) <= |s.log.done| + ItemsLeft(s.consumer)
  {
    if step == Consume {
      JoiningConsume(s, s');
    } else {
      JoiningOther(s, step, s');
    }
  }

  lemma JoiningOther(s: State, step: Step, s': State)
    requires s.stopper == Joining && step != StopJoin && step != Consume && Next(s, step) == Some(s')
    ensures s'.stopper == Joining && s'.log.done == s.log.done
    ensures s'.consumer == s.consumer || (s.consumer == Asleep && s'.consumer == AtWait)
  {
  }

  lemma JoiningConsume(s: State, s': State)
    requires StopAgrees(s) && WakeupsPending(s) && s.stopper == Joining && ConsumeStep(s) == Some(s')
    ensures s'.stopper == Joining
    ensures ExitRank(s'.consumer) < ExitRank(s.consumer)
    ensures |s'.log.done| + ItemsLeft(s'.consumer) <= |s.log.done| + ItemsLeft(s.consumer)
  {
  }

  function ConsumeCount(steps: seq<Step>): nat
  {
    if steps == [] then 0 else (if steps[0] == Consume then 1 else 0) + ConsumeCount(steps[1..])
  }

  /** While `releaseMount` joins it, the processing thread makes at most six moves and
      completes at most one more item, whatever all others do in between; items left in the
      ring stay there for the next thread. */
  lemma StopIsPrompt(s: State, steps: seq<Step>)
    requires Reachable(s) && s.stopper == Joining && StopJoin !in steps
    requires Run(s, steps).Some? && !Run(s, steps).value.log.wrapped
    ensures var s' := Run(s, steps).value;
            && ConsumeCount(steps) + ExitRank(s'.consumer) <= 6
            && |s'.log.done| <= |s.log.done| + 1
  {
    ReachableInv(s);
    JoiningRun(s, steps);
  }

  lemma {:induction false} JoiningRun(s: State, steps: seq<Step>)
    requires Inv(s) && s.stopper == Joining && StopJoin !in steps
    requires Run(s, steps).Some? && !Run(s, steps).value.log.wrapped
    ensures var s' := Run(s, steps).value;
            && !s.log.wrapped
            && ConsumeCount(steps) + ExitRank(s'.consumer) <= ExitRank(s.consumer)
            && |s'.log.done| + ItemsLeft(s'.consumer) <= |s.log.done| + ItemsLeft(s.consumer)
    decreases |steps|
  {
    if steps != [] {
      var m := Next(s, steps[0]).value;
      InvKept(s, steps[0], m);
      WrappedStays(m, steps[1..]);
      FlagsStay(s, steps[0], m);
      assert StopJoin !in steps[1..] && steps[0] != StopJoin;
      JoiningStep(s, steps[0], m);
      JoiningRun(m, steps[1..]);
    }
  }

  lemma {:induction false} WrappedStays(s: State, steps: seq<Step>)
    requires Run(s, steps).Some?
    ensures s.log.wrapped ==> Run(s, steps).value.log.wrapped
    decreases |steps|
  {
    if steps != [] {
      var m := Next(s, steps[0]).value;
      FlagsStay(s, steps[0], m);
      WrappedStays(m, steps[1..]);
    }
  }

  /** A corollary of how little the steps of a stop touch: stopping and restarting leaves the ring,
      the slots and every log of items as they were. */
  lemma RestartKeepsWork(s: State, step: Step, s': State)
    requires Reachable(s) && Next(s, step) == Some(s')
    requires step in {StopBegin, StopSignal, StopWake, StopJoin, Restart}
    ensures SameBooks(s, s')
  {
    ReachableInv(s);
    SilentMove(s, step, s');
  }

  /** Between join and restart - when `releaseMount` destroys devices and edits the mount list -
      no item is being processed: each push is either completed or still in the ring. */
  lemma MountEditIsExclusive(s: State)
    requires Reachable(s) && s.stopper == Joined
    ensures s.consumer == Exited && Held(s.consumer) == {}
    ensures Sound(s) ==> s.log.pushed == s.log.done + Ids(s, s.ring)
  {
    ReachableInv(s);
    assert s.log.done + [] == s.log.done;
  }
}
