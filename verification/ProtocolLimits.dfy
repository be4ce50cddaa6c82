/** Where the guarantees of the work queue end, with runs that show it: the 32-bit semaphore, the
    size of the ring, and a stop with work queued. */
module ProtocolLimits {
  import opened Wrappers
  import opened PoolAllocators
  import opened Semaphores
  import opened Protocol
  import opened ProtocolSafety
  import opened ProtocolTheorems
  import opened ProtocolRuns
  import opened ProtocolRace

  // ---------------------------------------------------------------- the semaphore

  /** Nothing is queued or owned, and nobody is on the way. */
  ghost predicate Rested(s: State)
  {
    Vacant(s, 0) && s.ringCapacity >= 1 && s.signalling == {} && s.waking == {}
  }

  /** Between two items, with `k` tokens from `k` signals. */
  ghost predicate Lap(s: State, k: nat)
  {
    Rested(s) && s.consumer == AtLoop && s.semaphore == k && s.log.signals == k
  }

  /** A submission into slot 0, pushed and signalled. */
  lemma SubmitAndSignal(s: State, kind: bool) returns (steps: seq<Step>, s': State)
    requires Rested(s) && kind in s.kinds && s.consumer != Asleep
    ensures Leads(s, steps, s')
    ensures s' == s.(free := s.free - {0}, cells := s.cells[0 := Cell(s.log.nextId, kind, false)], ring := [0],
                     semaphore := Incremented(s.semaphore), log := s'.log)
    ensures s'.log.signals == s.log.signals + 1
  {
    var id := s.log.nextId;
    var p, s1 := SubmitAndPush(s, kind);
    var q, s2 := Then(s, p, s1, Signal(id));
    assert s2.waking == {id} && s2.signalling == {};
    steps, s' := Then(s, q, s2, Wake(id));
    assert s'.waking == {};
  }

  /** The way back to the head of the loop, with the slot returned: by the processing thread after
      the callback, or by the client. */
  lemma Finish(s: State) returns (steps: seq<Step>, s': State)
    requires |s.cells| >= 1 && s.consumer == Published(0, s.cells[0].id, s.cells[0].hasCallback)
    requires s.awaiting == (if s.cells[0].hasCallback then {} else {0}) && s.sleepers == {}
    ensures Leads(s, steps, s')
    ensures s' == s.(consumer := AtLoop, free := s.free + {0}, awaiting := {}, log := s'.log)
    ensures s'.log.signals == s.log.signals
  {
    if s.cells[0].hasCallback {
      var p, a := CallBack(s);
      var q, b := GiveBack(a);
      Chain(s, p, a, q, b);
      steps, s' := p + q, b;
    } else {
      var p, a := Notify(s);
      steps, s' := Then(s, p, a, ClientRelease(0));
      assert s'.awaiting == {};
    }
  }

  lemma OneLap(s: State, kind: bool, k: nat) returns (steps: seq<Step>, s': State)
    requires Lap(s, k) && k + 1 < UINT32_RANGE && kind in s.kinds
    ensures Leads(s, steps, s') && Lap(s', k + 1) && s'.kinds == s.kinds
  {
    var p, a := SubmitAndSignal(s, kind);
    var q, b := OneItem(a);
    Chain(s, p, a, q, b);
    steps, s' := p + q, b;
    assert b.free == Slots(s.capacity);
  }

  lemma OneItem(s: State) returns (steps: seq<Step>, s': State)
    requires |s.cells| >= 1 && s.ring == [0] && s.processing && s.consumer == AtLoop
    requires s.awaiting == {} && s.sleepers == {}
    ensures Leads(s, steps, s')
    ensures s' == s.(ring := [], free := s.free + {0}, cells := s'.cells, log := s'.log)
    ensures |s'.cells| == |s.cells| && s'.log.signals == s.log.signals
  {
    var p, a := TakeAndPublish(s);
    assert a.awaiting == if s.cells[0].hasCallback then {} else {0};
    var q, b := Finish(a);
    Chain(s, p, a, q, b);
    steps, s' := p + q, b;
  }

  lemma {:induction false} Laps(capacity: nat, ringCapacity: nat, kinds: set<bool>, kind: bool, k: nat)
    returns (steps: seq<Step>, s: State)
    requires capacity >= 1 && ringCapacity >= 1 && kind in kinds && k < UINT32_RANGE
    ensures Leads(Init(capacity, ringCapacity, kinds), steps, s) && Lap(s, k) && s.kinds == kinds
  {
    if k == 0 {
      steps, s := [], Init(capacity, ringCapacity, kinds);
    } else {
      var p, m := Laps(capacity, ringCapacity, kinds, kind, k - 1);
      var q, n := OneLap(m, kind, k - 1);
      steps, s := p + q, n;
      Chain(Init(capacity, ringCapacity, kinds), p, m, q, n);
    }
  }

  /** Queued work, a sleeping processing thread, no token, and nobody about to give one. */
  ghost predicate LostWakeup(s: State)
  {
    s.consumer == Asleep && s.ring != [] && s.semaphore == 0 && s.signalling == {} && s.waking == {}
    && s.stopper == Idle
  }

  /** From the full counter: a push between the empty pop and the look at the semaphore wraps
      it, and the processing thread goes to sleep on queued work. */
  lemma SleepsOnWork(s: State, kind: bool) returns (steps: seq<Step>, s': State)
    requires Lap(s, UINT32_RANGE - 1) && kind in s.kinds
    ensures Leads(s, steps, s')
    ensures s'.log.signals == UINT32_RANGE && LostWakeup(s')
  {
    assert Leads(s, [], s);
    var p, a := Then(s, [], s, Consume);
    var q, b := Then(s, p, a, Consume);
    assert b == s.(consumer := AtWait);
    var r, c := SubmitAndSignal(b, kind);
    Chain(s, q, b, r, c);
    assert c.semaphore == 0;
    steps, s' := Then(s, q + r, c, Consume);
  }

  /** NoLostWakeup asks for no more than needed: within `n` increments of the semaphore a wakeup can
      get lost if and only if `n` reaches 2^32, the range of the counter. */
  lemma LostWakeupExactly(capacity: nat, ringCapacity: nat, kinds: set<bool>, n: nat)
    requires capacity >= 1 && ringCapacity >= 1 && exists kind :: kind in kinds
    ensures (exists s :: Possible(s, capacity, ringCapacity, kinds)
                         && s.log.signals <= n && LostWakeup(s))
            <==> n >= UINT32_RANGE
  {
    if n >= UINT32_RANGE {
      var kind :| kind in kinds;
      var init := Init(capacity, ringCapacity, kinds);
      var p, a := Laps(capacity, ringCapacity, kinds, kind, UINT32_RANGE - 1);
      var q, b := SleepsOnWork(a, kind);
      Chain(init, p, a, q, b);
      LedReachable(capacity, ringCapacity, kinds, p + q, b);
      assert LostWakeup(b);
    }
    forall s | Reachable(s) && s.log.signals <= n && LostWakeup(s) ensures n >= UINT32_RANGE {
      LostOnlyByWrap(s);
    }
  }

  /** No run of any length loses a wakeup unless its counter wrapped, and that takes 2^32
      increments, each asked for by a push onto the empty ring or by a stop. */
  lemma LostOnlyByWrap(s: State)
    requires Reachable(s) && LostWakeup(s)
    ensures s.log.wrapped && UINT32_RANGE <= s.log.signals <= |s.log.pushed| + s.log.stops
  {
    ReachableInv(s);
    if !s.log.wrapped {
      NoLostWakeup(s);
    }
  }

  // ---------------------------------------------------------------- the ring

  /** A submitter is about to push and finds the ring full. */
  ghost predicate Blocked(s: State)
  {
    exists id :: AtStage(s, id, Filled) && Next(s, Push(id)).None?
  }

  /** The first `n` slots are queued and nothing else has happened. */
  ghost predicate Queued(s: State, n: nat)
  {
    && |s.cells| == s.capacity && n <= s.capacity && s.log.done == []
    && s.free == Slots(s.capacity) - Slots(n) && s.filling == map[] && |s.ring| == n
    && s.processing && s.consumer == AtLoop && s.stopper == Idle
  }

  lemma QueueOne(s: State, kind: bool, n: nat) returns (steps: seq<Step>, s': State)
    requires Queued(s, n) && n < s.capacity && n < s.ringCapacity && kind in s.kinds
    ensures Leads(s, steps, s') && Queued(s', n + 1)
  {
    var p, a := PutIn(s, n, kind);
    PushEnabled(a, s.log.nextId);
    steps, s' := Then(s, p, a, Push(s.log.nextId));
    assert s'.filling == map[];
    assert Slots(s.capacity) - Slots(n) - {n} == Slots(s.capacity) - Slots(n + 1);
  }

  lemma {:induction false} QueueMany(capacity: nat, ringCapacity: nat, kinds: set<bool>, kind: bool, n: nat)
    returns (steps: seq<Step>, s: State)
    requires n <= capacity && n <= ringCapacity && kind in kinds
    ensures Leads(Init(capacity, ringCapacity, kinds), steps, s) && Queued(s, n)
    ensures Configured(s, capacity, ringCapacity, kinds)
  {
    var init := Init(capacity, ringCapacity, kinds);
    if n == 0 {
      steps, s := [], init;
    } else {
      var p, a := QueueMany(capacity, ringCapacity, kinds, kind, n - 1);
      var q, b := QueueOne(a, kind, n - 1);
      Chain(init, p, a, q, b);
      LedReachable(capacity, ringCapacity, kinds, p + q, b);
      steps, s := p + q, b;
    }
  }

  /** Each lost race leaves one more entry in the ring than slots in use. */
  lemma {:induction false} LoseRaces(capacity: nat, ringCapacity: nat, kinds: set<bool>, n: nat)
    returns (steps: seq<Step>, s: State)
    requires capacity >= 1 && n <= ringCapacity && !OneKind(kinds)
    ensures Leads(Init(capacity, ringCapacity, kinds), steps, s) && Cycling(s, n)
    ensures Configured(s, capacity, ringCapacity, kinds)
  {
    var init := Init(capacity, ringCapacity, kinds);
    if n == 0 {
      steps, s := [], init;
    } else {
      var p, a := LoseRaces(capacity, ringCapacity, kinds, n - 1);
      var q, b := LoseRace(a, n - 1);
      Chain(init, p, a, q, b);
      steps, s := p + q, b;
    }
  }

  /** With the ring full and a slot left, the next submitter is blocked. */
  lemma NextBlocks(capacity: nat, ringCapacity: nat, kinds: set<bool>, p: seq<Step>, a: State, slot: nat, kind: bool)
    requires Leads(Init(capacity, ringCapacity, kinds), p, a) && |a.ring| == ringCapacity
    requires Configured(a, capacity, ringCapacity, kinds)
    requires slot < |a.cells| && Allocates(a.free, Some(slot)) && kind in kinds
    ensures exists s :: Possible(s, capacity, ringCapacity, kinds) && Blocked(s)
  {
    var init := Init(capacity, ringCapacity, kinds);
    var q, s := PutIn(a, slot, kind);
    Chain(init, p, a, q, s);
    LedReachable(capacity, ringCapacity, kinds, p + q, s);
    assert AtStage(s, a.log.nextId, Filled) && Next(s, Push(a.log.nextId)).None?;
    assert Possible(s, capacity, ringCapacity, kinds) && Blocked(s);
  }

  /** A submitter can find the ring full if and only if the ring is smaller than the pool, or the
      race about the callback field can be lost: then no ring is large enough. */
  lemma RingFullExactly(capacity: nat, ringCapacity: nat, kinds: set<bool>)
    requires exists kind :: kind in kinds
    ensures (exists s :: Possible(s, capacity, ringCapacity, kinds) && Blocked(s))
            <==> ringCapacity < capacity || (capacity >= 1 && !OneKind(kinds))
  {
    if ringCapacity < capacity {
      var kind :| kind in kinds;
      var p, a := QueueMany(capacity, ringCapacity, kinds, kind, ringCapacity);
      assert Allocates(a.free, Some(ringCapacity));
      NextBlocks(capacity, ringCapacity, kinds, p, a, ringCapacity, kind);
    } else if capacity >= 1 && !OneKind(kinds) {
      var p, a := LoseRaces(capacity, ringCapacity, kinds, ringCapacity);
      NextBlocks(capacity, ringCapacity, kinds, p, a, 0, true);
    }
    forall s | Possible(s, capacity, ringCapacity, kinds) && Blocked(s)
      ensures ringCapacity < capacity || (capacity >= 1 && !OneKind(kinds))
    {
      var id :| AtStage(s, id, Filled) && Next(s, Push(id)).None?;
      FillsInPool(s, id);
      if s.capacity <= s.ringCapacity && OneKind(kinds) {
        PushNeverBlocks(s, id);
      }
      SlotsExist(s, id);
    }
  }

  lemma SlotsExist(s: State, id: nat)
    requires Reachable(s) && id in s.filling
    ensures s.capacity >= 1
  {
    ReachableInv(s);
  }

  // ---------------------------------------------------------------- stopping with work queued

  /** A stop up to the join, while the thread stays at the head of its loop ... */
  lemma StopSignals(s: State) returns (steps: seq<Step>, s': State)
    requires s.stopper == Idle && s.consumer == AtLoop
    ensures Leads(s, steps, s')
    ensures s' == s.(processing := false, stopper := Joining, semaphore := s'.semaphore, log := s'.log)
    ensures s'.log.done == s.log.done
  {
    assert Leads(s, [], s);
    var p, a := Then(s, [], s, StopBegin);
    var q, b := Then(s, p, a, StopSignal);
    steps, s' := Then(s, q, b, StopWake);
  }

  /** ... and then the thread leaves the loop and is joined. */
  lemma ThreadEnds(s: State) returns (steps: seq<Step>, s': State)
    requires s.stopper == Joining && s.consumer == AtLoop && !s.processing
    ensures Leads(s, steps, s') && s' == s.(stopper := Joined, consumer := Exited)
  {
    assert Leads(s, [], s);
    var p, a := Then(s, [], s, Consume);
    steps, s' := Then(s, p, a, StopJoin);
  }

  /** `releaseMount` does not finish the queued work first, whatever its comment says: the
      processing thread can be joined with items in the ring. */
  lemma JoinedWithWorkQueued(capacity: nat, ringCapacity: nat, kinds: set<bool>) returns (s: State)
    requires capacity >= 1 && ringCapacity >= 1 && exists kind :: kind in kinds
    ensures Reachable(s) && Configured(s, capacity, ringCapacity, kinds)
    ensures s.stopper == Joined && s.ring != [] && s.log.done == []
  {
    var init := Init(capacity, ringCapacity, kinds);
    var kind :| kind in kinds;
    var p, a := QueueMany(capacity, ringCapacity, kinds, kind, 1);
    var q, b := StopSignals(a);
    var r, c := ThreadEnds(b);
    Chain(init, p, a, q, b);
    Chain(init, p + q, b, r, c);
    LedReachable(capacity, ringCapacity, kinds, p + q + r, c);
    s := c;
  }
}
