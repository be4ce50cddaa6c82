/** The race about the callback field: after the completion is published, the item may become another
    submission's before the processing thread has read it. What the race breaks, and when it can
    be lost at all. */
module ProtocolRace {
  import opened Wrappers
  import opened PoolAllocators
  import opened Protocol
  import opened ProtocolInvariants
  import opened ProtocolSafety
  import opened ProtocolTheorems
  import opened ProtocolRuns

  /** Between two items, with slot 0 free although it stands in the ring `n` times. */
  ghost predicate Cycling(s: State, n: nat)
  {
    Vacant(s, n) && s.consumer == AtLoop
  }

  ghost predicate Vacant(s: State, n: nat)
  {
    && s.capacity == |s.cells| && s.capacity >= 1 && s.free == Slots(s.capacity) && s.filling == map[]
    && |s.ring| == n && (forall i | 0 <= i < n :: s.ring[i] == 0)
    && s.awaiting == {} && s.sleepers == {} && s.stopper == Idle && s.processing
  }

  /** A client releases its completed item, and its slot goes to a submission with callback, before
      the processing thread has read the callback field. */
  lemma SlotTakenAgain(s: State, n: nat) returns (steps: seq<Step>, s': State)
    requires Cycling(s, n) && n < s.ringCapacity && !OneKind(s.kinds)
    ensures Leads(s, steps, s')
    ensures var id := s.log.nextId;
            s' == s.(free := s.free - {0}, filling := map[id + 1 := Claim(0, true, Filled)],
                     cells := s.cells[0 := Cell(id + 1, true, false)], consumer := Published(0, id, false),
                     signalling := s'.signalling, log := s'.log)
    ensures var id := s.log.nextId;
            s'.log == s.log.(nextId := id + 2, wants := s.log.wants + {id + 1}, pushed := s.log.pushed + [id],
                             done := s.log.done + [id], released := s.log.released + [id])
  {
    var p, a := SubmitAndPush(s, false);
    assert a.ring[0] == 0;
    var q, b := TakeAndPublish(a);
    Chain(s, p, a, q, b);
    assert b.ring == s.ring && b.awaiting == {0};
    var r, c := ReleaseAndRetake(b);
    Chain(s, p + q, b, r, c);
    steps, s' := p + q + r, c;
    assert c.free == s.free - {0};
    assert c.cells == s.cells[0 := Cell(s.log.nextId + 1, true, false)];
  }

  lemma ReleaseAndRetake(s: State) returns (steps: seq<Step>, s': State)
    requires |s.cells| >= 1 && s.awaiting == {0} && s.sleepers == {} && s.filling == map[] && true in s.kinds
    ensures Leads(s, steps, s')
    ensures var id := s.log.nextId;
            s' == s.(free := s.free - {0}, awaiting := {}, filling := map[id := Claim(0, true, Filled)],
                     cells := s.cells[0 := Cell(id, true, false)], log := s'.log)
    ensures s'.log == s.log.(nextId := s.log.nextId + 1, wants := s.log.wants + {s.log.nextId},
                             released := s.log.released + [s.cells[0].id])
  {
    assert Leads(s, [], s);
    var p, a := Then(s, [], s, ClientRelease(0));
    assert a.awaiting == {} && Allocates(a.free, Some(0));
    var q, b := PutIn(a, 0, true);
    Chain(s, p, a, q, b);
    steps, s' := p + q, b;
    assert b.free == s.free - {0};
  }

  /** The race is lost: the thread reads the callback field of the wrong submission `id`, calls back
      for it, and returns its slot, which by then is in the ring. */
  lemma LoseRace(s: State, n: nat) returns (steps: seq<Step>, s': State)
    requires Cycling(s, n) && n < s.ringCapacity && !OneKind(s.kinds)
    ensures Leads(s, steps, s') && Cycling(s', n + 1)
    ensures Configured(s', s.capacity, s.ringCapacity, s.kinds)
    ensures var id := s.log.nextId;
            && s'.cells == s.cells[0 := Cell(id + 1, true, false)]
            && s'.log == s.log.(nextId := id + 2, wants := s.log.wants + {id + 1}, misread := true,
                                pushed := s.log.pushed + [id] + [id + 1], done := s.log.done + [id],
                                called := s.log.called + [id + 1], released := s.log.released + [id] + [id + 1])
  {
    var id := s.log.nextId + 1;
    var p, a := SlotTakenAgain(s, n);
    var q, b := CallBack(a);
    Chain(s, p, a, q, b);
    PushEnabled(b, id);
    var r, c := Then(s, p + q, b, Push(id));
    assert c.filling == map[] && c.ring == s.ring + [0];
    var t, d := GiveBack(c);
    Chain(s, r, c, t, d);
    steps, s' := r + t, d;
    assert d.free == Slots(s.capacity);
  }

  /** After one lost race: submission 1 has been called back and its slot returned, but it is still in
      the ring and not done. */
  lemma RaceLost(capacity: nat, ringCapacity: nat, kinds: set<bool>) returns (steps: seq<Step>, s: State)
    requires capacity >= 1 && ringCapacity >= 1 && !OneKind(kinds)
    ensures Leads(Init(capacity, ringCapacity, kinds), steps, s)
    ensures Configured(s, capacity, ringCapacity, kinds) && Cycling(s, 1) && s.cells[0] == Cell(1, true, false)
    ensures s.log.pushed == [0, 1] && s.log.done == [0] && s.log.called == [1] && s.log.released == [0, 1]
    ensures s.log.wants == {1} && s.log.refused == [] && s.log.nextId == 2
  {
    var init := Init(capacity, ringCapacity, kinds);
    steps, s := LoseRace(init, 0);
  }

  /** The slot is given away to submission 2 while it stands in the ring. */
  lemma GivenAway(capacity: nat, ringCapacity: nat, kinds: set<bool>) returns (steps: seq<Step>, s: State)
    requires capacity >= 1 && ringCapacity >= 1 && !OneKind(kinds)
    ensures Leads(Init(capacity, ringCapacity, kinds), steps, s)
    ensures Configured(s, capacity, ringCapacity, kinds) && |s.cells| >= 1 && s.cells[0] == Cell(2, false, false)
    ensures s.log.pushed == [0, 1] && s.log.done == [0] && s.log.called == [1] && s.log.released == [0, 1]
    ensures 1 in s.log.wants && s.filling == map[2 := Claim(0, false, Filled)] && s.ring == [0]
    ensures s.consumer == AtLoop && s.processing && s.awaiting == {}
  {
    var p, a := RaceLost(capacity, ringCapacity, kinds);
    var q, b := PutIn(a, 0, false);
    Chain(Init(capacity, ringCapacity, kinds), p, a, q, b);
    steps, s := p + q, b;
  }

  lemma BooksBroken(s: State)
    requires s.log.pushed == [0, 1] && s.log.done == [0] && s.log.called == [1] && s.log.released == [0, 1]
    requires |s.cells| >= 1 && s.cells[0] == Cell(2, false, false)
    requires 1 in s.log.wants && s.filling == map[2 := Claim(0, false, Filled)] && s.ring == [0]
    requires s.consumer == AtLoop
    ensures !Partition(s) && !InOrder(s) && !CalledInOrder(s) && !EndedOnce(s)
  {
    assert s.filling[2].slot in FillSlots(s.filling);
    assert Owners(s, 0) >= 2;
    assert Ids(s, s.ring)[0] == 2;
    assert (s.log.done + Current(s) + Ids(s, s.ring))[1] == 2 && s.log.pushed[1] == 1;
    FilterMembers(s.log.done, s.log.wants);
    assert (s.log.called + CallbackDue(s))[0] == 1 && 1 !in s.log.done;
    assert s.log.released[1] == 1;
  }

  /** Submission 2 is processed in the place of submission 1, which never is. */
  lemma Overtaken(capacity: nat, ringCapacity: nat, kinds: set<bool>) returns (steps: seq<Step>, s: State)
    requires capacity >= 1 && ringCapacity >= 1 && !OneKind(kinds)
    ensures Leads(Init(capacity, ringCapacity, kinds), steps, s)
    ensures Configured(s, capacity, ringCapacity, kinds) && |s.cells| >= 1 && s.cells[0] == Cell(2, false, true)
    ensures s.awaiting == {0} && s.log.pushed == [0, 1, 2] && s.log.done == [0, 2]
  {
    var init := Init(capacity, ringCapacity, kinds);
    var p, a := GivenAway(capacity, ringCapacity, kinds);
    var q, b := TakeAndPublish(a);
    Chain(init, p, a, q, b);
    PushEnabled(b, 2);
    steps, s := Then(init, p + q, b, Push(2));
  }

  /** The stale entry is processed, up to the return of the slot, which is free already; before
      that it goes to submission 2, and afterwards to submission 3. */
  lemma StaleReturn(capacity: nat, ringCapacity: nat, kinds: set<bool>, kind: bool) returns (steps: seq<Step>, s: State)
    requires capacity >= 1 && ringCapacity >= 1 && !OneKind(kinds)
    ensures Leads(Init(capacity, ringCapacity, kinds), steps, s)
    ensures Configured(s, capacity, ringCapacity, kinds) && |s.cells| == capacity && s.cells[0] == Cell(2, kind, false)
    ensures s.consumer == Releasing(0) && s.ring == [0] && s.filling == map[] && s.awaiting == {} && s.processing
    ensures s.log.called == [1, 1] && s.log.refused == [] && s.log.nextId == 3
    ensures s.log.wants == if kind then {1, 2} else {1}
  {
    var init := Init(capacity, ringCapacity, kinds);
    var p, a := RaceLost(capacity, ringCapacity, kinds);
    var q, b := TakeAndPublish(a);
    Chain(init, p, a, q, b);
    var r, c := CallBack(b);
    Chain(init, p + q, b, r, c);
    assert c.ring == [] && c.free == Slots(capacity);
    var t, d := SubmitAndPush(c, kind);
    Chain(init, p + q + r, c, t, d);
    steps, s := p + q + r + t, d;
    assert {1} + {2} == {1, 2};
  }

  /** A client sleeps on submission 2 while its slot is returned and given to submission 3, which has
      a callback; so when slot 0 is completed nobody is woken. */
  lemma NeverWoken(capacity: nat, ringCapacity: nat, kinds: set<bool>) returns (steps: seq<Step>, s: State)
    requires capacity >= 1 && ringCapacity >= 1 && !OneKind(kinds)
    ensures Leads(Init(capacity, ringCapacity, kinds), steps, s) && Configured(s, capacity, ringCapacity, kinds)
    ensures |s.cells| >= 1 && s.cells[0] == Cell(3, true, true)
    ensures 0 in s.sleepers && s.consumer == Published(0, 3, true)
  {
    var init := Init(capacity, ringCapacity, kinds);
    var p, a := StaleReturn(capacity, ringCapacity, kinds, false);
    var q, b := Then(init, p, a, ClientWait(0));
    var r, c := GiveBack(b);
    Chain(init, q, b, r, c);
    var t, d := PutIn(c, 0, true);
    Chain(init, q + r, c, t, d);
    var u, e := TakeAndPublish(d);
    Chain(init, q + r + t, d, u, e);
    steps, s := q + r + t + u, e;
  }

  /** Submission 2 asked for a callback; its slot is returned and given to submission 3, which is
      processed twice, and the callback of submission 2 is never made. */
  lemma NeverCalled(capacity: nat, ringCapacity: nat, kinds: set<bool>) returns (steps: seq<Step>, s: State)
    requires capacity >= 1 && ringCapacity >= 1 && !OneKind(kinds)
    ensures Leads(Init(capacity, ringCapacity, kinds), steps, s) && Configured(s, capacity, ringCapacity, kinds)
    ensures Settled(s) && 2 in s.log.wants && s.log.refused == [] && s.log.called == [1, 1]
  {
    var init := Init(capacity, ringCapacity, kinds);
    var p, a := StaleReturn(capacity, ringCapacity, kinds, true);
    var q, b := GiveBack(a);
    Chain(init, p, a, q, b);
    var r, c := PutIn(b, 0, false);
    Chain(init, p + q, b, r, c);
    var t, d := TakeAndPublish(c);
    Chain(init, p + q + r, c, t, d);
    var u, e := Notify(d);
    Chain(init, p + q + r + t, d, u, e);
    var v, f := PushAndProcess(e);
    Chain(init, p + q + r + t + u, e, v, f);
    steps, s := p + q + r + t + u + v, f;
  }

  lemma PushAndProcess(s: State) returns (steps: seq<Step>, s': State)
    requires |s.cells| >= 1 && s.filling == map[3 := Claim(0, false, Filled)] && s.ring == [] && s.ringCapacity >= 1
    requires s.consumer == AtLoop && s.processing && !s.cells[0].hasCallback
    ensures Leads(s, steps, s')
    ensures s'.filling == map[] && s'.ring == [] && s'.consumer == AtLoop && s'.log.wants == s.log.wants
    ensures s'.log.called == s.log.called && s'.log.refused == s.log.refused
    ensures Configured(s', s.capacity, s.ringCapacity, s.kinds)
  {
    assert Leads(s, [], s);
    PushEnabled(s, 3);
    var p, a := Then(s, [], s, Push(3));
    assert a.filling == map[] && a.ring == [0];
    var q, b := TakeAndPublish(a);
    Chain(s, p, a, q, b);
    var r, c := Notify(b);
    Chain(s, p + q, b, r, c);
    steps, s' := p + q + r, c;
  }

  // ---------------------------------------------------------------- when the promises hold

  /** What CompletedMeansDone promises. */
  ghost predicate CompletedInOrder(s: State)
  {
    forall slot, i, j
      | ClientOwns(s, slot) && CellOf(s, slot).completed
        && 0 <= j <= i < |s.log.pushed| && s.log.pushed[i] == CellOf(s, slot).id ::
      s.log.pushed[j] in s.log.done
  }

  /** What OneCallbackEach promises. */
  ghost predicate CalledOnce(s: State)
  {
    Settled(s) ==> forall id | id in s.log.wants :: id in s.log.refused <==> id !in s.log.called
  }

  /** What NoLostCompletion promises. */
  ghost predicate SleepersWoken(s: State)
  {
    forall slot | slot in s.sleepers && CellOf(s, slot).completed :: WillNotify(s.consumer, CellOf(s, slot).id)
  }

  lemma KeptBySound(s: State)
    requires Reachable(s) && Sound(s)
    ensures Books(s) && CompletedInOrder(s) && CalledOnce(s) && SleepersWoken(s)
  {
    SoundInv(s);
    forall slot, i, j
      | ClientOwns(s, slot) && CellOf(s, slot).completed
        && 0 <= j <= i < |s.log.pushed| && s.log.pushed[i] == CellOf(s, slot).id
      ensures s.log.pushed[j] in s.log.done
    {
      CompletedMeansDone(s, slot, i);
    }
    forall id | Settled(s) && id in s.log.wants ensures id in s.log.refused <==> id !in s.log.called {
      OneCallbackEach(s, id);
    }
    forall slot | slot in s.sleepers && CellOf(s, slot).completed ensures WillNotify(s.consumer, CellOf(s, slot).id) {
      NoLostCompletion(s, slot);
    }
  }

  ghost predicate Possible(s: State, capacity: nat, ringCapacity: nat, kinds: set<bool>)
  {
    Reachable(s) && Configured(s, capacity, ringCapacity, kinds)
  }

  /** Ownership, order, callbacks and slot returns are kept in every run if and only if the
      context's submissions are of one kind: all with a callback, or all without. */
  lemma BooksKeptExactly(capacity: nat, ringCapacity: nat, kinds: set<bool>)
    requires capacity >= 1 && ringCapacity >= 1
    ensures OneKind(kinds) <==> forall s | Possible(s, capacity, ringCapacity, kinds) :: Partition(s)
    ensures OneKind(kinds) <==> forall s | Possible(s, capacity, ringCapacity, kinds) :: InOrder(s)
    ensures OneKind(kinds) <==> forall s | Possible(s, capacity, ringCapacity, kinds) :: CalledInOrder(s)
    ensures OneKind(kinds) <==> forall s | Possible(s, capacity, ringCapacity, kinds) :: EndedOnce(s)
  {
    if OneKind(kinds) {
      forall s | Possible(s, capacity, ringCapacity, kinds) ensures Books(s) {
        SoundInv(s);
      }
    } else {
      var steps, s := GivenAway(capacity, ringCapacity, kinds);
      LedReachable(capacity, ringCapacity, kinds, steps, s);
      BooksBroken(s);
      assert Possible(s, capacity, ringCapacity, kinds);
    }
  }

  /** And so is what clients may rely on: that a completed item means that all earlier ones are done,
      that each request gets one callback, and that whoever waits for a completed item is woken. */
  lemma ClientsServedExactly(capacity: nat, ringCapacity: nat, kinds: set<bool>)
    requires capacity >= 1 && ringCapacity >= 1
    ensures OneKind(kinds) <==> forall s | Possible(s, capacity, ringCapacity, kinds) :: CompletedInOrder(s)
    ensures OneKind(kinds) <==> forall s | Possible(s, capacity, ringCapacity, kinds) :: CalledOnce(s)
    ensures OneKind(kinds) <==> forall s | Possible(s, capacity, ringCapacity, kinds) :: SleepersWoken(s)
  {
    if OneKind(kinds) {
      forall s | Possible(s, capacity, ringCapacity, kinds)
        ensures CompletedInOrder(s) && CalledOnce(s) && SleepersWoken(s)
      {
        KeptBySound(s);
      }
    } else {
      var p, a := Overtaken(capacity, ringCapacity, kinds);
      LedReachable(capacity, ringCapacity, kinds, p, a);
      assert Possible(a, capacity, ringCapacity, kinds);
      assert ClientOwns(a, 0) && CellOf(a, 0).completed && a.log.pushed[2] == 2 && a.log.pushed[1] !in a.log.done;
      var q, b := NeverCalled(capacity, ringCapacity, kinds);
      LedReachable(capacity, ringCapacity, kinds, q, b);
      assert Possible(b, capacity, ringCapacity, kinds) && 2 !in b.log.called;
      var r, c := NeverWoken(capacity, ringCapacity, kinds);
      LedReachable(capacity, ringCapacity, kinds, r, c);
      assert Possible(c, capacity, ringCapacity, kinds) && CellOf(c, 0).completed;
    }
  }
}
