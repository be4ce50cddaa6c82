/** Building runs of the protocol step by step, to show what can happen. */
module ProtocolRuns {
  import opened Wrappers
  import opened PoolAllocators
  import opened Protocol

  /** `steps` leads from `s` to `s'`. */
  ghost predicate Leads(s: State, steps: seq<Step>, s': State)
  {
    Run(s, steps) == Some(s')
  }

  lemma Chain(a: State, p: seq<Step>, b: State, q: seq<Step>, c: State)
    requires Leads(a, p, b) && Leads(b, q, c)
    ensures Leads(a, p + q, c)
  {
    RunConcat(a, p, q);
  }

  /** Extends a run by one step. */
  lemma Then(a: State, p: seq<Step>, b: State, step: Step) returns (q: seq<Step>, c: State)
    requires Leads(a, p, b) && Next(b, step).Some?
    ensures q == p + [step] && Leads(a, q, c) && Next(b, step) == Some(c)
  {
    c := Next(b, step).value;
    q := p + [step];
    assert [step][1..] == [] && Run(c, []) == Some(c);
    Chain(a, p, b, [step], c);
  }

  ghost predicate Configured(s: State, capacity: nat, ringCapacity: nat, kinds: set<bool>)
  {
    s.capacity == capacity && s.ringCapacity == ringCapacity && s.kinds == kinds
  }

  lemma LedReachable(capacity: nat, ringCapacity: nat, kinds: set<bool>, steps: seq<Step>, s: State)
    requires Leads(Init(capacity, ringCapacity, kinds), steps, s)
    ensures Reachable(s) && Configured(s, capacity, ringCapacity, kinds)
  {
    RunKeepsConfig(Init(capacity, ringCapacity, kinds), steps);
  }

  // ---------------------------------------------------------------- runs over slot 0

  /** A submission, up to the push: alloc, constructor, and filling the item in. */
  lemma PutIn(s: State, slot: nat, kind: bool) returns (steps: seq<Step>, s': State)
    requires slot < |s.cells| && Allocates(s.free, Some(slot)) && kind in s.kinds
    ensures Leads(s, steps, s')
    ensures var id := s.log.nextId;
            s' == s.(free := s.free - {slot}, filling := s.filling[id := Claim(slot, kind, Filled)],
                     cells := s.cells[slot := Cell(id, kind, false)], log := s'.log)
    ensures s'.log == s.log.(nextId := s.log.nextId + 1,
                             wants := if kind then s.log.wants + {s.log.nextId} else s.log.wants)
  {
    var id := s.log.nextId;
    assert Leads(s, [], s);
    var p, a := Then(s, [], s, Submit(Some(slot), kind));
    assert a == SubmitStep(s, Some(slot), kind);
    var q, b := WriteItem(a, id);
    Chain(s, p, a, q, b);
    steps, s' := p + q, b;
    assert s'.filling == s.filling[id := Claim(slot, kind, Filled)];
  }

  lemma WriteItem(s: State, id: nat) returns (steps: seq<Step>, s': State)
    requires AtStage(s, id, Taken)
    ensures Leads(s, steps, s')
    ensures var c := s.filling[id];
            s' == s.(filling := s.filling[id := Claim(c.slot, c.hasCallback, Filled)],
                     cells := s.cells[c.slot := Cell(id, c.hasCallback, false)])
  {
    var slot := s.filling[id].slot;
    assert Leads(s, [], s);
    var p, a := Then(s, [], s, Construct(id));
    assert a == Staged(s, id, Cleared, s.cells[slot].(hasCallback := false, completed := false));
    steps, s' := Then(s, p, a, Fill(id));
    assert s' == Staged(a, id, Filled, Cell(id, s.filling[id].hasCallback, false));
    assert s'.filling == s.filling[id := Claim(slot, s.filling[id].hasCallback, Filled)];
    assert s'.cells == s.cells[slot := Cell(id, s.filling[id].hasCallback, false)];
  }

  lemma PushEnabled(s: State, id: nat)
    requires AtStage(s, id, Filled) && |s.ring| < s.ringCapacity
    ensures var s' := s.(filling := s.filling - {id}, ring := s.ring + [s.filling[id].slot],
                         signalling := if s.ring == [] then s.signalling + {id} else s.signalling,
                         log := s.log.(pushed := s.log.pushed + [id]));
            Next(s, Push(id)) == Some(s')
  {
  }

  /** The whole submission. */
  lemma SubmitAndPush(s: State, kind: bool) returns (steps: seq<Step>, s': State)
    requires s.capacity == |s.cells| && s.capacity >= 1 && 0 in s.free && kind in s.kinds
    requires s.filling == map[] && |s.ring| < s.ringCapacity
    ensures Leads(s, steps, s')
    ensures var id := s.log.nextId;
            s' == s.(free := s.free - {0}, cells := s.cells[0 := Cell(id, kind, false)], ring := s.ring + [0],
                     signalling := if s.ring == [] then s.signalling + {id} else s.signalling, log := s'.log)
    ensures s'.log == s.log.(nextId := s.log.nextId + 1, pushed := s.log.pushed + [s.log.nextId],
                             wants := if kind then s.log.wants + {s.log.nextId} else s.log.wants)
  {
    var id := s.log.nextId;
    var p, a := PutIn(s, 0, kind);
    PushEnabled(a, id);
    steps, s' := Then(s, p, a, Push(id));
    assert a.filling - {id} == map[];
  }

  /** The processing thread takes slot 0 from the ring and publishes the completion of whatever item is
      in it, without ever looking at the semaphore. */
  lemma TakeAndPublish(s: State) returns (steps: seq<Step>, s': State)
    requires |s.cells| >= 1 && s.ring != [] && s.ring[0] == 0 && s.processing && s.consumer == AtLoop
    ensures Leads(s, steps, s')
    ensures var c := s.cells[0];
            s' == s.(ring := s.ring[1..], consumer := Published(0, c.id, c.hasCallback),
                     cells := s.cells[0 := c.(completed := true)],
                     awaiting := if c.hasCallback then s.awaiting else s.awaiting + {0},
                     log := s.log.(done := s.log.done + [c.id]))
  {
    assert Leads(s, [], s);
    var p, a := Then(s, [], s, Consume);
    var q, b := Then(s, p, a, Consume);
    assert b == s.(ring := s.ring[1..], consumer := Working(0));
    steps, s' := Then(s, q, b, Consume);
  }

  /** From a published completion to the head of the loop, if there is a callback now ... */
  lemma CallBack(s: State) returns (steps: seq<Step>, s': State)
    requires s.consumer.Published? && s.consumer.slot == 0 && |s.cells| >= 1 && s.cells[0].hasCallback
    ensures Leads(s, steps, s')
    ensures var id := s.cells[0].id;
            s' == s.(consumer := Releasing(0),
                     log := s.log.(misread := s.log.misread || !s.consumer.owned, called := s.log.called + [id]))
  {
    assert Leads(s, [], s);
    var p, a := Then(s, [], s, Consume);
    assert a.consumer == InCallback(0) && a.cells == s.cells;
    steps, s' := Then(s, p, a, Consume);
  }

  lemma GiveBack(s: State) returns (steps: seq<Step>, s': State)
    requires s.consumer == Releasing(0) && |s.cells| >= 1
    ensures Leads(s, steps, s')
    ensures s' == s.(consumer := AtLoop, free := s.free + {0},
                     log := s.log.(released := s.log.released + [s.cells[0].id]))
  {
    assert Leads(s, [], s);
    steps, s' := Then(s, [], s, Consume);
  }

  /** ... and if there is none. */
  lemma Notify(s: State) returns (steps: seq<Step>, s': State)
    requires s.consumer.Published? && s.consumer.slot == 0 && |s.cells| >= 1 && !s.cells[0].hasCallback
    ensures Leads(s, steps, s')
    ensures s' == s.(consumer := AtLoop, sleepers := {}, log := s.log.(misread := s.log.misread || s.consumer.owned))
  {
    assert Leads(s, [], s);
    var p, a := Then(s, [], s, Consume);
    assert a.consumer.NotifyingAll?;
    steps, s' := Then(s, p, a, Consume);
  }
}
