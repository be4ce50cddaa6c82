/** Every step keeps the books: who owns which slot, what the cells say, and the logs. Steps that
    only move threads about are silent; each of the others has one lemma a group. */
module ProtocolPreservation {
  import opened Wrappers
  import opened Protocol
  import opened ProtocolInvariants

  // ---------------------------------------------------------------- silent steps

  predicate Silent(s: State, step: Step)
  {
    && !step.Submit? && !step.Construct? && !step.Fill? && !step.Push? && !step.ClientRelease?
    && (step.Consume? ==>
          s.consumer != AtPop && !s.consumer.Working? && !s.consumer.InCallback? && !s.consumer.Releasing?)
  }

  /** Nothing changes hands, and nothing new is due. */
  ghost predicate SameBooks(s: State, s': State)
  {
    && s'.capacity == s.capacity && s'.ringCapacity == s.ringCapacity
    && s'.free == s.free && s'.filling == s.filling && s'.ring == s.ring && s'.awaiting == s.awaiting
    && s'.cells == s.cells && s'.log.nextId == s.log.nextId && s'.log.wants == s.log.wants
    && s'.log.pushed == s.log.pushed && s'.log.done == s.log.done && s'.log.called == s.log.called
    && s'.log.refused == s.log.refused && s'.log.released == s.log.released
    && Held(s'.consumer) == Held(s.consumer) && Kept(s'.consumer) == Kept(s.consumer)
    && CallbackDue(s') == CallbackDue(s) && ReturnDue(s') == ReturnDue(s)
    && (s.consumer.Working? || s'.consumer.Working? || s'.consumer.Published? ==> s'.consumer == s.consumer)
  }

  lemma SilentStep(s: State, step: Step, s': State)
    requires StopAgrees(s) && CellsAgree(s) && Silent(s, step) && Next(s, step) == Some(s') && !s'.log.misread
    ensures SameBooks(s, s')
  {
    if step.Consume? {
      SilentConsume(s, s');
    } else {
      SilentMove(s, step, s');
    }
  }

  lemma SilentMove(s: State, step: Step, s': State)
    requires StopAgrees(s) && Silent(s, step) && !step.Consume? && Next(s, step) == Some(s')
    ensures SameBooks(s, s')
  {
  }

  lemma SilentConsume(s: State, s': State)
    requires CellsAgree(s) && Silent(s, Consume) && ConsumeStep(s) == Some(s') && !s'.log.misread
    ensures SameBooks(s, s')
  {
    if s.consumer.Published? {
      assert s'.cells == s.cells && s'.log.done == s.log.done;
    }
  }

  lemma SilentKeeps(s: State, s': State)
    requires SameBooks(s, s') && Books(s)
    ensures Books(s')
  {
    SilentKeepsOrder(s, s');
    SilentKeepsCells(s, s');
    SilentKeepsClaims(s, s');
    SilentKeepsLogs(s, s');
  }

  lemma SilentKeepsOrder(s: State, s': State)
    requires SameBooks(s, s') && Partition(s) && InOrder(s)
    ensures Partition(s') && InOrder(s')
  {
    assert forall p: nat :: Owners(s', p) == Owners(s, p);
    IdsSame(s, s', s.ring);
  }

  lemma SilentKeepsCells(s: State, s': State)
    requires SameBooks(s, s') && CellsDistinct(s) && CellsAgree(s)
    ensures CellsDistinct(s') && CellsAgree(s')
  {
    assert forall p: nat :: CellOf(s', p) == CellOf(s, p) && Live(s', p) == Live(s, p);
  }

  lemma SilentKeepsClaims(s: State, s': State)
    requires SameBooks(s, s') && ClaimsFresh(s)
    ensures ClaimsFresh(s')
  {
    assert SameCells(s, s');
    ClaimsKept(s, s');
  }

  lemma SilentKeepsLogs(s: State, s': State)
    requires SameBooks(s, s') && CalledInOrder(s) && EndedOnce(s) && Accounted(s)
    ensures CalledInOrder(s') && EndedOnce(s') && Accounted(s')
  {
    assert forall p: nat :: CellOf(s', p) == CellOf(s, p) && Live(s', p) == Live(s, p);
    assert forall id: nat :: InHand(s, id) ==> InHand(s', id);
  }

  // ---------------------------------------------------------------- sequences

  lemma {:induction false} IdsSame(s: State, s': State, q: seq<nat>)
    requires forall p | p in q :: CellOf(s', p).id == CellOf(s, p).id
    ensures Ids(s', q) == Ids(s, q)
  {
    if q != [] {
      IdsSame(s, s', q[1..]);
    }
  }

  lemma {:induction false} IdsSnoc(s: State, q: seq<nat>, p: nat)
    ensures Ids(s, q + [p]) == Ids(s, q) + [CellOf(s, p).id]
  {
    if q == [] {
      assert q + [p] == [p];
    } else {
      IdsSnoc(s, q[1..], p);
      assert (q + [p])[1..] == q[1..] + [p];
    }
  }

  lemma NoDupSnoc(q: seq<nat>, x: nat)
    requires NoDup(q) && x !in q
    ensures NoDup(q + [x])
  {
  }

  lemma Assoc(a: seq<nat>, b: seq<nat>, c: seq<nat>)
    ensures a + (b + c) == a + b + c
  {
  }

  /** An owner's slot is live. */
  lemma OwnedIsLive(s: State, p: nat)
    requires Partition(s)
    requires p in s.ring || p in Held(s.consumer) || p in s.awaiting
    ensures Live(s, p) && Owners(s, p) == 1 && p < |s.cells| && p !in FillSlots(s.filling)
  {
    assert RawSlots(s.filling) <= FillSlots(s.filling);
    assert Owners(s, p) == if p < s.capacity then 1 else 0;
  }

  lemma DoneArePushed(s: State)
    requires InOrder(s)
    ensures forall id | id in s.log.done :: id in s.log.pushed
  {
    assert s.log.done <= s.log.pushed;
  }

  /** The next submission number occurs nowhere yet. */
  lemma NextIsFresh(s: State)
    requires InOrder(s) && CellsDistinct(s) && EndedOnce(s)
    ensures s.log.nextId !in s.log.pushed && s.log.nextId !in s.log.done && s.log.nextId !in s.log.released
    ensures s.log.nextId !in s.log.refused && s.log.nextId !in s.log.wants
  {
    DoneArePushed(s);
  }

  ghost predicate SameCells(s: State, s': State)
  {
    forall p: nat :: CellOf(s', p) == CellOf(s, p) && Live(s', p) == Live(s, p)
  }

  /** Steps of others do not touch submissions between alloc and push. */
  lemma ClaimsKept(s: State, s': State)
    requires ClaimsFresh(s) && s'.filling == s.filling
    requires s'.log == s.log.(done := s'.log.done, called := s'.log.called, released := s'.log.released,
                              misread := s'.log.misread, stops := s'.log.stops, signals := s'.log.signals,
                              wrapped := s'.log.wrapped)
    requires forall id | id in s.filling :: id !in s'.log.released
    requires forall id | id in s.filling :: CellOf(s', s.filling[id].slot) == CellOf(s, s.filling[id].slot)
    requires forall p: nat | Live(s', p) :: Live(s, p) && CellOf(s', p).id == CellOf(s, p).id
    ensures ClaimsFresh(s')
  {
  }

  // ---------------------------------------------------------------- submissions between alloc and push

  lemma ClaimAdded(was: map<nat, Claim>, id: nat, c: Claim)
    requires id !in was && c.stage != Filled
    ensures FillSlots(was[id := c]) == FillSlots(was) + {c.slot}
    ensures RawSlots(was[id := c]) == RawSlots(was) + {c.slot}
    ensures Apart(was) && c.slot !in FillSlots(was) ==> Apart(was[id := c])
  {
    var now := was[id := c];
    assert now[id] == c && forall i | i in was :: now[i] == was[i];
    assert forall i | i in was :: was[i].slot in FillSlots(was);
  }

  lemma ClaimStaged(was: map<nat, Claim>, id: nat, stage: Stage)
    requires id in was && was[id].stage != Filled && Apart(was)
    ensures var now := was[id := was[id].(stage := stage)];
            && FillSlots(now) == FillSlots(was) && Apart(now)
            && RawSlots(now) == if stage == Filled then RawSlots(was) - {was[id].slot} else RawSlots(was)
  {
    var now := was[id := was[id].(stage := stage)];
    assert forall i | i in was :: now[i].slot == was[i].slot && (i != id ==> now[i] == was[i]);
  }

  lemma ClaimGone(was: map<nat, Claim>, id: nat)
    requires id in was && was[id].stage == Filled && Apart(was)
    ensures FillSlots(was - {id}) == FillSlots(was) - {was[id].slot}
    ensures RawSlots(was - {id}) == RawSlots(was) && was[id].slot !in RawSlots(was)
    ensures Apart(was - {id})
  {
    var now := was - {id};
    assert forall i | i in now :: now[i] == was[i] && i != id;
    assert forall i | i in was && i != id :: i in now;
  }

  lemma ClaimOwned(s: State, id: nat)
    requires Partition(s) && id in s.filling
    ensures var p := s.filling[id].slot;
            && p < |s.cells| == s.capacity && p in FillSlots(s.filling)
            && p !in s.free && p !in s.ring && p !in Held(s.consumer) && p !in s.awaiting
            && (p in RawSlots(s.filling) <==> s.filling[id].stage != Filled)
  {
    var p := s.filling[id].slot;
    assert p in FillSlots(s.filling);
    assert Owners(s, p) == if p < s.capacity then 1 else 0;
  }

  // ---------------------------------------------------------------- a submission

  /** A new submission, with a slot or without: numbers and wishes change, but no item. */
  ghost predicate Submits(s: State, got: Option<nat>, cb: bool, s': State)
  {
    && s'.capacity == s.capacity && s'.cells == s.cells && s'.ring == s.ring && s'.awaiting == s.awaiting
    && s'.consumer == s.consumer
    && s'.log.nextId == s.log.nextId + 1
    && s'.log.wants == (if cb then s.log.wants + {s.log.nextId} else s.log.wants)
    && s'.log.pushed == s.log.pushed && s'.log.done == s.log.done
    && s'.log.called == s.log.called && s'.log.released == s.log.released
    && match got
       case None =>
         && s'.free == s.free && s'.filling == s.filling
         && s'.log.refused == if cb then s.log.refused + [s.log.nextId] else s.log.refused
       case Some(p) =>
         && p in s.free && s'.free == s.free - {p} && s'.log.refused == s.log.refused
         && s'.filling == s.filling[s.log.nextId := Claim(p, cb, Taken)]
  }

  lemma SubmitFacts(s: State, got: Option<nat>, cb: bool, s': State)
    requires Next(s, Submit(got, cb)) == Some(s')
    ensures Submits(s, got, cb, s')
  {
  }

  lemma SubmitKeeps(s: State, got: Option<nat>, cb: bool, s': State)
    requires Books(s) && Submits(s, got, cb, s')
    ensures Books(s')
  {
    SubmitFrame(s, got, cb, s');
    SubmitPartition(s, got, cb, s');
    IdsSame(s, s', s.ring);
    SubmitCells(s, got, cb, s');
    SubmitClaims(s, got, cb, s');
    SubmitCalls(s, got, cb, s');
    SubmitEnds(s, got, cb, s');
    SubmitAccounts(s, got, cb, s');
  }

  /** The slot had no owner but the pool, and now holds no item yet. */
  lemma SubmitFrame(s: State, got: Option<nat>, cb: bool, s': State)
    requires Partition(s) && ClaimsFresh(s) && Submits(s, got, cb, s')
    ensures SameCells(s, s') && s.log.nextId !in s.filling
    ensures got.Some? ==> FillSlots(s'.filling) == FillSlots(s.filling) + {got.value}
                          && got.value !in FillSlots(s.filling) && Apart(s'.filling)
  {
    if got.Some? {
      assert Owners(s, got.value) == if got.value < s.capacity then 1 else 0;
      ClaimAdded(s.filling, s.log.nextId, Claim(got.value, cb, Taken));
    }
  }

  lemma SubmitPartition(s: State, got: Option<nat>, cb: bool, s': State)
    requires Partition(s) && ClaimsFresh(s) && Submits(s, got, cb, s')
    ensures Partition(s')
  {
    SubmitFrame(s, got, cb, s');
    forall q: nat ensures Owners(s', q) == if q < s.capacity then 1 else 0 {
      assert Owners(s, q) == if q < s.capacity then 1 else 0;
    }
  }

  lemma SubmitCells(s: State, got: Option<nat>, cb: bool, s': State)
    requires CellsDistinct(s) && CellsAgree(s) && SameCells(s, s') && Submits(s, got, cb, s')
    ensures CellsDistinct(s') && CellsAgree(s')
  {
  }

  lemma SubmitClaims(s: State, got: Option<nat>, cb: bool, s': State)
    requires InOrder(s) && CellsDistinct(s) && ClaimsFresh(s) && EndedOnce(s)
    requires SameCells(s, s') && Submits(s, got, cb, s')
    ensures ClaimsFresh(s')
  {
    NextIsFresh(s);
  }

  lemma SubmitCalls(s: State, got: Option<nat>, cb: bool, s': State)
    requires InOrder(s) && CellsDistinct(s) && CalledInOrder(s) && EndedOnce(s) && Submits(s, got, cb, s')
    ensures CalledInOrder(s')
  {
    NextIsFresh(s);
    FilterGrow(s.log.done, s.log.wants, s.log.nextId);
    FilterGrow(s.log.released, s.log.wants, s.log.nextId);
    assert CallbackDue(s') == CallbackDue(s) && ReturnDue(s') == ReturnDue(s);
  }

  lemma SubmitEnds(s: State, got: Option<nat>, cb: bool, s': State)
    requires InOrder(s) && CellsDistinct(s) && EndedOnce(s) && SameCells(s, s') && Submits(s, got, cb, s')
    ensures EndedOnce(s')
  {
    NextIsFresh(s);
    NoDupSnoc(s.log.refused, s.log.nextId);
  }

  lemma SubmitAccounts(s: State, got: Option<nat>, cb: bool, s': State)
    requires Accounted(s) && SameCells(s, s') && Submits(s, got, cb, s')
    ensures Accounted(s')
  {
    assert forall id: nat :: InHand(s, id) ==> InHand(s', id);
  }

  // ---------------------------------------------------------------- an item being written

  /** The submitter `id` runs the constructor on its slot, or fills the item in. */
  ghost predicate Writes(s: State, id: nat, stage: Stage, cell: Cell, s': State)
  {
    && id in s.filling && s.filling[id].stage != Filled && s.filling[id].slot < |s.cells|
    && s' == Staged(s, id, stage, cell)
    && (stage == Filled ==> cell == Cell(id, s.filling[id].hasCallback, false))
  }

  lemma WriteKeeps(s: State, id: nat, stage: Stage, cell: Cell, s': State)
    requires Books(s) && Writes(s, id, stage, cell, s')
    ensures Books(s')
  {
    WriteOrder(s, id, stage, cell, s');
    WriteDistinct(s, id, stage, cell, s');
    WriteClaims(s, id, stage, cell, s');
    WriteCells(s, id, stage, cell, s');
    WriteLogs(s, id, stage, cell, s');
  }

  /** Nobody else looks at the slot, except perhaps for its callback field. */
  lemma WriteFrame(s: State, id: nat, stage: Stage, cell: Cell, s': State)
    requires Partition(s) && Writes(s, id, stage, cell, s')
    ensures var p := s.filling[id].slot;
            && p < s.capacity && p !in s.free && p !in s.ring && p !in Held(s.consumer) && p !in s.awaiting
            && !Live(s, p) && CellOf(s', p) == cell && (Live(s', p) <==> stage == Filled)
            && (forall q: nat | q != p :: CellOf(s', q) == CellOf(s, q) && Live(s', q) == Live(s, q))
    ensures FillSlots(s'.filling) == FillSlots(s.filling) && Apart(s'.filling)
  {
    ClaimOwned(s, id);
    ClaimStaged(s.filling, id, stage);
  }

  lemma WriteOrder(s: State, id: nat, stage: Stage, cell: Cell, s': State)
    requires Partition(s) && InOrder(s) && Writes(s, id, stage, cell, s')
    ensures Partition(s') && InOrder(s')
  {
    WriteFrame(s, id, stage, cell, s');
    assert forall q: nat :: Owners(s', q) == Owners(s, q);
    IdsSame(s, s', s.ring);
    UsersAreHeld(s);
  }

  lemma WriteDistinct(s: State, id: nat, stage: Stage, cell: Cell, s': State)
    requires Partition(s) && CellsDistinct(s) && ClaimsFresh(s) && Writes(s, id, stage, cell, s')
    ensures CellsDistinct(s')
  {
    WriteFrame(s, id, stage, cell, s');
  }

  lemma WriteClaims(s: State, id: nat, stage: Stage, cell: Cell, s': State)
    requires Partition(s) && CellsDistinct(s) && ClaimsFresh(s) && Writes(s, id, stage, cell, s')
    ensures ClaimsFresh(s')
  {
    WriteFrame(s, id, stage, cell, s');
  }

  lemma WriteCells(s: State, id: nat, stage: Stage, cell: Cell, s': State)
    requires Partition(s) && ClaimsFresh(s) && CellsAgree(s) && Writes(s, id, stage, cell, s')
    ensures CellsAgree(s')
  {
    WriteFrame(s, id, stage, cell, s');
    UsersAreHeld(s);
  }

  lemma UsersAreHeld(s: State)
    ensures forall q | s.consumer == Working(q) || q in Kept(s.consumer) :: q in Held(s.consumer)
    ensures s.consumer.Published? && s.consumer.owned ==> s.consumer.slot in Held(s.consumer)
  {
  }

  lemma WriteLogs(s: State, id: nat, stage: Stage, cell: Cell, s': State)
    requires Partition(s) && ClaimsFresh(s) && CalledInOrder(s) && EndedOnce(s) && Accounted(s)
    requires Writes(s, id, stage, cell, s')
    ensures CalledInOrder(s') && EndedOnce(s') && Accounted(s')
  {
    WriteFrame(s, id, stage, cell, s');
    UsersAreHeld(s);
    assert CallbackDue(s') == CallbackDue(s) && ReturnDue(s') == ReturnDue(s);
    forall i: nat | InHand(s, i) ensures InHand(s', i) {
      if q :| q in s.awaiting && CellOf(s, q).id == i {
        assert q in s'.awaiting && CellOf(s', q).id == i;
      } else {
        var q :| q in Kept(s.consumer) && CellOf(s, q).id == i;
        assert q in Kept(s'.consumer) && CellOf(s', q).id == i;
      }
    }
  }

  // ---------------------------------------------------------------- a push

  lemma PushKeeps(s: State, id: nat, s': State)
    requires Books(s) && PushStep(s, id) == Some(s')
    ensures Books(s')
  {
    PushFrame(s, id, s');
    PushPartition(s, id, s');
    PushOrder(s, id, s');
    PushCells(s, id, s');
    PushEnds(s, id, s');
    PushAccounts(s, id, s');
  }

  lemma PushFrame(s: State, id: nat, s': State)
    requires Partition(s) && ClaimsFresh(s) && PushStep(s, id) == Some(s')
    ensures id in s.filling && s.filling[id].stage == Filled
    ensures var p := s.filling[id].slot;
            && Live(s, p) && p !in s.ring && s'.ring == s.ring + [p] && CellOf(s, p).id == id && !CellOf(s, p).completed
            && s' == s.(filling := s.filling - {id}, ring := s'.ring, log := s'.log, signalling := s'.signalling)
    ensures s'.log == s.log.(pushed := s.log.pushed + [id]) && id !in s.log.pushed
    ensures SameCells(s, s') && Apart(s'.filling)
    ensures FillSlots(s'.filling) == FillSlots(s.filling) - {s.filling[id].slot}
  {
    ClaimOwned(s, id);
    ClaimGone(s.filling, id);
  }

  lemma PushPartition(s: State, id: nat, s': State)
    requires Partition(s) && ClaimsFresh(s) && PushStep(s, id) == Some(s')
    ensures Partition(s')
  {
    PushFrame(s, id, s');
    var p := s.filling[id].slot;
    NoDupSnoc(s.ring, p);
    ClaimOwned(s, id);
    forall q: nat ensures Owners(s', q) == if q < s.capacity then 1 else 0 {
      assert Owners(s, q) == if q < s.capacity then 1 else 0;
      assert q in s'.ring <==> q in s.ring || q == p;
    }
  }

  lemma PushOrder(s: State, id: nat, s': State)
    requires Partition(s) && InOrder(s) && ClaimsFresh(s) && PushStep(s, id) == Some(s')
    ensures InOrder(s')
  {
    PushFrame(s, id, s');
    IdsSame(s, s', s.ring);
    IdsSnoc(s', s.ring, s.filling[id].slot);
    NoDupSnoc(s.log.pushed, id);
    Assoc(s.log.done + Current(s), Ids(s, s.ring), [id]);
    assert Current(s') == Current(s);
  }

  lemma PushCells(s: State, id: nat, s': State)
    requires Partition(s) && CellsDistinct(s) && ClaimsFresh(s) && CellsAgree(s) && PushStep(s, id) == Some(s')
    ensures CellsDistinct(s') && ClaimsFresh(s') && CellsAgree(s')
  {
    PushFrame(s, id, s');
  }

  lemma PushEnds(s: State, id: nat, s': State)
    requires Partition(s) && ClaimsFresh(s) && CalledInOrder(s) && EndedOnce(s) && PushStep(s, id) == Some(s')
    ensures CalledInOrder(s') && EndedOnce(s')
  {
    PushFrame(s, id, s');
  }

  lemma PushAccounts(s: State, id: nat, s': State)
    requires Partition(s) && ClaimsFresh(s) && Accounted(s) && PushStep(s, id) == Some(s')
    ensures Accounted(s')
  {
    PushFrame(s, id, s');
    assert forall i: nat :: InHand(s, i) ==> InHand(s', i);
  }

  // ---------------------------------------------------------------- a pop

  ghost predicate Pops(s: State, s': State)
  {
    && s.consumer == AtPop
    && s' == s.(ring := s'.ring, consumer := s'.consumer)
    && if s.ring == [] then s'.ring == [] && s'.consumer == AtWait
       else s'.ring == s.ring[1..] && s'.consumer == Working(s.ring[0])
  }

  lemma PopKeeps(s: State, s': State)
    requires Books(s) && Pops(s, s')
    ensures Books(s')
  {
    PopPartition(s, s');
    PopOrder(s, s');
    PopCells(s, s');
    PopLogs(s, s');
  }

  lemma PopPartition(s: State, s': State)
    requires Partition(s) && Pops(s, s')
    ensures Partition(s')
  {
    if s.ring != [] {
      assert s.ring == [s.ring[0]] + s.ring[1..];
    }
    forall q: nat ensures Owners(s', q) == if q < s.capacity then 1 else 0 {
      assert Owners(s, q) == if q < s.capacity then 1 else 0;
    }
  }

  lemma PopOrder(s: State, s': State)
    requires InOrder(s) && Pops(s, s')
    ensures InOrder(s')
  {
    IdsSame(s, s', s'.ring);
    if s.ring != [] {
      assert s.log.done + [] == s.log.done;
      Assoc(s.log.done, [CellOf(s, s.ring[0]).id], Ids(s, s.ring[1..]));
    }
  }

  lemma PopCells(s: State, s': State)
    requires CellsDistinct(s) && ClaimsFresh(s) && CellsAgree(s) && Pops(s, s')
    ensures CellsDistinct(s') && ClaimsFresh(s') && CellsAgree(s')
  {
    assert SameCells(s, s');
  }

  lemma PopLogs(s: State, s': State)
    requires CalledInOrder(s) && EndedOnce(s) && Accounted(s) && Pops(s, s')
    ensures CalledInOrder(s') && EndedOnce(s') && Accounted(s')
  {
    assert SameCells(s, s');
    assert forall id: nat :: InHand(s, id) ==> InHand(s', id);
  }

  // ---------------------------------------------------------------- a completion

  lemma CompleteKeeps(s: State, p: nat, s': State)
    requires Books(s) && s.consumer == Working(p) && Next(s, Consume) == Some(s')
    ensures Books(s')
  {
    CompletePartition(s, p, s');
    CompleteOrder(s, p, s');
    CompleteCells(s, p, s');
    CompleteClaims(s, p, s');
    CompleteCalls(s, p, s');
    CompleteEnds(s, p, s');
    CompleteAccounts(s, p, s');
  }

  lemma CompleteFrame(s: State, p: nat, s': State)
    requires Partition(s) && s.consumer == Working(p) && Next(s, Consume) == Some(s')
    ensures Live(s, p) && p !in FillSlots(s.filling) && p !in s.ring && p !in s.awaiting && s'.ring == s.ring
    ensures CellOf(s', p) == CellOf(s, p).(completed := true)
    ensures s'.log.done == s.log.done + [CellOf(s, p).id]
    ensures forall q: nat | q != p :: CellOf(s', q) == CellOf(s, q)
    ensures forall q: nat :: CellOf(s', q).id == CellOf(s, q).id && Live(s', q) == Live(s, q)
  {
    OwnedIsLive(s, p);
  }

  lemma CompletePartition(s: State, p: nat, s': State)
    requires Partition(s) && s.consumer == Working(p) && Next(s, Consume) == Some(s')
    ensures Partition(s')
  {
    forall q: nat ensures Owners(s', q) == if q < s.capacity then 1 else 0 {
      assert Owners(s, q) == if q < s.capacity then 1 else 0;
    }
  }

  lemma CompleteOrder(s: State, p: nat, s': State)
    requires Partition(s) && InOrder(s) && s.consumer == Working(p) && Next(s, Consume) == Some(s')
    ensures InOrder(s')
  {
    CompleteFrame(s, p, s');
    IdsSame(s, s', s.ring);
    assert s'.log.done + Current(s') == s.log.done + Current(s);
  }

  lemma CompleteCells(s: State, p: nat, s': State)
    requires Partition(s) && CellsDistinct(s) && CellsAgree(s)
    requires s.consumer == Working(p) && Next(s, Consume) == Some(s')
    ensures CellsDistinct(s') && CellsAgree(s')
  {
    CompleteFrame(s, p, s');
  }

  lemma CompleteClaims(s: State, p: nat, s': State)
    requires Partition(s) && ClaimsFresh(s) && s.consumer == Working(p) && Next(s, Consume) == Some(s')
    ensures ClaimsFresh(s')
  {
    CompleteFrame(s, p, s');
    assert forall id | id in s.filling :: s.filling[id].slot in FillSlots(s.filling);
    ClaimsKept(s, s');
  }

  lemma CompleteCalls(s: State, p: nat, s': State)
    requires Partition(s) && CellsAgree(s) && CalledInOrder(s)
    requires s.consumer == Working(p) && Next(s, Consume) == Some(s')
    ensures CalledInOrder(s')
  {
    CompleteFrame(s, p, s');
    FilterSnoc(s.log.done, CellOf(s, p).id, s.log.wants);
    assert CallbackDue(s) == [] && ReturnDue(s) == [] && ReturnDue(s') == [];
  }

  lemma CompleteEnds(s: State, p: nat, s': State)
    requires Partition(s) && EndedOnce(s) && s.consumer == Working(p) && Next(s, Consume) == Some(s')
    ensures EndedOnce(s')
  {
    CompleteFrame(s, p, s');
  }

  lemma CompleteAccounts(s: State, p: nat, s': State)
    requires Partition(s) && Accounted(s) && s.consumer == Working(p) && Next(s, Consume) == Some(s')
    ensures Accounted(s')
  {
    CompleteFrame(s, p, s');
    forall id: nat | InHand(s, id) ensures InHand(s', id) {
      var q :| q in s.awaiting && CellOf(s, q).id == id;
      assert q in s'.awaiting && CellOf(s', q).id == id;
    }
    assert InHand(s', CellOf(s, p).id) by {
      if CellOf(s, p).hasCallback {
        assert p in Kept(s'.consumer) && CellOf(s', p).id == CellOf(s, p).id;
      } else {
        assert p in s'.awaiting && CellOf(s', p).id == CellOf(s, p).id;
      }
    }
  }

  // ---------------------------------------------------------------- a callback

  ghost predicate Calls(s: State, p: nat, s': State)
  {
    && s.consumer == InCallback(p) && s'.consumer == Releasing(p)
    && s' == s.(consumer := Releasing(p), log := s.log.(called := s.log.called + [CellOf(s, p).id]))
  }

  lemma CallbackKeeps(s: State, p: nat, s': State)
    requires Books(s) && Calls(s, p, s')
    ensures Books(s')
  {
    CallbackOrder(s, p, s');
    CallbackCells(s, p, s');
    CallbackLogs(s, p, s');
  }

  lemma CallbackOrder(s: State, p: nat, s': State)
    requires Partition(s) && InOrder(s) && Calls(s, p, s')
    ensures Partition(s') && InOrder(s')
  {
    assert forall q: nat :: Owners(s', q) == Owners(s, q);
    IdsSame(s, s', s.ring);
  }

  lemma CallbackCells(s: State, p: nat, s': State)
    requires CellsDistinct(s) && ClaimsFresh(s) && CellsAgree(s) && Calls(s, p, s')
    ensures CellsDistinct(s') && ClaimsFresh(s') && CellsAgree(s')
  {
    assert SameCells(s, s');
    ClaimsKept(s, s');
  }

  lemma CallbackLogs(s: State, p: nat, s': State)
    requires CalledInOrder(s) && EndedOnce(s) && Accounted(s)
    requires Calls(s, p, s')
    ensures CalledInOrder(s') && EndedOnce(s') && Accounted(s')
  {
    assert SameCells(s, s');
    assert s'.log.called == s.log.called + CallbackDue(s) && ReturnDue(s') == CallbackDue(s);
    assert s'.log.called + CallbackDue(s') == s'.log.called;
    assert Filter(s.log.released, s.log.wants) + ReturnDue(s) == Filter(s.log.released, s.log.wants);
    forall id: nat | InHand(s, id) ensures InHand(s', id) {
      if q :| q in s.awaiting && CellOf(s, q).id == id {
        assert q in s'.awaiting && CellOf(s', q).id == id;
      } else {
        assert p in Kept(s'.consumer) && CellOf(s', p).id == id;
      }
    }
  }

  // ---------------------------------------------------------------- a slot going back

  /** The processing thread returns the slot of a callback item, or a client releases one
      without: `p` goes back to the pool, and that is logged. */
  ghost predicate Returns(s: State, p: nat, s': State)
  {
    && (|| (s.consumer == Releasing(p) && s'.consumer == AtLoop && s'.awaiting == s.awaiting)
        || (p in s.awaiting && s'.consumer == s.consumer && s'.awaiting == s.awaiting - {p}))
    && s'.capacity == s.capacity && s'.cells == s.cells && s'.free == s.free + {p}
    && s'.filling == s.filling && s'.ring == s.ring
    && s'.log == s.log.(released := s.log.released + [CellOf(s, p).id])
  }

  lemma ReturnKeeps(s: State, p: nat, s': State)
    requires Books(s) && Returns(s, p, s')
    ensures Books(s')
  {
    ReturnPartition(s, p, s');
    ReturnCells(s, p, s');
    ReturnClaims(s, p, s');
    ReturnCalls(s, p, s');
    ReturnEnds(s, p, s');
    ReturnAccounts(s, p, s');
    IdsSame(s, s', s.ring);
  }

  lemma ReturnFrame(s: State, p: nat, s': State)
    requires Partition(s) && Returns(s, p, s')
    ensures Live(s, p)
    ensures forall q: nat :: CellOf(s', q) == CellOf(s, q) && (Live(s', q) <==> Live(s, q) && q != p)
  {
    OwnedIsLive(s, p);
  }

  lemma ReturnPartition(s: State, p: nat, s': State)
    requires Partition(s) && Returns(s, p, s')
    ensures Partition(s')
  {
    forall q: nat ensures Owners(s', q) == if q < s.capacity then 1 else 0 {
      assert Owners(s, q) == if q < s.capacity then 1 else 0;
    }
  }

  lemma ReturnCells(s: State, p: nat, s': State)
    requires Partition(s) && CellsDistinct(s) && CellsAgree(s) && Returns(s, p, s')
    ensures CellsDistinct(s') && CellsAgree(s')
  {
    ReturnFrame(s, p, s');
  }

  lemma ReturnClaims(s: State, p: nat, s': State)
    requires Partition(s) && CellsDistinct(s) && ClaimsFresh(s) && Returns(s, p, s')
    ensures ClaimsFresh(s')
  {
    ReturnFrame(s, p, s');
    forall id | id in s.filling ensures id != CellOf(s, p).id {
      ClaimOwned(s, id);
      if s.filling[id].stage == Filled {
        assert Live(s, s.filling[id].slot) && s.filling[id].slot != p;
      }
    }
  }

  lemma ReturnCalls(s: State, p: nat, s': State)
    requires Partition(s) && CellsAgree(s) && CalledInOrder(s) && Returns(s, p, s')
    ensures CalledInOrder(s')
  {
    ReturnFrame(s, p, s');
    OwnedIsLive(s, p);
    FilterSnoc(s.log.released, CellOf(s, p).id, s.log.wants);
    if s.consumer == Releasing(p) && s'.consumer == AtLoop && s'.awaiting == s.awaiting {
      assert ReturnDue(s) == [CellOf(s, p).id] && CallbackDue(s) == [];
    }
  }

  lemma ReturnEnds(s: State, p: nat, s': State)
    requires Partition(s) && CellsDistinct(s) && CellsAgree(s) && EndedOnce(s) && Returns(s, p, s')
    ensures EndedOnce(s')
  {
    ReturnFrame(s, p, s');
    NoDupSnoc(s.log.released, CellOf(s, p).id);
  }

  lemma ReturnAccounts(s: State, p: nat, s': State)
    requires Accounted(s) && Returns(s, p, s')
    ensures Accounted(s')
  {
    assert forall q: nat :: CellOf(s', q) == CellOf(s, q);
    forall id: nat | InHand(s, id) ensures InHand(s', id) || id in s'.log.released {
      if q :| q in s.awaiting && CellOf(s, q).id == id {
        if q != p {
          assert q in s'.awaiting && CellOf(s', q).id == id;
        }
      } else {
        var q :| q in Kept(s.consumer) && CellOf(s, q).id == id;
        if s'.consumer == s.consumer {
          assert q in Kept(s'.consumer) && CellOf(s', q).id == id;
        }
      }
    }
  }

  // ---------------------------------------------------------------- every step

  lemma BooksKept(s: State, step: Step, s': State)
    requires Books(s) && StopAgrees(s) && Next(s, step) == Some(s') && !s'.log.misread
    ensures Books(s')
  {
    if Silent(s, step) {
      SilentStep(s, step, s');
      SilentKeeps(s, s');
    } else {
      match step {
        case Submit(got, cb) =>
          SubmitFacts(s, got, cb, s');
          SubmitKeeps(s, got, cb, s');
        case Construct(id) =>
          WriteKeeps(s, id, Cleared, s.cells[s.filling[id].slot].(hasCallback := false, completed := false), s');
        case Fill(id) => WriteKeeps(s, id, Filled, Cell(id, s.filling[id].hasCallback, false), s');
        case Push(id) => PushKeeps(s, id, s');
        case ClientRelease(slot) => ReturnKeeps(s, slot, s');
        case Consume => ConsumeKeeps(s, s');
      }
    }
  }

  lemma ConsumeKeeps(s: State, s': State)
    requires Books(s) && ConsumeStep(s) == Some(s') && !Silent(s, Consume)
    ensures Books(s')
  {
    match s.consumer {
      case AtPop => PopKeeps(s, s');
      case Working(p) => CompleteKeeps(s, p, s');
      case InCallback(p) => CallbackKeeps(s, p, s');
      case Releasing(p) => ReturnKeeps(s, p, s');
    }
  }
}
