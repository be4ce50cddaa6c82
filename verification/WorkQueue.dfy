/** The queue half of `FileContext`: the pool, the ring and the semaphore as objects, and the
    blocks that `allocWorkItemCommon`, `push`, `processingFunc` and `releaseMount` run on them.
    Each block is proved to be one step of Protocol.dfy, in every reachable state, so the theorems
    there hold of it. */
module WorkQueues {
  import opened Wrappers
  import opened PoolAllocators
  import opened RingBuffers
  import opened Semaphores
  import opened Protocol
  import opened MountTable
  import opened ProtocolSafety
  import ProtocolTheorems

  /** The fields of a work item that the protocol reads. */
  datatype Item = Item(hasCallback: bool, completed: bool)

  /** The items hold what the cells of the protocol say. */
  ghost predicate Shows(items: seq<Item>, cells: seq<Cell>)
  {
    && |items| == |cells|
    && forall p | 0 <= p < |items| :: items[p] == Item(cells[p].hasCallback, cells[p].completed)
  }

  class WorkQueue {
    const pool: PoolAllocator
    const ring: RingBuffer<nat>
    const semaphore: Semaphore
    const items: array<Item>
    var processing: bool

    /** The protocol state these objects are in; it carries the threads and the logs. */
    ghost var st: State

    ghost predicate Valid()
      reads this, pool.bitmask, ring, ring.buffer, semaphore, items
    {
      && pool.Valid() && ring.Valid() && semaphore.Valid()
      && pool.bitmask as object != ring.buffer && pool.bitmask as object != items && ring.buffer as object != items
      && st.capacity == pool.capacity && st.ringCapacity == ring.capacity
      && st.free == pool.Free()
      && st.ring == ring.Contents()
      && st.semaphore == semaphore.value
      && st.processing == processing
      && Shows(items[..], st.cells)
      && Reachable(st)
    }

    /** `kinds` says which submissions the callers will make: with a callback, without, or both. */
    constructor (capacity: nat, ringCapacity: nat, ghost kinds: set<bool>)
      requires ringCapacity >= 1
      ensures Valid() && st == Init(capacity, ringCapacity, kinds)
      ensures fresh(pool.bitmask) && fresh(ring) && fresh(ring.buffer) && fresh(semaphore) && fresh(items)
    {
      pool := new PoolAllocator(capacity);
      ring := new RingBuffer<nat>(ringCapacity);
      semaphore := new Semaphore(0);
      items := new Item[capacity](_ => Item(false, false));
      processing := true;
      st := Init(capacity, ringCapacity, kinds);
      new;
      assert Run(st, []) == Some(st);
    }

    /** The locked block of `_workItemPool.alloc`. Without a slot, a requested callback is made at once,
        and `told` is the error it reports. */
    method TakeSlot(hasCallback: bool) returns (slot: Option<nat>, told: Option<ErrorCode>)
      requires Valid() && hasCallback in st.kinds
      modifies this`st, pool.bitmask
      ensures Valid() && Next(old(st), Submit(slot, hasCallback)) == Some(st)
      ensures slot.None? <==> old(pool.Free()) == {}
      ensures told == if slot.None? && hasCallback then Some(OutOfWorkItems) else None
      ensures st.log.refused == old(st).log.refused + if told.Some? then [old(st).log.nextId] else []
      ensures slot.Some? ==> slot.value in old(pool.Free()) && pool.Free() == old(pool.Free()) - {slot.value}
    {
      ReachableInv(st);
      slot := pool.Alloc();
      told := None;
      if slot.None? && hasCallback {
        told := Some(OutOfWorkItems);
      }
      SubmitMoves(st, slot, hasCallback);
      Advance(Submit(slot, hasCallback));
    }

    /** The constructor that `alloc` runs on the slot, which clears the callback field. */
    method ConstructItem(slot: nat, ghost id: nat)
      requires Valid() && AtStage(st, id, Taken) && st.filling[id].slot == slot
      modifies this`st, items
      ensures Valid() && Next(old(st), Construct(id)) == Some(st)
      ensures items[..] == old(items[..])[slot := Item(false, false)]
    {
      items[slot] := Item(false, false);
      Advance(Construct(id));
    }

    /** The fields `initWorkItem` writes. */
    method InitWorkItem(slot: nat, hasCallback: bool, ghost id: nat)
      requires Valid() && AtStage(st, id, Cleared) && st.filling[id] == Claim(slot, hasCallback, Cleared)
      modifies this`st, items
      ensures Valid() && Next(old(st), Fill(id)) == Some(st)
      ensures AtStage(st, id, Filled) && st.filling[id].slot == slot
      ensures items[..] == old(items[..])[slot := Item(hasCallback, false)]
    {
      items[slot] := Item(hasCallback, false);
      Advance(Fill(id));
    }

    /** One pass through the locked block of `push`. */
    method TryPush(slot: nat, ghost id: nat) returns (done: bool, notify: bool)
      requires Valid() && AtStage(st, id, Filled) && st.filling[id].slot == slot
      modifies this`st, ring`writePos, ring`full, ring.buffer
      ensures Valid()
      ensures done ==> Next(old(st), Push(id)) == Some(st)
                       && st.signalling == (if notify then old(st).signalling + {id} else old(st).signalling)
      ensures !done ==> st == old(st) && Next(st, Push(id)).None?
      ensures done <==> |old(ring.Contents())| < ring.capacity
      ensures done ==> ring.Contents() == old(ring.Contents()) + [slot] && (notify <==> old(ring.Contents()) == [])
    {
      done, notify := ring.TryPush(slot);
      if done {
        Advance(Push(id));
      }
    }

    /** The increment in `notify`, by a submitter that found the ring empty. */
    method Signal(ghost id: nat)
      requires Valid() && id in st.signalling
      modifies this`st, semaphore
      ensures Valid() && Next(old(st), Step.Signal(id)) == Some(st)
      ensures semaphore.value == if old(semaphore.value) == 0xFFFF_FFFF then 0 else old(semaphore.value) + 1
    {
      semaphore.Increment();
      Advance(Step.Signal(id));
    }

    /** `while (_processing)`. */
    method TestProcessing() returns (goOn: bool)
      requires Valid() && st.consumer == AtLoop
      modifies this`st
      ensures Valid() && Next(old(st), Consume) == Some(st)
      ensures goOn == processing && st.consumer == if goOn then AtPop else Exited
    {
      goOn := processing;
      Advance(Consume);
    }

    /** `_workItemQueue.pop`. */
    method PopItem() returns (slot: Option<nat>)
      requires Valid() && st.consumer == AtPop
      modifies this`st, ring`readPos, ring`full
      ensures Valid() && Next(old(st), Consume) == Some(st)
      ensures st.consumer == match slot case None => AtWait case Some(p) => Working(p)
      ensures old(ring.Contents()) == (if slot.Some? then [slot.value] else []) + ring.Contents()
    {
      ghost var s := st;
      PopMoves(s);
      slot := ring.Pop();
      Advance(Consume);
    }

    /** The locked block that sets `_completed`. From here on a client may release the item. */
    method PublishItem(slot: nat)
      requires Valid() && st.consumer == Working(slot)
      modifies this`st, items
      ensures Valid() && Next(old(st), Consume) == Some(st)
      ensures items[..] == old(items[..])[slot := Item(old(items[slot].hasCallback), true)]
    {
      ReachableInv(st);
      items[slot] := items[slot].(completed := true);
      Advance(Consume);
    }

    /** `if (item->_callback)`, after the lock is gone: a second look at the item, which need not be
        the same submission any more. */
    method ReadCallback(slot: nat) returns (callback: bool)
      requires Valid() && st.consumer.Published? && st.consumer.slot == slot
      modifies this`st
      ensures Valid() && Next(old(st), Consume) == Some(st)
      ensures st.consumer == if callback then InCallback(slot) else NotifyingAll(old(st).consumer.id)
      ensures callback == items[slot].hasCallback
      ensures Sound(st) ==> callback == old(st).consumer.owned
    {
      ReachableInv(st);
      callback := items[slot].hasCallback;
      Advance(Consume);
      ReachableInv(st);
    }

    /** The call of the callback; what it does is up to the user. */
    method MakeCallback(slot: nat)
      requires Valid() && st.consumer == InCallback(slot)
      modifies this`st
      ensures Valid() && Next(old(st), Consume) == Some(st)
      ensures st.consumer == Releasing(slot)
    {
      ReachableInv(st);
      Advance(Consume);
    }

    /** `releaseWorkItemInternal` after the callback. */
    method ReturnItem(slot: nat)
      requires Valid() && st.consumer == Releasing(slot)
      modifies this`st, pool.bitmask
      ensures Valid() && Next(old(st), Consume) == Some(st)
      ensures pool.Free() == old(pool.Free()) + {slot} && st.consumer == AtLoop
    {
      ReachableInv(st);
      ReturnMoves(st);
      pool.FreeSlot(slot);
      Advance(Consume);
    }

    /** `notify_all` on the completion condition variable. */
    method NotifyClients()
      requires Valid() && st.consumer.NotifyingAll?
      modifies this`st
      ensures Valid() && Next(old(st), Consume) == Some(st)
      ensures st.sleepers == {}
    {
      Advance(Consume);
    }

    /** One look at the semaphore in `wait`. */
    method TakeToken() returns (taken: bool)
      requires Valid() && st.consumer == AtWait
      modifies this`st, semaphore
      ensures Valid() && Next(old(st), Consume) == Some(st)
      ensures taken <==> old(semaphore.value) > 0
      ensures st.consumer == if taken then AtLoop else Asleep
      ensures semaphore.value == if taken then old(semaphore.value) - 1 else 0
    {
      taken := semaphore.TryDecrement();
      Advance(Consume);
    }

    /** `WorkItemCompleted` and the test inside `WaitForWorkItem`: true only if the submission
        behind the item is done. */
    method IsCompleted(slot: nat) returns (completed: bool)
      requires Valid() && ClientOwns(st, slot)
      ensures completed <==> st.cells[slot].completed
      ensures Sound(st) ==> (completed <==> st.cells[slot].id in st.log.done)
    {
      if Sound(st) {
        ProtocolTheorems.CompletedMeansDone(st, slot, 0);
      }
      completed := items[slot].completed;
    }

    /** `releaseWorkItem`, for an item without callback. */
    method ReleaseWorkItem(slot: nat)
      requires Valid() && slot in st.awaiting && slot !in st.sleepers
      modifies this`st, pool.bitmask
      ensures Valid() && Next(old(st), ClientRelease(slot)) == Some(st)
      ensures pool.Free() == old(pool.Free()) + {slot}
    {
      ghost var s := st;
      ReachableInv(s);
      pool.FreeSlot(slot);
      ghost var s' := Next(s, ClientRelease(slot)).value;
      assert s' == s.(awaiting := s.awaiting - {slot}, free := s.free + {slot}, log := s'.log);
      Advance(ClientRelease(slot));
    }

    /** The first half of `stopProcessingThread`. */
    method RequestStop()
      requires Valid() && st.stopper == Idle
      modifies this`st, this`processing
      ensures Valid() && Next(old(st), StopBegin) == Some(st) && !processing
    {
      processing := false;
      Advance(StopBegin);
    }

    method SignalStop()
      requires Valid() && st.stopper == StopRequested
      modifies this`st, semaphore
      ensures Valid() && Next(old(st), StopSignal) == Some(st)
      ensures semaphore.value == if old(semaphore.value) == 0xFFFF_FFFF then 0 else old(semaphore.value) + 1
    {
      semaphore.Increment();
      Advance(StopSignal);
    }

    /** `startProcessingThread` at the end of `releaseMount`. */
    method StartProcessingThread()
      requires Valid() && st.stopper == Joined
      modifies this`st, this`processing
      ensures Valid() && Next(old(st), Restart) == Some(st)
      ensures processing && st.consumer == AtLoop
    {
      processing := true;
      Advance(Restart);
    }

    /** Records the step just taken. */
    ghost method Advance(step: Step)
      requires Reachable(st) && Next(st, step).Some?
      modifies this`st
      ensures Next(old(st), step) == Some(st) && Reachable(st)
    {
      StepReachable(st, step);
      st := Next(st, step).value;
    }
  }

  lemma SubmitMoves(s: State, got: Option<nat>, hasCallback: bool)
    requires hasCallback in s.kinds && Allocates(s.free, got) && (got.Some? ==> got.value < |s.cells|)
    ensures Next(s, Submit(got, hasCallback)) == Some(SubmitStep(s, got, hasCallback))
    ensures SubmitStep(s, got, hasCallback).log.refused
            == s.log.refused + if got.None? && hasCallback then [s.log.nextId] else []
    ensures SubmitStep(s, got, hasCallback).free == if got.Some? then s.free - {got.value} else s.free
  {
  }

  lemma ReturnMoves(s: State)
    requires s.consumer.Releasing? && s.consumer.slot < |s.cells|
    ensures ConsumeStep(s).Some?
    ensures var s' := ConsumeStep(s).value;
            s' == s.(consumer := AtLoop, free := s.free + {s.consumer.slot}, log := s'.log)
  {
  }

  lemma PopMoves(s: State)
    requires s.consumer == AtPop
    ensures ConsumeStep(s) == match PopEffect(s.ring)
                              case QueueEmpty => Some(s.(consumer := AtWait))
                              case Popped(queue, slot) => Some(s.(ring := queue, consumer := Working(slot)))
  {
  }
}
