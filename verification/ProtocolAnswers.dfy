/** Both halves of the context together: the work queue runs, mounts come and go, and each completed
    item carries the answer that the mounts and devices gave. What a client reads off its item
    is then what the items pushed before it, done one after the other, lead to. */
module ProtocolAnswers {
  import opened Wrappers
  import opened MountMatching
  import opened MountTable
  import opened Overlay
  import opened WorkItems
  import opened FileContexts
  import opened DeviceStores
  import opened Protocol
  import opened ProtocolInvariants
  import opened ProtocolPreservation
  import opened ProtocolSafety
  import opened ProtocolTheorems
  import opened ProtocolRuns
  import opened ProtocolRace
  import ReadAfterWrite

  /** The devices, and what each submission asks for. */
  datatype Setting<!D> = Setting(store: Store<D>, requests: nat -> Request)

  /** A processed item, with the mounts it was processed under. */
  datatype Job = Job(mounts: seq<MountInfo>, request: Request)

  datatype World<D> = World(
    queue: State,
    mounts: seq<MountInfo>,
    disk: D,                    // the state of the devices
    results: map<nat, Answer>,  // the result fields of the work item in each slot, once written
    jobs: seq<Job>,             // log: what was processed
    answers: seq<Answer>)       // log: and with what answer

  datatype Move =
    | Queue(step: Step)
    | Mount(m: MountInfo)
    | Unmount(id: nat)

  /** Completing an item means processing it first. Mounts are removed between join and restart
      only, where `releaseMount` does it. */
  ghost function Moved<D>(env: Setting<D>, w: World<D>, move: Move): Option<World<D>>
  {
    match move
    case Queue(step) =>
      (match Next(w.queue, step)
       case None => None
       case Some(s') =>
         Some(if step == Consume && w.queue.consumer.Working? then Processed(env, w, w.queue.consumer.slot, s')
              else w.(queue := s')))
    case Mount(m) => Some(w.(mounts := w.mounts + [m]))
    case Unmount(id) => if w.queue.stopper == Joined then Some(w.(mounts := Remove(w.mounts, id))) else None
  }

  function Processed<D>(env: Setting<D>, w: World<D>, slot: nat, s': State): World<D>
  {
    var r := env.requests(CellOf(w.queue, slot).id);
    var a := ItemAnswer(w.mounts, env.store.answers(w.disk), r);
    World(s', w.mounts, Performed(w.mounts, env.store, w.disk, r), w.results[slot := a],
          w.jobs + [Job(w.mounts, r)], w.answers + [a])
  }

  ghost function Moves<D>(env: Setting<D>, w: World<D>, moves: seq<Move>): Option<World<D>>
    decreases |moves|
  {
    if moves == [] then Some(w)
    else
      match Moved(env, w, moves[0])
      case None => None
      case Some(w') => Moves(env, w', moves[1..])
  }

  /** Some run leads to `w` from an empty queue, with any mounts and the devices in state `disk`. */
  ghost predicate Happens<D(!new)>(env: Setting<D>, disk: D, w: World<D>)
  {
    exists mounts, moves :: Moves(env, Opened(w.queue, mounts, disk), moves) == Some(w)
  }

  function Opened<D>(s: State, mounts: seq<MountInfo>, disk: D): World<D>
  {
    World(Init(s.capacity, s.ringCapacity, s.kinds), mounts, disk, map[], [], [])
  }

  /** The devices after these jobs, done one after the other. */
  function DiskAfter<D>(store: Store<D>, disk: D, jobs: seq<Job>): D
  {
    if jobs == [] then disk
    else
      var last := jobs[|jobs| - 1];
      Performed(last.mounts, store, DiskAfter(store, disk, jobs[..|jobs| - 1]), last.request)
  }

  // ---------------------------------------------------------------- what every run keeps

  /** The answer to job `k`, on the devices as the jobs before it left them. */
  function AnswerTo<D>(env: Setting<D>, disk: D, jobs: seq<Job>, k: nat): Answer
    requires k < |jobs|
  {
    ItemAnswer(jobs[k].mounts, env.store.answers(DiskAfter(env.store, disk, jobs[..k])), jobs[k].request)
  }

  ghost predicate Sequential<D>(env: Setting<D>, disk: D, w: World<D>)
  {
    var done := w.queue.log.done;
    && |w.jobs| == |w.answers| == |done|
    && w.disk == DiskAfter(env.store, disk, w.jobs)
    && (forall k | 0 <= k < |done| :: w.jobs[k].request == env.requests(done[k]))
    && (forall k | 0 <= k < |done| :: w.answers[k] == AnswerTo(env, disk, w.jobs, k))
  }

  /** The slot holds a completed item that its owner has not given back. */
  predicate Finished(s: State, slot: nat)
  {
    slot in s.awaiting || slot in Kept(s.consumer)
  }

  /** A completed item still shows the answer it got. */
  ghost predicate Reported<D>(w: World<D>)
    requires |w.answers| == |w.queue.log.done|
  {
    forall slot, k
      | Finished(w.queue, slot) && 0 <= k < |w.answers| && w.queue.log.done[k] == CellOf(w.queue, slot).id ::
      slot in w.results && w.results[slot] == w.answers[k]
  }

  ghost predicate WorldInv<D>(env: Setting<D>, disk: D, w: World<D>)
  {
    && Reachable(w.queue)
    && Sequential(env, disk, w)
    && (!w.queue.log.misread ==> Reported(w))
  }

  lemma SequentialProcessed<D>(env: Setting<D>, disk: D, w: World<D>, slot: nat, s': State)
    requires Sequential(env, disk, w)
    requires s'.log.done == w.queue.log.done + [CellOf(w.queue, slot).id]
    ensures Sequential(env, disk, Processed(env, w, slot, s'))
  {
    var w' := Processed(env, w, slot, s');
    var n := |w.jobs|;
    assert w'.jobs[..n] == w.jobs;
    forall k | 0 <= k < n ensures AnswerTo(env, disk, w'.jobs, k) == AnswerTo(env, disk, w.jobs, k) {
      assert w'.jobs[..k] == w.jobs[..k];
    }
  }

  /** A step that completes nothing finishes nothing, and leaves finished items alone. */
  ghost predicate FinishedSame(s: State, s': State)
  {
    forall p | Finished(s', p) :: Finished(s, p) && CellOf(s', p) == CellOf(s, p)
  }

  lemma FinishedStays(s: State, step: Step, s': State)
    requires Partition(s) && CellsAgree(s) && Next(s, step) == Some(s') && !s'.log.misread
    requires !(step == Consume && s.consumer.Working?)
    ensures FinishedSame(s, s')
  {
    match step {
      case Submit(got, cb) => FinishedSubmit(s, got, cb, s');
      case Construct(id) => FinishedWrite(s, id, s');
      case Fill(id) => FinishedWrite(s, id, s');
      case Consume => FinishedConsume(s, s');
      case _ => FinishedOther(s, step, s');
    }
  }

  lemma FinishedSubmit(s: State, got: Option<nat>, cb: bool, s': State)
    requires Next(s, Submit(got, cb)) == Some(s')
    ensures FinishedSame(s, s')
  {
  }

  lemma FinishedWrite(s: State, id: nat, s': State)
    requires Partition(s) && (Next(s, Construct(id)) == Some(s') || Next(s, Fill(id)) == Some(s'))
    ensures FinishedSame(s, s')
  {
    ClaimOwned(s, id);
    UsersAreHeld(s);
  }

  lemma FinishedConsume(s: State, s': State)
    requires CellsAgree(s) && ConsumeStep(s) == Some(s') && !s.consumer.Working? && !s'.log.misread
    ensures FinishedSame(s, s')
  {
  }

  lemma FinishedOther(s: State, step: Step, s': State)
    requires !step.Submit? && !step.Construct? && !step.Fill? && !step.Consume? && Next(s, step) == Some(s')
    ensures FinishedSame(s, s')
  {
    assert Kept(s'.consumer) <= Kept(s.consumer) && s'.awaiting <= s.awaiting && s'.cells == s.cells;
  }

  lemma DoneStays(s: State, step: Step, s': State)
    requires Next(s, step) == Some(s') && !(step == Consume && s.consumer.Working?)
    ensures s'.log.done == s.log.done
  {
  }

  /** What completing an item changes, as far as finished items go. */
  lemma Completion(s: State, s': State)
    requires Partition(s) && InOrder(s) && CellsDistinct(s) && s.consumer.Working? && ConsumeStep(s) == Some(s')
    ensures var p := s.consumer.slot;
            && s'.log.done == s.log.done + [CellOf(s, p).id]
            && CellOf(s, p).id !in s.log.done
            && (forall q | Finished(s', q) :: q == p || (Finished(s, q) && CellOf(s, q).id != CellOf(s, p).id))
            && (forall q: nat :: CellOf(s', q).id == CellOf(s, q).id)
  {
    var p := s.consumer.slot;
    CompleteFrame(s, p, s');
    OpenIsNotDone(s, p);
    NewlyFinished(s, s');
    forall q | Finished(s', q) && q != p ensures Finished(s, q) && CellOf(s, q).id != CellOf(s, p).id {
      OwnedIsLive(s, q);
    }
  }

  lemma NewlyFinished(s: State, s': State)
    requires s.consumer.Working? && ConsumeStep(s) == Some(s')
    ensures forall q | Finished(s', q) :: q == s.consumer.slot || q in s.awaiting
  {
  }

  lemma ReportedProcessed<D>(env: Setting<D>, w: World<D>, s': State)
    requires Books(w.queue) && w.queue.consumer.Working? && ConsumeStep(w.queue) == Some(s')
    requires |w.answers| == |w.queue.log.done| && Reported(w)
    ensures s'.log.done == w.queue.log.done + [CellOf(w.queue, w.queue.consumer.slot).id]
    ensures Reported(Processed(env, w, w.queue.consumer.slot, s'))
  {
    Completion(w.queue, s');
    ReportedAfter(env, w, w.queue.consumer.slot, s');
  }

  lemma ReportedAfter<D>(env: Setting<D>, w: World<D>, p: nat, s': State)
    requires |w.answers| == |w.queue.log.done| && Reported(w)
    requires var s := w.queue;
             && s'.log.done == s.log.done + [CellOf(s, p).id]
             && CellOf(s, p).id !in s.log.done
             && (forall q | Finished(s', q) :: q == p || (Finished(s, q) && CellOf(s, q).id != CellOf(s, p).id))
             && (forall q: nat :: CellOf(s', q).id == CellOf(s, q).id)
    ensures Reported(Processed(env, w, p, s'))
  {
    var w' := Processed(env, w, p, s');
    var done := w.queue.log.done;
    forall q, k | Finished(s', q) && 0 <= k < |w'.answers| && s'.log.done[k] == CellOf(s', q).id
      ensures q in w'.results && w'.results[q] == w'.answers[k]
    {
      if k < |done| {
        assert done[k] == s'.log.done[k] && done[k] in done;
      }
    }
  }

  lemma CompletionKeeps<D>(env: Setting<D>, disk: D, w: World<D>, s': State)
    requires Sequential(env, disk, w) && (!w.queue.log.misread ==> Books(w.queue) && Reported(w))
    requires w.queue.consumer.Working? && ConsumeStep(w.queue) == Some(s')
    ensures var w' := Processed(env, w, w.queue.consumer.slot, s');
            Sequential(env, disk, w') && (!s'.log.misread ==> Reported(w'))
  {
    CompletionLogs(w.queue, s');
    SequentialProcessed(env, disk, w, w.queue.consumer.slot, s');
    if !s'.log.misread {
      ReportedProcessed(env, w, s');
    }
  }

  lemma CompletionLogs(s: State, s': State)
    requires s.consumer.Working? && ConsumeStep(s) == Some(s')
    ensures s'.log.done == s.log.done + [CellOf(s, s.consumer.slot).id]
    ensures s'.log.misread == s.log.misread
  {
  }

  lemma QuietKeeps<D>(env: Setting<D>, disk: D, w: World<D>, w': World<D>)
    requires w' == w.(queue := w'.queue, mounts := w'.mounts) && w'.queue.log.done == w.queue.log.done
    requires Sequential(env, disk, w)
    ensures Sequential(env, disk, w')
    ensures Reported(w) && FinishedSame(w.queue, w'.queue) ==> Reported(w')
  {
  }

  lemma StepKeeps<D>(env: Setting<D>, disk: D, w: World<D>, step: Step, w': World<D>)
    requires WorldInv(env, disk, w) && Moved(env, w, Queue(step)) == Some(w')
    ensures Sequential(env, disk, w') && (!w'.queue.log.misread ==> Reported(w'))
  {
    ReachableInv(w.queue);
    if step == Consume && w.queue.consumer.Working? {
      CompletionKeeps(env, disk, w, w'.queue);
    } else {
      DoneStays(w.queue, step, w'.queue);
      FlagsStay(w.queue, step, w'.queue);
      if !w'.queue.log.misread {
        FinishedStays(w.queue, step, w'.queue);
      }
      QuietKeeps(env, disk, w, w');
    }
  }

  lemma WorldInvKept<D>(env: Setting<D>, disk: D, w: World<D>, move: Move, w': World<D>)
    requires WorldInv(env, disk, w) && Moved(env, w, move) == Some(w')
    ensures WorldInv(env, disk, w')
  {
    if move.Queue? {
      StepReachable(w.queue, move.step);
      StepKeeps(env, disk, w, move.step, w');
    } else {
      assert w'.queue == w.queue;
      QuietKeeps(env, disk, w, w');
    }
  }

  lemma {:induction false} MovesKeepInv<D>(env: Setting<D>, disk: D, w: World<D>, moves: seq<Move>)
    requires WorldInv(env, disk, w) && Moves(env, w, moves).Some?
    ensures WorldInv(env, disk, Moves(env, w, moves).value)
    decreases |moves|
  {
    if moves != [] {
      var w' := Moved(env, w, moves[0]).value;
      WorldInvKept(env, disk, w, moves[0], w');
      MovesKeepInv(env, disk, w', moves[1..]);
    }
  }

  lemma HappensInv<D(!new)>(env: Setting<D>, disk: D, w: World<D>)
    requires Happens(env, disk, w)
    ensures WorldInv(env, disk, w)
  {
    var mounts, moves :| Moves(env, Opened(w.queue, mounts, disk), moves) == Some(w);
    var start := Opened(w.queue, mounts, disk);
    assert Run(start.queue, []) == Some(start.queue);
    assert !Finished(start.queue, 0);
    MovesKeepInv(env, disk, start, moves);
  }

  // ---------------------------------------------------------------- what clients see

  /** The context is a sequential file system: in every run, whatever the threads and the mounts do,
      the answer to the k-th push is what its request is answered on the devices as the requests
      pushed before it, processed one after the other in that order, left them. */
  lemma AnswersAreSequential<D(!new)>(env: Setting<D>, disk: D, w: World<D>)
    requires Happens(env, disk, w) && Sound(w.queue)
    ensures |w.jobs| == |w.answers| == |w.queue.log.done| <= |w.queue.log.pushed|
    ensures forall k | 0 <= k < |w.jobs| :: w.jobs[k].request == env.requests(w.queue.log.pushed[k])
    ensures forall k | 0 <= k < |w.jobs| :: w.answers[k] == AnswerTo(env, disk, w.jobs, k)
    ensures w.disk == DiskAfter(env.store, disk, w.jobs)
  {
    HappensInv(env, disk, w);
    ProcessedInOrder(w.queue);
    assert w.queue.log.done <= w.queue.log.pushed;
  }

  lemma FinishedIsDone(s: State, slot: nat)
    requires Reachable(s) && Sound(s) && Finished(s, slot)
    ensures CellOf(s, slot).id in s.log.done && !s.log.misread
  {
    SoundInv(s);
  }

  /** What a client reads off its completed item - or a callback off the item it is called with - is
      the answer to that very push. */
  lemma ClientSeesItsAnswer<D(!new)>(env: Setting<D>, disk: D, w: World<D>, slot: nat) returns (k: nat)
    requires Happens(env, disk, w) && Sound(w.queue) && Finished(w.queue, slot)
    ensures k < |w.queue.log.pushed| && w.queue.log.pushed[k] == CellOf(w.queue, slot).id
    ensures k < |w.jobs| == |w.answers| && slot in w.results
    ensures w.results[slot] == w.answers[k] == AnswerTo(env, disk, w.jobs, k)
  {
    k := ReportedAs(env, disk, w, slot);
    DoneAsPushed(w.queue, k);
    AnswersAreSequential(env, disk, w);
  }

  lemma ReportedAs<D(!new)>(env: Setting<D>, disk: D, w: World<D>, slot: nat) returns (k: nat)
    requires Happens(env, disk, w) && Sound(w.queue) && Finished(w.queue, slot)
    ensures Reachable(w.queue) && k < |w.answers| == |w.queue.log.done|
    ensures w.queue.log.done[k] == CellOf(w.queue, slot).id
    ensures slot in w.results && w.results[slot] == w.answers[k]
  {
    HappensInv(env, disk, w);
    FinishedIsDone(w.queue, slot);
    k :| 0 <= k < |w.queue.log.done| && w.queue.log.done[k] == CellOf(w.queue, slot).id;
  }

  lemma DoneAsPushed(s: State, k: nat)
    requires Reachable(s) && Sound(s) && k < |s.log.done|
    ensures k < |s.log.pushed| && s.log.pushed[k] == s.log.done[k]
  {
    ProcessedInOrder(s);
    assert s.log.done <= s.log.pushed;
  }

  /** A client need not wait between a write and a read: a read of a path, processed right after a
      write to it - that is, in a sound run, pushed right after it - gets its part of what the write
      makes of the file, as long as the mount written to is still visible. */
  lemma PipelinedWriteRead(env: Setting<Files>, files: Files, w: World<Files>, k: nat, m: nat, v: nat, data: seq<bv8>)
    returns (content: seq<bv8>)
    requires env.store == FILE_MAP && Happens(env, files, w) && k + 1 < |w.jobs|
    requires var r, q := w.jobs[k].request, w.jobs[k + 1].request;
             var mounts, later := w.jobs[k].mounts, w.jobs[k + 1].mounts;
             var before := DiskAfter(FILE_MAP, files, w.jobs[..k]);
             && IsWrite(r.operation) && NewestMutable(mounts, r.filename, r.operation) == Some(m)
             && ReadAfterWrite.Brings(r, data)
             && q.operation == OpRead && q.filename == r.filename
             && ReadAfterWrite.Visible(later, before, r.filename, v) && later[v] == mounts[m]
             && ReadAfterWrite.DistinctDevices(later)
    ensures var r, mounts := w.jobs[k].request, w.jobs[k].mounts;
            var before := DiskAfter(FILE_MAP, files, w.jobs[..k]);
            var key := (mounts[m].device, DevicePath(r.filename, mounts[m].prefix));
            ReadAfterWrite.Becomes(if key in before then before[key] else [], r, data, content)
    ensures |w.answers| == |w.jobs| && ReadAfterWrite.ReadFrom(w.answers[k + 1], content, w.jobs[k + 1].request)
  {
    HappensInv(env, files, w);
    var mounts, r, q := w.jobs[k].mounts, w.jobs[k].request, w.jobs[k + 1].request;
    DiskAfterNext(FILE_MAP, files, w.jobs, k);
    content := ReadAfterWrite.WriteThenRead(mounts, m, w.jobs[k + 1].mounts, v,
                                            DiskAfter(FILE_MAP, files, w.jobs[..k]), r, data, q);
  }

  lemma DiskAfterNext<D>(store: Store<D>, disk: D, jobs: seq<Job>, k: nat)
    requires k < |jobs|
    ensures DiskAfter(store, disk, jobs[..k + 1])
            == Performed(jobs[k].mounts, store, DiskAfter(store, disk, jobs[..k]), jobs[k].request)
  {
    assert jobs[..k + 1][..k] == jobs[..k];
  }

  // ---------------------------------------------------------------- when they do not

  /** What AnswersAreSequential promises about the order of requests. */
  ghost predicate InSequence<D>(env: Setting<D>, w: World<D>)
  {
    forall k | 0 <= k < |w.jobs| :: k < |w.queue.log.pushed| && w.jobs[k].request == env.requests(w.queue.log.pushed[k])
  }

  /** What ClientSeesItsAnswer promises. */
  ghost predicate OwnAnswers<D>(w: World<D>)
  {
    forall slot | Finished(w.queue, slot) :: slot in w.results && exists k :: IsAnswer(w, slot, k)
  }

  ghost predicate IsAnswer<D>(w: World<D>, slot: nat, k: nat)
    requires slot in w.results
  {
    && k < |w.answers| && k < |w.queue.log.pushed|
    && w.queue.log.pushed[k] == CellOf(w.queue, slot).id && w.results[slot] == w.answers[k]
  }

  function QueueMoves(steps: seq<Step>): seq<Move>
  {
    if steps == [] then [] else [Queue(steps[0])] + QueueMoves(steps[1..])
  }

  /** Every run of the queue is one of the whole context. */
  lemma {:induction false} Lifted<D>(env: Setting<D>, w: World<D>, steps: seq<Step>) returns (w': World<D>)
    requires Run(w.queue, steps).Some?
    ensures Moves(env, w, QueueMoves(steps)) == Some(w') && w'.queue == Run(w.queue, steps).value
    decreases |steps|
  {
    if steps == [] {
      w' := w;
    } else {
      var m := Moved(env, w, Queue(steps[0])).value;
      w' := Lifted(env, m, steps[1..]);
      assert QueueMoves(steps)[1..] == QueueMoves(steps[1..]);
    }
  }

  /** A context where no two submissions ask for the same. */
  function Numbered(): Setting<Files>
  {
    Setting(FILE_MAP, (id: nat) => Request(OpRead, "", id, 0, None, false))
  }

  lemma OutOfSequence(capacity: nat, ringCapacity: nat, kinds: set<bool>) returns (w: World<Files>)
    requires capacity >= 1 && ringCapacity >= 1 && !OneKind(kinds)
    ensures Happens(Numbered(), map[], w) && Configured(w.queue, capacity, ringCapacity, kinds)
    ensures !InSequence(Numbered(), w) && !OwnAnswers(w)
  {
    var steps, s := Overtaken(capacity, ringCapacity, kinds);
    w := Lifted(Numbered(), Opened(s, [], map[]), steps);
    assert Moves(Numbered(), Opened(w.queue, [], map[]), QueueMoves(steps)) == Some(w);
    HappensInv(Numbered(), map[], w);
    assert w.jobs[1].request == Numbered().requests(2) != Numbered().requests(w.queue.log.pushed[1]);
    assert Finished(w.queue, 0) && CellOf(w.queue, 0).id == 2;
  }

  /** The context is a sequential file system, and clients get the answers to their own pushes, in
      every run if and only if its submissions are of one kind. */
  lemma SequentialExactly(capacity: nat, ringCapacity: nat, kinds: set<bool>)
    requires capacity >= 1 && ringCapacity >= 1
    ensures OneKind(kinds) <==>
            forall env: Setting<Files>, disk: Files, w
              | Happens(env, disk, w) && Configured(w.queue, capacity, ringCapacity, kinds) :: InSequence(env, w)
    ensures OneKind(kinds) <==>
            forall env: Setting<Files>, disk: Files, w
              | Happens(env, disk, w) && Configured(w.queue, capacity, ringCapacity, kinds) :: OwnAnswers(w)
  {
    if OneKind(kinds) {
      forall env: Setting<Files>, disk: Files, w
        | Happens(env, disk, w) && Configured(w.queue, capacity, ringCapacity, kinds)
        ensures InSequence(env, w) && OwnAnswers(w)
      {
        AnswersAreSequential(env, disk, w);
        forall slot | Finished(w.queue, slot) ensures slot in w.results && exists k :: IsAnswer(w, slot, k) {
          var k := ClientSeesItsAnswer(env, disk, w, slot);
          assert IsAnswer(w, slot, k);
        }
      }
    } else {
      var w := OutOfSequence(capacity, ringCapacity, kinds);
    }
  }
}
