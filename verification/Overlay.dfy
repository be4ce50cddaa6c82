/** Overlay resolution: which mount answers for a path, and what the answer is. */
module Overlay {
  import opened Wrappers
  import opened Paths
  import opened MountMatching
  import opened MountTable

  // ---------------------------------------------------------------- searching the mount list

  predicate Readable(m: MountInfo)
  {
    m.permissions & MOUNT_READ != 0
  }

  predicate ReadCandidate(m: MountInfo, path: string)
  {
    Readable(m) && Matches(path, m.prefix)
  }

  /** The permission test of the mutable search. Segment writes are not in it. */
  predicate Granted(m: MountInfo, op: Operation)
  {
    match op
    case OpWrite | OpAppend => m.permissions & MOUNT_WRITE_FILE != 0
    case OpDelete => m.permissions & MOUNT_DELETE_FILE != 0
    case OpCreateDir => m.permissions & MOUNT_CREATE_DIR != 0
    case OpDeleteDir => m.permissions & MOUNT_DELETE_DIR != 0
    case OpExists | OpSize | OpRead | OpWriteSegment => true
  }

  predicate MutableCandidate(m: MountInfo, path: string, op: Operation)
  {
    Matches(path, m.prefix) && Granted(m, op)
  }

  /** When a mount takes part in which search, in terms of what was asked for when it was created and of
      what its interface can do. Segment writes are not checked. */
  lemma CandidateExactly(m: MountInfo, requested: bv32, path: string)
    requires Fits(m.permissions, m.iface, requested)
    ensures ReadCandidate(m, path) <==> Matches(path, m.prefix) && Asked(requested, 1)
    ensures forall op | op == OpWrite || op == OpAppend ::
              MutableCandidate(m, path, op) <==> Matches(path, m.prefix) && Asked(requested, 2) && m.iface.writeFile
    ensures MutableCandidate(m, path, OpDelete) <==>
              Matches(path, m.prefix) && Asked(requested, 4) && m.iface.deleteFile
    ensures MutableCandidate(m, path, OpCreateDir) <==>
              Matches(path, m.prefix) && Asked(requested, 8) && m.iface.createDir
    ensures MutableCandidate(m, path, OpDeleteDir) <==>
              Matches(path, m.prefix) && Asked(requested, 16) && m.iface.deleteDir
    ensures MutableCandidate(m, path, OpWriteSegment) <==> Matches(path, m.prefix)
  {
  }

  function NewestReadable(mounts: seq<MountInfo>, path: string): (r: Option<nat>)
    ensures r.Some? ==> r.value < |mounts| && ReadCandidate(mounts[r.value], path)
    ensures forall j | (if r.Some? then r.value + 1 else 0) <= j < |mounts| :: !ReadCandidate(mounts[j], path)
  {
    if mounts == [] then None
    else if ReadCandidate(mounts[|mounts| - 1], path) then Some(|mounts| - 1)
    else NewestReadable(mounts[..|mounts| - 1], path)
  }

  function NewestMutable(mounts: seq<MountInfo>, path: string, op: Operation): (r: Option<nat>)
    ensures r.Some? ==> r.value < |mounts| && MutableCandidate(mounts[r.value], path, op)
    ensures forall j | (if r.Some? then r.value + 1 else 0) <= j < |mounts| :: !MutableCandidate(mounts[j], path, op)
  {
    if mounts == [] then None
    else if MutableCandidate(mounts[|mounts| - 1], path, op) then Some(|mounts| - 1)
    else NewestMutable(mounts[..|mounts| - 1], path, op)
  }

  /** Where a restarted search resumes: below the newest readable mount with the cursor's
      address, or nowhere if there is none. */
  function CursorBound(mounts: seq<MountInfo>, cursor: Option<nat>): (b: nat)
    ensures b <= |mounts|
  {
    if cursor.None? then |mounts|
    else if mounts == [] then 0
    else if Readable(mounts[|mounts| - 1]) && mounts[|mounts| - 1].id == cursor.value then |mounts| - 1
    else CursorBound(mounts[..|mounts| - 1], cursor)
  }

  /** One search call: the newest readable matching mount below the cursor. */
  function FindNext(mounts: seq<MountInfo>, path: string, cursor: Option<nat>): Option<nat>
  {
    NewestReadable(mounts[..CursorBound(mounts, cursor)], path)
  }

  lemma {:induction false} CursorBoundAt(mounts: seq<MountInfo>, i: nat)
    requires DistinctIds(mounts) && i < |mounts| && Readable(mounts[i])
    ensures CursorBound(mounts, Some(mounts[i].id)) == i
  {
    if i < |mounts| - 1 {
      CursorBoundAt(mounts[..|mounts| - 1], i);
    }
  }

  /** Where no readable mount has the cursor's address any more, the search finds nothing. */
  lemma {:induction false} CursorGone(mounts: seq<MountInfo>, path: string, cursor: nat)
    requires forall i | 0 <= i < |mounts| && Readable(mounts[i]) :: mounts[i].id != cursor
    ensures CursorBound(mounts, Some(cursor)) == 0 && FindNext(mounts, path, Some(cursor)) == None
  {
    if mounts != [] {
      CursorGone(mounts[..|mounts| - 1], path, cursor);
    }
    assert mounts[..0] == [];
  }

  /** A match with none above it is the newest. */
  lemma NewestMutableAt(mounts: seq<MountInfo>, path: string, op: Operation, i: nat)
    requires i < |mounts| && MutableCandidate(mounts[i], path, op)
    requires forall j | i < j < |mounts| :: !MutableCandidate(mounts[j], path, op)
    ensures NewestMutable(mounts, path, op) == Some(i)
  {
  }

  /** Restarting a search at a mount in the list looks at exactly the older mounts, also
      after newer mounts were appended since. */
  lemma FindNextBelow(mounts: seq<MountInfo>, arrived: seq<MountInfo>, path: string, i: nat)
    requires DistinctIds(mounts + arrived)
    requires i < |mounts| && Readable(mounts[i])
    ensures FindNext(mounts + arrived, path, Some(mounts[i].id)) == NewestReadable(mounts[..i], path)
  {
    CursorBoundAt(mounts + arrived, i);
    assert (mounts + arrived)[..i] == mounts[..i];
  }

  /** Matching in the user's terms: a mount takes part exactly for the paths below its point, and
      its device is asked for the names below that point. */
  lemma MatchesBelow(path: string, m: MountInfo)
    requires IsAbsolute(path)
    ensures Matches(Normalized(path), m.prefix) <==> Above(m.prefix, path)
    ensures Above(m.prefix, path) ==>
            && IsAbsolute(DevicePath(Normalized(path), m.prefix))
            && IsNormal(DevicePath(Normalized(path), m.prefix))
            && Components(path) == PointNames(m.prefix) + Components(DevicePath(Normalized(path), m.prefix))
  {
    NormalizedIsNormal(path);
    NormalizedAbsolute(path);
    MatchesIsComponentPrefix(Normalized(path), m.prefix);
    if Above(m.prefix, path) {
      DevicePathIsRemainder(Normalized(path), m.prefix);
    }
  }

  /** Resolution in the user's terms, from the raw path on and for every mount list: the newest
      readable mount whose point is the root or a proper ancestor of the path's location. */
  lemma ResolvesByComponents(mounts: seq<MountInfo>, path: string, i: nat)
    requires IsAbsolute(path)
    ensures NewestReadable(mounts, Normalized(path)) == Some(i) <==>
            && i < |mounts| && Readable(mounts[i]) && Above(mounts[i].prefix, path)
            && forall j | i < j < |mounts| :: !(Readable(mounts[j]) && Above(mounts[j].prefix, path))
  {
    var n := Normalized(path);
    forall j | 0 <= j < |mounts|
      ensures ReadCandidate(mounts[j], n) <==> Readable(mounts[j]) && Above(mounts[j].prefix, path)
    {
      MatchesBelow(path, mounts[j]);
    }
    NewestReadableExactly(mounts, n, i);
  }

  lemma NewestReadableExactly(mounts: seq<MountInfo>, path: string, i: nat)
    ensures NewestReadable(mounts, path) == Some(i) <==>
            && i < |mounts| && ReadCandidate(mounts[i], path)
            && forall j | i < j < |mounts| :: !ReadCandidate(mounts[j], path)
  {
  }

  // ---------------------------------------------------------------- answers

  /** What a device reports; a buffer it left alone is None. */
  datatype Answer = Answer(code: ErrorCode, bytes: nat, buffer: Option<seq<bv8>>)

  type Ask = (nat, string) -> Answer

  /** The work item's fields after one more device has answered. */
  function Told(sofar: Answer, a: Answer): Answer
  {
    Answer(a.code, a.bytes, if a.buffer.Some? then a.buffer else sofar.buffer)
  }

  function AskMount(m: MountInfo, path: string, ask: Ask): Answer
    requires Matches(path, m.prefix)
  {
    ask(m.device, DevicePath(path, m.prefix))
  }

  /** Newest-first lookup, as the README of the system describes it: ask the newest readable
      matching mount, and fall through to the older ones while the answer is "not found". */
  function Lookup(mounts: seq<MountInfo>, path: string, ask: Ask, sofar: Answer): Answer
    decreases |mounts|
  {
    if mounts == [] then sofar
    else
      var newest, older := mounts[|mounts| - 1], mounts[..|mounts| - 1];
      if !ReadCandidate(newest, path) then Lookup(older, path, ask, sofar)
      else
        var a := Told(sofar, AskMount(newest, path, ask));
        if a.code != NotFound then a else Lookup(older, path, ask, a)
  }

  /** The mount that answers: the newest readable match that does not say "not found". */
  function Winner(mounts: seq<MountInfo>, path: string, says: (nat, string) -> bool): (r: Option<nat>)
    ensures r.Some? ==>
              && r.value < |mounts| && ReadCandidate(mounts[r.value], path)
              && says(mounts[r.value].device, DevicePath(path, mounts[r.value].prefix))
    ensures forall j | (if r.Some? then r.value + 1 else 0) <= j < |mounts| ::
              ReadCandidate(mounts[j], path) ==> !says(mounts[j].device, DevicePath(path, mounts[j].prefix))
  {
    if mounts == [] then None
    else
      var newest := mounts[|mounts| - 1];
      if ReadCandidate(newest, path) && says(newest.device, DevicePath(path, newest.prefix)) then Some(|mounts| - 1)
      else Winner(mounts[..|mounts| - 1], path, says)
  }

  /** Skipping to the newest candidate does not change a lookup. */
  lemma {:induction false} LookupSkips(mounts: seq<MountInfo>, path: string, ask: Ask, sofar: Answer)
    ensures match NewestReadable(mounts, path)
            case None => Lookup(mounts, path, ask, sofar) == sofar
            case Some(i) =>
              var a := Told(sofar, AskMount(mounts[i], path, ask));
              Lookup(mounts, path, ask, sofar) ==
              if a.code != NotFound then a else Lookup(mounts[..i], path, ask, a)
  {
    if mounts != [] && !ReadCandidate(mounts[|mounts| - 1], path) {
      LookupSkips(mounts[..|mounts| - 1], path, ask, sofar);
      var i := NewestReadable(mounts, path);
      assert i.Some? ==> mounts[..|mounts| - 1][..i.value] == mounts[..i.value];
    }
  }

  lemma {:induction false} WinnerSkips(mounts: seq<MountInfo>, path: string, says: (nat, string) -> bool)
    ensures match NewestReadable(mounts, path)
            case None => Winner(mounts, path, says) == None
            case Some(i) =>
              Winner(mounts, path, says) ==
              if says(mounts[i].device, DevicePath(path, mounts[i].prefix)) then Some(i)
              else Winner(mounts[..i], path, says)
  {
    if mounts != [] && !ReadCandidate(mounts[|mounts| - 1], path) {
      WinnerSkips(mounts[..|mounts| - 1], path, says);
      var i := NewestReadable(mounts, path);
      assert i.Some? ==> mounts[..|mounts| - 1][..i.value] == mounts[..i.value];
    }
  }

  /** The lookup's answer is the winner's answer; without a winner it is "not found". */
  lemma {:induction false} LookupIsWinner(mounts: seq<MountInfo>, path: string, ask: Ask, sofar: Answer,
                                          says: (nat, string) -> bool)
    requires forall d, p :: says(d, p) <==> ask(d, p).code != NotFound
    requires sofar.code == NotFound
    ensures var r := Lookup(mounts, path, ask, sofar);
            match Winner(mounts, path, says)
            case None => r.code == NotFound
            case Some(i) =>
              var a := AskMount(mounts[i], path, ask);
              r.code == a.code && r.bytes == a.bytes && (a.buffer.Some? ==> r.buffer == a.buffer)
    decreases |mounts|
  {
    if mounts != [] {
      var newest, older := mounts[|mounts| - 1], mounts[..|mounts| - 1];
      if !ReadCandidate(newest, path) {
        LookupIsWinner(older, path, ask, sofar, says);
      } else {
        var a := Told(sofar, AskMount(newest, path, ask));
        if a.code == NotFound {
          LookupIsWinner(older, path, ask, a, says);
        }
      }
    }
  }

  /** If every match says "not found", the item keeps the byte count of the mount asked last, which is
      the oldest; if there is no match at all, nothing changes. */
  lemma {:induction false} LookupFails(mounts: seq<MountInfo>, path: string, ask: Ask, sofar: Answer)
    requires sofar.code == NotFound
    requires forall j | 0 <= j < |mounts| && ReadCandidate(mounts[j], path) ::
               AskMount(mounts[j], path, ask).code == NotFound
    ensures Lookup(mounts, path, ask, sofar).code == NotFound
    ensures forall i | 0 <= i < |mounts| && ReadCandidate(mounts[i], path)
                       && (forall j | 0 <= j < i :: !ReadCandidate(mounts[j], path)) ::
              Lookup(mounts, path, ask, sofar).bytes == AskMount(mounts[i], path, ask).bytes
    ensures (forall j | 0 <= j < |mounts| :: !ReadCandidate(mounts[j], path)) ==>
              Lookup(mounts, path, ask, sofar) == sofar
    decreases |mounts|
  {
    if mounts != [] {
      var newest, older := mounts[|mounts| - 1], mounts[..|mounts| - 1];
      var next := if ReadCandidate(newest, path) then Told(sofar, AskMount(newest, path, ask)) else sofar;
      LookupFails(older, path, ask, next);
    }
  }

  /** For devices whose three answers agree on what exists, EXISTS, SIZE and READ of one path
      are answered by one and the same mount. */
  lemma {:induction false} OperationsAgree(mounts: seq<MountInfo>, path: string,
                        has: (nat, string) -> bool, size: Ask, read: Ask, sofar: Answer)
    requires forall d, p :: has(d, p) <==> size(d, p).code != NotFound
    requires forall d, p :: has(d, p) <==> read(d, p).code != NotFound
    requires sofar.code == NotFound
    ensures match Winner(mounts, path, has)
            case None =>
              && Lookup(mounts, path, size, sofar).code == NotFound
              && Lookup(mounts, path, read, sofar).code == NotFound
            case Some(i) =>
              && Lookup(mounts, path, size, sofar).code == AskMount(mounts[i], path, size).code != NotFound
              && Lookup(mounts, path, size, sofar).bytes == AskMount(mounts[i], path, size).bytes
              && Lookup(mounts, path, read, sofar).code == AskMount(mounts[i], path, read).code != NotFound
              && Lookup(mounts, path, read, sofar).bytes == AskMount(mounts[i], path, read).bytes
  {
    LookupIsWinner(mounts, path, size, sofar, has);
    LookupIsWinner(mounts, path, read, sofar, has);
  }

  // ---------------------------------------------------------------- dispatch

  /** The five operations the permission test knows. */
  predicate Checked(op: Operation)
  {
    op == OpWrite || op == OpAppend || op == OpDelete || op == OpCreateDir || op == OpDeleteDir
  }

  /** In a consistent table a granted operation is one the mount's interface implements, and
      a readable mount always implements the three reading operations. */
  lemma {:induction false} DispatchSound(t: Table, path: string, op: Operation)
    requires Consistent(t)
    ensures Checked(op) && NewestMutable(t.mounts, path, op).Some? ==>
              t.mounts[NewestMutable(t.mounts, path, op).value].iface.Implements(op)
    ensures !Checked(op) && op != OpWriteSegment && NewestReadable(t.mounts, path).Some? ==>
              t.mounts[NewestReadable(t.mounts, path).value].iface.Implements(op)
  {
    if Checked(op) && NewestMutable(t.mounts, path, op).Some? {
      GrantedIsImplemented(t.mounts[NewestMutable(t.mounts, path, op).value], op);
    }
  }

  /** The same over every history of registrations, mounts and releases: a checked operation goes
      to the newest matching mount that grants it, and the device function is there. */
  lemma DispatchAlwaysSound(history: seq<Event>, path: string, op: Operation)
    requires Legal(EMPTY, history) && Checked(op)
    ensures var mounts := Replay(EMPTY, history).mounts;
            match NewestMutable(mounts, path, op)
            case None => forall j | 0 <= j < |mounts| :: !MutableCandidate(mounts[j], path, op)
            case Some(i) =>
              && MutableCandidate(mounts[i], path, op) && mounts[i].iface.Implements(op)
              && forall j | i < j < |mounts| :: !MutableCandidate(mounts[j], path, op)
  {
    ReplayConsistent(EMPTY, history);
    DispatchSound(Replay(EMPTY, history), path, op);
  }

  lemma GrantedIsImplemented(m: MountInfo, op: Operation)
    requires SoundMount(m) && Checked(op) && Granted(m, op)
    ensures m.iface.Implements(op)
  {
  }

  /** Segment writes skip the permission test: the newest matching mount is chosen whatever
      it permits. They go where an ordinary write goes - and are then sure to find a device
      function - exactly when that mount grants writing. */
  lemma {:induction false} SegmentWriteDispatch(t: Table, path: string)
    requires Consistent(t)
    ensures var segment := NewestMutable(t.mounts, path, OpWriteSegment);
            && (segment == NewestMutable(t.mounts, path, OpWrite)
                <==> (segment.Some? ==> Granted(t.mounts[segment.value], OpWrite)))
            && (segment.Some? && Granted(t.mounts[segment.value], OpWrite)
                ==> t.mounts[segment.value].iface.Implements(OpWriteSegment))
            && (segment.Some? ==> forall j | segment.value < j < |t.mounts| :: !Matches(path, t.mounts[j].prefix))
  {
    var segment := NewestMutable(t.mounts, path, OpWriteSegment);
    SegmentIsNewestMatch(t.mounts, path);
    if segment.Some? && Granted(t.mounts[segment.value], OpWrite) {
      GrantedIsImplemented(t.mounts[segment.value], OpWrite);
    }
  }

  lemma {:induction false} SegmentIsNewestMatch(mounts: seq<MountInfo>, path: string)
    ensures var segment := NewestMutable(mounts, path, OpWriteSegment);
            && (segment == NewestMutable(mounts, path, OpWrite)
                <==> (segment.Some? ==> Granted(mounts[segment.value], OpWrite)))
            && (segment.Some? ==> forall j | segment.value < j < |mounts| :: !Matches(path, mounts[j].prefix))
  {
    var segment := NewestMutable(mounts, path, OpWriteSegment);
    assert forall m: MountInfo :: MutableCandidate(m, path, OpWriteSegment) <==> Matches(path, m.prefix);
    if segment.Some? && Granted(mounts[segment.value], OpWrite) {
      NewestMutableAt(mounts, path, OpWrite, segment.value);
    }
  }

  /** A table where it is not: a read-only interface mounted at the root. */
  lemma SegmentWriteWithoutFunction(iface: DeviceInterface)
    requires iface.HasRequired() && !iface.writeFile
    ensures var t := Replay(EMPTY, [Register(iface), Create(0, "/", MOUNT_DEFAULT, Ok, Some(0), 0)]);
            && Consistent(t)
            && NewestMutable(t.mounts, "/f", OpWriteSegment) == Some(0)
            && !t.mounts[0].iface.Implements(OpWriteSegment)
            && NewestMutable(t.mounts, "/f", OpWrite) == None
  {
    var history := [Register(iface), Create(0, "/", MOUNT_DEFAULT, Ok, Some(0), 0)];
    var m := MountInfo(0, "/", 0, iface, iface.Supported());
    ReadOnlyRoot(iface);
    ReplayConsistent(EMPTY, history);
    SupportedFits(iface);
    CandidateExactly(m, 0, "/f");
    assert "/" <= "/f" && Matches("/f", "/");
    NewestMutableAt([m], "/f", OpWriteSegment, 0);
  }

  lemma ReadOnlyRoot(iface: DeviceInterface)
    requires iface.HasRequired()
    ensures Replay(EMPTY, [Register(iface), Create(0, "/", MOUNT_DEFAULT, Ok, Some(0), 0)])
            == Table([iface], [MountInfo(0, "/", 0, iface, iface.Supported())])
  {
    var history := [Register(iface), Create(0, "/", MOUNT_DEFAULT, Ok, Some(0), 0)];
    var t := Table([iface], [MountInfo(0, "/", 0, iface, iface.Supported())]);
    SupportedFits(iface);
    assert history[1..] == [history[1]];
    assert Replay(EMPTY, history) == Replay(Apply(EMPTY, history[0]), history[1..]);
    assert Apply(EMPTY, history[0]) == Table([iface], []);
    assert iface.Supported() & 1 != 0;
    assert Created(Table([iface], []), history[1]) == (Some(t.mounts[0]), Ok);
    assert Apply(Table([iface], []), history[1]) == t;
    assert [history[1]][1..] == [];
    assert Replay(Table([iface], []), [history[1]]) == Replay(t, []) == t;
  }
}
