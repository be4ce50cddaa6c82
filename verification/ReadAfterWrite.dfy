/** Reading back through the overlay what was written through it. */
module ReadAfterWrite {
  import opened Wrappers
  import opened MountMatching
  import opened MountTable
  import opened Overlay
  import opened WorkItems
  import opened FileContexts
  import opened DeviceStores

  /** No other file of any device answers differently. */
  ghost predicate OthersUnchanged(before: Devices, after: Devices, device: nat, path: string)
  {
    && (forall d: nat, p | (d, p) != (device, path) :: after.fileExists(d, p) == before.fileExists(d, p))
    && (forall d: nat, p | (d, p) != (device, path) :: after.fileSize(d, p) == before.fileSize(d, p))
    && (forall d: nat, p, o: nat, m: nat, nt | (d, p) != (device, path) ::
          after.readFile(d, p, o, m, nt) == before.readFile(d, p, o, m, nt))
  }

  predicate DistinctDevices(mounts: seq<MountInfo>)
  {
    forall i, j | 0 <= i < j < |mounts| :: mounts[i].device != mounts[j].device
  }

  /** The file of mount `w`, once a read of it succeeds, is what a read of the path finds exactly when
      `w` is readable and no newer readable match has the file: then the item gets just that answer,
      otherwise some other mount (or none) answers. */
  lemma ReadBack(mounts: seq<MountInfo>, q: Request, w: nat, devices: Devices, says: (nat, string) -> bool)
    requires q.operation == OpRead && w < |mounts| && Matches(q.filename, mounts[w].prefix)
    requires var a := devices.readFile(mounts[w].device, DevicePath(q.filename, mounts[w].prefix),
                                       q.offset, q.bytes, q.nullTerminate);
             a.code != NotFound && a.buffer.Some?
    requires forall d, p :: says(d, p) <==> devices.readFile(d, p, q.offset, q.bytes, q.nullTerminate).code != NotFound
    ensures Winner(mounts, q.filename, says) == Some(w) <==>
            && Readable(mounts[w])
            && forall j | w < j < |mounts| && ReadCandidate(mounts[j], q.filename) ::
                 !says(mounts[j].device, DevicePath(q.filename, mounts[j].prefix))
    ensures Winner(mounts, q.filename, says) == Some(w) ==>
              ItemAnswer(mounts, devices, q)
              == devices.readFile(mounts[w].device, DevicePath(q.filename, mounts[w].prefix),
                                  q.offset, q.bytes, q.nullTerminate)
  {
    var ask := ReadAsk(devices, q.offset, q.bytes, q.nullTerminate);
    if Readable(mounts[w]) && forall j | w < j < |mounts| && ReadCandidate(mounts[j], q.filename) ::
         !says(mounts[j].device, DevicePath(q.filename, mounts[j].prefix)) {
      WinnerAt(mounts, q.filename, says, w);
    }
    LookupIsWinner(mounts, q.filename, ask, Answer(NotFound, 0, q.buffer), says);
  }

  lemma {:induction false} WinnerAt(mounts: seq<MountInfo>, path: string, says: (nat, string) -> bool, w: nat)
    requires w < |mounts| && ReadCandidate(mounts[w], path)
    requires says(mounts[w].device, DevicePath(path, mounts[w].prefix))
    requires forall j | w < j < |mounts| && ReadCandidate(mounts[j], path) ::
               !says(mounts[j].device, DevicePath(path, mounts[j].prefix))
    ensures Winner(mounts, path, says) == Some(w)
    decreases |mounts|
  {
    if w < |mounts| - 1 {
      WinnerAt(mounts[..|mounts| - 1], path, says, w);
    }
  }

  /** Two paths that a mount maps to one device path are the same path. */
  lemma DevicePathInjective(p: string, q: string, prefix: string)
    requires Matches(p, prefix) && Matches(q, prefix)
    requires DevicePath(p, prefix) == DevicePath(q, prefix)
    ensures p == q
  {
    if |prefix| != 1 {
      assert p == prefix + p[|prefix|..];
      assert q == prefix + q[|prefix|..];
    }
  }

  lemma {:induction false} LookupUnchanged(mounts: seq<MountInfo>, path: string, a: Ask, b: Ask, sofar: Answer)
    requires forall j | 0 <= j < |mounts| && ReadCandidate(mounts[j], path) ::
               AskMount(mounts[j], path, a) == AskMount(mounts[j], path, b)
    ensures Lookup(mounts, path, a, sofar) == Lookup(mounts, path, b, sofar)
    decreases |mounts|
  {
    if mounts != [] {
      var newest, older := mounts[|mounts| - 1], mounts[..|mounts| - 1];
      var sofar' := if ReadCandidate(newest, path) then Told(sofar, AskMount(newest, path, a)) else sofar;
      LookupUnchanged(older, path, a, b, sofar');
    }
  }

  lemma {:induction false} WinnerUnchanged(mounts: seq<MountInfo>, path: string,
                                           a: (nat, string) -> bool, b: (nat, string) -> bool)
    requires forall j | 0 <= j < |mounts| && ReadCandidate(mounts[j], path) ::
               a(mounts[j].device, DevicePath(path, mounts[j].prefix))
               == b(mounts[j].device, DevicePath(path, mounts[j].prefix))
    ensures Winner(mounts, path, a) == Winner(mounts, path, b)
    decreases |mounts|
  {
    if mounts != [] {
      WinnerUnchanged(mounts[..|mounts| - 1], path, a, b);
    }
  }

  /** A change of one device file changes no answer of EXISTS, SIZE or READ for any other path. */
  lemma OtherPathsUnchanged(mounts: seq<MountInfo>, path: string, w: nat, before: Devices, after: Devices, q: Request)
    requires DistinctDevices(mounts)
    requires w < |mounts| && Matches(path, mounts[w].prefix)
    requires OthersUnchanged(before, after, mounts[w].device, DevicePath(path, mounts[w].prefix))
    requires !Mutates(q.operation) && q.filename != path
    ensures ItemAnswer(mounts, after, q) == ItemAnswer(mounts, before, q)
  {
    var other := q.filename;
    forall j | 0 <= j < |mounts| && Matches(other, mounts[j].prefix)
      ensures (mounts[j].device, DevicePath(other, mounts[j].prefix))
              != (mounts[w].device, DevicePath(path, mounts[w].prefix))
    {
      if j == w && DevicePath(other, mounts[j].prefix) == DevicePath(path, mounts[j].prefix) {
        DevicePathInjective(other, path, mounts[j].prefix);
      }
    }
    LookupUnchanged(mounts, other, ReadAsk(after, q.offset, q.bytes, q.nullTerminate),
                    ReadAsk(before, q.offset, q.bytes, q.nullTerminate), Answer(NotFound, 0, q.buffer));
    LookupUnchanged(mounts, other, after.fileSize, before.fileSize, Answer(NotFound, 0, None));
    WinnerUnchanged(mounts, other, after.fileExists, before.fileExists);
  }

  // ---------------------------------------------------------------- over a map of files

  /** `got` is what a read from `offset` on finds in `content`: at most `limit` bytes, and all there
      are up to that. */
  predicate IsPart(got: seq<bv8>, content: seq<bv8>, offset: nat, limit: nat)
  {
    if offset >= |content| then got == []
    else if offset + limit >= |content| then got == content[offset..]
    else got == content[offset..offset + limit]
  }

  /** What a read item leaves that found `content`. */
  predicate ReadFrom(a: Answer, content: seq<bv8>, q: Request)
  {
    && a.code == Ok && a.buffer.Some?
    && (q.nullTerminate ==> |a.buffer.value| > 0 && a.buffer.value[|a.buffer.value| - 1] == 0)
    && var got := if q.nullTerminate && |a.buffer.value| > 0 then a.buffer.value[..|a.buffer.value| - 1]
                  else a.buffer.value;
       IsPart(got, content, q.offset, q.bytes) && a.bytes == |got|
  }

  /** A read of a path gets to mount `v`, and no newer match has the file. */
  predicate Visible(mounts: seq<MountInfo>, files: Files, path: string, v: nat)
  {
    && v < |mounts| && ReadCandidate(mounts[v], path)
    && forall j | v < j < |mounts| && ReadCandidate(mounts[j], path) ::
         (mounts[j].device, DevicePath(path, mounts[j].prefix)) !in files
  }

  /** A read item of any offset and length, over devices that answer from a map of files, gets that
      part of the file in the newest readable match that has one. */
  lemma ReadsThePart(mounts: seq<MountInfo>, files: Files, q: Request, v: nat)
    requires q.operation == OpRead && Visible(mounts, files, q.filename, v)
    requires (mounts[v].device, DevicePath(q.filename, mounts[v].prefix)) in files
    ensures ReadFrom(ItemAnswer(mounts, FILE_MAP.answers(files), q),
                     files[(mounts[v].device, DevicePath(q.filename, mounts[v].prefix))], q)
  {
    var devices := FileMapDevices(files);
    var content := files[(mounts[v].device, DevicePath(q.filename, mounts[v].prefix))];
    var says := (d: nat, p: string) => devices.readFile(d, p, q.offset, q.bytes, q.nullTerminate).code != NotFound;
    ReadBack(mounts, q, v, devices, says);
    var got := ReadBytes(content, q.offset, q.bytes);
    assert WithTerminator(got, true)[..|got|] == got;
    assert ItemAnswer(mounts, devices, q) == Answer(Ok, |got|, Some(WithTerminator(got, q.nullTerminate)));
  }

  /** EXISTS and SIZE speak of the same file. */
  lemma TellsOfTheFile(mounts: seq<MountInfo>, files: Files, q: Request, v: nat)
    requires Visible(mounts, files, q.filename, v)
    requires (mounts[v].device, DevicePath(q.filename, mounts[v].prefix)) in files
    ensures q.operation == OpExists ==> ItemAnswer(mounts, FILE_MAP.answers(files), q) == Answer(Ok, q.bytes, q.buffer)
    ensures q.operation == OpSize ==>
              ItemAnswer(mounts, FILE_MAP.answers(files), q)
              == Answer(Ok, |files[(mounts[v].device, DevicePath(q.filename, mounts[v].prefix))]|, q.buffer)
  {
    var devices := FileMapDevices(files);
    WinnerAt(mounts, q.filename, devices.fileExists, v);
    LookupIsWinner(mounts, q.filename, devices.fileSize, Answer(NotFound, 0, None), devices.fileExists);
  }

  /** Where no readable match has the file, all three end with "not found"; a read or size item has no
      bytes then, and a buffer is as it was. */
  lemma NothingThere(mounts: seq<MountInfo>, files: Files, q: Request)
    requires !Mutates(q.operation)
    requires forall j | 0 <= j < |mounts| && ReadCandidate(mounts[j], q.filename) ::
               (mounts[j].device, DevicePath(q.filename, mounts[j].prefix)) !in files
    ensures ItemAnswer(mounts, FILE_MAP.answers(files), q)
            == Answer(NotFound, if q.operation == OpExists then q.bytes else 0, q.buffer)
  {
    LookupNothing(mounts, q.filename, FileMapDevices(files).fileSize, Answer(NotFound, 0, None));
    LookupNothing(mounts, q.filename, ReadAsk(FileMapDevices(files), q.offset, q.bytes, q.nullTerminate),
                  Answer(NotFound, 0, q.buffer));
  }

  lemma {:induction false} LookupNothing(mounts: seq<MountInfo>, path: string, ask: Ask, sofar: Answer)
    requires sofar.code == NotFound && sofar.bytes == 0
    requires forall j | 0 <= j < |mounts| && ReadCandidate(mounts[j], path) ::
               AskMount(mounts[j], path, ask) == Answer(NotFound, 0, None)
    ensures Lookup(mounts, path, ask, sofar) == sofar
    decreases |mounts|
  {
    if mounts != [] {
      LookupNothing(mounts[..|mounts| - 1], path, ask, sofar);
    }
  }

  /** The bytes a write item brings. */
  predicate Brings(r: Request, data: seq<bv8>)
  {
    if r.buffer.None? then data == []
    else if r.bytes <= |r.buffer.value| then data == r.buffer.value[..r.bytes]
    else data == r.buffer.value
  }

  /** What each kind of write makes of a file's old content. */
  predicate Becomes(was: seq<bv8>, r: Request, data: seq<bv8>, content: seq<bv8>)
  {
    match r.operation
    case OpWrite => content == data
    case OpAppend => content == was + data
    case OpWriteSegment =>
      && |content| == (if |was| < r.offset + |data| then r.offset + |data| else |was|)
      && forall k | 0 <= k < |content| ::
           content[k] == if r.offset <= k < r.offset + |data| then data[k - r.offset]
                         else if k < |was| then was[k]
                         else 0
    case _ => false
  }

  /** Processing a write item changes one file, and leaves in it what its kind of write says. */
  lemma WritesTheFile(mounts: seq<MountInfo>, files: Files, r: Request, w: nat, data: seq<bv8>)
    returns (content: seq<bv8>)
    requires IsWrite(r.operation) && NewestMutable(mounts, r.filename, r.operation) == Some(w) && Brings(r, data)
    ensures var key := (mounts[w].device, DevicePath(r.filename, mounts[w].prefix));
            && Performed(mounts, FILE_MAP, files, r) == files[key := content]
            && Becomes(if key in files then files[key] else [], r, data, content)
  {
    var key := (mounts[w].device, DevicePath(r.filename, mounts[w].prefix));
    var was := if key in files then files[key] else [];
    content := Rewritten(was, r.offset, Data(r), ModeOf(r.operation));
    ContentBecomes(was, r, data);
    assert Performed(mounts, FILE_MAP, files, r)
        == Write(files, key.0, key.1, r.offset, Data(r), ModeOf(r.operation));
  }

  lemma ContentBecomes(was: seq<bv8>, r: Request, data: seq<bv8>)
    requires IsWrite(r.operation) && Brings(r, data)
    ensures Becomes(was, r, data, Rewritten(was, r.offset, Data(r), ModeOf(r.operation)))
  {
    if r.buffer.Some? {
      assert r.buffer.value[..|r.buffer.value|] == r.buffer.value;
    }
    assert Data(r) == data;
    if r.operation == OpWriteSegment {
      SegmentContent(was, r.offset, data);
    }
  }

  lemma SegmentContent(was: seq<bv8>, offset: nat, data: seq<bv8>)
    ensures var content := Rewritten(was, offset, data, Segment);
            && |content| == (if |was| < offset + |data| then offset + |data| else |was|)
            && forall k | 0 <= k < |content| ::
                 content[k] == if offset <= k < offset + |data| then data[k - offset]
                               else if k < |was| then was[k]
                               else 0
  {
  }

  /** A delete item takes the file out, and the other mutating operations leave all files alone. */
  lemma DeletesTheFile(mounts: seq<MountInfo>, files: Files, r: Request)
    requires Mutates(r.operation) && !IsWrite(r.operation)
    ensures var files' := Performed(mounts, FILE_MAP, files, r);
            match NewestMutable(mounts, r.filename, r.operation)
            case None => files' == files
            case Some(w) =>
              files' == if r.operation == OpDelete
                        then files - {(mounts[w].device, DevicePath(r.filename, mounts[w].prefix))} else files
  {
  }

  /** Processing a write item and then, perhaps with other mounts, a read of the same path: as long as
      the mount written to is still visible, the read gets its part of what the write made of the
      file, for any offset and length. And any other path is read as if the write had not been. */
  lemma WriteThenRead(mounts: seq<MountInfo>, w: nat, later: seq<MountInfo>, v: nat,
                      files: Files, r: Request, data: seq<bv8>, q: Request) returns (content: seq<bv8>)
    requires IsWrite(r.operation) && NewestMutable(mounts, r.filename, r.operation) == Some(w) && Brings(r, data)
    requires Visible(later, files, r.filename, v) && later[v] == mounts[w] && DistinctDevices(later)
    requires !Mutates(q.operation)
    ensures var key := (mounts[w].device, DevicePath(r.filename, mounts[w].prefix));
            Becomes(if key in files then files[key] else [], r, data, content)
    ensures var after := FILE_MAP.answers(Performed(mounts, FILE_MAP, files, r));
            && (q.operation == OpRead && q.filename == r.filename ==> ReadFrom(ItemAnswer(later, after, q), content, q))
            && (q.filename != r.filename ==>
                  ItemAnswer(later, after, q) == ItemAnswer(later, FILE_MAP.answers(files), q))
  {
    content := WritesTheFile(mounts, files, r, w, data);
    var key := (mounts[w].device, DevicePath(r.filename, mounts[w].prefix));
    var files' := Performed(mounts, FILE_MAP, files, r);
    if q.operation == OpRead && q.filename == r.filename {
      assert files'[key] == content;
      ReadsThePart(later, files', q, v);
    }
    if q.filename != r.filename {
      ChangesOneFile(files, key, content);
      OtherPathsUnchanged(later, r.filename, v, FileMapDevices(files), FileMapDevices(files'), q);
    }
  }

  lemma ChangesOneFile(files: Files, key: (nat, string), content: seq<bv8>)
    ensures OthersUnchanged(FileMapDevices(files), FileMapDevices(files[key := content]), key.0, key.1)
  {
  }

  // ---------------------------------------------------------------- writeFile

  /** What a `writeFile` item does to the files, if the processing thread finds one operation when it
      looks for the mount and perhaps another when it chooses the write mode. */
  function WriteSeen(mounts: seq<MountInfo>, files: Files, r: Request, searched: Operation, chosen: Operation): Files
    requires IsWrite(searched)
  {
    match CallOf(mounts, r.(operation := searched))
    case None => files
    case Some(call) =>
      Write(files, call.mount.device, call.devicePath, r.offset, Data(r), ModeOf(chosen))
  }

  /** `writeFile` submits a segment write at offset 0 and turns it into a truncating write only when
      the item is queued already. The processing thread may see the change late: not at all, or only
      after it has chosen the mount. The same device is asked to write under the same path if and
      only if the newest matching mount grants writing, or none matches at all. If so, a change seen
      between mount and mode makes no difference, and one not seen at all makes none if and only if
      the file was not longer than what is written. If not, both write to the newest matching mount
      without its permission. */
  lemma WriteFileOvertaken(mounts: seq<MountInfo>, files: Files, r: Request)
    requires r.operation == OpWrite && r.offset == 0
    ensures forall op | IsWrite(op) ::
              WriteSeen(mounts, files, r, op, op) == Performed(mounts, FILE_MAP, files, r.(operation := op))
    ensures var newest := NewestMutable(mounts, r.filename, OpWriteSegment);
            && (SamePlace(CallOf(mounts, r.(operation := OpWriteSegment)), CallOf(mounts, r))
                <==> (newest.Some? ==> Granted(mounts[newest.value], OpWrite)))
            && match newest
               case None =>
                 && WriteSeen(mounts, files, r, OpWriteSegment, OpWriteSegment) == files
                 && WriteSeen(mounts, files, r, OpWriteSegment, OpWrite) == files
                 && WriteSeen(mounts, files, r, OpWrite, OpWrite) == files
               case Some(i) =>
                 var device, dp := mounts[i].device, DevicePath(r.filename, mounts[i].prefix);
                 if Granted(mounts[i], OpWrite) then
                   && WriteSeen(mounts, files, r, OpWriteSegment, OpWrite)
                      == WriteSeen(mounts, files, r, OpWrite, OpWrite)
                   && (WriteSeen(mounts, files, r, OpWriteSegment, OpWriteSegment)
                       == WriteSeen(mounts, files, r, OpWrite, OpWrite)
                       <==> |ContentOf(files, device, dp)| <= |Data(r)|)
                 else
                   && WriteSeen(mounts, files, r, OpWriteSegment, OpWrite) == files[(device, dp) := Data(r)]
                   && WriteSeen(mounts, files, r, OpWriteSegment, OpWriteSegment)
                      == Write(files, device, dp, 0, Data(r), Segment)
  {
    forall op | IsWrite(op)
      ensures WriteSeen(mounts, files, r, op, op) == Performed(mounts, FILE_MAP, files, r.(operation := op))
    {
      SeenOnce(mounts, files, r, op);
    }
    PlaceSeen(mounts, r);
    var newest := NewestMutable(mounts, r.filename, OpWriteSegment);
    if newest.Some? {
      WritesSeen(mounts, files, r, newest.value);
      var device, dp := mounts[newest.value].device, DevicePath(r.filename, mounts[newest.value].prefix);
      SegmentMakesNoDifference(files, device, dp, Data(r));
    }
  }

  lemma SeenOnce(mounts: seq<MountInfo>, files: Files, r: Request, op: Operation)
    requires IsWrite(op)
    ensures WriteSeen(mounts, files, r, op, op) == Performed(mounts, FILE_MAP, files, r.(operation := op))
  {
  }

  lemma PlaceSeen(mounts: seq<MountInfo>, r: Request)
    requires r.operation == OpWrite
    ensures var newest := NewestMutable(mounts, r.filename, OpWriteSegment);
            && (SamePlace(CallOf(mounts, r.(operation := OpWriteSegment)), CallOf(mounts, r))
                <==> (newest.Some? ==> Granted(mounts[newest.value], OpWrite)))
            && (newest == None ==> CallOf(mounts, r) == None && CallOf(mounts, r.(operation := OpWriteSegment)) == None)
  {
    SegmentIsNewestMatch(mounts, r.filename);
  }

  /** Where the newest match is `i`, and what is written there. */
  lemma WritesSeen(mounts: seq<MountInfo>, files: Files, r: Request, i: nat)
    requires r.operation == OpWrite && r.offset == 0 && NewestMutable(mounts, r.filename, OpWriteSegment) == Some(i)
    ensures var device, dp := mounts[i].device, DevicePath(r.filename, mounts[i].prefix);
            && WriteSeen(mounts, files, r, OpWriteSegment, OpWrite) == Write(files, device, dp, 0, Data(r), Truncate)
            && WriteSeen(mounts, files, r, OpWriteSegment, OpWriteSegment)
               == Write(files, device, dp, 0, Data(r), Segment)
            && (Granted(mounts[i], OpWrite) ==>
                  WriteSeen(mounts, files, r, OpWrite, OpWrite) == Write(files, device, dp, 0, Data(r), Truncate))
  {
    if Granted(mounts[i], OpWrite) {
      NewestMutableAt(mounts, r.filename, OpWrite, i);
    }
  }

  lemma SegmentMakesNoDifference(files: Files, device: nat, path: string, data: seq<bv8>)
    ensures Write(files, device, path, 0, data, Segment) == Write(files, device, path, 0, data, Truncate)
            <==> |ContentOf(files, device, path)| <= |data|
  {
    var content := ContentOf(files, device, path);
    SegmentAtStart(content, data);
    assert Write(files, device, path, 0, data, Segment)[(device, path)] == Rewritten(content, 0, data, Segment);
    assert Write(files, device, path, 0, data, Truncate)[(device, path)] == Rewritten(content, 0, data, Truncate);
  }

  /** The same device is asked to write under the same path, or none is. */
  predicate SamePlace(a: Option<Call>, b: Option<Call>)
  {
    a.Some? == b.Some? && (a.Some? ==> a.value.mount == b.value.mount && a.value.devicePath == b.value.devicePath)
  }

  lemma SegmentAtStart(content: seq<bv8>, data: seq<bv8>)
    ensures Rewritten(content, 0, data, Segment) == Rewritten(content, 0, data, Truncate) <==> |content| <= |data|
  {
    assert content[..0] + data == data;
    if |content| <= |data| {
      assert content[|content|..] == [];
    } else {
      assert |Rewritten(content, 0, data, Segment)| == |content|;
    }
  }
}
