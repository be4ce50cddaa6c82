/** The mount half of `FileContext`: registration, mounting, searching the mount list, and the
    switch of the processing loop. The queue half is in WorkQueue.dfy. */
module FileContexts {
  import opened Wrappers
  import opened MountMatching
  import opened MountTable
  import opened Overlay
  import opened WorkItems

  datatype WriteMode = Truncate | Append | Segment

  /** What the devices answer while one work item is processed; each function takes the device
      and the device path first. */
  datatype Devices = Devices(
    fileExists: (nat, string) -> bool,
    fileSize: (nat, string) -> Answer,
    readFile: (nat, string, nat, nat, bool) -> Answer,
    writeFile: (nat, string, nat, Option<seq<bv8>>, nat, WriteMode) -> Answer,
    deleteFile: (nat, string) -> ErrorCode,
    createDir: (nat, string) -> ErrorCode,
    deleteDir: (nat, string) -> ErrorCode)

  function ReadAsk(devices: Devices, offset: nat, maxBytes: nat, nullTerminate: bool): Ask
  {
    (device: nat, path: string) => devices.readFile(device, path, offset, maxBytes, nullTerminate)
  }

  function ModeOf(op: Operation): WriteMode
  {
    match op
    case OpWriteSegment => Segment
    case OpAppend => Append
    case _ => Truncate
  }

  /** The condition of the mutable search, as the source writes it. */
  predicate Denied(m: MountInfo, op: Operation)
    ensures Denied(m, op) <==> !Granted(m, op)
  {
    || ((op == OpWrite || op == OpAppend) && m.permissions & MOUNT_WRITE_FILE == 0)
    || (op == OpDelete && m.permissions & MOUNT_DELETE_FILE == 0)
    || (op == OpCreateDir && m.permissions & MOUNT_CREATE_DIR == 0)
    || (op == OpDeleteDir && m.permissions & MOUNT_DELETE_DIR == 0)
  }

  /** Mounts other threads append while a search is under way, one batch per restart. */
  function Flatten(batches: seq<seq<MountInfo>>): seq<MountInfo>
  {
    if batches == [] then [] else batches[0] + Flatten(batches[1..])
  }

  lemma DistinctPrefix(mounts: seq<MountInfo>, batches: seq<seq<MountInfo>>)
    requires Fresh(mounts, batches)
    ensures DistinctIds(mounts)
    ensures batches != [] ==> Fresh(mounts + batches[0], batches[1..])
  {
    var all := mounts + Flatten(batches);
    assert forall i | 0 <= i < |mounts| :: mounts[i] == all[i];
    if batches != [] {
      assert (mounts + batches[0]) + Flatten(batches[1..]) == all;
    }
  }

  /** Addresses stay distinct whatever of `coming` still arrives. */
  ghost predicate Fresh(mounts: seq<MountInfo>, coming: seq<seq<MountInfo>>)
  {
    DistinctIds(mounts + Flatten(coming))
  }

  /** The search has found the newest readable match among the first `b` original mounts. */
  ghost predicate FoundBelow(ms: seq<MountInfo>, b: nat, path: string,
                             mount: Option<MountInfo>, devicePath: Option<string>)
    requires b <= |ms|
  {
    match NewestReadable(ms[..b], path)
    case None => mount == None
    case Some(i) => mount == Some(ms[i]) && devicePath == Some(DevicePath(path, ms[i].prefix))
  }

  class FileContext {
    var interfaces: seq<DeviceInterface>
    var mounts: seq<MountInfo>

    function State(): Table
      reads this
    {
      Table(interfaces, mounts)
    }

    /** The built-in directory device registers itself first. */
    constructor (directoryDevice: DeviceInterface)
      ensures State() == Apply(EMPTY, Register(directoryDevice))
    {
      interfaces := if directoryDevice.HasRequired() then [directoryDevice] else [];
      mounts := [];
    }

    method RegisterDeviceInterface(iface: DeviceInterface) returns (result: int)
      modifies this`interfaces
      ensures State() == Apply(old(State()), Register(iface))
      ensures if iface.create && iface.destroy && iface.fileExists && iface.fileSize && iface.readFile
              then interfaces == old(interfaces) + [iface] && result == |old(interfaces)|
              else interfaces == old(interfaces) && result == -1
    {
      result := -1;
      if iface.create && iface.destroy && iface.fileExists && iface.fileSize && iface.readFile {
        result := |interfaces|;
        interfaces := interfaces + [iface];
      }
    }

    /** `code` and `device` are the answer of the interface's create function, `id` the address
        of the new mount. */
    method CreateMount(deviceType: nat, mountPoint: string, requested: bv32,
                       code: ErrorCode, device: Option<nat>, id: nat)
      returns (mount: Option<nat>, resultCode: ErrorCode)
      requires !Holds(mounts, id)
      modifies this`mounts
      ensures State() == Apply(old(State()), Create(deviceType, mountPoint, requested, code, device, id))
      ensures if deviceType < |interfaces| && !NothingFits(interfaces[deviceType], requested)
                 && code == Ok && device.Some?
              then
                && mount == Some(id) && |mounts| == |old(mounts)| + 1 && mounts[..|old(mounts)|] == old(mounts)
                && var m := mounts[|old(mounts)|];
                   && m.id == id && m.prefix == mountPoint && m.device == device.value
                   && m.iface == interfaces[deviceType] && Fits(m.permissions, m.iface, requested)
              else mount == None && mounts == old(mounts)
      ensures resultCode == if deviceType >= |interfaces| then InvalidDevice
                            else if NothingFits(interfaces[deviceType], requested) then PermissionsError
                            else code
    {
      if deviceType >= |interfaces| {
        return None, InvalidDevice;
      }
      var iface := interfaces[deviceType];
      var calculated := GrantedPermissions(iface, requested);
      GrantedFits(iface, requested);
      if calculated == 0 {
        return None, PermissionsError;
      }
      if code == Ok && device.Some? {
        mounts := mounts + [MountInfo(id, mountPoint, device.value, iface, calculated)];
        mount := Some(id);
      } else {
        mount := None;
      }
      resultCode := code;
    }

    /** The part of `releaseMount` between stopping and restarting the processing thread. `destroyed`
        is the device handed to its interface's destroy function. */
    method ReleaseMount(id: nat) returns (result: bool, destroyed: Option<nat>)
      modifies this`mounts
      ensures State() == Apply(old(State()), Release(id))
      ensures result <==> exists k :: 0 <= k < |old(mounts)| && old(mounts)[k].id == id
      ensures !result ==> mounts == old(mounts) && destroyed == None
      ensures forall k | 0 <= k < |old(mounts)| && old(mounts)[k].id == id
                         && (forall j | 0 <= j < k :: old(mounts)[j].id != id) ::
                mounts == old(mounts)[..k] + old(mounts)[k + 1..] && destroyed == Some(old(mounts)[k].device)
    {
      var it := 0;
      while it < |mounts| && mounts[it].id != id
        invariant 0 <= it <= |mounts|
        invariant forall k | 0 <= k < it :: mounts[k].id != id
      {
        it := it + 1;
      }
      result, destroyed := it < |mounts|, None;
      RemoveAt(mounts, id, it);
      if result {
        destroyed := Some(mounts[it].device);
        mounts := mounts[..it] + mounts[it + 1..];
      }
    }

    /** A search call of the reading operations, restartable at an earlier result. */
    method FindNextMountAndPath(path: string, searchStart: Option<nat>)
      returns (mount: Option<MountInfo>, devicePath: Option<string>)
      ensures match FindNext(mounts, path, searchStart)
              case None => mount == None && devicePath == None
              case Some(i) =>
                mount == Some(mounts[i]) && devicePath == Some(DevicePath(path, mounts[i].prefix))
    {
      var onlyAfter := searchStart;
      var i := |mounts|;
      ghost var bound := CursorBound(mounts, searchStart);
      assert mounts[..i] == mounts;
      while i > 0
        invariant 0 <= i <= |mounts|
        invariant onlyAfter.Some? ==> onlyAfter == searchStart && CursorBound(mounts[..i], searchStart) == bound
        invariant onlyAfter.None? ==> i <= |mounts| && (i >= bound ==> i == bound)
        invariant onlyAfter.None? ==> NewestReadable(mounts[..i], path) == FindNext(mounts, path, searchStart)
      {
        i := i - 1;
        ghost var seen := mounts[..i + 1];
        assert seen[i] == mounts[i] && seen[..i] == mounts[..i];
        assert NewestReadable(seen, path) == if ReadCandidate(mounts[i], path) then Some(i)
                                             else NewestReadable(mounts[..i], path);
        if mounts[i].permissions & MOUNT_READ == 0 {
          continue;
        }
        if onlyAfter.Some? {
          if mounts[i].id == onlyAfter.value {
            onlyAfter := None;
          }
          continue;
        }
        var found := StrStr(path, mounts[i].prefix);
        var len := |mounts[i].prefix|;
        if found == Some(0) && ((len < |path| && path[len] == '/') || len == 1) {
          return Some(mounts[i]), Some(if len == 1 then path else path[len..]);
        }
      }
      return None, None;
    }

    /** A search call of the mutating operations. */
    method FindMutableMountAndPath(path: string, op: Operation)
      returns (mount: Option<MountInfo>, devicePath: Option<string>)
      ensures match NewestMutable(mounts, path, op)
              case None => mount == None && devicePath == None
              case Some(i) =>
                mount == Some(mounts[i]) && devicePath == Some(DevicePath(path, mounts[i].prefix))
    {
      devicePath := None;
      var i := |mounts|;
      assert mounts[..i] == mounts;
      while i > 0
        invariant 0 <= i <= |mounts|
        invariant devicePath == None
        invariant NewestMutable(mounts[..i], path, op) == NewestMutable(mounts, path, op)
      {
        i := i - 1;
        ghost var seen := mounts[..i + 1];
        assert seen[..i] == mounts[..i];
        var m := mounts[i];
        var found := StrStr(path, m.prefix);
        var len := |m.prefix|;
        assert seen[i] == m && NewestMutable(seen, path, op) == if MutableCandidate(m, path, op) then Some(i)
                                                                else NewestMutable(mounts[..i], path, op);
        if found == Some(0) && ((len < |path| && path[len] == '/') || len == 1) {
          devicePath := Some(if len == 1 then path else path[len..]);
          if Denied(m, op) {
            devicePath := None;
            continue;
          } else {
            return Some(m), devicePath;
          }
        }
      }
      return None, devicePath;
    }

    /** LFS_OP_EXISTS: found exactly when some readable matching mount has the file. Mounts
        created meanwhile (`arrivals`, one batch before each restarted search) do not matter. */
    method ProcessExists(item: WorkItem, devices: Devices, arrivals: seq<seq<MountInfo>>)
      requires Fresh(mounts, arrivals)
      modifies this`mounts, item`resultCode
      ensures old(mounts) <= mounts && DistinctIds(mounts)
      ensures item.resultCode ==
              if Winner(old(mounts), item.filename, devices.fileExists).Some? then Ok else NotFound
    {
      ghost var ms, b, path := mounts, |mounts|, item.filename;
      var coming := arrivals;
      DistinctPrefix(mounts, coming);
      item.resultCode := NotFound;
      assert ms[..b] == ms;
      var mount, devicePath := FindNextMountAndPath(item.filename, None);
      while mount.Some?
        invariant b <= |ms| <= |mounts| && ms <= mounts && Fresh(mounts, coming)
        invariant item.resultCode == NotFound
        invariant FoundBelow(ms, b, path, mount, devicePath)
        invariant Winner(ms[..b], path, devices.fileExists) == Winner(ms, path, devices.fileExists)
        decreases b
      {
        ghost var i := NewestReadable(ms[..b], path).value;
        WinnerSkips(ms[..b], path, devices.fileExists);
        if devices.fileExists(mount.value.device, devicePath.value) {
          item.resultCode := Ok;
          break;
        }
        assert ms[..b][..i] == ms[..i];
        b := i;
        mount, devicePath, coming := SearchAgain(item.filename, mount.value, coming, ms, i);
      }
      DistinctPrefix(mounts, coming);
      WinnerSkips(ms[..b], path, devices.fileExists);
    }

    /** LFS_OP_SIZE: code and size are those of the newest-first lookup. */
    method ProcessSize(item: WorkItem, devices: Devices, arrivals: seq<seq<MountInfo>>)
      requires Fresh(mounts, arrivals)
      modifies this`mounts, item`resultCode, item`bufferBytes
      ensures old(mounts) <= mounts && DistinctIds(mounts)
      ensures var r := Lookup(old(mounts), item.filename, devices.fileSize, Answer(NotFound, 0, None));
              item.resultCode == r.code && item.bufferBytes == r.bytes
    {
      ghost var ms, b, path := mounts, |mounts|, item.filename;
      ghost var cur := Answer(NotFound, 0, None);
      ghost var result := Lookup(ms, path, devices.fileSize, cur);
      var coming := arrivals;
      DistinctPrefix(mounts, coming);
      item.resultCode, item.bufferBytes := NotFound, 0;
      assert ms[..b] == ms;
      var mount, devicePath := FindNextMountAndPath(item.filename, None);
      while mount.Some?
        invariant b <= |ms| <= |mounts| && ms <= mounts && Fresh(mounts, coming)
        invariant item.resultCode == cur.code == NotFound && item.bufferBytes == cur.bytes
        invariant FoundBelow(ms, b, path, mount, devicePath)
        invariant Lookup(ms[..b], path, devices.fileSize, cur) == result
        decreases b
      {
        ghost var i := NewestReadable(ms[..b], path).value;
        LookupSkips(ms[..b], path, devices.fileSize, cur);
        var answer := devices.fileSize(mount.value.device, devicePath.value);
        item.resultCode, item.bufferBytes := answer.code, answer.bytes;
        cur := Told(cur, answer);
        if item.resultCode != NotFound {
          break;
        }
        assert ms[..b][..i] == ms[..i];
        b := i;
        mount, devicePath, coming := SearchAgain(item.filename, mount.value, coming, ms, i);
      }
      DistinctPrefix(mounts, coming);
      LookupSkips(ms[..b], path, devices.fileSize, cur);
    }

    /** LFS_OP_READ: code, byte count and buffer are those of the newest-first lookup. */
    method ProcessRead(item: WorkItem, devices: Devices, arrivals: seq<seq<MountInfo>>)
      requires Fresh(mounts, arrivals)
      modifies this`mounts, item`resultCode, item`bufferBytes, item`buffer
      ensures old(mounts) <= mounts && DistinctIds(mounts)
      ensures var ask := ReadAsk(devices, item.offset, old(item.bufferBytes), item.nullTerminate);
              Answer(item.resultCode, item.bufferBytes, item.buffer)
              == Lookup(old(mounts), item.filename, ask, Answer(NotFound, 0, old(item.buffer)))
    {
      ghost var ms, b, path := mounts, |mounts|, item.filename;
      var maxBytes := item.bufferBytes;
      ghost var ask := ReadAsk(devices, item.offset, maxBytes, item.nullTerminate);
      ghost var cur := Answer(NotFound, 0, item.buffer);
      ghost var result := Lookup(ms, path, ask, cur);
      var coming := arrivals;
      DistinctPrefix(mounts, coming);
      item.resultCode, item.bufferBytes := NotFound, 0;
      assert ms[..b] == ms;
      var mount, devicePath := FindNextMountAndPath(item.filename, None);
      while mount.Some?
        invariant b <= |ms| <= |mounts| && ms <= mounts && Fresh(mounts, coming)
        invariant cur == Answer(item.resultCode, item.bufferBytes, item.buffer) && cur.code == NotFound
        invariant FoundBelow(ms, b, path, mount, devicePath)
        invariant Lookup(ms[..b], path, ask, cur) == result
        decreases b
      {
        ghost var i := NewestReadable(ms[..b], path).value;
        LookupSkips(ms[..b], path, ask, cur);
        var answer := devices.readFile(mount.value.device, devicePath.value, item.offset, maxBytes, item.nullTerminate);
        assert mount == Some(ms[i]) && answer == AskMount(ms[i], path, ask);
        item.resultCode, item.bufferBytes := answer.code, answer.bytes;
        if answer.buffer.Some? {
          item.buffer := answer.buffer;
        }
        cur := Told(cur, answer);
        if item.resultCode != NotFound {
          break;
        }
        assert ms[..b][..i] == ms[..i];
        b := i;
        mount, devicePath, coming := SearchAgain(item.filename, mount.value, coming, ms, i);
      }
      DistinctPrefix(mounts, coming);
      LookupSkips(ms[..b], path, ask, cur);
    }

    /** The switch of the processing loop. Reading: the answer is that of the newest readable match
        that has the file, asked with the item's own fields. Mutating: the device of the newest match
        that is not denied is called. */
    method ProcessItem(item: WorkItem, devices: Devices, arrivals: seq<seq<MountInfo>>)
      returns (call: Option<Call>)
      requires Fresh(mounts, arrivals)
      modifies this`mounts, item`resultCode, item`bufferBytes, item`buffer
      ensures old(mounts) <= mounts && DistinctIds(mounts)
      ensures Answer(item.resultCode, item.bufferBytes, item.buffer)
              == ItemAnswer(old(mounts), devices, old(item.Asked()))
      ensures call == CallOf(old(mounts), old(item.Asked()))
      ensures old(Consistent(State())) && call.Some? && Checked(item.operation) ==>
                call.value.mount in old(mounts) && call.value.mount.iface.Implements(item.operation)
    {
      call := None;
      DistinctPrefix(mounts, arrivals);
      match item.operation {
        case OpExists => ProcessExists(item, devices, arrivals);
        case OpSize => ProcessSize(item, devices, arrivals);
        case OpRead => ProcessRead(item, devices, arrivals);
        case _ => call := ProcessMutation(item, devices);
      }
    }

    /** Other threads' `createMount` calls between two searches. */
    method Arrive(batches: seq<seq<MountInfo>>) returns (rest: seq<seq<MountInfo>>)
      requires Fresh(mounts, batches)
      modifies this`mounts
      ensures old(mounts) <= mounts && DistinctIds(mounts)
      ensures Fresh(mounts, rest)
    {
      DistinctPrefix(mounts, batches);
      rest := batches;
      if batches != [] {
        mounts := mounts + batches[0];
        rest := batches[1..];
        DistinctPrefix(mounts, rest);
      }
    }

    /** A restarted search, after whatever other threads mounted in the meantime. */
    method SearchAgain(path: string, last: MountInfo, coming: seq<seq<MountInfo>>,
                       ghost ms: seq<MountInfo>, ghost i: nat)
      returns (mount: Option<MountInfo>, devicePath: Option<string>, rest: seq<seq<MountInfo>>)
      requires i < |ms| <= |mounts| && ms <= mounts && Fresh(mounts, coming)
      requires ms[i] == last && Readable(last)
      modifies this`mounts
      ensures ms <= mounts && Fresh(mounts, rest)
      ensures FoundBelow(ms, i, path, mount, devicePath)
    {
      rest := Arrive(coming);
      FindNextAfter(ms, mounts, path, i);
      mount, devicePath := FindNextMountAndPath(path, Some(last.id));
    }

    /** The mutating half of the switch. `call` is the device call that was made, if any. */
    method ProcessMutation(item: WorkItem, devices: Devices) returns (call: Option<Call>)
      requires Mutates(item.operation)
      modifies item`resultCode, item`bufferBytes
      ensures call == CallOf(mounts, old(item.Asked()))
      ensures Answer(item.resultCode, item.bufferBytes, item.buffer)
              == ItemAnswer(mounts, devices, old(item.Asked()))
      ensures NewestMutable(mounts, item.filename, item.operation).None? ==>
                && call == None && item.resultCode == Unsupported
                && item.bufferBytes == if item.operation in {OpWrite, OpAppend, OpWriteSegment} then 0
                                       else old(item.bufferBytes)
      ensures forall i | NewestMutable(mounts, item.filename, item.operation) == Some(i) ::
                var device, path := mounts[i].device, DevicePath(item.filename, mounts[i].prefix);
                && call == Some(Call(mounts[i], item.operation, path))
                && (item.operation == OpDelete ==> item.resultCode == devices.deleteFile(device, path))
                && (item.operation == OpCreateDir ==> item.resultCode == devices.createDir(device, path))
                && (item.operation == OpDeleteDir ==> item.resultCode == devices.deleteDir(device, path))
                && (item.operation in {OpDelete, OpCreateDir, OpDeleteDir} ==>
                      item.bufferBytes == old(item.bufferBytes))
      ensures forall i | NewestMutable(mounts, item.filename, item.operation) == Some(i)
                         && item.operation in {OpWrite, OpAppend, OpWriteSegment} ::
                var a := devices.writeFile(
                  mounts[i].device, DevicePath(item.filename, mounts[i].prefix), item.offset, item.buffer,
                  old(item.bufferBytes),
                  if item.operation == OpAppend then Append
                  else if item.operation == OpWriteSegment then Segment
                  else Truncate);
                item.resultCode == a.code && item.bufferBytes == a.bytes
      ensures Consistent(State()) && Checked(item.operation) && call.Some? ==>
                call.value.mount.iface.Implements(item.operation)
    {
      DispatchHolds(State(), item.filename, item.operation);
      var mount, devicePath := FindMutableMountAndPath(item.filename, item.operation);
      if mount.None? {
        if IsWrite(item.operation) {
          item.bufferBytes := 0;
        }
        item.resultCode := Unsupported;
        return None;
      }
      var made := Call(mount.value, item.operation, devicePath.value);
      CallDevice(item, devices, made);
      call := Some(made);
    }

    /** The device call of each mutating case, and where its answer goes. */
    method CallDevice(item: WorkItem, devices: Devices, call: Call)
      requires Mutates(item.operation) && call.op == item.operation
      modifies item`resultCode, item`bufferBytes
      ensures Answer(item.resultCode, item.bufferBytes, item.buffer)
              == Mutate(devices, call, item.offset, item.buffer, old(item.bufferBytes))
    {
      var device := call.mount.device;
      match item.operation {
        case OpWrite | OpWriteSegment | OpAppend =>
          var answer := devices.writeFile(device, call.devicePath, item.offset, item.buffer, item.bufferBytes,
                                          ModeOf(item.operation));
          item.bufferBytes, item.resultCode := answer.bytes, answer.code;
        case OpDelete => item.resultCode := devices.deleteFile(device, call.devicePath);
        case OpCreateDir => item.resultCode := devices.createDir(device, call.devicePath);
        case OpDeleteDir => item.resultCode := devices.deleteDir(device, call.devicePath);
      }
    }
  }

  /** What processing one work item leaves in it: code, byte count and buffer, as a function of
      the mount list at the start and of the devices' answers. */
  function ItemAnswer(mounts: seq<MountInfo>, devices: Devices, r: Request): Answer
  {
    match r.operation
    case OpExists =>
      Answer(if Winner(mounts, r.filename, devices.fileExists).Some? then Ok else NotFound, r.bytes, r.buffer)
    case OpSize =>
      Lookup(mounts, r.filename, devices.fileSize, Answer(NotFound, 0, None)).(buffer := r.buffer)
    case OpRead =>
      Lookup(mounts, r.filename, ReadAsk(devices, r.offset, r.bytes, r.nullTerminate), Answer(NotFound, 0, r.buffer))
    case OpWrite | OpAppend | OpWriteSegment | OpDelete | OpCreateDir | OpDeleteDir =>
      match CallOf(mounts, r)
      case None => Answer(Unsupported, if IsWrite(r.operation) then 0 else r.bytes, r.buffer)
      case Some(call) => Mutate(devices, call, r.offset, r.buffer, r.bytes)
  }

  predicate IsWrite(op: Operation)
  {
    op == OpWrite || op == OpAppend || op == OpWriteSegment
  }

  predicate Mutates(op: Operation)
  {
    op != OpExists && op != OpSize && op != OpRead
  }

  /** A call of a mutating device function. */
  datatype Call = Call(mount: MountInfo, op: Operation, devicePath: string)

  /** The one mutating device call that processing the item makes, if any. */
  function CallOf(mounts: seq<MountInfo>, r: Request): (call: Option<Call>)
    ensures call.Some? ==> call.value.op == r.operation && Mutates(r.operation)
  {
    if !Mutates(r.operation) then None
    else
      match NewestMutable(mounts, r.filename, r.operation)
      case None => None
      case Some(i) => Some(Call(mounts[i], r.operation, DevicePath(r.filename, mounts[i].prefix)))
  }

  /** What a mutating call leaves in the work item. */
  function Mutate(devices: Devices, call: Call, offset: nat, buffer: Option<seq<bv8>>, bytes: nat): Answer
    requires Mutates(call.op)
  {
    var device := call.mount.device;
    match call.op
    case OpWrite | OpWriteSegment | OpAppend =>
      devices.writeFile(device, call.devicePath, offset, buffer, bytes, ModeOf(call.op)).(buffer := buffer)
    case OpDelete => Answer(devices.deleteFile(device, call.devicePath), bytes, buffer)
    case OpCreateDir => Answer(devices.createDir(device, call.devicePath), bytes, buffer)
    case OpDeleteDir => Answer(devices.deleteDir(device, call.devicePath), bytes, buffer)
  }

  lemma DispatchHolds(t: Table, path: string, op: Operation)
    ensures Consistent(t) && Checked(op) && NewestMutable(t.mounts, path, op).Some? ==>
              t.mounts[NewestMutable(t.mounts, path, op).value].iface.Implements(op)
  {
    if Consistent(t) {
      DispatchSound(t, path, op);
    }
  }

  /** Restarting at mount `i` of the original list, whatever was appended since. */
  lemma FindNextAfter(ms: seq<MountInfo>, now: seq<MountInfo>, path: string, i: nat)
    requires ms <= now && DistinctIds(now)
    requires i < |ms| && Readable(ms[i])
    ensures FindNext(now, path, Some(ms[i].id)) == NewestReadable(ms[..i], path)
    ensures now[..i] == ms[..i] && forall k | 0 <= k < i :: now[k] == ms[k]
  {
    assert now == ms + now[|ms|..];
    FindNextBelow(ms, now[|ms|..], path, i);
  }

  lemma RemoveAt(mounts: seq<MountInfo>, id: nat, at: nat)
    requires at <= |mounts|
    requires forall k | 0 <= k < at :: mounts[k].id != id
    requires at < |mounts| ==> mounts[at].id == id
    ensures Remove(mounts, id) == if at < |mounts| then mounts[..at] + mounts[at + 1..] else mounts
  {
    RemoveSkips(mounts[..at], mounts[at..], id);
    assert mounts == mounts[..at] + mounts[at..];
    if at < |mounts| {
      assert mounts[at..][0] == mounts[at] && mounts[at..][1..] == mounts[at + 1..];
    } else {
      assert mounts[at..] == [] && mounts[..at] + [] == mounts;
    }
  }

  lemma {:induction false} RemoveSkips(others: seq<MountInfo>, rest: seq<MountInfo>, id: nat)
    requires forall m | m in others :: m.id != id
    ensures Remove(others + rest, id) == others + Remove(rest, id)
  {
    if others == [] {
      assert others + rest == rest;
    } else {
      RemoveSkips(others[1..], rest, id);
      assert (others + rest)[0] == others[0] && (others + rest)[1..] == others[1..] + rest;
      assert others == [others[0]] + others[1..];
    }
  }
}
