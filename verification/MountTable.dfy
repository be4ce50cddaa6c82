/** The registered device interfaces and the mount list, as values, and what registering an
    interface, creating a mount and releasing a mount do to them. */
module MountTable {
  import opened Wrappers

  datatype ErrorCode =
    | Ok | GenericError | NotFound | Unsupported | AlreadyExists
    | PermissionsError | OutOfSpace | InvalidDevice | OutOfWorkItems

  datatype Operation =
    | OpExists | OpSize | OpRead
    | OpWrite | OpAppend | OpWriteSegment
    | OpDelete | OpCreateDir | OpDeleteDir

  const MOUNT_DEFAULT: bv32 := 0
  const MOUNT_READ: bv32 := 1
  const MOUNT_WRITE_FILE: bv32 := 2
  const MOUNT_DELETE_FILE: bv32 := 4
  const MOUNT_CREATE_DIR: bv32 := 8
  const MOUNT_DELETE_DIR: bv32 := 16

  /** Which of an interface's function pointers are set. */
  datatype DeviceInterface = DeviceInterface(
    create: bool, destroy: bool, fileExists: bool, fileSize: bool, readFile: bool,
    writeFile: bool, deleteFile: bool, createDir: bool, deleteDir: bool)
  {
    predicate HasRequired() { create && destroy && fileExists && fileSize && readFile }

    /** Whether the function the processing loop calls for `op` is there. */
    predicate Implements(op: Operation)
    {
      match op
      case OpExists => fileExists
      case OpSize => fileSize
      case OpRead => readFile
      case OpWrite | OpAppend | OpWriteSegment => writeFile
      case OpDelete => deleteFile
      case OpCreateDir => createDir
      case OpDeleteDir => deleteDir
    }

    function Supported(): bv32
    {
      MOUNT_READ
      | (if writeFile then MOUNT_WRITE_FILE else 0)
      | (if deleteFile then MOUNT_DELETE_FILE else 0)
      | (if createDir then MOUNT_CREATE_DIR else 0)
      | (if deleteDir then MOUNT_DELETE_DIR else 0)
    }
  }

  /** A mount; `id` stands for its address, `device` for the address of its device. */
  datatype MountInfo = MountInfo(
    id: nat, prefix: string, device: nat, iface: DeviceInterface, permissions: bv32)

  datatype Table = Table(interfaces: seq<DeviceInterface>, mounts: seq<MountInfo>)

  const EMPTY := Table([], [])

  /** One call on the context. `code` and `device` are what the device's own create function
      answered; `id` is the address the allocator gave the new mount. */
  datatype Event =
    | Register(iface: DeviceInterface)
    | Create(deviceType: nat, mountPoint: string, permissions: bv32,
             code: ErrorCode, device: Option<nat>, id: nat)
    | Release(target: nat)

  function GrantedPermissions(iface: DeviceInterface, requested: bv32): bv32
  {
    if requested == MOUNT_DEFAULT then iface.Supported() else requested & iface.Supported()
  }

  /** A permission is asked for by name, or by asking for no particular one. */
  predicate Asked(requested: bv32, bit: bv32)
  {
    requested == 0 || requested & bit != 0
  }

  /** Which permissions a mount gets: reading if it is asked for, and each of the other four if it is
      asked for and the interface has the function; and no others. */
  predicate Fits(granted: bv32, iface: DeviceInterface, requested: bv32)
  {
    && (granted & 1 != 0 <==> Asked(requested, 1))
    && (granted & 2 != 0 <==> Asked(requested, 2) && iface.writeFile)
    && (granted & 4 != 0 <==> Asked(requested, 4) && iface.deleteFile)
    && (granted & 8 != 0 <==> Asked(requested, 8) && iface.createDir)
    && (granted & 16 != 0 <==> Asked(requested, 16) && iface.deleteDir)
    && granted <= 31
  }

  /** Nothing asked for that the interface has. */
  predicate NothingFits(iface: DeviceInterface, requested: bv32)
  {
    && !Asked(requested, 1)
    && !(Asked(requested, 2) && iface.writeFile)
    && !(Asked(requested, 4) && iface.deleteFile)
    && !(Asked(requested, 8) && iface.createDir)
    && !(Asked(requested, 16) && iface.deleteDir)
  }

  lemma GrantedFits(iface: DeviceInterface, requested: bv32)
    ensures Fits(GrantedPermissions(iface, requested), iface, requested)
    ensures GrantedPermissions(iface, requested) == 0 <==> NothingFits(iface, requested)
  {
    SupportedFits(iface);
    BitsOfMask(requested, iface.Supported());
    ZeroBits(GrantedPermissions(iface, requested));
  }

  lemma SupportedFits(iface: DeviceInterface)
    ensures Fits(iface.Supported(), iface, 0)
  {
  }

  lemma BitsOfMask(r: bv32, s: bv32)
    requires s <= 31
    ensures r & s <= 31
    ensures (r & s) & 1 != 0 <==> r & 1 != 0 && s & 1 != 0
    ensures (r & s) & 2 != 0 <==> r & 2 != 0 && s & 2 != 0
    ensures (r & s) & 4 != 0 <==> r & 4 != 0 && s & 4 != 0
    ensures (r & s) & 8 != 0 <==> r & 8 != 0 && s & 8 != 0
    ensures (r & s) & 16 != 0 <==> r & 16 != 0 && s & 16 != 0
  {
  }

  lemma ZeroBits(g: bv32)
    requires g <= 31
    ensures g == 0 <==> g & 1 == 0 && g & 2 == 0 && g & 4 == 0 && g & 8 == 0 && g & 16 == 0
  {
  }

  /** The mount a create call makes, or the error it reports. */
  function Created(t: Table, e: Event): (r: (Option<MountInfo>, ErrorCode))
    requires e.Create?
  {
    if e.deviceType >= |t.interfaces| then (None, InvalidDevice)
    else
      var iface := t.interfaces[e.deviceType];
      var granted := GrantedPermissions(iface, e.permissions);
      if granted == 0 then (None, PermissionsError)
      else if e.code == Ok && e.device.Some? then
        (Some(MountInfo(e.id, e.mountPoint, e.device.value, iface, granted)), Ok)
      else (None, e.code)
  }

  function Remove(mounts: seq<MountInfo>, id: nat): seq<MountInfo>
  {
    if mounts == [] then []
    else if mounts[0].id == id then mounts[1..]
    else [mounts[0]] + Remove(mounts[1..], id)
  }

  function Apply(t: Table, e: Event): Table
  {
    match e
    case Register(iface) =>
      if iface.HasRequired() then t.(interfaces := t.interfaces + [iface]) else t
    case Create(_, _, _, _, _, _) =>
      var made := Created(t, e).0;
      if made.Some? then t.(mounts := t.mounts + [made.value]) else t
    case Release(id) => t.(mounts := Remove(t.mounts, id))
  }

  function Replay(t: Table, history: seq<Event>): Table
    decreases |history|
  {
    if history == [] then t else Replay(Apply(t, history[0]), history[1..])
  }

  predicate Holds(mounts: seq<MountInfo>, id: nat)
  {
    exists i | 0 <= i < |mounts| :: mounts[i].id == id
  }

  /** The allocator never hands out an address that is still in use. */
  predicate Legal(t: Table, history: seq<Event>)
    decreases |history|
  {
    history == [] ||
    (&& (history[0].Create? ==> !Holds(t.mounts, history[0].id))
     && Legal(Apply(t, history[0]), history[1..]))
  }

  // ---------------------------------------------------------------- the table invariant

  predicate DistinctIds(mounts: seq<MountInfo>)
  {
    forall i, j | 0 <= i < j < |mounts| :: mounts[i].id != mounts[j].id
  }

  /** Never more rights than the interface can serve, and never none at all. */
  predicate SoundMount(m: MountInfo)
  {
    && m.iface.HasRequired()
    && m.permissions != 0
    && m.permissions & m.iface.Supported() == m.permissions
  }

  predicate Consistent(t: Table)
  {
    && (forall i | 0 <= i < |t.interfaces| :: t.interfaces[i].HasRequired())
    && (forall i | 0 <= i < |t.mounts| :: SoundMount(t.mounts[i]))
    && DistinctIds(t.mounts)
  }

  lemma {:induction false} HoldsTail(mounts: seq<MountInfo>, id: nat)
    requires mounts != []
    ensures Holds(mounts, id) <==> mounts[0].id == id || Holds(mounts[1..], id)
  {
    if i :| 0 <= i < |mounts| && mounts[i].id == id {
      assert i > 0 ==> mounts[1..][i - 1].id == id;
    }
  }

  lemma {:induction false} RemoveKeeps(mounts: seq<MountInfo>, id: nat)
    ensures forall m | m in Remove(mounts, id) :: m in mounts
    ensures !Holds(mounts, id) ==> Remove(mounts, id) == mounts
  {
    if mounts != [] {
      HoldsTail(mounts, id);
      RemoveKeeps(mounts[1..], id);
    }
  }

  lemma {:induction false} RemoveKeepsDistinct(mounts: seq<MountInfo>, id: nat)
    requires DistinctIds(mounts)
    ensures DistinctIds(Remove(mounts, id)) && !Holds(Remove(mounts, id), id)
  {
    if mounts != [] {
      var tail := mounts[1..];
      if mounts[0].id == id {
        assert forall i | 0 <= i < |tail| :: tail[i] == mounts[i + 1];
      } else {
        RemoveKeepsDistinct(tail, id);
        RemoveKeeps(tail, id);
        DistinctCons(mounts[0], Remove(tail, id));
        HoldsTail(Remove(mounts, id), id);
      }
    }
  }

  lemma DistinctCons(m: MountInfo, mounts: seq<MountInfo>)
    requires DistinctIds(mounts) && forall n | n in mounts :: n.id != m.id
    ensures DistinctIds([m] + mounts)
  {
    forall j | 0 < j <= |mounts| ensures ([m] + mounts)[j].id != m.id {
      assert mounts[j - 1] in mounts;
    }
  }

  lemma MaskedTwice(r: bv32, s: bv32)
    ensures (r & s) & s == r & s
    ensures s & s == s
  {
  }

  lemma GrantedIsSupported(iface: DeviceInterface, requested: bv32)
    ensures var g := GrantedPermissions(iface, requested); g & iface.Supported() == g
  {
    MaskedTwice(requested, iface.Supported());
  }

  lemma ApplyConsistent(t: Table, e: Event)
    requires Consistent(t)
    requires e.Create? ==> !Holds(t.mounts, e.id)
    ensures Consistent(Apply(t, e))
  {
    match e
    case Register(_) =>
    case Create(_, _, _, _, _, _) =>
      var made := Created(t, e).0;
      if made.Some? {
        CreatedIsSound(t, e);
        DistinctSnoc(t.mounts, made.value);
      }
    case Release(id) =>
      RemoveKeeps(t.mounts, id);
      RemoveKeepsDistinct(t.mounts, id);
      var r := Remove(t.mounts, id);
      assert forall i | 0 <= i < |r| :: r[i] in t.mounts;
  }

  lemma CreatedIsSound(t: Table, e: Event)
    requires Consistent(t) && e.Create? && Created(t, e).0.Some?
    ensures SoundMount(Created(t, e).0.value) && Created(t, e).0.value.id == e.id
  {
    GrantedIsSupported(t.interfaces[e.deviceType], e.permissions);
  }

  lemma DistinctSnoc(mounts: seq<MountInfo>, m: MountInfo)
    requires DistinctIds(mounts) && !Holds(mounts, m.id)
    ensures DistinctIds(mounts + [m])
  {
  }

  /** Every table a legal history can reach is consistent. */
  lemma {:induction false} ReplayConsistent(t: Table, history: seq<Event>)
    requires Consistent(t) && Legal(t, history)
    ensures Consistent(Replay(t, history))
    decreases |history|
  {
    if history != [] {
      ApplyConsistent(t, history[0]);
      ReplayConsistent(Apply(t, history[0]), history[1..]);
    }
  }

  // ---------------------------------------------------------------- release undoes create

  lemma {:induction false} ReplayConcat(t: Table, a: seq<Event>, b: seq<Event>)
    ensures Replay(t, a + b) == Replay(Replay(t, a), b)
    ensures Legal(t, a + b) <==> Legal(t, a) && Legal(Replay(t, a), b)
    decreases |a|
  {
    if a == [] {
      assert a + b == b;
    } else {
      assert (a + b)[1..] == a[1..] + b;
      ReplayConcat(Apply(t, a[0]), a[1..], b);
    }
  }

  lemma {:induction false} RemoveAppended(mounts: seq<MountInfo>, m: MountInfo, id: nat)
    ensures !Holds(mounts, id) ==>
              Remove(mounts + [m], id) == if m.id == id then mounts else mounts + [m]
    ensures Holds(mounts, id) ==> Remove(mounts + [m], id) == Remove(mounts, id) + [m]
  {
    if mounts == [] {
      assert mounts + [m] == [m];
    } else {
      var tail := mounts[1..];
      assert (mounts + [m])[1..] == tail + [m];
      RemoveAppended(tail, m, id);
      HoldsTail(mounts, id);
      if mounts[0].id != id {
        assert [mounts[0]] + (tail + [m]) == mounts + [m];
        assert [mounts[0]] + (Remove(tail, id) + [m]) == [mounts[0]] + Remove(tail, id) + [m];
      }
    }
  }

  lemma {:induction false} RemovesCommute(mounts: seq<MountInfo>, a: nat, b: nat)
    ensures Remove(Remove(mounts, a), b) == Remove(Remove(mounts, b), a)
  {
    if mounts != [] && a != b {
      RemovesCommute(mounts[1..], a, b);
    }
  }

  /** `t` is `u` with one mount more, the one named `id`. */
  ghost predicate ExtraMount(t: Table, u: Table, id: nat)
  {
    && u.interfaces == t.interfaces
    && Holds(t.mounts, id)
    && Remove(t.mounts, id) == u.mounts
  }

  lemma ExtraMountStep(t: Table, u: Table, id: nat, e: Event)
    requires ExtraMount(t, u, id)
    requires e != Release(id)
    ensures ExtraMount(Apply(t, e), Apply(u, e), id)
  {
    match e {
      case Register(_) =>
      case Create(_, _, _, _, _, _) =>
        assert Created(t, e) == Created(u, e);
        var made := Created(t, e).0;
        if made.Some? {
          RemoveAppended(t.mounts, made.value, id);
          StillHolds(t.mounts, made.value, id);
        }
      case Release(other) =>
        RemovesCommute(t.mounts, id, other);
        OtherStays(t.mounts, id, other);
    }
  }

  /** The same history with one mount more: removing that mount gives the table without it. */
  lemma {:induction false} ExtraMountIsInert(t: Table, u: Table, id: nat, history: seq<Event>)
    requires ExtraMount(t, u, id)
    requires forall i | 0 <= i < |history| :: history[i] != Release(id)
    ensures ExtraMount(Replay(t, history), Replay(u, history), id)
    decreases |history|
  {
    if history != [] {
      ExtraMountStep(t, u, id, history[0]);
      ExtraMountIsInert(Apply(t, history[0]), Apply(u, history[0]), id, history[1..]);
    }
  }

  lemma StillHolds(mounts: seq<MountInfo>, m: MountInfo, id: nat)
    requires Holds(mounts, id)
    ensures Holds(mounts + [m], id)
  {
    var i :| 0 <= i < |mounts| && mounts[i].id == id;
    assert (mounts + [m])[i].id == id;
  }

  lemma {:induction false} OtherStays(mounts: seq<MountInfo>, id: nat, other: nat)
    requires id != other && Holds(mounts, id)
    ensures Holds(Remove(mounts, other), id)
  {
    HoldsTail(mounts, id);
    if mounts[0].id != other {
      var r := Remove(mounts, other);
      HoldsTail(r, id);
      assert r[1..] == Remove(mounts[1..], other);
      if mounts[0].id != id {
        OtherStays(mounts[1..], id, other);
      }
    }
  }

  /** From any table: creating a mount (successfully, at an address not in use), doing
      anything else, and releasing it leaves the table - and with it every later resolution -
      as if the mount had never existed. */
  lemma ReleaseUndoesCreate(t: Table, create: Event, between: seq<Event>, after: seq<Event>)
    requires create.Create? && Created(t, create).0.Some?
    requires !Holds(t.mounts, create.id)
    requires forall i | 0 <= i < |between| :: between[i] != Release(create.id)
    ensures Replay(t, [create] + between + [Release(create.id)] + after)
            == Replay(t, between + after)
  {
    var id := create.id;
    ReplayConcat(t, [create] + between + [Release(id)], after);
    ReplayConcat(t, [create] + between, [Release(id)]);
    ReplayConcat(t, [create], between);
    ReplayConcat(t, between, after);
    var t1 := Apply(t, create);
    assert Replay(t, [create]) == Replay(t1, []);
    var t2 := Replay(t1, between);
    assert Replay(t2, [Release(id)]) == Replay(Apply(t2, Release(id)), []);
    ReleasedTable(t, Created(t, create).0.value, between);
  }

  lemma ReleasedTable(t: Table, m: MountInfo, between: seq<Event>)
    requires !Holds(t.mounts, m.id)
    requires forall i | 0 <= i < |between| :: between[i] != Release(m.id)
    ensures var t' := Replay(t.(mounts := t.mounts + [m]), between);
            t'.(mounts := Remove(t'.mounts, m.id)) == Replay(t, between)
  {
    var t1 := t.(mounts := t.mounts + [m]);
    RemoveAppended(t.mounts, m, m.id);
    assert t1.mounts[|t.mounts|].id == m.id;
    ExtraMountIsInert(t1, t, m.id, between);
  }
}
