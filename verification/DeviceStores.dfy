/** Devices with a state: what they answer, and what a mutating call does to them. */
module DeviceStores {
  import opened Wrappers
  import opened MountTable
  import opened Overlay
  import opened WorkItems
  import opened FileContexts

  // ---------------------------------------------------------------- any devices

  /** Devices whose answers depend on a state of type D that only mutating calls change. */
  datatype Store<!D> = Store(answers: D -> Devices, after: (D, Call, Request) -> D)

  /** What processing one work item does to the devices: at most one mutating call, the one that
      ProcessItem reports. */
  function Performed<D>(mounts: seq<MountInfo>, store: Store<D>, d: D, r: Request): D
  {
    match CallOf(mounts, r)
    case None => d
    case Some(call) => store.after(d, call, r)
  }

  // ---------------------------------------------------------------- a map of files

  type Files = map<(nat, string), seq<bv8>>

  /** The largest 64-bit count: the limit `readFile` passes for "the whole file". */
  const WHOLE_FILE: nat := 0xFFFF_FFFF_FFFF_FFFF

  function WithTerminator(content: seq<bv8>, nullTerminate: bool): seq<bv8>
  {
    if nullTerminate then content + [0] else content
  }

  function Min(a: nat, b: nat): nat
  {
    if a < b then a else b
  }

  function ReadBytes(content: seq<bv8>, offset: nat, maxBytes: nat): seq<bv8>
  {
    var from := Min(offset, |content|);
    content[from..from + Min(|content| - from, maxBytes)]
  }

  /** The whole content after a write. */
  function Rewritten(content: seq<bv8>, offset: nat, data: seq<bv8>, mode: WriteMode): seq<bv8>
  {
    match mode
    case Truncate => data
    case Append => content + data
    case Segment =>
      var padded := if |content| < offset then content + seq(offset - |content|, _ => 0 as bv8) else content;
      padded[..offset] + data + padded[Min(offset + |data|, |padded|)..]
  }

  function ContentOf(files: Files, device: nat, path: string): seq<bv8>
  {
    if (device, path) in files then files[(device, path)] else []
  }

  function Write(files: Files, device: nat, path: string, offset: nat, data: seq<bv8>, mode: WriteMode): Files
  {
    files[(device, path) := Rewritten(ContentOf(files, device, path), offset, data, mode)]
  }

  /** Devices that answer from a map of file contents. */
  function FileMapDevices(files: Files): Devices
  {
    Devices(
      (d: nat, p: string) => (d, p) in files,
      (d: nat, p: string) =>
        if (d, p) in files then Answer(Ok, |files[(d, p)]|, None) else Answer(NotFound, 0, None),
      (d: nat, p: string, offset: nat, maxBytes: nat, nt: bool) =>
        if (d, p) in files then
          var content := ReadBytes(files[(d, p)], offset, maxBytes);
          Answer(Ok, |content|, Some(WithTerminator(content, nt)))
        else Answer(NotFound, 0, None),
      (d: nat, p: string, offset: nat, data: Option<seq<bv8>>, bytes: nat, mode: WriteMode) => Answer(Ok, bytes, None),
      (d: nat, p: string) => if (d, p) in files then Ok else NotFound,
      (d: nat, p: string) => Unsupported,
      (d: nat, p: string) => Unsupported)
  }

  /** The bytes a write item holds. */
  function Data(r: Request): seq<bv8>
  {
    match r.buffer
    case None => []
    case Some(b) => b[..Min(r.bytes, |b|)]
  }

  function FilesAfter(files: Files, call: Call, r: Request): Files
  {
    var device := call.mount.device;
    match call.op
    case OpWrite | OpAppend | OpWriteSegment =>
      Write(files, device, call.devicePath, r.offset, Data(r), ModeOf(call.op))
    case OpDelete => files - {(device, call.devicePath)}
    case _ => files
  }

  const FILE_MAP: Store<Files> := Store(FileMapDevices, FilesAfter)
}
