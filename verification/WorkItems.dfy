/** The work item: the request, and the answer the processing loop writes back into it. */
module WorkItems {
  import opened Wrappers
  import opened MountTable

  /** What a work item asks for. `bytes` is the limit of a read, or the size of what is written. */
  datatype Request = Request(operation: Operation, filename: string, offset: nat, bytes: nat,
                             buffer: Option<seq<bv8>>, nullTerminate: bool)

  class WorkItem {
    var operation: Operation
    var filename: string
    var buffer: Option<seq<bv8>>
    var bufferBytes: nat
    var offset: nat
    var nullTerminate: bool
    var resultCode: ErrorCode

    constructor (operation: Operation, filename: string)
      ensures this.operation == operation && this.filename == filename
      ensures buffer == None && bufferBytes == 0 && offset == 0
      ensures !nullTerminate && resultCode == Ok
    {
      this.operation := operation;
      this.filename := filename;
      buffer, bufferBytes, offset := None, 0, 0;
      nullTerminate, resultCode := false, Ok;
    }

    function Asked(): Request
      reads this
    {
      Request(operation, filename, offset, bufferBytes, buffer, nullTerminate)
    }
  }
}
