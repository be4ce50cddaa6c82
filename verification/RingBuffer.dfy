/** `util::RingBuffer`: a circular buffer that refines a bounded FIFO queue. */
module RingBuffers {
  import opened Wrappers

  // ---------------------------------------------------------------- the queue it refines

  datatype PushOutcome<T> = QueueFull | Pushed(queue: seq<T>, notify: bool)

  /** One pass through the locked block of `push`. The consumer is to be woken exactly when the
      queue was empty. */
  function PushEffect<T>(queue: seq<T>, capacity: nat, v: T): PushOutcome<T>
  {
    if |queue| >= capacity then QueueFull else Pushed(queue + [v], |queue| == 0)
  }

  datatype PopOutcome<T> = QueueEmpty | Popped(queue: seq<T>, item: T)

  function PopEffect<T>(queue: seq<T>): PopOutcome<T>
  {
    if |queue| == 0 then QueueEmpty else Popped(queue[1..], queue[0])
  }

  // ---------------------------------------------------------------- the buffer

  /** The items a pair of positions and the full flag stand for, oldest first. */
  function Items<T>(data: seq<T>, readPos: nat, writePos: nat, full: bool): seq<T>
    requires readPos < |data| && writePos < |data|
  {
    if readPos < writePos || (readPos == writePos && !full) then data[readPos..writePos]
    else data[readPos..] + data[..writePos]
  }

  /** The positions and the flag are a unique code of the count. */
  lemma ItemsCount<T>(data: seq<T>, readPos: nat, writePos: nat, full: bool)
    requires readPos < |data| && writePos < |data|
    requires full ==> readPos == writePos
    ensures var n := |Items(data, readPos, writePos, full)|;
            && n <= |data|
            && writePos == (readPos + n) % |data|
            && (full <==> n == |data|)
  {
    var n := |Items(data, readPos, writePos, full)|;
    if readPos + n >= |data| {
      assert (readPos + n) % |data| == readPos + n - |data|;
    }
  }

  class RingBuffer<T(0)> {
    const capacity: nat
    const buffer: array<T>
    var readPos: nat
    var writePos: nat
    var full: bool

    ghost predicate Valid()
      reads this
    {
      && capacity == buffer.Length && capacity >= 1
      && readPos < capacity && writePos < capacity
      && (full ==> readPos == writePos)
    }

    ghost function Contents(): seq<T>
      requires Valid()
      reads this, buffer
    {
      Items(buffer[..], readPos, writePos, full)
    }

    constructor (capacity: nat)
      requires capacity >= 1
      ensures Valid() && fresh(buffer) && this.capacity == capacity
      ensures Contents() == []
    {
      this.capacity := capacity;
      buffer := new T[capacity];
      readPos, writePos := 0, 0;
      full := false;
    }

    /** One pass through the locked block of `push`; the source repeats it until `done`, and
        then signals the semaphore if `notify`. */
    method TryPush(v: T) returns (done: bool, notify: bool)
      requires Valid()
      modifies this`writePos, this`full, buffer
      ensures Valid()
      ensures match PushEffect(old(Contents()), capacity, v)
              case QueueFull => !done && !notify && Contents() == old(Contents())
              case Pushed(queue, wasEmpty) => done && notify == wasEmpty && Contents() == queue
      ensures done <==> |old(Contents())| < capacity
      ensures Contents() == if done then old(Contents()) + [v] else old(Contents())
      ensures notify <==> done && old(Contents()) == []
    {
      done, notify := false, false;
      ItemsCount(buffer[..], readPos, writePos, full);
      if !full {
        notify := writePos == readPos;
        buffer[writePos] := v;
        writePos := writePos + 1;
        if writePos == capacity {
          writePos := 0;
        }
        if writePos == readPos {
          full := true;
        }
        done := true;
      }
    }

    /** `pop`: never blocks. */
    method Pop() returns (item: Option<T>)
      requires Valid()
      modifies this`readPos, this`full
      ensures Valid()
      ensures match PopEffect(old(Contents()))
              case QueueEmpty => item == None && Contents() == old(Contents())
              case Popped(queue, oldest) => item == Some(oldest) && Contents() == queue
      ensures item.None? <==> old(Contents()) == []
      ensures item.Some? ==> old(Contents()) == [item.value] + Contents()
    {
      if full || readPos != writePos {
        var oldReadPos := readPos;
        readPos := readPos + 1;
        full := false;
        if readPos == capacity {
          readPos := 0;
        }
        item := Some(buffer[oldReadPos]);
      } else {
        item := None;
      }
    }

    method GetCount() returns (count: nat)
      requires Valid()
      ensures count == |Contents()|
    {
      if full {
        count := capacity;
      } else if readPos <= writePos {
        count := writePos - readPos;
      } else {
        count := capacity - readPos + writePos;
      }
    }
  }
}
