/** The queue of src/atomic/one-to-one-queue.h as its three functions leave it in memory.
    `Contents` is the abstract FIFO; QueueSteps shows what happens when calls overlap. */
module AtomicQueue {
  import opened Basics
  import opened CyclicRegion

  /** `sizeof(atomic_queue_t)`: three `size_t` fields. */
  const HEADER_SIZE := 3 * WORD_BYTES

  class Queue {
    var readOffset: nat
    var writeOffset: nat
    const memory: array<byte>

    ghost predicate Valid()
      reads this
    {
      && memory.Length <= WORD / 2
      && if memory.Length == 0 then readOffset == writeOffset == 0
         else readOffset < memory.Length && writeOffset < memory.Length
    }

    /** The published bytes, oldest first. */
    ghost function Contents(): (s: seq<byte>)
      requires Valid()
      reads this, memory
    {
      if memory.Length == 0 then [] else
      Bytes(memory[..], readOffset, Used(readOffset, writeOffset, memory.Length))
    }

    constructor (size: nat)
      requires size <= WORD / 2
      ensures Valid() && Contents() == [] && memory.Length == size && fresh(memory)
    {
      readOffset, writeOffset := 0, 0;
      memory := new byte[size];
    }

    /** A buffer is an object in memory, so it spans at most half of the address range.
        Only the header size is subtracted: the bytes that follow keep whatever they held. */
    static method Init(bufferSize: nat) returns (queue: Queue?)
      requires bufferSize <= WORD / 2
      ensures queue == null <==> bufferSize < 3 * WORD_BYTES
      ensures queue != null ==>
                fresh(queue) && queue.Valid() && queue.Contents() == [] &&
                queue.memory.Length == bufferSize - 3 * WORD_BYTES
    {
      if bufferSize < HEADER_SIZE {
        return null;
      }
      queue := new Queue(bufferSize - HEADER_SIZE);
    }

    /** All or nothing: the call succeeds exactly when the bytes fit beside the current
        contents with one slot to spare, and then appends them. */
    method TryEnqueue(data: array<byte>, size: nat) returns (status: int)
      requires Valid() && data != memory && size <= data.Length
      modifies this`writeOffset, memory
      ensures Valid() && status in {0, -1}
      ensures status == 0 <==> size == 0 || |old(Contents())| + size < memory.Length
      ensures Contents() == if status == 0 then old(Contents()) + data[..size] else old(Contents())
      ensures status == -1 || size == 0 ==> memory[..] == old(memory[..]) && writeOffset == old(writeOffset)
    {
      hide FreeSpace, Bytes, Used;
      if size > memory.Length {
        return -1;
      }
      if size == 0 {
        return 0;
      }
      var wOff, rOff := writeOffset, readOffset;
      var freeSpace := FreeSpace(rOff, wOff, memory.Length);
      FormulasAreExact(rOff, wOff, memory.Length);
      if size > freeSpace {
        return -1;
      }
      var rightFree := memory.Length - wOff;
      var from, left := 0, size;
      if left >= rightFree {
        Memcpy(memory, wOff, data, 0, rightFree);
        wOff, from, left := 0, rightFree, left - rightFree;
      }
      Memcpy(memory, wOff, data, from, left);
      wOff := wOff + left;
      assert wOff == At(writeOffset, size, memory.Length);
      AppendBytes(old(memory[..]), memory[..], readOffset, writeOffset, data[..size]);
      writeOffset := wOff;
      return 0;
    }

    /** All or nothing: the call succeeds exactly when `size` bytes are there, copies the
        oldest ones out in order and drops them from the queue. */
    method TryDequeue(data: array<byte>, size: nat) returns (status: int)
      requires Valid() && data != memory && size <= data.Length
      modifies this`readOffset, data
      ensures Valid() && status in {0, -1}
      ensures status == 0 <==> size <= |old(Contents())|
      ensures status == 0 ==> data[..size] + Contents() == old(Contents()) && data[size..] == old(data[size..])
      ensures status == -1 ==> data[..] == old(data[..]) && readOffset == old(readOffset)
    {
      hide AvailableData;
      if size > memory.Length {
        return -1;
      }
      if size == 0 {
        return 0;
      }
      var wOff, rOff := writeOffset, readOffset;
      var available := AvailableData(rOff, wOff, memory.Length);
      FormulasAreExact(rOff, wOff, memory.Length);
      if size > available {
        return -1;
      }
      var rightFree := memory.Length - rOff;
      var to, left := 0, size;
      if left >= rightFree {
        Memcpy(data, 0, memory, rOff, rightFree);
        rOff, to, left := 0, rightFree, left - rightFree;
      }
      Memcpy(data, to, memory, rOff, left);
      rOff := rOff + left;
      assert rOff == At(readOffset, size, memory.Length);
      assert data[..size] == Bytes(memory[..], readOffset, size);
      DropBytes(memory[..], readOffset, writeOffset, size);
      readOffset := rOff;
      return 0;
    }
  }
}
