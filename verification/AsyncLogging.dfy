/** Asynchronous logging as the source keeps it.  A `unique_ptr` has no second owner, so a pointer and its
    buffer are one value here; each method is one atomic step. */
module AsyncLog {
  import Spec = LoggingSpec

  /** `FixedBuffer<FIXED_BUFFER_SIZE_BIG>`. */
  class FixedBuffer {
    const data: array<char>
    var cur: nat
    ghost var contents: string

    ghost predicate Valid()
      reads this, data
    {
      data.Length == Spec.SIZE && cur <= data.Length && contents == data[..cur]
    }

    constructor ()
      ensures Valid() && contents == "" && fresh(data)
    {
      data := new char[Spec.SIZE];
      cur := 0;
      contents := "";
    }

    method Append(msg: string)
      requires Valid()
      modifies this, data
      ensures Valid() && contents == Spec.BufferAppend(old(contents), msg)
    {
      if data.Length - cur > |msg| {
        for i := 0 to |msg|
          invariant cur == old(cur) && contents == old(contents)
          invariant data[..cur] == contents && data[cur..cur + i] == msg[..i]
        {
          data[cur + i] := msg[i];
        }
        assert data[..cur + |msg|] == data[..cur] + data[cur..cur + |msg|];
        cur := cur + |msg|;
        contents := contents + msg;
      }
    }

    method Reset()
      requires Valid()
      modifies this
      ensures Valid() && contents == ""
    {
      cur := 0;
      contents := "";
    }
  }

  class AsyncLogging {
    var running: bool
    var currentBuffer: Spec.Ptr
    var nextBuffer: Spec.Ptr
    var buffers: seq<string>
    // the consumer thread's own
    var swapCurrentBuffer: Spec.Ptr
    var swapNextBuffer: Spec.Ptr
    var buffersToWrite: seq<string>
    var pc: Spec.Pc
    // the file, and everything ever appended
    var output: string
    ghost var appended: string

    ghost function View(): Spec.State
      reads this
    {
      Spec.State(running, currentBuffer, nextBuffer, buffers, swapCurrentBuffer, swapNextBuffer, buffersToWrite, pc,
                 output, appended)
    }

    ghost predicate Valid()
      reads this
    {
      Spec.Rotation(View())
    }

    constructor ()
      ensures Valid() && View() == Spec.START
    {
      running := true;
      currentBuffer, nextBuffer, buffers := Spec.Buf(""), Spec.Buf(""), [];
      swapCurrentBuffer, swapNextBuffer, buffersToWrite := Spec.Buf(""), Spec.Buf(""), [];
      pc := Spec.Head;
      output, appended := "", "";
    }

    /** A producer's `append`, in one critical section. */
    method Append(msg: string)
      requires Valid()
      modifies this
      ensures Valid() && View() == Spec.Append(old(View()), msg)
    {
      Spec.AppendKeepsMessage(View(), msg);
      appended := appended + msg;
      if Spec.SIZE - |currentBuffer.content| > |msg| {
        currentBuffer := Spec.Buf(Spec.BufferAppend(currentBuffer.content, msg));
      } else {
        buffers := buffers + [currentBuffer.content];
        currentBuffer := Spec.Null;
        if nextBuffer.Buf? {
          currentBuffer, nextBuffer := nextBuffer, Spec.Null;
        } else {
          currentBuffer := Spec.Buf("");
        }
        currentBuffer := Spec.Buf(Spec.BufferAppend(currentBuffer.content, msg));
      }
    }

    method Stop()
      requires Valid()
      modifies this`running
      ensures Valid() && View() == Spec.Stop(old(View()))
    {
      running := false;
    }

    /** The next step of `threadFunc`. */
    method ConsumerStep()
      requires Valid() && !pc.Done?
      modifies this
      ensures Valid() && View() == Spec.ConsumerStep(old(View()))
    {
      Spec.ConsumerStepKeeps(View());
      match pc
      case Head =>
        pc := if running then Spec.Locking else Spec.Done;
      case Locking =>
        if buffers == [] {
          pc := Spec.Waiting;
        } else {
          buffersToWrite, buffers := buffers, buffersToWrite;
          nextBuffer, swapNextBuffer := swapNextBuffer, Spec.Null;
          pc := Spec.Writing(0);
        }
      case Waiting =>
        SwapAfterWait();
      case Writing(i) =>
        if i < |buffersToWrite| {
          output := output + buffersToWrite[i];
          pc := Spec.Writing(i + 1);
        } else {
          RecoverBuffers();
        }
    }

    method SwapAfterWait()
      requires Valid() && pc.Waiting?
      modifies this
      ensures View() == Spec.Wake(old(View()))
    {
      buffers := buffers + [currentBuffer.content];
      currentBuffer := Spec.Null;
      buffersToWrite, buffers := buffers, buffersToWrite;
      currentBuffer, swapCurrentBuffer := swapCurrentBuffer, Spec.Null;
      if nextBuffer.Null? {
        nextBuffer, swapNextBuffer := swapNextBuffer, Spec.Null;
      }
      pc := Spec.Writing(0);
    }

    /** Puts written buffers in the places of the spent ones.  The two assertions are the source's. */
    method RecoverBuffers()
      requires Valid() && pc == Spec.Writing(|buffersToWrite|)
      modifies this
      ensures View() == Spec.Recover(old(View()))
    {
      if |buffersToWrite| > 2 {
        buffersToWrite := buffersToWrite[..2];
      }
      if swapCurrentBuffer.Null? {
        assert buffersToWrite != [];
        swapCurrentBuffer := Spec.Buf(buffersToWrite[|buffersToWrite| - 1]);
        buffersToWrite := buffersToWrite[..|buffersToWrite| - 1];
        swapCurrentBuffer := Spec.Buf("");  // reset
      }
      if swapNextBuffer.Null? {
        assert buffersToWrite != [];
        swapNextBuffer := Spec.Buf(buffersToWrite[|buffersToWrite| - 1]);
        buffersToWrite := buffersToWrite[..|buffersToWrite| - 1];
        swapNextBuffer := Spec.Buf("");  // reset
      }
      buffersToWrite := [];
      pc := Spec.Head;
    }
  }
}
