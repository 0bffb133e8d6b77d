/** The output side of a connection as the source keeps it: a byte buffer, a list of half-sent files, and
    counters shared with the other connections of the event loop. */
module Connections {
  import opened Buffers
  import Spec = ConnectionSpec

  /** The loop's workload: open connections, and file bytes still to be sent. */
  class EventLoop {
    var connections: int
    var leftBytes: int

    constructor ()
      ensures connections == 0 && leftBytes == 0
    {
      connections, leftBytes := 0, 0;
    }
  }

  datatype TCPState = Invalid | Connected | Disconnected | Closing

  class TCPConnection {
    const loop: EventLoop
    const outBuffer: Buffer
    var state: TCPState
    var writing: bool  // the channel's interest in the socket becoming writable
    var fileList: seq<Spec.FileInfo>
    // what the socket has accepted, and what it was to be given
    ghost var sentMessages: string
    ghost var sentFiles: seq<Spec.FileByte>
    ghost var messages: string
    ghost var files: seq<(int, nat)>

    ghost predicate Valid()
      reads this, outBuffer
    {
      outBuffer.Valid() && Spec.FilesOk(fileList)
    }

    ghost function View(): Spec.Conn
      requires outBuffer.Valid()
      reads this, outBuffer, outBuffer.data
    {
      Spec.Conn(state != Disconnected, writing, outBuffer.Contents(), fileList, sentMessages, sentFiles, messages,
                files)
    }

    constructor (loop: EventLoop)
      ensures Valid() && View() == Spec.NEW_CONN && this.loop == loop && fresh(outBuffer) && fresh(outBuffer.data)
    {
      this.loop := loop;
      outBuffer := new Buffer(1024, 8);
      state := Invalid;
      writing := false;
      fileList := [];
      sentMessages, sentFiles, messages, files := "", [], "", [];
    }

    method HandleClose()
      requires Valid()
      modifies this`state, loop
      ensures Valid() && View() == Spec.Close(old(View()))
      ensures loop.leftBytes == old(loop.leftBytes) - old(Spec.Pending(View()))
      ensures loop.connections == old(loop.connections) - (if old(state) == Disconnected then 0 else 1)
    {
      if state == Disconnected {
        return;
      }
      state := Disconnected;
      loop.connections := loop.connections - 1;
      assert fileList[0..] == fileList;
      for i := 0 to |fileList|
        invariant loop.leftBytes + Spec.OwedBytes(fileList) == old(loop.leftBytes) + Spec.OwedBytes(fileList[i..])
        invariant loop.connections == old(loop.connections) - 1 && state == Disconnected
      {
        loop.leftBytes := loop.leftBytes - (fileList[i].size - fileList[i].sent);
        assert fileList[i..][1..] == fileList[i + 1..];
      }
      assert fileList[|fileList|..] == [];
    }

    method Send(msg: string, write: Spec.Kernel)
      requires Valid() && Spec.KernelFits(write, |msg|)
      modifies this, loop, outBuffer, outBuffer.data
      ensures Valid() && (outBuffer.data == old(outBuffer.data) || fresh(outBuffer.data))
      ensures View() == Spec.Send(old(View()), msg, write)
      ensures loop.leftBytes == old(loop.leftBytes) + old(Spec.LedgerChange(View(), Spec.SendOp(msg, write)))
    {
      messages := messages + msg;
      var sent, left := 0, |msg|;
      var readable := outBuffer.ReadableBytes();
      if !writing && readable == 0 {
        match write
        case Took(n) =>
          sent := n;
          left := left - n;
          sentMessages := sentMessages + msg[..n];
        case Again =>
        case _ =>
          HandleClose();
          return;
      }
      if left > 0 {
        outBuffer.Append(msg[sent..]);
        assert msg[0..] == msg;
        if !writing {
          writing := true;
        }
      }
    }

    method WriteNonBlocking(write: Spec.Kernel) returns (flag: int)
      requires Valid() && state != Disconnected && Spec.KernelFits(write, |outBuffer.Contents()|)
      modifies this, loop, outBuffer
      ensures Valid() && outBuffer.data == old(outBuffer.data)
      ensures View() == Spec.WriteBuffer(old(View()), write)
      ensures loop.leftBytes == old(loop.leftBytes) - (if write.Broken? then old(Spec.OwedBytes(fileList)) else 0)
      ensures flag == if write.Broken? then -1 else if write.Took? then 1 else 0
    {
      match write
      case Took(n) =>
        sentMessages := sentMessages + outBuffer.Contents()[..n];
        outBuffer.Retrieve(n);
        return 1;
      case Broken =>
        HandleClose();
        return -1;
      case _ =>
        return 0;
    }

    /** The write callback; `sends` are the kernel's answers to `sendfile`, up to the end of the loop. */
    method WriteCallback(write: Spec.Kernel, sends: seq<Spec.Kernel>)
      requires Valid() && Spec.CallbackEnds(View(), write, sends)
      modifies this, loop, outBuffer
      ensures Valid() && outBuffer.data == old(outBuffer.data)
      ensures View() == Spec.WriteCallback(old(View()), write, sends)
      ensures loop.leftBytes == old(loop.leftBytes) + old(Spec.LedgerChange(View(), Spec.WritableOp(write, sends)))
    {
      if state == Disconnected {
        return;
      }
      var flag := WriteNonBlocking(write);
      var finished := WriteFiles(sends);
      if !finished {
        return;
      }
      var readable := outBuffer.ReadableBytes();
      if readable == 0 && fileList == [] {
        writing := false;
      }
    }

    /** The loop of the write callback; it does not finish if a `sendfile` fails. */
    method WriteFiles(sends: seq<Spec.Kernel>) returns (finished: bool)
      requires Valid() && Spec.Ends(View(), sends)
      modifies this`state, this`fileList, this`sentFiles, loop
      ensures Valid() && View() == Spec.WriteFiles(old(View()), sends)
      ensures loop.leftBytes == old(loop.leftBytes) + old(Spec.FilesLedger(View(), sends))
      ensures !finished ==> state == Disconnected && fileList != []
      ensures finished && state == Disconnected ==> fileList == []
    {
      var calls := 0;
      ghost var start, startLeft := View(), loop.leftBytes;
      assert sends[0..] == sends;
      while fileList != []
        invariant Valid() && calls <= |sends| && Spec.Ends(View(), sends[calls..])
        invariant state == Disconnected ==> View() == start
        invariant Spec.WriteFiles(View(), sends[calls..]) == Spec.WriteFiles(start, sends)
        invariant loop.leftBytes + Spec.FilesLedger(View(), sends[calls..]) ==
                  startLeft + Spec.FilesLedger(start, sends)
        decreases |sends| - calls
      {
        // on the closed descriptors of a closed connection sendfile fails
        var closed := state == Disconnected;
        var result := if closed then Spec.Broken else sends[calls];
        match result
        case Again =>
          break;
        case Took(n) =>
          assert sends[calls..][1..] == sends[calls + 1..];
          calls := calls + 1;
          SendFront(n);
        case _ =>
          HandleClose();
          return false;
      }
      return true;
    }

    /** One successful `sendfile` on the file at the front of the list. */
    method SendFront(n: nat)
      requires Valid() && fileList != []
      modifies this`fileList, this`sentFiles, loop`leftBytes
      ensures Valid() && View() == Spec.SendFront(old(View()), n)
      ensures loop.leftBytes == old(loop.leftBytes) - Spec.Moved(old(fileList)[0], n)
    {
      var f := fileList[0];
      var sentOnce := Spec.Moved(f, n);
      var sent := f.sent + sentOnce;
      sentFiles := sentFiles + Spec.Span(f.fd, f.sent, sent);
      fileList := fileList[0 := Spec.FileInfo(f.fd, f.size, sent)];
      if sent >= f.size {
        fileList := fileList[1..];
      }
      loop.leftBytes := loop.leftBytes - sentOnce;
    }

    method SendFile(fd: int, size: nat, send: Spec.Kernel)
      requires Valid() && Spec.KernelFits(send, size)
      modifies this, loop
      ensures Valid() && View() == Spec.SendFile(old(View()), fd, size, send)
      ensures loop.leftBytes == old(loop.leftBytes) + old(Spec.LedgerChange(View(), Spec.SendFileOp(fd, size, send)))
    {
      files := files + [(fd, size)];
      var sentTotal := 0;
      if !writing && fileList == [] {
        match send
        case Took(n) =>
          sentTotal := n;
          sentFiles := sentFiles + Spec.Span(fd, 0, n);
        case Again =>
        case _ =>
          HandleClose();
          return;
      }
      QueueFile(fd, size, sentTotal);
    }

    /** The rest of a file goes into the list, and into the ledger. */
    method QueueFile(fd: int, size: nat, sent: nat)
      requires Valid() && sent <= size
      modifies this`fileList, this`writing, loop`leftBytes
      ensures Valid() && View() == Spec.EnqueueFile(old(View()), fd, size, sent)
      ensures loop.leftBytes == old(loop.leftBytes) + (size - sent)
    {
      if sent < size {
        fileList := fileList + [Spec.FileInfo(fd, size, sent)];
        writing := true;
      }
      loop.leftBytes := loop.leftBytes + (size - sent);
    }
  }
}
