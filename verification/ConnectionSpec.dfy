/** The output side of a connection as a value: what each operation does to it, and what every run keeps. */
module ConnectionSpec {
  /** What a call into the kernel reports: bytes taken, nothing for now, interrupted, or an error. */
  datatype Kernel = Took(n: nat) | Again | Interrupted | Broken

  /** A file waiting in the queue: its descriptor, its size, and how much of it has gone. */
  datatype FileInfo = FileInfo(fd: int, size: nat, sent: nat)

  /** A byte of a file: the descriptor and the offset. */
  datatype FileByte = FileByte(fd: int, offset: nat)

  /** `writing` is the interest in the socket becoming writable, `waiting` the content of the output
      buffer.  `messages` and `files` record what was to be sent, `sentMessages` and `sentFiles` what the
      socket has accepted of either. */
  datatype Conn = Conn(open: bool, writing: bool, waiting: string, queue: seq<FileInfo>,
                       sentMessages: string, sentFiles: seq<FileByte>, messages: string, files: seq<(int, nat)>)

  const NEW_CONN := Conn(true, false, "", [], "", [], "", [])

  // ---------------------------------------------------------------- bytes of files

  /** The bytes of a file from one offset up to another. */
  function Span(fd: int, lo: nat, hi: nat): (r: seq<FileByte>)
    requires lo <= hi
    ensures |r| == hi - lo
  {
    seq(hi - lo, i requires 0 <= i < hi - lo => FileByte(fd, lo + i))
  }

  /** A queued file is never finished. */
  predicate FilesOk(queue: seq<FileInfo>) {
    forall i :: 0 <= i < |queue| ==> queue[i].sent < queue[i].size
  }

  /** Every byte the queued files still owe, in order. */
  function Owed(queue: seq<FileInfo>): seq<FileByte>
    requires FilesOk(queue)
  {
    if queue == [] then [] else Span(queue[0].fd, queue[0].sent, queue[0].size) + Owed(queue[1..])
  }

  function OwedBytes(queue: seq<FileInfo>): int {
    if queue == [] then 0 else queue[0].size - queue[0].sent + OwedBytes(queue[1..])
  }

  /** The bytes of whole files, in order. */
  function Stream(files: seq<(int, nat)>): seq<FileByte> {
    if files == [] then [] else Stream(files[..|files| - 1]) + Span(files[|files| - 1].0, 0, files[|files| - 1].1)
  }

  lemma {:induction false} OwedAppend(queue: seq<FileInfo>, f: FileInfo)
    requires FilesOk(queue) && f.sent < f.size
    ensures FilesOk(queue + [f])
    ensures Owed(queue + [f]) == Owed(queue) + Span(f.fd, f.sent, f.size)
    ensures OwedBytes(queue + [f]) == OwedBytes(queue) + f.size - f.sent
  {
    if queue == [] {
      assert (queue + [f])[1..] == [];
    } else {
      OwedAppend(queue[1..], f);
      assert (queue + [f])[1..] == queue[1..] + [f];
    }
  }

  lemma {:induction false} OwedLength(queue: seq<FileInfo>)
    requires FilesOk(queue)
    ensures |Owed(queue)| == OwedBytes(queue)
  {
    if queue != [] {
      OwedLength(queue[1..]);
    }
  }

  lemma SpanSplit(fd: int, lo: nat, mid: nat, hi: nat)
    requires lo <= mid <= hi
    ensures Span(fd, lo, hi) == Span(fd, lo, mid) + Span(fd, mid, hi)
  {
  }

  // ---------------------------------------------------------------- the operations

  function Close(c: Conn): Conn {
    c.(open := false)
  }

  predicate KernelFits(k: Kernel, most: nat) {
    k.Took? ==> k.n <= most
  }

  /** `send`: directly if nothing waits, the rest through the buffer. */
  function Send(c: Conn, msg: string, write: Kernel): Conn
    requires KernelFits(write, |msg|)
  {
    var c := c.(messages := c.messages + msg);
    if c.writing || c.waiting != "" then Enqueue(c, msg)
    else match write
      case Took(n) => Enqueue(c.(sentMessages := c.sentMessages + msg[..n]), msg[n..])
      case Again => Enqueue(c, msg)
      case _ => Close(c)
  }

  function Enqueue(c: Conn, rest: string): Conn {
    if rest == "" then c else c.(waiting := c.waiting + rest, writing := true)
  }

  /** `sendFile`: directly if no file waits, the rest through the queue. */
  function SendFile(c: Conn, fd: int, size: nat, send: Kernel): Conn
    requires KernelFits(send, size)
  {
    var c := c.(files := c.files + [(fd, size)]);
    if c.writing || c.queue != [] then EnqueueFile(c, fd, size, 0)
    else match send
      case Took(n) => EnqueueFile(c.(sentFiles := c.sentFiles + Span(fd, 0, n)), fd, size, n)
      case Again => EnqueueFile(c, fd, size, 0)
      case _ => Close(c)
  }

  function EnqueueFile(c: Conn, fd: int, size: nat, sent: nat): Conn {
    if sent < size then c.(queue := c.queue + [FileInfo(fd, size, sent)], writing := true) else c
  }

  /** What `sendFile` adds to the loop's ledger: the bytes it queued; nothing if the direct call failed. */
  function SendFileLedger(c: Conn, size: nat, send: Kernel): int {
    if c.writing || c.queue != [] || send.Again? then size
    else if send.Took? then size - send.n
    else 0
  }

  /** `writeNonBlocking`: the buffer, once. */
  function WriteBuffer(c: Conn, write: Kernel): Conn
    requires KernelFits(write, |c.waiting|)
  {
    match write
    case Took(n) => c.(sentMessages := c.sentMessages + c.waiting[..n], waiting := c.waiting[n..])
    case Broken => Close(c)
    case _ => c
  }

  /** How much of an offer of `n` bytes the file can use. */
  function Moved(f: FileInfo, n: nat): (m: nat)
    requires f.sent <= f.size
    ensures f.sent + m <= f.size
  {
    if n <= f.size - f.sent then n else f.size - f.sent
  }

  /** `sendfile` has moved up to `n` bytes of the first queued file. */
  function SendFront(c: Conn, n: nat): Conn
    requires FilesOk(c.queue) && c.queue != []
  {
    var f := c.queue[0];
    var upto := f.sent + Moved(f, n);
    c.(sentFiles := c.sentFiles + Span(f.fd, f.sent, upto),
       queue := (if upto >= f.size then [] else [FileInfo(f.fd, f.size, upto)]) + c.queue[1..])
  }

  /** The loop over the queued files, as far as the kernel's answers `sends` take it.  On the closed descriptors
      of a closed connection `sendfile` fails. */
  function WriteFiles(c: Conn, sends: seq<Kernel>): Conn
    requires FilesOk(c.queue)
    decreases |sends|
  {
    if c.queue == [] || !c.open || sends == [] || sends[0].Again? then c
    else if sends[0].Took? then WriteFiles(SendFront(c, sends[0].n), sends[1..])
    else Close(c)
  }

  /** Whether these answers bring the loop to its end. */
  predicate Ends(c: Conn, sends: seq<Kernel>)
    requires FilesOk(c.queue)
    decreases |sends|
  {
    || c.queue == [] || !c.open
    || (sends != [] && (sends[0].Took? ==> Ends(SendFront(c, sends[0].n), sends[1..])))
  }

  /** The kernel takes no more than it is offered, and answers until the loop ends. */
  predicate CallbackEnds(c: Conn, write: Kernel, sends: seq<Kernel>)
    requires FilesOk(c.queue)
  {
    KernelFits(write, |c.waiting|) && (c.open ==> Ends(WriteBuffer(c, write), sends))
  }

  /** The write callback. */
  function WriteCallback(c: Conn, write: Kernel, sends: seq<Kernel>): Conn
    requires FilesOk(c.queue) && CallbackEnds(c, write, sends)
  {
    if !c.open then c
    else
      var c := WriteFiles(WriteBuffer(c, write), sends);
      if c.waiting == "" && c.queue == [] then c.(writing := false) else c
  }

  // ---------------------------------------------------------------- what is kept

  /** While open: the message bytes sent and the buffer are all messages in order; the file bytes sent
      and what the queue owes are all files in order; whatever waits is waited for.  After closing: what
      was sent was sent in order, each byte at most once. */
  ghost predicate Balanced(c: Conn) {
    && FilesOk(c.queue)
    && (c.open ==> c.sentMessages + c.waiting == c.messages)
    && (c.open ==> c.sentFiles + Owed(c.queue) == Stream(c.files))
    && (c.open && (c.waiting != "" || c.queue != []) ==> c.writing)
  }

  ghost predicate SentInOrder(c: Conn) {
    c.sentMessages <= c.messages && c.sentFiles <= Stream(c.files)
  }

  /** This connection's share of the loop's ledger. */
  function Pending(c: Conn): int {
    if c.open then OwedBytes(c.queue) else 0
  }

  lemma SendKeeps(c: Conn, msg: string, write: Kernel)
    requires Balanced(c) && KernelFits(write, |msg|)
    ensures var c' := Send(c, msg, write);
            && Balanced(c') && (c.open ==> SentInOrder(c')) && c'.queue == c.queue
            && c'.open == (c.open && (c.writing || c.waiting != "" || write.Took? || write.Again?))
  {
    var m := c.messages;
    if write.Took? {
      assert m + msg == (m + msg[..write.n]) + msg[write.n..];
    }
    assert c.sentMessages + (c.waiting + msg) == (c.sentMessages + c.waiting) + msg;
  }

  lemma EnqueueFileKeeps(c: Conn, fd: int, size: nat, sent: nat)
    requires FilesOk(c.queue) && sent <= size
    requires c.open ==> c.sentMessages + c.waiting == c.messages
    requires c.open ==> c.sentFiles + (Owed(c.queue) + Span(fd, sent, size)) == Stream(c.files)
    requires c.open && (c.waiting != "" || c.queue != []) ==> c.writing
    ensures var c' := EnqueueFile(c, fd, size, sent);
            Balanced(c') && c'.waiting == c.waiting && c'.open == c.open && c'.messages == c.messages
  {
    if sent < size {
      OwedAppend(c.queue, FileInfo(fd, size, sent));
    } else {
      assert Owed(c.queue) + Span(fd, sent, size) == Owed(c.queue);
    }
  }

  lemma SendFileKeeps(c: Conn, fd: int, size: nat, send: Kernel)
    requires Balanced(c) && KernelFits(send, size)
    ensures var c' := SendFile(c, fd, size, send);
            Balanced(c') && (c.open ==> SentInOrder(c')) && c'.waiting == c.waiting
  {
    var c1 := c.(files := c.files + [(fd, size)]);
    assert c1.files[..|c.files|] == c.files;
    var whole := Span(fd, 0, size);
    assert c.sentFiles + (Owed(c.queue) + whole) == (c.sentFiles + Owed(c.queue)) + whole;
    if c.writing || c.queue != [] || send.Again? {
      EnqueueFileKeeps(c1, fd, size, 0);
    } else if send.Took? {
      SpanSplit(fd, 0, send.n, size);
      var c2 := c1.(sentFiles := c.sentFiles + Span(fd, 0, send.n));
      assert c2.sentFiles + ([] + Span(fd, send.n, size)) == c.sentFiles + whole;
      EnqueueFileKeeps(c2, fd, size, send.n);
    }
  }

  /** Whether a call of `sendFile` enters into the ledger just the bytes that it makes the connection owe. */
  predicate EntersWhatIsOwed(c: Conn, size: nat, send: Kernel) {
    || c.open || size == 0
    || (!c.writing && c.queue == [] && (send == Took(size) || send.Interrupted? || send.Broken?))
  }

  /** So it does on an open connection, and on a closed one only if nothing is left to queue. */
  lemma SendFileLedgerExact(c: Conn, fd: int, size: nat, send: Kernel)
    requires Balanced(c) && KernelFits(send, size)
    ensures Pending(SendFile(c, fd, size, send)) == Pending(c) + SendFileLedger(c, size, send)
            <==> EntersWhatIsOwed(c, size, send)
  {
    if c.open {
      if (c.writing || c.queue != [] || send.Again?) && size > 0 {
        OwedAppend(c.queue, FileInfo(fd, size, 0));
      } else if send.Took? && send.n < size {
        OwedAppend(c.queue, FileInfo(fd, size, send.n));
      }
    }
  }

  /** An instance: the head of a response cannot be sent, and its file is sent all the same. */
  lemma FileAfterFailedHead(head: string, fd: int, size: nat)
    requires size > 0
    ensures var c := Send(NEW_CONN, head, Broken);
            Pending(SendFile(c, fd, size, Again)) == Pending(c) == 0 < size == SendFileLedger(c, size, Again)
  {
  }

  // ---------------------------------------------------------------- order on a closed connection

  /** Whether a message sent with this answer of the kernel cannot overtake one that was refused. */
  predicate MessageInOrder(c: Conn, write: Kernel) {
    || c.open || c.sentMessages == c.messages || c.writing || c.waiting != ""
    || (write.Took? ==> write.n == 0)
  }

  /** `send` does not ask whether the connection was closed.  It keeps the order, whatever the message says, if
      and only if the connection is open, owes no message, lets the message wait, or the socket takes nothing. */
  lemma SendOrder(c: Conn, size: nat, write: Kernel)
    requires Balanced(c) && SentInOrder(c) && KernelFits(write, size)
    ensures (forall msg: string | |msg| == size :: SentInOrder(Send(c, msg, write))) <==> MessageInOrder(c, write)
  {
    if MessageInOrder(c, write) {
      forall msg: string | |msg| == size
        ensures SentInOrder(Send(c, msg, write))
      {
        SendKeepsOrder(c, msg, write);
      }
    } else {
      var next := c.messages[|c.sentMessages|];
      var other := if next == 'a' then 'b' else 'a';
      var msg := seq(size, _ => other);
      var c' := Send(c, msg, write);
      assert c'.sentMessages[|c.sentMessages|] == other && c'.messages[|c.sentMessages|] == next;
    }
  }

  lemma SendKeepsOrder(c: Conn, msg: string, write: Kernel)
    requires Balanced(c) && SentInOrder(c) && KernelFits(write, |msg|) && MessageInOrder(c, write)
    ensures SentInOrder(Send(c, msg, write))
  {
    SendKeeps(c, msg, write);
    assert c.messages <= c.messages + msg;
  }

  /** An instance: a write interrupted by a signal closes the connection, and the next message overtakes the
      one that was lost. */
  lemma InterruptedThenSent(a: char, b: char)
    requires a != b
    ensures var c := Send(NEW_CONN, [a], Interrupted);
            var c' := Send(c, [b], Took(1));
            c'.sentMessages == [b] && c'.messages == [a, b] && !SentInOrder(c')
  {
    var c := Send(NEW_CONN, [a], Interrupted);
    assert c == Close(NEW_CONN).(messages := [a]);
    assert [b][..1] == [b] && [b][1..] == "" && [a] + [b] == [a, b] && "" + [b] == [b];
    assert !([b] <= [a, b]) by {
      assert [b][0] != [a, b][0];
    }
  }

  /** The same of a file. */
  predicate FileInOrder(c: Conn, send: Kernel) {
    || c.open || c.sentFiles == Stream(c.files) || c.writing || c.queue != []
    || (send.Took? ==> send.n == 0)
  }

  lemma SendFileOrder(c: Conn, size: nat, send: Kernel)
    requires Balanced(c) && SentInOrder(c) && KernelFits(send, size)
    ensures (forall fd: int :: SentInOrder(SendFile(c, fd, size, send))) <==> FileInOrder(c, send)
  {
    if FileInOrder(c, send) {
      forall fd: int
        ensures SentInOrder(SendFile(c, fd, size, send))
      {
        SendFileKeepsOrder(c, fd, size, send);
      }
    } else {
      var next := Stream(c.files)[|c.sentFiles|];
      var fd := next.fd + 1;
      var c' := SendFile(c, fd, size, send);
      StreamGrows(c, fd, size);
      assert c'.sentFiles[|c.sentFiles|].fd == fd && Stream(c'.files)[|c.sentFiles|] == next;
    }
  }

  lemma StreamGrows(c: Conn, fd: int, size: nat)
    ensures Stream(c.files + [(fd, size)]) == Stream(c.files) + Span(fd, 0, size)
  {
    assert (c.files + [(fd, size)])[..|c.files|] == c.files;
  }

  lemma SendFileKeepsOrder(c: Conn, fd: int, size: nat, send: Kernel)
    requires Balanced(c) && SentInOrder(c) && KernelFits(send, size) && FileInOrder(c, send)
    ensures SentInOrder(SendFile(c, fd, size, send))
  {
    SendFileKeeps(c, fd, size, send);
    StreamGrows(c, fd, size);
    if send.Took? {
      SpanSplit(fd, 0, send.n, size);
    }
  }

  // ---------------------------------------------------------------- the write callback

  /** Moving the front of the second part to the end of the first. */
  lemma Regroup<T>(a: seq<T>, b: seq<T>, n: nat)
    requires n <= |b|
    ensures (a + b[..n]) + b[n..] == a + b
    ensures a + b[..n] <= a + b
  {
    assert b == b[..n] + b[n..];
  }

  lemma WriteBufferKeeps(c: Conn, write: Kernel)
    requires Balanced(c) && c.open && KernelFits(write, |c.waiting|)
    ensures var c' := WriteBuffer(c, write);
            && Balanced(c') && SentInOrder(c') && c'.queue == c.queue
            && c'.open == !write.Broken?
  {
    if write.Took? {
      Regroup(c.sentMessages, c.waiting, write.n);
    }
  }

  /** The queue after `SendFront` owes the same bytes but the ones that went. */
  lemma FrontOwes(queue: seq<FileInfo>, upto: nat, queue': seq<FileInfo>)
    requires FilesOk(queue) && queue != [] && queue[0].sent <= upto <= queue[0].size
    requires queue' == (if upto >= queue[0].size then [] else [FileInfo(queue[0].fd, queue[0].size, upto)]) + queue[1..]
    ensures FilesOk(queue')
    ensures Owed(queue) == Span(queue[0].fd, queue[0].sent, upto) + Owed(queue')
    ensures OwedBytes(queue) == OwedBytes(queue') + (upto - queue[0].sent)
  {
    var f, rest := queue[0], queue[1..];
    SpanSplit(f.fd, f.sent, upto, f.size);
    if upto >= f.size {
      assert queue' == rest;
    } else {
      assert queue'[1..] == rest && queue'[0] == FileInfo(f.fd, f.size, upto);
      var a, b, c := Span(f.fd, f.sent, upto), Span(f.fd, upto, f.size), Owed(rest);
      assert (a + b) + c == a + (b + c);
    }
  }

  lemma SendFrontKeeps(c: Conn, n: nat)
    requires Balanced(c) && c.open && c.queue != []
    ensures Balanced(SendFront(c, n)) && SendFront(c, n).open && SentInOrder(SendFront(c, n))
    ensures Pending(SendFront(c, n)) == Pending(c) - Moved(c.queue[0], n)
  {
    var f, c' := c.queue[0], SendFront(c, n);
    var upto := f.sent + Moved(f, n);
    FrontOwes(c.queue, upto, c'.queue);
    assert c.sentFiles + (Span(f.fd, f.sent, upto) + Owed(c'.queue)) == c'.sentFiles + Owed(c'.queue);
  }

  function TotalTook(sends: seq<Kernel>): nat {
    if sends == [] then 0 else (if sends[0].Took? then sends[0].n else 0) + TotalTook(sends[1..])
  }

  /** `sendfile` moves no more than is asked of it. */
  predicate AnswersFit(c: Conn, sends: seq<Kernel>)
    requires FilesOk(c.queue)
    decreases |sends|
  {
    c.queue != [] && c.open && sends != [] && sends[0].Took? ==>
      && sends[0].n <= c.queue[0].size - c.queue[0].sent
      && AnswersFit(SendFront(c, sends[0].n), sends[1..])
  }

  /** The loop over the queued files ends if and only if a call takes nothing for now or fails, or the calls
      together have moved every byte that was owed. */
  lemma {:induction false} LoopEndsIff(c: Conn, sends: seq<Kernel>)
    requires Balanced(c) && c.open && c.queue != [] && AnswersFit(c, sends)
    ensures Ends(c, sends) <==>
            (exists i :: 0 <= i < |sends| && !sends[i].Took?) || OwedBytes(c.queue) <= TotalTook(sends)
    decreases |sends|
  {
    OwedPositive(c.queue);
    if sends != [] && sends[0].Took? {
      var n, c', rest := sends[0].n, SendFront(c, sends[0].n), sends[1..];
      SendFrontKeeps(c, n);
      assert (exists i :: 0 <= i < |sends| && !sends[i].Took?) <==> (exists i :: 0 <= i < |rest| && !rest[i].Took?) by {
        assert forall i :: 0 < i < |sends| ==> sends[i] == rest[i - 1];
      }
      if c'.queue != [] {
        LoopEndsIff(c', rest);
      }
    }
  }

  lemma {:induction false} OwedPositive(queue: seq<FileInfo>)
    requires FilesOk(queue)
    ensures OwedBytes(queue) >= |queue|
  {
    if queue != [] {
      OwedPositive(queue[1..]);
    }
  }

  /** If every successful call moves at least one byte, as many calls as bytes are owed are enough. */
  lemma {:induction false} ProgressEnds(c: Conn, sends: seq<Kernel>)
    requires Balanced(c) && OwedBytes(c.queue) <= |sends|
    requires forall i :: 0 <= i < |sends| && sends[i].Took? ==> sends[i].n > 0
    ensures Ends(c, sends)
    decreases |sends|
  {
    OwedPositive(c.queue);
    if c.open && c.queue != [] && sends[0].Took? {
      SendFrontKeeps(c, sends[0].n);
      ProgressEnds(SendFront(c, sends[0].n), sends[1..]);
    }
  }

  /** But calls that move nothing, as on a file that has become shorter than its queued size, change nothing,
      and the loop goes on however many there are. */
  lemma {:induction false} ZeroBytesGoOn(c: Conn, calls: nat)
    requires Balanced(c) && c.open && c.queue != []
    ensures var sends := seq(calls, _ => Took(0)); WriteFiles(c, sends) == c && !Ends(c, sends)
  {
    var sends := seq(calls, _ => Took(0));
    if calls > 0 {
      assert sends[1..] == seq(calls - 1, _ => Took(0));
      assert SendFront(c, 0) == c by {
        assert c.queue == [c.queue[0]] + c.queue[1..];
      }
      ZeroBytesGoOn(c, calls - 1);
    }
  }

  lemma {:induction false} WriteFilesKeeps(c: Conn, sends: seq<Kernel>)
    requires Balanced(c) && (c.open ==> SentInOrder(c))
    ensures var c' := WriteFiles(c, sends);
            && Balanced(c') && (c.open ==> SentInOrder(c'))
            && c'.waiting == c.waiting && c'.writing == c.writing
            && (c'.open ==> c.open)
    decreases |sends|
  {
    if c.queue == [] || !c.open || sends == [] || sends[0].Again? {
    } else if sends[0].Took? {
      SendFrontKeeps(c, sends[0].n);
      WriteFilesKeeps(SendFront(c, sends[0].n), sends[1..]);
    }
  }

  lemma WriteCallbackKeeps(c: Conn, write: Kernel, sends: seq<Kernel>)
    requires Balanced(c) && CallbackEnds(c, write, sends)
    ensures var c' := WriteCallback(c, write, sends);
            && Balanced(c') && (c.open ==> SentInOrder(c'))
            && (c'.open ==> (c'.writing <==> c.writing && (c'.waiting != "" || c'.queue != [])))
  {
    if c.open {
      WriteBufferKeeps(c, write);
      WriteFilesKeeps(WriteBuffer(c, write), sends);
    }
  }

  // ---------------------------------------------------------------- what an operation takes in and gives out

  /** A message is taken in whole, whatever the state and the answer; if nothing waits, what the socket takes of it
      goes out at once, and the connection asks to be told when it can write just if something is left. */
  lemma SendTakesIn(c: Conn, msg: string, write: Kernel)
    requires KernelFits(write, |msg|)
    ensures var c' := Send(c, msg, write);
            var direct := !c.writing && c.waiting == "";
            && c'.messages == c.messages + msg && c'.files == c.files && c'.sentFiles == c.sentFiles
            && c'.sentMessages == c.sentMessages + (if direct && write.Took? then msg[..write.n] else "")
            && (c'.open ==> |c'.sentMessages| + |c'.waiting| == |c.sentMessages| + |c.waiting| + |msg|)
            && (c'.writing <==> c.writing || (c'.open == c.open && c'.waiting != c.waiting))
  {
    if write.Took? {
      assert |msg[write.n..]| == |msg| - write.n;
    }
  }

  /** So is a file. */
  lemma SendFileTakesIn(c: Conn, fd: int, size: nat, send: Kernel)
    requires KernelFits(send, size) && FilesOk(c.queue)
    ensures var c' := SendFile(c, fd, size, send);
            var direct := !c.writing && c.queue == [];
            && c'.files == c.files + [(fd, size)] && c'.messages == c.messages && c'.sentMessages == c.sentMessages
            && c'.sentFiles == c.sentFiles + (if direct && send.Took? then Span(fd, 0, send.n) else [])
            && (c'.writing <==> c.writing || c'.queue != c.queue)
            && (c'.queue == c.queue || c'.queue == c.queue + [FileInfo(fd, size, |c'.sentFiles| - |c.sentFiles|)])
            && c'.open == (c.open && (!direct || send.Took? || send.Again?))
  {
  }

  /** The write callback takes in nothing; it gives out of the buffer what the socket takes in one write. */
  lemma WriteCallbackTakesIn(c: Conn, write: Kernel, sends: seq<Kernel>)
    requires FilesOk(c.queue) && CallbackEnds(c, write, sends)
    ensures var c' := WriteCallback(c, write, sends);
            && c'.messages == c.messages && c'.files == c.files
            && c'.sentMessages == c.sentMessages + (if c.open && write.Took? then c.waiting[..write.n] else "")
  {
    if c.open {
      WriteFilesTakesIn(WriteBuffer(c, write), sends);
    }
  }

  lemma {:induction false} WriteFilesTakesIn(c: Conn, sends: seq<Kernel>)
    requires FilesOk(c.queue)
    ensures var c' := WriteFiles(c, sends);
            c'.messages == c.messages && c'.files == c.files && c'.sentMessages == c.sentMessages
    decreases |sends|
  {
    if c.queue != [] && c.open && sends != [] && sends[0].Took? {
      WriteFilesTakesIn(SendFront(c, sends[0].n), sends[1..]);
    }
  }

  /** Where the loop over the files comes to: the kernel moves these bytes in all, in the first `p` calls, and then
      there is nothing for now, or an error, or no answer. */
  ghost predicate StopsAt(c: Conn, sends: seq<Kernel>, p: nat)
    requires FilesOk(c.queue)
  {
    && p <= |sends| && (forall i :: 0 <= i < p ==> sends[i].Took?) && (p < |sends| ==> !sends[p].Took?)
    && AnswersFit(c, sends) && TotalTook(sends[..p]) <= OwedBytes(c.queue)
  }

  /** The loop gives the socket the first bytes owed, as many as the kernel moves, over however many files; and it
      closes the connection just if there comes an error before they are all gone. */
  lemma {:induction false} WriteFilesGivesOut(c: Conn, sends: seq<Kernel>, p: nat)
    requires FilesOk(c.queue) && c.open && StopsAt(c, sends, p)
    ensures var c', total := WriteFiles(c, sends), TotalTook(sends[..p]);
            && |Owed(c.queue)| == OwedBytes(c.queue) && c'.sentFiles == c.sentFiles + Owed(c.queue)[..total]
            && (c'.open <==> p == |sends| || sends[p].Again? || total == OwedBytes(c.queue))
    decreases |sends|
  {
    OwedLength(c.queue);
    OwedPositive(c.queue);
    if c.queue != [] && p > 0 {
      var c1, rest := SendFront(c, sends[0].n), sends[1..];
      assert sends[..p][1..] == rest[..p - 1];
      FrontGivesOut(c, sends[0].n, TotalTook(rest[..p - 1]));
      WriteFilesGivesOut(c1, rest, p - 1);
    }
  }

  lemma FrontGivesOut(c: Conn, n: nat, more: nat)
    requires FilesOk(c.queue) && c.queue != [] && n <= c.queue[0].size - c.queue[0].sent
    ensures var c1 := SendFront(c, n);
            && FilesOk(c1.queue) && c1.open == c.open && OwedBytes(c1.queue) == OwedBytes(c.queue) - n
            && |Owed(c1.queue)| == |Owed(c.queue)| - n
            && (more <= |Owed(c1.queue)| ==>
                  c1.sentFiles + Owed(c1.queue)[..more] == c.sentFiles + Owed(c.queue)[..n + more])
  {
    var f, c1 := c.queue[0], SendFront(c, n);
    FrontOwes(c.queue, f.sent + n, c1.queue);
    var a, b, d := c.sentFiles, Span(f.fd, f.sent, f.sent + n), Owed(c1.queue);
    if more <= |d| {
      assert (a + b) + d[..more] == a + (b + d)[..n + more];
    }
  }

  /** And so does the write callback, unless the write fails. */
  lemma WriteCallbackGivesOut(c: Conn, write: Kernel, sends: seq<Kernel>, p: nat)
    requires FilesOk(c.queue) && c.open && CallbackEnds(c, write, sends) && StopsAt(c, sends, p)
    ensures var c', total := WriteCallback(c, write, sends), TotalTook(sends[..p]);
            && |Owed(c.queue)| == OwedBytes(c.queue)
            && c'.sentFiles == c.sentFiles + (if write.Broken? then [] else Owed(c.queue)[..total])
            && (c'.open <==> !write.Broken? && (p == |sends| || sends[p].Again? || total == OwedBytes(c.queue)))
  {
    OwedLength(c.queue);
    var c1 := WriteBuffer(c, write);
    if !write.Broken? {
      SameAnswers(c, c1, sends);
      WriteFilesGivesOut(c1, sends, p);
    }
  }

  lemma {:induction false} SameAnswers(c: Conn, d: Conn, sends: seq<Kernel>)
    requires FilesOk(c.queue) && c.queue == d.queue && c.open == d.open
    ensures AnswersFit(c, sends) <==> AnswersFit(d, sends)
    decreases |sends|
  {
    if c.queue != [] && c.open && sends != [] && sends[0].Took? {
      SameAnswers(SendFront(c, sends[0].n), SendFront(d, sends[0].n), sends[1..]);
    }
  }

  // ---------------------------------------------------------------- runs of one loop

  datatype Op =
    | SendOp(msg: string, write: Kernel)
    | SendFileOp(fd: int, size: nat, send: Kernel)
    | WritableOp(write: Kernel, sends: seq<Kernel>)
    | CloseOp

  /** The kernel takes no more than it is offered, and a write callback comes to its end. */
  predicate Possible(c: Conn, op: Op)
    requires FilesOk(c.queue)
  {
    match op
    case SendOp(msg, write) => KernelFits(write, |msg|)
    case SendFileOp(_, size, send) => KernelFits(send, size)
    case WritableOp(write, sends) => CallbackEnds(c, write, sends)
    case CloseOp => true
  }

  /** Nothing overtakes what a closed connection has lost. */
  predicate InOrder(c: Conn, op: Op) {
    match op
    case SendOp(_, write) => MessageInOrder(c, write)
    case SendFileOp(_, _, send) => FileInOrder(c, send)
    case _ => true
  }

  function Step(c: Conn, op: Op): Conn
    requires FilesOk(c.queue) && Possible(c, op)
  {
    match op
    case SendOp(msg, write) => Send(c, msg, write)
    case SendFileOp(fd, size, send) => SendFile(c, fd, size, send)
    case WritableOp(write, sends) => WriteCallback(c, write, sends)
    case CloseOp => Close(c)
  }

  /** What an operation does to the loop's ledger: `sendFile` adds what it queued, `sendfile` takes off
      what it moved, and closing an open connection takes off what is still owed. */
  function LedgerChange(c: Conn, op: Op): int
    requires FilesOk(c.queue) && Possible(c, op)
  {
    match op
    case SendOp(msg, write) => if Send(c, msg, write).open == c.open then 0 else -OwedBytes(c.queue)
    case SendFileOp(fd, size, send) =>
      if SendFile(c, fd, size, send).open == c.open then SendFileLedger(c, size, send) else -OwedBytes(c.queue)
    case WritableOp(write, sends) =>
      if !c.open then 0 else if write.Broken? then -OwedBytes(c.queue) else FilesLedger(WriteBuffer(c, write), sends)
    case CloseOp => if c.open then -OwedBytes(c.queue) else 0
  }

  function FilesLedger(c: Conn, sends: seq<Kernel>): int
    requires FilesOk(c.queue)
    decreases |sends|
  {
    if c.queue == [] || !c.open || sends == [] || sends[0].Again? then 0
    else if sends[0].Took? then FilesLedger(SendFront(c, sends[0].n), sends[1..]) - Moved(c.queue[0], sends[0].n)
    else -OwedBytes(c.queue)
  }

  lemma StepKeeps(c: Conn, op: Op)
    requires Balanced(c) && Possible(c, op)
    ensures Balanced(Step(c, op)) && (Step(c, op).open ==> c.open)
    ensures SentInOrder(c) && InOrder(c, op) ==> SentInOrder(Step(c, op))
  {
    match op
    case SendOp(msg, write) =>
      SendKeeps(c, msg, write);
      if SentInOrder(c) && InOrder(c, op) {
        SendKeepsOrder(c, msg, write);
      }
    case SendFileOp(fd, size, send) =>
      SendFileKeeps(c, fd, size, send);
      if SentInOrder(c) && InOrder(c, op) {
        SendFileKeepsOrder(c, fd, size, send);
      }
    case WritableOp(write, sends) => WriteCallbackKeeps(c, write, sends);
    case CloseOp =>
  }

  lemma {:induction false} FilesLedgerExact(c: Conn, sends: seq<Kernel>)
    requires Balanced(c) && c.open
    ensures Pending(WriteFiles(c, sends)) == Pending(c) + FilesLedger(c, sends)
    decreases |sends|
  {
    if c.queue == [] || !c.open || sends == [] || sends[0].Again? {
    } else if sends[0].Took? {
      SendFrontKeeps(c, sends[0].n);
      FilesLedgerExact(SendFront(c, sends[0].n), sends[1..]);
    }
  }

  /** Bytes that an operation enters into the ledger though no open connection owes them. */
  function Leak(c: Conn, op: Op): nat
    requires FilesOk(c.queue) && Possible(c, op)
  {
    if op.SendFileOp? && !c.open then SendFileLedger(c, op.size, op.send) else 0
  }

  predicate Leaks(c: Conn, op: Op) {
    op.SendFileOp? && !EntersWhatIsOwed(c, op.size, op.send)
  }

  lemma LeakIsExact(c: Conn, op: Op)
    requires Balanced(c) && Possible(c, op)
    ensures Leak(c, op) == 0 <==> !Leaks(c, op)
  {
    if op.SendFileOp? {
      SendFileLedgerExact(c, op.fd, op.size, op.send);
    }
  }

  /** Every step changes the ledger by exactly what it changes of the bytes the connection owes, and leaks. */
  lemma LedgerExact(c: Conn, op: Op)
    requires Balanced(c) && Possible(c, op)
    ensures Pending(Step(c, op)) + Leak(c, op) == Pending(c) + LedgerChange(c, op)
  {
    match op
    case SendOp(msg, write) => SendKeeps(c, msg, write);
    case SendFileOp(fd, size, send) => SendFileLedgerExact(c, fd, size, send);
    case WritableOp(write, sends) =>
      if c.open && !write.Broken? {
        WriteBufferKeeps(c, write);
        FilesLedgerExact(WriteBuffer(c, write), sends);
      }
    case CloseOp =>
  }

  /** Every connection of a loop, and the loop's ledger; `leaked` records what was entered for nobody. */
  datatype Loop = Loop(conns: seq<Conn>, leftBytes: int, leaked: nat)

  ghost predicate LoopOk(l: Loop) {
    && (forall i :: 0 <= i < |l.conns| ==> Balanced(l.conns[i]))
    && l.leftBytes == TotalPending(l.conns) + l.leaked
  }

  function TotalPending(conns: seq<Conn>): int {
    if conns == [] then 0 else Pending(conns[0]) + TotalPending(conns[1..])
  }

  lemma {:induction false} TotalPendingUpdate(conns: seq<Conn>, i: nat, c: Conn)
    requires i < |conns|
    ensures TotalPending(conns[i := c]) == TotalPending(conns) - Pending(conns[i]) + Pending(c)
  {
    if i == 0 {
      assert conns[0 := c][1..] == conns[1..];
    } else {
      TotalPendingUpdate(conns[1..], i - 1, c);
      assert conns[i := c][1..] == conns[1..][i - 1 := c];
    }
  }

  /** One operation on one of the loop's connections, or a new connection. */
  datatype LoopOp = OnConn(i: nat, op: Op) | Accept

  ghost predicate LoopPossible(l: Loop, o: LoopOp) {
    o.OnConn? ==> o.i < |l.conns| && FilesOk(l.conns[o.i].queue) && Possible(l.conns[o.i], o.op)
  }

  ghost function LoopStep(l: Loop, o: LoopOp): Loop
    requires LoopPossible(l, o)
  {
    match o
    case OnConn(i, op) =>
      var c := l.conns[i];
      Loop(l.conns[i := Step(c, op)], l.leftBytes + LedgerChange(c, op), l.leaked + Leak(c, op))
    case Accept => Loop(l.conns + [NEW_CONN], l.leftBytes, l.leaked)
  }

  /** `states` is a run of the loop under `ops`, from a loop without connections. */
  ghost predicate IsRun(states: seq<Loop>, ops: seq<LoopOp>) {
    && |states| == |ops| + 1
    && states[0] == Loop([], 0, 0)
    && forall k :: 0 <= k < |ops| ==> LoopPossible(states[k], ops[k]) && states[k + 1] == LoopStep(states[k], ops[k])
  }

  /** In every state of every run, the ledger is the sum of what the open connections owe and of what was
      leaked, and every open connection's bytes are accounted for. */
  lemma {:induction false} RunIsOk(states: seq<Loop>, ops: seq<LoopOp>, k: nat)
    requires IsRun(states, ops) && k < |states|
    ensures LoopOk(states[k])
  {
    if k > 0 {
      RunIsOk(states, ops, k - 1);
      var l, o := states[k - 1], ops[k - 1];
      assert LoopPossible(l, o) && states[k] == LoopStep(l, o);
      LoopStepKeeps(l, o);
    }
  }

  lemma LoopStepKeeps(l: Loop, o: LoopOp)
    requires LoopOk(l) && LoopPossible(l, o)
    ensures LoopOk(LoopStep(l, o))
  {
    match o
    case OnConn(i, op) =>
      StepKeeps(l.conns[i], op);
      LedgerExact(l.conns[i], op);
      TotalPendingUpdate(l.conns, i, Step(l.conns[i], op));
    case Accept =>
      TotalPendingAppend(l.conns, NEW_CONN);
  }

  ghost predicate LoopLeaks(l: Loop, o: LoopOp)
    requires LoopPossible(l, o)
  {
    o.OnConn? && Leaks(l.conns[o.i], o.op)
  }

  /** The ledger is the sum of what the open connections owe if and only if no `sendFile` has queued bytes on a
      closed one; a leak is never made good. */
  lemma {:induction false} LedgerIffNoLeak(states: seq<Loop>, ops: seq<LoopOp>, k: nat)
    requires IsRun(states, ops) && k < |states|
    ensures states[k].leftBytes == TotalPending(states[k].conns) <==>
            forall j :: 0 <= j < k ==> !LoopLeaks(states[j], ops[j])
  {
    RunIsOk(states, ops, k);
    if k > 0 {
      LedgerIffNoLeak(states, ops, k - 1);
      RunIsOk(states, ops, k - 1);
      var l, o := states[k - 1], ops[k - 1];
      assert LoopPossible(l, o) && states[k] == LoopStep(l, o);
      if o.OnConn? {
        LeakIsExact(l.conns[o.i], o.op);
      }
    }
  }

  ghost predicate LoopInOrder(l: Loop, o: LoopOp, i: nat)
    requires LoopPossible(l, o)
  {
    o.OnConn? && o.i == i ==> InOrder(l.conns[i], o.op)
  }

  /** A connection, open or closed, on which nothing has overtaken what was lost, has sent the first bytes of its
      messages and of its files, in order and each once. */
  lemma {:induction false} SocketsInOrder(states: seq<Loop>, ops: seq<LoopOp>, k: nat, i: nat)
    requires IsRun(states, ops) && k < |states| && i < |states[k].conns|
    requires forall j :: 0 <= j < k ==> LoopInOrder(states[j], ops[j], i)
    ensures SentInOrder(states[k].conns[i])
    ensures states[k].conns[i].sentMessages <= MessagesOf(ops[..k], i)
    ensures states[k].conns[i].sentFiles <= Stream(FilesOf(ops[..k], i))
  {
    RunTakesIn(states, ops, k, i);
    if k > 0 {
      var l, o := states[k - 1], ops[k - 1];
      assert LoopPossible(l, o) && states[k] == LoopStep(l, o);
      if i < |l.conns| {
        RunIsOk(states, ops, k - 1);
        SocketsInOrder(states, ops, k - 1, i);
        if o.OnConn? && o.i == i {
          assert LoopInOrder(l, o, i);
          StepKeeps(l.conns[i], o.op);
        }
      }
    }
  }

  /** The messages that the operations were given to send on a connection, one after the other. */
  function MessagesOf(ops: seq<LoopOp>, i: nat): string {
    if ops == [] then ""
    else
      var last := ops[|ops| - 1];
      MessagesOf(ops[..|ops| - 1], i) + if last.OnConn? && last.i == i && last.op.SendOp? then last.op.msg else ""
  }

  /** And the files. */
  function FilesOf(ops: seq<LoopOp>, i: nat): seq<(int, nat)> {
    if ops == [] then []
    else
      var last := ops[|ops| - 1];
      FilesOf(ops[..|ops| - 1], i) +
      if last.OnConn? && last.i == i && last.op.SendFileOp? then [(last.op.fd, last.op.size)] else []
  }

  lemma StepTakesIn(c: Conn, op: Op)
    requires FilesOk(c.queue) && Possible(c, op)
    ensures Step(c, op).messages == c.messages + if op.SendOp? then op.msg else ""
    ensures Step(c, op).files == c.files + if op.SendFileOp? then [(op.fd, op.size)] else []
  {
    match op
    case SendOp(msg, write) => SendTakesIn(c, msg, write);
    case SendFileOp(fd, size, send) => SendFileTakesIn(c, fd, size, send);
    case WritableOp(write, sends) => WriteCallbackTakesIn(c, write, sends);
    case CloseOp =>
  }

  /** What a connection has taken in is just what it was given; one that is not there yet was given nothing. */
  lemma {:induction false} RunTakesIn(states: seq<Loop>, ops: seq<LoopOp>, k: nat, i: nat)
    requires IsRun(states, ops) && k < |states|
    ensures if i < |states[k].conns|
            then var c := states[k].conns[i]; c.messages == MessagesOf(ops[..k], i) && c.files == FilesOf(ops[..k], i)
            else MessagesOf(ops[..k], i) == "" && FilesOf(ops[..k], i) == []
  {
    if k > 0 {
      var l, o := states[k - 1], ops[k - 1];
      RunTakesIn(states, ops, k - 1, i);
      assert ops[..k][..k - 1] == ops[..k - 1] && ops[..k][k - 1] == o;
      assert LoopPossible(l, o) && states[k] == LoopStep(l, o);
      if o.OnConn? && o.i == i {
        StepTakesIn(l.conns[i], o.op);
      }
    }
  }

  /** In every state of every run, for every open connection: what its socket has accepted, and what waits in its
      buffer and its queue, are all the messages and all the files it was given, in order. */
  lemma NothingIsLost(states: seq<Loop>, ops: seq<LoopOp>, k: nat, i: nat)
    requires IsRun(states, ops) && k < |states| && i < |states[k].conns| && states[k].conns[i].open
    ensures var c := states[k].conns[i];
            && FilesOk(c.queue) && c.sentMessages + c.waiting == MessagesOf(ops[..k], i)
            && c.sentFiles + Owed(c.queue) == Stream(FilesOf(ops[..k], i))
  {
    RunIsOk(states, ops, k);
    RunTakesIn(states, ops, k, i);
  }

  lemma {:induction false} TotalPendingAppend(conns: seq<Conn>, c: Conn)
    ensures TotalPending(conns + [c]) == TotalPending(conns) + Pending(c)
  {
    if conns == [] {
      assert (conns + [c])[1..] == [];
    } else {
      TotalPendingAppend(conns[1..], c);
      assert (conns + [c])[1..] == conns[1..] + [c];
    }
  }
}
