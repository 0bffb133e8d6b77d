/** Asynchronous logging as a transition system: producers append under a mutex, one consumer thread
    rotates buffers under it and writes them to the file outside it. */
module LoggingSpec {
  import opened Basics

  /** `FIXED_BUFFER_SIZE_BIG`. */
  const SIZE: nat := 4096 * 1024

  /** A `unique_ptr` to a buffer: nothing, or a buffer with its content. */
  datatype Ptr = Null | Buf(content: string)

  /** Where the consumer is: at the loop head; past the test of `running_`; inside `wait_for` with the
      mutex released; writing its i-th buffer; or gone. */
  datatype Pc = Head | Locking | Waiting | Writing(i: nat) | Done

  datatype State = State(running: bool, current: Ptr, next: Ptr, buffers: seq<string>,
                         swapCurrent: Ptr, swapNext: Ptr, toWrite: seq<string>, pc: Pc,
                         written: string, appended: string)

  const START := State(true, Buf(""), Buf(""), [], Buf(""), Buf(""), [], Head, "", "")

  /** `FixedBuffer::append`: a message that leaves no byte free is dropped. */
  function BufferAppend(b: string, msg: string): string {
    if SIZE - |b| > |msg| then b + msg else b
  }

  // ---------------------------------------------------------------- atomic steps

  /** A producer's `append`, under the mutex. */
  function Append(s: State, msg: string): State
    requires s.current.Buf?
  {
    var s := s.(appended := s.appended + msg);
    if SIZE - |s.current.content| > |msg| then
      s.(current := Buf(BufferAppend(s.current.content, msg)))
    else
      var empty := if s.next.Buf? then s.next.content else "";
      s.(buffers := s.buffers + [s.current.content], next := Null, current := Buf(BufferAppend(empty, msg)))
  }

  function Stop(s: State): State {
    s.(running := false)
  }

  function Test(s: State): State
    requires s.pc.Head?
  {
    s.(pc := if s.running then Locking else Done)
  }

  /** The consumer takes the mutex: it waits if there is nothing, and otherwise swaps at once. */
  function Lock(s: State): State
    requires s.pc.Locking?
  {
    if s.buffers == [] then s.(pc := Waiting)
    else s.(toWrite := s.buffers, buffers := s.toWrite, next := s.swapNext, swapNext := Null, pc := Writing(0))
  }

  /** `wait_for` returns, notified, timed out or spuriously, with whatever was appended meanwhile. */
  function Wake(s: State): State
    requires s.pc.Waiting? && s.current.Buf?
  {
    var full := s.buffers + [s.current.content];
    var s := s.(toWrite := full, buffers := s.toWrite, current := s.swapCurrent, swapCurrent := Null, pc := Writing(0));
    if s.next.Null? then s.(next := s.swapNext, swapNext := Null) else s
  }

  /** One `output.append`. */
  function WriteOne(s: State): State
    requires s.pc.Writing? && s.pc.i < |s.toWrite|
  {
    s.(written := s.written + s.toWrite[s.pc.i], pc := Writing(s.pc.i + 1))
  }

  /** The source's assertion before it takes a written buffer back. */
  predicate CanRecover(s: State) {
    var kept := if |s.toWrite| > 2 then 2 else |s.toWrite|;
    (if s.swapCurrent.Null? then 1 else 0) + (if s.swapNext.Null? then 1 else 0) <= kept
  }

  /** Written buffers take the places of the spent swap buffers, emptied; the rest are freed. */
  function Recover(s: State): State
    requires s.pc == Writing(|s.toWrite|) && CanRecover(s)
  {
    s.(swapCurrent := if s.swapCurrent.Null? then Buf("") else s.swapCurrent,
       swapNext := if s.swapNext.Null? then Buf("") else s.swapNext,
       toWrite := [], pc := Head)
  }

  // ---------------------------------------------------------------- invariants

  /** Everything that has entered the system, in order: the file, then what the consumer has in hand,
      then the full buffers, then the current one. */
  function Log(s: State): string
    requires s.current.Buf? && (s.pc.Writing? ==> s.pc.i <= |s.toWrite|)
  {
    s.written + (if s.pc.Writing? then Concat(s.toWrite[s.pc.i..]) else "") + Concat(s.buffers) + s.current.content
  }

  /** The pointers: `current` is never null, `next` is null exactly when full buffers wait, both swap
      buffers are there and empty outside the writing phase, and in it enough buffers are in hand to
      replace the missing ones. */
  ghost predicate Rotation(s: State) {
    && s.current.Buf? && |s.current.content| < SIZE
    && (s.next.Null? <==> s.buffers != [])
    && (s.next.Buf? ==> s.next.content == "")
    && (s.swapCurrent.Buf? ==> s.swapCurrent.content == "")
    && (s.swapNext.Buf? ==> s.swapNext.content == "")
    && if s.pc.Writing? then s.pc.i <= |s.toWrite| && s.toWrite != [] && CanRecover(s)
       else s.toWrite == [] && s.swapCurrent.Buf? && s.swapNext.Buf?
  }

  ghost predicate Inv(s: State) {
    Rotation(s) && Log(s) == s.appended
  }

  lemma {:induction false} ConcatAppend(bs: seq<string>, b: string)
    ensures Concat(bs + [b]) == Concat(bs) + b
  {
    if bs == [] {
      assert (bs + [b])[1..] == [];
    } else {
      ConcatAppend(bs[1..], b);
      assert (bs + [b])[1..] == bs[1..] + [b];
    }
  }

  /** A message survives exactly when it is shorter than a big buffer. */
  lemma AppendKeepsMessage(s: State, msg: string)
    requires Rotation(s)
    ensures Rotation(Append(s, msg))
    ensures Log(Append(s, msg)) == Log(s) + msg <==> |msg| < SIZE
  {
    var c := s.current.content;
    if SIZE - |c| <= |msg| {
      ConcatAppend(s.buffers, c);
      Rotated(s, msg);
    }
  }

  /** The current buffer is full: the log grows by what the next one takes. */
  lemma Rotated(s: State, msg: string)
    requires Rotation(s) && SIZE - |s.current.content| <= |msg|
    requires Concat(s.buffers + [s.current.content]) == Concat(s.buffers) + s.current.content
    ensures Log(Append(s, msg)) == Log(s) + BufferAppend("", msg)
    ensures Log(s) + BufferAppend("", msg) == Log(s) + msg <==> |msg| < SIZE
  {
    var inHand := s.written + (if s.pc.Writing? then Concat(s.toWrite[s.pc.i..]) else "");
    assert inHand + (Concat(s.buffers) + s.current.content) == inHand + Concat(s.buffers) + s.current.content;
    if |msg| >= SIZE {
      assert |Log(s) + ""| != |Log(s) + msg|;
    }
  }

  lemma WakeKeepsLog(s: State)
    requires Rotation(s) && s.pc.Waiting?
    ensures Rotation(Wake(s)) && Log(Wake(s)) == Log(s)
  {
    ConcatAppend(s.buffers, s.current.content);
    var full := s.buffers + [s.current.content];
    assert full[0..] == full;
  }

  lemma LockKeepsLog(s: State)
    requires Rotation(s) && s.pc.Locking?
    ensures Rotation(Lock(s)) && Log(Lock(s)) == Log(s)
  {
    assert s.buffers[0..] == s.buffers;
  }

  lemma WriteOneKeepsLog(s: State)
    requires Rotation(s) && s.pc.Writing? && s.pc.i < |s.toWrite|
    ensures Rotation(WriteOne(s)) && Log(WriteOne(s)) == Log(s)
  {
    var b, rest := s.toWrite[s.pc.i], s.toWrite[s.pc.i + 1..];
    assert s.toWrite[s.pc.i..][1..] == rest;
    assert s.written + (b + Concat(rest)) == (s.written + b) + Concat(rest);
  }

  lemma RecoverKeepsLog(s: State)
    requires Rotation(s) && s.pc == Writing(|s.toWrite|)
    ensures Rotation(Recover(s)) && Log(Recover(s)) == Log(s)
  {
    assert s.toWrite[|s.toWrite|..] == [];
  }

  // ---------------------------------------------------------------- runs

  datatype Event = AppendEvent(msg: string) | StopEvent | ConsumerEvent

  /** The consumer's next step is determined by where it is. */
  function ConsumerStep(s: State): State
    requires Rotation(s) && !s.pc.Done?
  {
    match s.pc
    case Head => Test(s)
    case Locking => Lock(s)
    case Waiting => Wake(s)
    case Writing(i) => if i < |s.toWrite| then WriteOne(s) else Recover(s)
  }

  function Step(s: State, e: Event): State
    requires Rotation(s)
  {
    match e
    case AppendEvent(msg) => Append(s, msg)
    case StopEvent => Stop(s)
    case ConsumerEvent => if s.pc.Done? then s else ConsumerStep(s)
  }

  lemma ConsumerStepKeeps(s: State)
    requires Rotation(s) && !s.pc.Done?
    ensures Rotation(ConsumerStep(s)) && Log(ConsumerStep(s)) == Log(s)
    ensures ConsumerStep(s).appended == s.appended
  {
    match s.pc
    case Head =>
    case Locking => LockKeepsLog(s);
    case Waiting => WakeKeepsLog(s);
    case Writing(i) => if i < |s.toWrite| { WriteOneKeepsLog(s); } else { RecoverKeepsLog(s); }
  }

  lemma StepKeeps(s: State, e: Event)
    requires Rotation(s)
    ensures Rotation(Step(s, e))
    ensures Log(s) == s.appended && (e.AppendEvent? ==> |e.msg| < SIZE) ==> Log(Step(s, e)) == Step(s, e).appended
  {
    match e
    case AppendEvent(msg) => AppendKeepsMessage(s, msg);
    case StopEvent =>
    case ConsumerEvent => if !s.pc.Done? { ConsumerStepKeeps(s); }
  }

  /** `states` is a run under `events`, in any interleaving. */
  ghost predicate IsRun(states: seq<State>, events: seq<Event>) {
    && |states| == |events| + 1
    && states[0] == START
    && forall k :: 0 <= k < |events| ==> Rotation(states[k]) ==> states[k + 1] == Step(states[k], events[k])
  }

  /** No dereference or assertion can fail in any state of any run, ... */
  lemma {:induction false} RotationIsSafe(states: seq<State>, events: seq<Event>, k: nat)
    requires IsRun(states, events) && k < |states|
    ensures Rotation(states[k])
  {
    if k > 0 {
      RotationIsSafe(states, events, k - 1);
      StepKeeps(states[k - 1], events[k - 1]);
    }
  }

  /** ... and, if every message is shorter than a big buffer, the file is at all times a prefix of all
      messages in order, the rest of which is where it should be. */
  lemma {:induction false} LogIsConserved(states: seq<State>, events: seq<Event>, k: nat)
    requires IsRun(states, events) && k < |states|
    requires forall j :: 0 <= j < |events| && events[j].AppendEvent? ==> |events[j].msg| < SIZE
    ensures Inv(states[k])
    ensures states[k].written <= states[k].appended
  {
    RotationIsSafe(states, events, k);
    if k == 0 {
      assert Concat([]) == "";
    } else {
      LogIsConserved(states, events, k - 1);
      StepKeeps(states[k - 1], events[k - 1]);
    }
  }

  /** When the thread has ended, exactly the full buffers and the current one are unwritten. */
  lemma UnwrittenAtExit(states: seq<State>, events: seq<Event>, k: nat)
    requires IsRun(states, events) && k < |states| && states[k].pc.Done?
    requires forall j :: 0 <= j < |events| && events[j].AppendEvent? ==> |events[j].msg| < SIZE
    ensures states[k].current.Buf?
    ensures states[k].appended == states[k].written + Unwritten(states[k])
  {
    LogIsConserved(states, events, k);
    var s := states[k];
    assert s.written + "" + Concat(s.buffers) + s.current.content ==
           s.written + (Concat(s.buffers) + s.current.content);
  }

  function Unwritten(s: State): string
    requires s.current.Buf?
  {
    Concat(s.buffers) + s.current.content
  }

  // ---------------------------------------------------------------- stopping

  /** How far the stopped consumer is from its end. */
  ghost function StepsLeft(s: State): nat
    requires Rotation(s)
  {
    match s.pc
    case Done => 0
    case Head => 1
    case Writing(i) => 2 + |s.toWrite| - i
    case Waiting => 4 + |s.buffers|
    case Locking => 5 + |s.buffers|
  }

  /** The consumer by itself after `stop`, until its thread ends. */
  ghost function Drain(s: State): State
    requires Rotation(s) && !s.running
    decreases StepsLeft(s)
  {
    if s.pc.Done? then s
    else
      ConsumerStepKeeps(s);
      Drain(ConsumerStep(s))
  }

  /** What `stop` leaves unwritten depends on where it finds the consumer: nothing if it is waiting, or
      about to; the current buffer if it is about to take full ones; and everything it has not taken in
      hand yet if it has just finished or is still writing. */
  lemma {:induction false} StopLeaves(s: State)
    requires Rotation(s) && !s.running
    ensures var d := Drain(s);
            && Rotation(d) && d.pc.Done? && d.appended == s.appended
            && Unwritten(d) == (if s.pc.Waiting? || (s.pc.Locking? && s.buffers == []) then ""
                                else if s.pc.Locking? then s.current.content
                                else Unwritten(s))
    decreases StepsLeft(s)
  {
    if !s.pc.Done? {
      ConsumerStepKeeps(s);
      StopLeaves(ConsumerStep(s));
    }
  }
}
