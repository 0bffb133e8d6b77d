/** Progress of asynchronous logging: the thread ends only when it was stopped, and what was appended gets written,
    whatever is appended meanwhile. */
module LoggingProgress {
  import opened Basics
  import opened LoggingSpec

  // ---------------------------------------------------------------- what came in

  /** All messages that were appended, in order. */
  function MessagesOf(events: seq<Event>): string {
    if events == [] then ""
    else
      var last := events[|events| - 1];
      MessagesOf(events[..|events| - 1]) + if last.AppendEvent? then last.msg else ""
  }

  ghost predicate IsStopped(events: seq<Event>) {
    exists j :: 0 <= j < |events| && events[j].StopEvent?
  }

  /** In every state of every run: the record of messages is that of the events, the flag is down if and only if
      `stop` was called, and the thread has ended only if it was. */
  lemma {:induction false} RunsRecord(states: seq<State>, events: seq<Event>, k: nat)
    requires IsRun(states, events) && k < |states|
    ensures states[k].appended == MessagesOf(events[..k])
    ensures !states[k].running <==> IsStopped(events[..k])
    ensures states[k].pc.Done? ==> IsStopped(events[..k])
  {
    if k > 0 {
      var init, last := events[..k - 1], events[k - 1];
      RunsRecord(states, events, k - 1);
      RotationIsSafe(states, events, k - 1);
      assert events[..k] == init + [last] && events[..k][..k - 1] == init;
      StoppedThen(init, last);
      StepRecords(states[k - 1], last);
    }
  }

  lemma StoppedThen(init: seq<Event>, last: Event)
    ensures IsStopped(init + [last]) <==> IsStopped(init) || last.StopEvent?
  {
    var events := init + [last];
    if j :| 0 <= j < |init| && init[j].StopEvent? {
      assert events[j].StopEvent?;
    }
    if last.StopEvent? {
      assert events[|init|].StopEvent?;
    }
  }

  lemma StepRecords(s: State, e: Event)
    requires Rotation(s)
    ensures Step(s, e).appended == s.appended + if e.AppendEvent? then e.msg else ""
    ensures Step(s, e).running == (s.running && !e.StopEvent?)
    ensures Step(s, e).pc.Done? <==> s.pc.Done? || (s.pc.Head? && !s.running && e.ConsumerEvent?)
  {
  }

  // ---------------------------------------------------------------- what each step does

  /** A buffer is handed over if and only if the message does not fit in it. */
  lemma HandsOverIffFull(s: State, msg: string)
    requires Rotation(s)
    ensures var s' := Append(s, msg);
            if SIZE - |s.current.content| > |msg| then
              s'.buffers == s.buffers && s'.current.Buf? && s'.current.content == s.current.content + msg
            else
              && s'.buffers == s.buffers + [s.current.content]
              && s'.current.Buf? && s'.current.content == if |msg| < SIZE then msg else ""
  {
  }

  /** Appending leaves alone what the consumer has in hand. */
  lemma AppendLeavesConsumer(s: State, msg: string)
    requires Rotation(s)
    ensures Append(s, msg).pc == s.pc && Append(s, msg).toWrite == s.toWrite && Append(s, msg).written == s.written
  {
  }

  // ---------------------------------------------------------------- how the consumer goes on

  /** The consumer's steps among some events. */
  function Steps(events: seq<Event>): nat {
    if events == [] then 0 else Steps(events[..|events| - 1]) + if events[|events| - 1].ConsumerEvent? then 1 else 0
  }

  /** What has happened since `s` when the buffers up to the i-th have been written. */
  ghost predicate HasWritten(s: State, t: State, i: nat) {
    && s.pc.Writing? && s.pc.i <= i <= |s.toWrite|
    && t.toWrite == s.toWrite && t.pc == Writing(i) && t.written == s.written + Concat(s.toWrite[s.pc.i..i])
  }

  /** The consumer writes the buffers it has in hand one after the other, whatever happens meanwhile, ... */
  lemma {:induction false} Writes(states: seq<State>, events: seq<Event>, a: nat, b: nat)
    requires IsRun(states, events) && a <= b < |states| && states[a].pc.Writing?
    requires Steps(events[a..b]) <= |states[a].toWrite| - states[a].pc.i
    ensures HasWritten(states[a], states[b], states[a].pc.i + Steps(events[a..b]))
    decreases b - a
  {
    var s := states[a];
    if a == b {
      assert events[a..b] == [];
      assert s.toWrite[s.pc.i..s.pc.i] == [] && s.written + "" == s.written;
    } else {
      var init, last := events[a..b - 1], events[b - 1];
      assert events[a..b][..b - a - 1] == init && events[a..b][b - a - 1] == last;
      Writes(states, events, a, b - 1);
      RotationIsSafe(states, events, b - 1);
      WritesNext(s, states[b - 1], s.pc.i + Steps(init), last);
    }
  }

  lemma WritesNext(s: State, t: State, i: nat, e: Event)
    requires Rotation(t) && HasWritten(s, t, i) && (e.ConsumerEvent? ==> i < |s.toWrite|)
    ensures HasWritten(s, Step(t, e), if e.ConsumerEvent? then i + 1 else i)
  {
    if e.ConsumerEvent? {
      assert s.toWrite[s.pc.i..i + 1] == s.toWrite[s.pc.i..i] + [s.toWrite[i]];
      ConcatAppend(s.toWrite[s.pc.i..i], s.toWrite[i]);
    }
  }

  /** ... and with one step more is at the head of its loop, having written all of them. */
  lemma WritesAll(states: seq<State>, events: seq<Event>, a: nat, b: nat)
    requires IsRun(states, events) && a < b < |states| && states[a].pc.Writing? && states[a].pc.i <= |states[a].toWrite|
    requires Steps(events[a..b]) == |states[a].toWrite| - states[a].pc.i + 1 && events[b - 1].ConsumerEvent?
    ensures states[b].pc.Head? && states[b].written == states[a].written + Concat(states[a].toWrite[states[a].pc.i..])
  {
    var s := states[a];
    assert events[a..b][..b - a - 1] == events[a..b - 1];
    Writes(states, events, a, b - 1);
    RotationIsSafe(states, events, b - 1);
    assert s.toWrite[s.pc.i..|s.toWrite|] == s.toWrite[s.pc.i..];
  }

  /** The consumer takes buffers in hand. */
  ghost predicate Takes(states: seq<State>, events: seq<Event>, k: nat)
    requires |states| == |events| + 1
  {
    && k < |events| && events[k].ConsumerEvent?
    && (states[k].pc.Waiting? || (states[k].pc.Locking? && states[k].buffers != []))
  }

  lemma NotStoppedYet(events: seq<Event>, k: nat)
    requires !IsStopped(events) && k <= |events|
    ensures !IsStopped(events[..k])
  {
    forall j | 0 <= j < k
      ensures !events[..k][j].StopEvent?
    {
      assert !events[j].StopEvent?;
    }
  }

  /** While it is not stopped it takes buffers in hand with one of any three steps outside the writing. */
  lemma TakesSoon(states: seq<State>, events: seq<Event>, a: nat, b: nat)
    requires IsRun(states, events) && a <= b < |states| && !IsStopped(events) && Steps(events[a..b]) >= 3
    requires states[a].pc.Head? || states[a].pc.Locking? || states[a].pc.Waiting?
    ensures exists k :: a <= k < b && Takes(states, events, k)
  {
    TakesOrGoesOn(states, events, a, b);
  }

  /** Where the consumer can be `n` steps later, if it has not taken buffers in hand. */
  predicate IsLater(from: Pc, n: nat, to: Pc) {
    || (n == 0 && to == from)
    || (n == 1 && ((from.Head? && to.Locking?) || (from.Locking? && to.Waiting?)))
    || (n == 2 && from.Head? && to.Waiting?)
  }

  lemma {:induction false} TakesOrGoesOn(states: seq<State>, events: seq<Event>, a: nat, b: nat)
    requires IsRun(states, events) && a <= b < |states| && !IsStopped(events)
    requires states[a].pc.Head? || states[a].pc.Locking? || states[a].pc.Waiting?
    ensures || (exists k :: a <= k < b && Takes(states, events, k))
            || IsLater(states[a].pc, Steps(events[a..b]), states[b].pc)
    decreases b - a
  {
    if a == b {
      assert events[a..b] == [];
    } else {
      var init, last := events[a..b - 1], events[b - 1];
      assert events[a..b][..b - a - 1] == init && events[a..b][b - a - 1] == last;
      TakesOrGoesOn(states, events, a, b - 1);
      if IsLater(states[a].pc, Steps(init), states[b - 1].pc) && !Takes(states, events, b - 1) {
        RotationIsSafe(states, events, b - 1);
        RunsRecord(states, events, b - 1);
        NotStoppedYet(events, b - 1);
        GoesOn(states[a].pc, Steps(init), states[b - 1], last);
      }
    }
  }

  lemma GoesOn(from: Pc, n: nat, s: State, e: Event)
    requires Rotation(s) && s.running && (from.Head? || from.Locking? || from.Waiting?) && IsLater(from, n, s.pc)
    requires e.ConsumerEvent? ==> !s.pc.Waiting? && (s.pc.Locking? ==> s.buffers == [])
    ensures IsLater(from, if e.ConsumerEvent? then n + 1 else n, Step(s, e).pc)
  {
  }

  // ---------------------------------------------------------------- everything gets written

  ghost predicate AreShort(events: seq<Event>) {
    forall j :: 0 <= j < |events| && events[j].AppendEvent? ==> |events[j].msg| < SIZE
  }

  lemma {:induction false} AppendedGrows(states: seq<State>, events: seq<Event>, a: nat, b: nat)
    requires IsRun(states, events) && a <= b < |states|
    ensures states[a].appended <= states[b].appended
    decreases b - a
  {
    if a < b {
      AppendedGrows(states, events, a, b - 1);
      RotationIsSafe(states, events, b - 1);
      StepRecords(states[b - 1], events[b - 1]);
    }
  }

  /** The current buffer has nothing of the first `n` bytes appended, or no full buffer waits. */
  ghost predicate IsFresh(s: State, n: nat)
    requires s.current.Buf?
  {
    |s.current.content| + n <= |s.appended| || s.buffers == []
  }

  lemma StaysFresh(s: State, e: Event, n: nat)
    requires Rotation(s) && n <= |s.appended| && (e.AppendEvent? ==> |e.msg| < SIZE) && IsFresh(s, n)
    ensures Rotation(Step(s, e)) && IsFresh(Step(s, e), n) && n <= |Step(s, e).appended|
  {
    StepKeeps(s, e);
    if e.AppendEvent? {
      HandsOverIffFull(s, e.msg);
    }
  }

  lemma {:induction false} FreshAfterTaking(states: seq<State>, events: seq<Event>, k: nat, j: nat)
    requires IsRun(states, events) && AreShort(events) && Takes(states, events, k) && k < j < |states|
    ensures Rotation(states[j]) && |states[k].appended| <= |states[j].appended|
    ensures IsFresh(states[j], |states[k].appended|)
    decreases j
  {
    RotationIsSafe(states, events, j - 1);
    if j == k + 1 {
      StepKeeps(states[k], events[k]);
    } else {
      FreshAfterTaking(states, events, k, j - 1);
      StaysFresh(states[j - 1], events[j - 1], |states[k].appended|);
    }
  }

  /** What is taken in hand, and with it what was written before: all of the log if the consumer waited for it, and
      all but the current buffer otherwise. */
  lemma InHand(s: State)
    requires Rotation(s) && (s.pc.Waiting? || (s.pc.Locking? && s.buffers != []))
    ensures var s' := ConsumerStep(s);
            && s'.pc == Writing(0) && s'.written == s.written
            && Log(s) == (s'.written + Concat(s'.toWrite)) + if s.pc.Waiting? then "" else s.current.content
  {
    if s.pc.Waiting? {
      ConcatAppend(s.buffers, s.current.content);
    }
  }

  /** When the consumer has taken buffers in hand twice, and has written those, the file has everything that was
      appended up to the first time, and nothing else: so a message gets written unless the thread is stopped,
      whatever is appended after it. */
  lemma AppendedIsWritten(states: seq<State>, events: seq<Event>, a: nat, k: nat, k': nat, b: nat)
    requires IsRun(states, events) && AreShort(events) && a <= k < k' < b < |states|
    requires Takes(states, events, k) && Takes(states, events, k') && events[b - 1].ConsumerEvent?
    requires Steps(events[k' + 1..b]) == |states[k' + 1].toWrite| + 1
    ensures MessagesOf(events[..a]) <= states[b].written
  {
    var s, s' := states[k'], states[k' + 1];
    LogIsConserved(states, events, k');
    InHand(s);
    assert s'.toWrite[0..] == s'.toWrite;
    assert k' + 1 < b by {
      assert events[k' + 1..k' + 1] == [];
    }
    WritesAll(states, events, k' + 1, b);
    FreshAfterTaking(states, events, k, k');
    AppendedGrows(states, events, a, k);
    AppendedGrows(states, events, a, k');
    RunsRecord(states, events, a);
    assert states[b].written <= s.appended;
  }

  /** If the consumer waited for what it took, once is enough. */
  lemma AwaitedIsWritten(states: seq<State>, events: seq<Event>, k: nat, b: nat)
    requires IsRun(states, events) && AreShort(events) && k + 1 < b < |states| && events[k].ConsumerEvent?
    requires states[k].pc.Waiting? && events[b - 1].ConsumerEvent?
    requires Steps(events[k + 1..b]) == |states[k + 1].toWrite| + 1
    ensures states[b].written == MessagesOf(events[..k])
  {
    LogIsConserved(states, events, k);
    InHand(states[k]);
    assert states[k + 1].toWrite[0..] == states[k + 1].toWrite;
    WritesAll(states, events, k + 1, b);
    RunsRecord(states, events, k);
  }
}
