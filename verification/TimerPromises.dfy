/** What each operation of the timer queue does to every timer, and that no timer is lost unless it was cancelled. */
module TimerPromises {
  import opened TimerSpec

  // ---------------------------------------------------------------- one operation

  /** Nothing but the record of what is inserted, when it expires, and the alarm has changed. */
  ghost predicate SameBatch(s: State, s': State) {
    && s'.doing == s.doing && s'.canceling == s.canceling && s'.batch == s.batch && s'.ran == s.ran
    && s'.now == s.now && s'.runs == s.runs
  }

  /** The alarm is for `when`, but 100 microseconds ahead at least. */
  ghost predicate IsArmedFor(a: Alarm, when: int, clock: int) {
    a.Armed? && a.at == clock && a.deadline >= clock + 100 && a.deadline >= when
    && (a.deadline == clock + 100 || a.deadline == when)
  }

  /** Adding inserts just the timer, to expire just when it should; the alarm is set again if and only if it is now
      the first. */
  lemma AddEffect(s: State, t: Timer, when: int, clock: int)
    requires Inv(s) && CanAdd(s, t)
    ensures var s' := Add(s, t, when, clock);
            && SameBatch(s, s') && s'.known == s.known + {t} && s'.exp == s.exp[t := when]
            && s'.active == s.active + {t} && t !in s.active
            && (forall e :: e in s'.timers <==> e in s.timers || e == Entry(when, To(t)))
            && if forall e :: e in s.timers ==> when < e.when then IsArmedFor(s'.alarm, when, clock)
               else s'.alarm == s.alarm
  {
    AddSetsAgree(s, t, when, clock);
    assert forall x :: x in s.timers ==> x.timer.t in Live(s);
    InsertSorted(s.timers, Entry(when, To(t)));
    FirstIsEarliest(s.timers, when);
  }

  lemma FirstIsEarliest(q: seq<Entry>, when: int)
    requires Sorted(q)
    ensures (forall e :: e in q ==> when < e.when) <==> q == [] || when < q[0].when
  {
    if q != [] {
      assert q[0] in q;
      forall e | e in q
        ensures q[0].when <= e.when
      {
        var i :| 0 <= i < |q| && q[i] == e;
        assert i > 0 ==> Less(q[0], q[i]);
      }
    }
  }

  /** Cancelling takes out, or keeps from going back in, just the timer. */
  lemma CancelEffect(s: State, t: Timer)
    requires Inv(s)
    ensures var s' := Cancel(s, t);
            && s'.known == s.known && s'.exp == s.exp && s'.doing == s.doing && s'.batch == s.batch && s'.ran == s.ran
            && s'.now == s.now && s'.runs == s.runs && s'.alarm == s.alarm
            && s'.active == s.active - {t}
            && (forall e :: e in s'.timers <==> e in s.timers && e.timer != To(t))
            && s'.canceling == if t !in s.active && s.doing then s.canceling + {t} else s.canceling
  {
    if t in s.active {
      EraseFinds(s.timers, Entry(s.exp[t], To(t)));
    }
    forall e | e in s.timers
      ensures e.timer == To(t) <==> t in s.active && e == Entry(s.exp[t], To(t))
    {
    }
  }

  /** When the alarm goes off exactly the expired timers leave, and nothing else changes. */
  lemma FireEffect(s: State, now: int)
    requires Inv(s)
    ensures var s' := Fire(s, now);
            && s'.known == s.known && s'.exp == s.exp && s'.runs == s.runs
            && s'.doing && s'.canceling == {} && s'.ran == 0 && s'.now == now && s'.alarm.Disarmed?
            && (forall t :: t in TimersOf(s'.batch) <==> t in s.active && s.exp[t] <= now)
            && (forall t :: t in s'.active <==> t in s.active && s.exp[t] > now)
  {
    FireSetsAgree(s, now);
  }

  lemma RunNextEffect(s: State)
    requires Inv(s) && s.ran < |s.batch|
    ensures var s' := RunNext(s);
            && s' == s.(runs := s'.runs, ran := s'.ran) && s'.ran == s.ran + 1
            && s'.runs == s.runs + [(s.batch[s.ran].timer.t, s.now)]
  {
  }

  function NextExpiration(s: State, t: Timer): int
    requires t in s.exp
  {
    if t in TimersOf(s.batch) && t.isInterval && t !in s.canceling then s.now + t.interval else s.exp[t]
  }

  /** At the end of the handler exactly the interval timers of the batch that were not cancelled go back, an interval
      from its time. */
  lemma FinishEffect(s: State, clock: int)
    requires Inv(s) && s.doing
    ensures var s' := Finish(s, clock);
            && s'.known == s.known && s'.runs == s.runs && s'.now == s.now && s'.canceling == s.canceling
            && !s'.doing && s'.batch == [] && s'.ran == 0
            && (forall t :: t in s'.active <==>
                  t in s.active || (t in TimersOf(s.batch) && t.isInterval && t !in s.canceling))
            && (forall t :: t in s.exp ==> t in s'.exp && s'.exp[t] == NextExpiration(s, t))
  {
    ReinsertKeeps(s.(doing := false), s.batch);
  }

  /** And the alarm is set for the first of them. */
  lemma FinishArms(s: State, clock: int)
    ensures var s' := Finish(s, clock);
            if s'.timers != [] && s'.timers[0].when > 0 then IsArmedFor(s'.alarm, s'.timers[0].when, clock)
            else s'.alarm == s.alarm
  {
    ReinsertFrame(s.(doing := false), s.batch);
  }

  // ---------------------------------------------------------------- nothing is lost

  /** The timer is in the sets or in the batch, where it will not be kept from going back; or it was to run once, and
      has. */
  ghost predicate IsKept(s: State, t: Timer) {
    && t in s.known
    && (t in s.active || t in TimersOf(s.batch) || (!t.isInterval && Count(s.runs, t) > 0))
    && (t in TimersOf(s.batch) ==> t !in s.canceling)
  }

  lemma {:induction false} CountAppend(runs: seq<(Timer, int)>, r: (Timer, int), t: Timer)
    ensures Count(runs + [r], t) == Count(runs, t) + if r.0 == t then 1 else 0
  {
    assert (runs + [r])[..|runs|] == runs;
  }

  lemma {:induction false} CountPositive(runs: seq<(Timer, int)>, i: nat)
    requires i < |runs|
    ensures Count(runs, runs[i].0) > 0
  {
    if i < |runs| - 1 {
      assert runs[..|runs| - 1][i] == runs[i];
      CountPositive(runs[..|runs| - 1], i);
    }
  }

  /** When all of the batch has run, so has each of its timers. */
  lemma BatchHasRun(s: State, t: Timer)
    requires BatchLogged(s) && s.ran == |s.batch| && t in TimersOf(s.batch)
    ensures Count(s.runs, t) > 0
  {
    var e :| e in s.batch && e.timer == To(t);
    var k :| 0 <= k < |s.batch| && s.batch[k] == e;
    CountPositive(s.runs, |s.runs| - s.ran + k);
  }

  lemma StaysKept(s: State, e: Event, t: Timer)
    requires Inv(s) && BatchLogged(s) && Enabled(s, e) && IsKept(s, t) && e != Canceled(t)
    ensures IsKept(Step(s, e), t)
  {
    match e
    case Added(u, when, clock) => AddEffect(s, u, when, clock);
    case Canceled(u) => CancelEffect(s, u);
    case Fired(now) => FireEffect(s, now);
    case Ran =>
      RunNextEffect(s);
      CountAppend(s.runs, (s.batch[s.ran].timer.t, s.now), t);
    case Finished(clock) =>
      FinishEffect(s, clock);
      if t in TimersOf(s.batch) {
        BatchHasRun(s, t);
      }
  }

  lemma AddedIsKept(s: State, t: Timer, when: int, clock: int)
    requires Inv(s) && CanAdd(s, t)
    ensures IsKept(Add(s, t, when, clock), t)
  {
    AddEffect(s, t, when, clock);
    forall e | e in s.batch && e.timer.To?
      ensures e.timer.t != t
    {
      assert e.timer.t in s.exp;
    }
  }

  /** In every run: a timer that was inserted and not cancelled since is in the sets or in the batch, if it is an
      interval timer or has not run yet. */
  lemma {:induction false} NoTimerIsLost(states: seq<State>, events: seq<Event>, i: nat, j: nat, t: Timer)
    requires IsRun(states, events) && i < j < |states| && states[0] == START
    requires events[i].Added? && events[i].t == t && forall k :: i < k < j ==> events[k] != Canceled(t)
    ensures IsKept(states[j], t)
    ensures t.isInterval || Count(states[j].runs, t) == 0 ==>
              t in states[j].active || t in TimersOf(states[j].batch)
    decreases j
  {
    if j == i + 1 {
      FirstKept(states, events, i);
    } else {
      NoTimerIsLost(states, events, i, j - 1, t);
      NextKept(states, events, j - 1, t);
    }
  }

  lemma FirstKept(states: seq<State>, events: seq<Event>, i: nat)
    requires IsRun(states, events) && i < |events| && states[0] == START && events[i].Added?
    ensures IsKept(states[i + 1], events[i].t) && KeepsTime(states[i + 1], events[i].t, events[i].when)
  {
    var s, e := states[i], events[i];
    RunsAreOk(states, events, i);
    AddedIsKept(s, e.t, e.when, e.clock);
    AddEffect(s, e.t, e.when, e.clock);
  }

  lemma NextKept(states: seq<State>, events: seq<Event>, k: nat, t: Timer)
    requires IsRun(states, events) && k < |events| && states[0] == START
    requires IsKept(states[k], t) && events[k] != Canceled(t)
    ensures IsKept(states[k + 1], t)
  {
    RunsAreOk(states, events, k);
    StaysKept(states[k], events[k], t);
  }

  // ---------------------------------------------------------------- nothing is early

  ghost predicate KeepsTime(s: State, t: Timer, when: int) {
    t in s.exp && (Count(s.runs, t) == 0 ==> s.exp[t] == when)
  }

  lemma StaysOnTime(s: State, e: Event, t: Timer, when: int)
    requires Inv(s) && BatchLogged(s) && Enabled(s, e) && KeepsTime(s, t, when)
    ensures KeepsTime(Step(s, e), t, when)
  {
    match e
    case Added(u, when', clock) => AddEffect(s, u, when', clock);
    case Canceled(u) => CancelEffect(s, u);
    case Fired(now) => FireEffect(s, now);
    case Ran =>
      RunNextEffect(s);
      CountAppend(s.runs, (s.batch[s.ran].timer.t, s.now), t);
    case Finished(clock) =>
      FinishEffect(s, clock);
      if t in TimersOf(s.batch) {
        BatchHasRun(s, t);
      }
  }

  /** In every run a timer that was inserted expires when it was to, until it has run, ... */
  lemma {:induction false} ExpiresWhenDue(states: seq<State>, events: seq<Event>, i: nat, j: nat, t: Timer)
    requires IsRun(states, events) && i < j < |states| && states[0] == START
    requires events[i].Added? && events[i].t == t
    ensures KeepsTime(states[j], t, events[i].when)
    decreases j
  {
    if j == i + 1 {
      FirstKept(states, events, i);
    } else {
      ExpiresWhenDue(states, events, i, j - 1, t);
      NextOnTime(states, events, j - 1, t, events[i].when);
    }
  }

  lemma NextOnTime(states: seq<State>, events: seq<Event>, k: nat, t: Timer, when: int)
    requires IsRun(states, events) && k < |events| && states[0] == START && KeepsTime(states[k], t, when)
    ensures KeepsTime(states[k + 1], t, when)
  {
    RunsAreOk(states, events, k);
    StaysOnTime(states[k], events[k], t, when);
  }

  /** ... and does not run before. */
  lemma NeverRunsEarly(states: seq<State>, events: seq<Event>, i: nat, j: nat, t: Timer)
    requires IsRun(states, events) && i < j < |events| && states[0] == START
    requires events[i].Added? && events[i].t == t && events[j].Ran? && Count(states[j].runs, t) == 0
    ensures states[j].ran < |states[j].batch| &&
            (states[j].batch[states[j].ran].timer == To(t) ==> events[i].when <= states[j].now)
  {
    RunsAreOk(states, events, j);
    ExpiresWhenDue(states, events, i, j, t);
    assert Enabled(states[j], events[j]);
  }
}
