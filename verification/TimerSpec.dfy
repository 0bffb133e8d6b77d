/** The timer queue as a transition system: two sets of timers, a batch of expired ones being run, and a
    one-shot alarm. */
module TimerSpec {
  /** A timer object, but for its expiration: which one it is, its address, which breaks ties in the
      ordered set, and how it repeats. */
  datatype Timer = Timer(serial: nat, addr: nat, isInterval: bool, interval: int)

  /** A `double` cast to an integer: towards zero. */
  function Truncated(x: real): int {
    if x >= 0.0 then x.Floor else 0 - (0.0 - x).Floor
  }

  /** `product` is `exact` as doubles round it: to within one part in 2^53, and, as long as whole numbers are doubles,
      never past one. */
  predicate IsRounded(product: real, exact: real) {
    && (exact >= 0.0 ==> -exact <= (product - exact) * 9007199254740992.0 <= exact)
    && (exact <= 0.0 ==> exact <= (product - exact) * 9007199254740992.0 <= -exact)
    && (-9007199254740992.0 <= exact <= 9007199254740992.0 ==>
          exact.Floor as real <= product <= (if exact.Floor as real == exact then exact else exact.Floor as real + 1.0))
  }

  /** The constructor, with the interval in seconds, and in microseconds as doubles multiply.  What repeats never goes
      back in time; below a microsecond it does not go forward either.  The interval is that in whole microseconds,
      but for one that is rounded up to the next. */
  function NewTimer(serial: nat, addr: nat, interval: real, product: real): (t: Timer)
    requires IsRounded(product, interval * 1000000.0)
    ensures t.isInterval <==> interval > 0.0
    ensures t.isInterval ==> t.interval >= 0 && t.interval as real <= product < t.interval as real + 1.0
    ensures t.isInterval && t.interval == 0 <==> 0.0 < interval && product < 1.0
    ensures 0.0 < interval * 1000000.0 <= 9007199254740992.0 ==>
              var whole := (interval * 1000000.0).Floor;
              t.interval == if product == whole as real + 1.0 then whole + 1 else whole
  {
    Timer(serial, addr, interval > 0.0, Truncated(product))
  }

  /** An instance: the double 0.29 is less, but comes to 290000 microseconds. */
  lemma RoundedUp(serial: nat, addr: nat)
    ensures var interval := 0.289999999999999980015985556747182272374629974365234375;
            && IsRounded(290000.0, interval * 1000000.0) && (interval * 1000000.0).Floor == 289999
            && NewTimer(serial, addr, interval, 290000.0).interval == 290000
  {
  }

  /** `Timer::restart`. */
  function Restarted(t: Timer, now: int): int {
    if t.isInterval then now + t.interval else 0
  }

  /** `shared_ptr<Timer>`. */
  datatype Ptr = Null | To(t: Timer)

  datatype Entry = Entry(when: int, timer: Ptr)

  /** `TimerQueue::Compare`: by time, then by address, null last. */
  predicate Less(l: Entry, r: Entry) {
    if l.when == r.when then
      if l.timer.Null? then false
      else if r.timer.Null? then true
      else l.timer.t.addr < r.timer.t.addr
    else l.when < r.when
  }

  /** It is a strict weak order, and ties are pointers to one address. */
  lemma LessIsStrictWeakOrder(a: Entry, b: Entry, c: Entry)
    ensures !Less(a, a)
    ensures Less(a, b) && Less(b, c) ==> Less(a, c)
    ensures !Less(a, b) && !Less(b, a) && !Less(b, c) && !Less(c, b) ==> !Less(a, c) && !Less(c, a)
    ensures !Less(a, b) && !Less(b, a) <==>
            a.when == b.when && (a.timer.Null? <==> b.timer.Null?) && (a.timer.To? ==> a.timer.t.addr == b.timer.t.addr)
  {
  }

  // ---------------------------------------------------------------- the ordered set

  ghost predicate Sorted(q: seq<Entry>) {
    && (forall i :: 0 <= i < |q| ==> q[i].timer.To?)
    && (forall i, j :: 0 <= i < j < |q| ==> Less(q[i], q[j]))
  }

  /** `std::set::insert`. */
  function Insert(q: seq<Entry>, e: Entry): seq<Entry> {
    if q == [] || Less(e, q[0]) then [e] + q
    else if Less(q[0], e) then [q[0]] + Insert(q[1..], e)
    else q
  }

  /** `std::set::erase` by key. */
  function Erase(q: seq<Entry>, e: Entry): seq<Entry> {
    if q == [] then q
    else if !Less(q[0], e) && !Less(e, q[0]) then q[1..]
    else [q[0]] + Erase(q[1..], e)
  }

  /** `std::set::lower_bound`: how many entries come before the key. */
  function LowerBound(q: seq<Entry>, key: Entry): (k: nat)
    ensures k <= |q|
  {
    if q == [] || !Less(q[0], key) then 0 else 1 + LowerBound(q[1..], key)
  }

  /** In a sorted sequence the first entry is before all others. */
  lemma SortedHead(q: seq<Entry>, e: Entry)
    requires Sorted(q) && q != []
    ensures Sorted(q[1..])
    ensures e in q <==> e == q[0] || e in q[1..]
    ensures e in q[1..] ==> Less(q[0], e)
  {
    assert q == [q[0]] + q[1..];
  }

  lemma SortedCons(e: Entry, q: seq<Entry>)
    requires Sorted(q) && e.timer.To? && (q != [] ==> Less(e, q[0]))
    ensures Sorted([e] + q)
  {
  }

  lemma {:induction false} InsertSorted(q: seq<Entry>, e: Entry)
    requires Sorted(q) && e.timer.To?
    requires forall x :: x in q ==> x.timer.t.addr != e.timer.t.addr
    ensures Sorted(Insert(q, e))
    ensures forall x :: x in Insert(q, e) <==> x == e || x in q
    ensures Insert(q, e)[0] == if q == [] || Less(e, q[0]) then e else q[0]
  {
    if q == [] || Less(e, q[0]) {
      SortedCons(e, q);
    } else {
      assert q == [q[0]] + q[1..];
      assert q[0] in q;
      SortedHead(q, e);
      InsertSorted(q[1..], e);
      var rest := Insert(q[1..], e);
      SortedCons(q[0], rest);
    }
  }

  /** Everything up to now comes before the null key at now, and nothing after. */
  lemma {:induction false} LowerBoundSplits(q: seq<Entry>, now: int)
    requires Sorted(q)
    ensures var k := LowerBound(q, Entry(now, Null));
            && (forall i :: 0 <= i < k ==> q[i].when <= now)
            && (forall i :: k <= i < |q| ==> q[i].when > now)
  {
    if q == [] {
    } else if !Less(q[0], Entry(now, Null)) {
      assert q[0].when > now;
      assert forall i :: 0 < i < |q| ==> Less(q[0], q[i]);
    } else {
      LowerBoundSplits(q[1..], now);
    }
  }

  lemma {:induction false} EraseFinds(q: seq<Entry>, e: Entry)
    requires Sorted(q) && e in q
    ensures Sorted(Erase(q, e))
    ensures forall x :: x in Erase(q, e) <==> x != e && x in q
    ensures Erase(q, e) != [] ==> Erase(q, e)[0] == if e == q[0] then q[1] else q[0]
    ensures |Erase(q, e)| == |q| - 1
  {
    assert q == [q[0]] + q[1..];
    SortedHead(q, e);
    if q[0] == e {
      SortedAbsent(q);
    } else {
      EraseFinds(q[1..], e);
      var rest := Erase(q[1..], e);
      assert rest != [] ==> rest[0] in q[1..];
      SortedCons(q[0], rest);
      SortedAbsent(q);
    }
  }

  lemma SortedAbsent(q: seq<Entry>)
    requires Sorted(q) && q != []
    ensures q[0] !in q[1..]
  {
    forall i | 0 <= i < |q| - 1
      ensures q[1..][i] != q[0]
    {
      assert Less(q[0], q[i + 1]);
    }
  }

  // ---------------------------------------------------------------- the queue

  /** The one-shot timerfd: when it was set, and when it goes off. */
  datatype Alarm = Disarmed | Armed(at: int, deadline: int)

  /** `known` are the timers inserted so far, `exp` their expirations.  While the alarm is being handled,
      `batch` holds the expired entries, of which the callbacks of the first `ran` have been called, and
      `now` is the time read at its beginning.  `runs` records every callback with that time. */
  datatype State = State(known: set<Timer>, exp: map<Timer, int>, timers: seq<Entry>, active: set<Timer>,
                         doing: bool, canceling: set<Timer>, batch: seq<Entry>, ran: nat, now: int,
                         alarm: Alarm, runs: seq<(Timer, int)>)

  const START := State({}, map[], [], {}, false, {}, [], 0, 0, Disarmed, [])

  const FLOOR := 100

  /** `resetTimerfd`, at time `clock`: never less than 100 microseconds ahead. */
  function Arm(when: int, clock: int): Alarm {
    Armed(clock, clock + (if when - clock < FLOOR then FLOOR else when - clock))
  }

  function InsertTimer(s: State, t: Timer): State
    requires t in s.exp
  {
    s.(timers := Insert(s.timers, Entry(s.exp[t], To(t))), active := s.active + {t})
  }

  /** `addTimer`, as its functor runs on the loop. */
  function Add(s: State, t: Timer, when: int, clock: int): State {
    var s' := InsertTimer(s.(known := s.known + {t}, exp := s.exp[t := when]), t);
    if s.timers == [] || when < s.timers[0].when then s'.(alarm := Arm(when, clock)) else s'
  }

  /** `cancelTimer`, as its functor runs on the loop. */
  function Cancel(s: State, t: Timer): State
    requires t in s.active ==> t in s.exp
  {
    if t in s.active then s.(timers := Erase(s.timers, Entry(s.exp[t], To(t))), active := s.active - {t})
    else if s.doing then s.(canceling := s.canceling + {t})
    else s
  }

  function TimersOf(es: seq<Entry>): set<Timer> {
    set e | e in es && e.timer.To? :: e.timer.t
  }

  /** The alarm has gone off: the handler takes the expired entries out. */
  function Fire(s: State, now: int): State {
    var k := LowerBound(s.timers, Entry(now, Null));
    s.(batch := s.timers[..k], timers := s.timers[k..], active := s.active - TimersOf(s.timers[..k]),
       doing := true, canceling := {}, ran := 0, now := now, alarm := Disarmed)
  }

  /** The callback of the next entry. */
  function RunNext(s: State): State
    requires s.ran < |s.batch| && s.batch[s.ran].timer.To?
  {
    s.(runs := s.runs + [(s.batch[s.ran].timer.t, s.now)], ran := s.ran + 1)
  }

  /** A timer goes back in, an interval from now. */
  function Back(s: State, t: Timer): State {
    InsertTimer(s.(exp := s.exp[t := Restarted(t, s.now)]), t)
  }

  /** Interval timers of the batch that were not cancelled go back in. */
  function Reinsert(s: State, es: seq<Entry>): State
    decreases |es|
  {
    if es == [] then s
    else
      if es[0].timer.To? && es[0].timer.t.isInterval && es[0].timer.t !in s.canceling then
        Reinsert(Back(s, es[0].timer.t), es[1..])
      else Reinsert(s, es[1..])
  }

  /** The end of the handler, with `clock` the time read when the alarm is set again. */
  function Finish(s: State, clock: int): State {
    var s := Reinsert(s.(doing := false), s.batch).(batch := [], ran := 0);
    if s.timers != [] && s.timers[0].when > 0 then s.(alarm := Arm(s.timers[0].when, clock)) else s
  }

  // ---------------------------------------------------------------- what every step keeps

  function Live(s: State): set<Timer> {
    s.active + TimersOf(s.batch)
  }

  ghost predicate DistinctAddresses(ts: set<Timer>) {
    forall t, t' :: t in ts && t' in ts && t.addr == t'.addr ==> t == t'
  }

  /** The two sets hold the same timers, under the expirations these still have. */
  ghost predicate SetsAgree(s: State) {
    && Sorted(s.timers)
    && s.exp.Keys == s.known && s.active <= s.known
    && (forall e :: e in s.timers ==> e.timer.t in s.active && e.when == s.exp[e.timer.t])
    && (forall t :: t in s.active ==> Entry(s.exp[t], To(t)) in s.timers)
  }

  /** The batch is apart from the sets, and expired. */
  ghost predicate BatchOk(s: State) {
    && s.ran <= |s.batch| && (!s.doing ==> s.batch == [])
    && (forall i :: 0 <= i < |s.batch| ==>
          s.batch[i].timer.To? && s.batch[i].timer.t in s.exp && s.batch[i].timer.t !in s.active &&
          s.exp[s.batch[i].timer.t] <= s.now)
    && (forall i, j :: 0 <= i < j < |s.batch| ==> s.batch[i].timer != s.batch[j].timer)
  }

  /** The alarm goes off by the earliest expiration, or 100 microseconds after it was set. */
  ghost predicate Timely(s: State) {
    s.timers != [] ==>
      s.alarm.Armed? && (s.alarm.deadline <= s.timers[0].when || s.alarm.deadline <= s.alarm.at + FLOOR)
  }

  ghost predicate Inv(s: State) {
    && SetsAgree(s) && BatchOk(s) && DistinctAddresses(Live(s))
    && (!s.doing || s.timers == [] || s.timers[0].when <= 0 ==> Timely(s))
    && (s.doing ==> s.now > 0)
    && (forall t :: t in s.known && t.isInterval ==> t.interval >= 0)
  }

  /** A timer can be added once, and no live timer has its address. */
  ghost predicate CanAdd(s: State, t: Timer) {
    && t !in s.known && (t.isInterval ==> t.interval >= 0)
    && forall t' :: t' in Live(s) ==> t'.addr != t.addr
  }

  lemma AddKeeps(s: State, t: Timer, when: int, clock: int)
    requires Inv(s) && CanAdd(s, t)
    ensures Inv(Add(s, t, when, clock))
  {
    AddSetsAgree(s, t, when, clock);
    AddBatchOk(s, t, when, clock);
    AddDistinct(s, t, when, clock);
  }

  lemma AddBatchOk(s: State, t: Timer, when: int, clock: int)
    requires BatchOk(s) && CanAdd(s, t) && s.exp.Keys == s.known
    ensures BatchOk(Add(s, t, when, clock))
  {
  }

  lemma AddDistinct(s: State, t: Timer, when: int, clock: int)
    requires DistinctAddresses(Live(s)) && CanAdd(s, t)
    ensures DistinctAddresses(Live(Add(s, t, when, clock)))
  {
    assert Live(Add(s, t, when, clock)) == Live(s) + {t};
  }

  lemma AddSetsAgree(s: State, t: Timer, when: int, clock: int)
    requires SetsAgree(s) && CanAdd(s, t)
    ensures SetsAgree(Add(s, t, when, clock))
    ensures Add(s, t, when, clock).timers[0].when == if s.timers == [] ||
            when < s.timers[0].when then when else s.timers[0].when
  {
    assert forall x :: x in s.timers ==> x.timer.t in Live(s);
    InsertSorted(s.timers, Entry(when, To(t)));
    assert Add(s, t, when, clock).timers == Insert(s.timers, Entry(when, To(t)));
    assert s.timers != [] ==> s.timers[0] in s.timers;
  }

  lemma CancelKeeps(s: State, t: Timer)
    requires Inv(s)
    ensures Inv(Cancel(s, t))
  {
    if t in s.active {
      var e := Entry(s.exp[t], To(t));
      EraseFinds(s.timers, e);
      var s' := Cancel(s, t);
      assert s'.timers == Erase(s.timers, e);
      forall x | x in s'.timers
        ensures x.timer.t in s'.active && x.when == s'.exp[x.timer.t]
      {
        assert x in Erase(s.timers, e);
        assert x == Entry(s.exp[x.timer.t], To(x.timer.t));
      }
      assert Live(s') <= Live(s);
      if s'.timers != [] {
        if e == s.timers[0] {
          assert Less(s.timers[0], s.timers[1]);
        }
      }
    }
  }

  /** Expired are exactly the entries up to now. */
  lemma FireSplits(s: State, now: int)
    requires Sorted(s.timers)
    ensures forall e :: e in Fire(s, now).batch <==> e in s.timers && e.when <= now
    ensures forall e :: e in Fire(s, now).timers <==> e in s.timers && e.when > now
    ensures Sorted(Fire(s, now).batch) && Sorted(Fire(s, now).timers)
  {
    var q := s.timers;
    var k := LowerBound(q, Entry(now, Null));
    LowerBoundSplits(q, now);
    SplitMembers(q, k, now);
    SortedSplit(q, k);
  }

  lemma SplitMembers(q: seq<Entry>, k: nat, now: int)
    requires k <= |q|
    requires forall i :: 0 <= i < k ==> q[i].when <= now
    requires forall i :: k <= i < |q| ==> q[i].when > now
    ensures forall e :: e in q[..k] <==> e in q && e.when <= now
    ensures forall e :: e in q[k..] <==> e in q && e.when > now
  {
    assert q == q[..k] + q[k..];
  }

  lemma FireSetsAgree(s: State, now: int)
    requires SetsAgree(s)
    ensures SetsAgree(Fire(s, now))
    ensures forall t :: t in TimersOf(Fire(s, now).batch) <==> t in s.active && s.exp[t] <= now
  {
    FireSplits(s, now);
    var s' := Fire(s, now);
    forall t | t in s.active && s.exp[t] <= now
      ensures t in TimersOf(s'.batch)
    {
      assert Entry(s.exp[t], To(t)) in s'.batch;
    }
    forall t | t in TimersOf(s'.batch)
      ensures t in s.active && s.exp[t] <= now
    {
      var e :| e in s'.batch && e.timer == To(t);
      assert e in s.timers;
    }
  }

  lemma FireBatchOk(s: State, now: int)
    requires SetsAgree(s)
    ensures BatchOk(Fire(s, now))
  {
    FireSplits(s, now);
    FireSetsAgree(s, now);
    var s' := Fire(s, now);
    forall i | 0 <= i < |s'.batch|
      ensures s'.batch[i].timer.To? && s'.batch[i].timer.t in s'.exp && s'.batch[i].timer.t !in s'.active &&
              s'.exp[s'.batch[i].timer.t] <= now
    {
      assert s'.batch[i] in s'.batch;
    }
    forall i, j | 0 <= i < j < |s'.batch|
      ensures s'.batch[i].timer != s'.batch[j].timer
    {
      assert s'.batch[i] in s'.batch && s'.batch[j] in s'.batch;
      assert Less(s'.batch[i], s'.batch[j]);
    }
  }

  lemma FireKeeps(s: State, now: int)
    requires Inv(s) && !s.doing && now > 0
    ensures Inv(Fire(s, now))
  {
    FireSplits(s, now);
    FireSetsAgree(s, now);
    FireBatchOk(s, now);
    var s' := Fire(s, now);
    assert Live(s') <= Live(s);
    if s'.timers != [] {
      assert s'.timers[0] in s'.timers;
    }
  }

  lemma SortedSplit(q: seq<Entry>, k: nat)
    requires Sorted(q) && k <= |q|
    ensures Sorted(q[..k]) && Sorted(q[k..])
    ensures forall e :: e in q[..k] ==> e !in q[k..]
  {
    forall i, j | 0 <= i < k && 0 <= j < |q| - k
      ensures q[..k][i] != q[k..][j]
    {
      assert Less(q[i], q[k + j]);
    }
  }

  lemma RunNextKeeps(s: State)
    requires Inv(s) && s.doing && s.ran < |s.batch|
    ensures Inv(RunNext(s))
  {
  }

  /** Entries that can go back in one after the other. */
  ghost predicate Reinsertable(s: State, es: seq<Entry>) {
    && (forall i :: 0 <= i < |es| ==> es[i].timer.To? && es[i].timer.t in s.exp && es[i].timer.t !in s.active)
    && (forall i, j :: 0 <= i < j < |es| ==> es[i].timer != es[j].timer)
    && DistinctAddresses(s.active + TimersOf(es))
  }

  predicate GoesBack(s: State, t: Timer) {
    t.isInterval && t !in s.canceling
  }

  /** The first entry is apart from the others, which still can go back in after it. */
  lemma ReinsertNext(s: State, es: seq<Entry>)
    requires Reinsertable(s, es) && es != []
    ensures es[0].timer.To? && DistinctAddresses(s.active + {es[0].timer.t})
    ensures TimersOf(es) == {es[0].timer.t} + TimersOf(es[1..]) && es[0].timer.t !in TimersOf(es[1..])
    ensures Reinsertable(s, es[1..]) && Reinsertable(Back(s, es[0].timer.t), es[1..])
  {
    var t := es[0].timer.t;
    TimersOfCons(es);
    assert forall i :: 0 <= i < |es| - 1 ==> es[1..][i].timer != es[0].timer;
    assert Back(s, t).active + TimersOf(es[1..]) == s.active + TimersOf(es);
    assert s.active + TimersOf(es[1..]) <= s.active + TimersOf(es);
  }

  lemma {:induction false} ReinsertFrame(s: State, es: seq<Entry>)
    ensures var s' := Reinsert(s, es); s' == s.(exp := s'.exp, timers := s'.timers, active := s'.active)
    decreases |es|
  {
    if es != [] {
      var e := es[0];
      if e.timer.To? && GoesBack(s, e.timer.t) {
        ReinsertFrame(Back(s, e.timer.t), es[1..]);
      } else {
        ReinsertFrame(s, es[1..]);
      }
    }
  }

  lemma {:induction false} ReinsertEffect(s: State, es: seq<Entry>)
    requires Reinsertable(s, es)
    ensures forall t :: t in Reinsert(s, es).active <==> t in s.active || (t in TimersOf(es) && GoesBack(s, t))
    ensures forall t :: t in s.exp ==>
              && t in Reinsert(s, es).exp
              && Reinsert(s, es).exp[t] == if t in TimersOf(es) && GoesBack(s, t) then s.now + t.interval else s.exp[t]
    decreases |es|
  {
    if es != [] {
      ReinsertNext(s, es);
      ReinsertEffect(if GoesBack(s, es[0].timer.t) then Back(s, es[0].timer.t) else s, es[1..]);
    }
  }

  lemma {:induction false} ReinsertSetsAgree(s: State, es: seq<Entry>)
    requires SetsAgree(s) && Reinsertable(s, es)
    ensures SetsAgree(Reinsert(s, es))
    decreases |es|
  {
    if es != [] {
      var t := es[0].timer.t;
      ReinsertNext(s, es);
      if GoesBack(s, t) {
        ReinsertOne(s, t);
        ReinsertSetsAgree(Back(s, t), es[1..]);
      } else {
        ReinsertSetsAgree(s, es[1..]);
      }
    }
  }

  /** What goes back in are the interval timers nobody cancelled, each an interval from now. */
  lemma ReinsertKeeps(s: State, es: seq<Entry>)
    requires SetsAgree(s) && Reinsertable(s, es)
    ensures var s' := Reinsert(s, es);
            && SetsAgree(s') && s'.active <= s.active + TimersOf(es)
            && s' == s.(exp := s'.exp, timers := s'.timers, active := s'.active)
    ensures forall t :: t in Reinsert(s, es).active <==> t in s.active || (t in TimersOf(es) && GoesBack(s, t))
    ensures forall t :: t in s.exp ==>
              Reinsert(s, es).exp[t] == if t in TimersOf(es) && GoesBack(s, t) then s.now + t.interval else s.exp[t]
  {
    ReinsertFrame(s, es);
    ReinsertEffect(s, es);
    ReinsertSetsAgree(s, es);
  }

  lemma TimersOfCons(es: seq<Entry>)
    requires es != [] && es[0].timer.To?
    requires forall i :: 0 < i < |es| ==> es[i].timer != es[0].timer
    ensures TimersOf(es) == {es[0].timer.t} + TimersOf(es[1..])
    ensures es[0].timer.t !in TimersOf(es[1..])
  {
    assert es == [es[0]] + es[1..];
  }

  lemma ReinsertOne(s: State, t: Timer)
    requires SetsAgree(s) && t in s.exp && t !in s.active && DistinctAddresses(s.active + {t})
    ensures SetsAgree(Back(s, t))
  {
    assert forall x :: x in s.timers ==> x.timer.t in s.active + {t};
    InsertSorted(s.timers, Entry(Restarted(t, s.now), To(t)));
  }

  /** Timers that go back in expire in the future, so a first entry in the past stays first. */
  lemma {:induction false} ReinsertFirst(s: State, es: seq<Entry>)
    requires SetsAgree(s) && Reinsertable(s, es) && s.now > 0
    requires forall t :: t in s.exp && t.isInterval ==> t.interval >= 0
    ensures var q := Reinsert(s, es).timers;
            q != [] && q[0].when <= 0 ==> s.timers != [] && s.timers[0].when == q[0].when
    decreases |es|
  {
    if es != [] {
      var t := es[0].timer.t;
      ReinsertNext(s, es);
      if GoesBack(s, t) {
        ReinsertOne(s, t);
        InsertFirst(s.timers, Entry(Restarted(t, s.now), To(t)));
        ReinsertFirst(Back(s, t), es[1..]);
      } else {
        ReinsertFirst(s, es[1..]);
      }
    }
  }

  lemma InsertFirst(q: seq<Entry>, e: Entry)
    requires e.when > 0
    ensures Insert(q, e)[0].when <= 0 ==> q != [] && q[0].when == Insert(q, e)[0].when
  {
  }

  lemma FinishKeeps(s: State, clock: int)
    requires Inv(s) && s.doing
    ensures Inv(Finish(s, clock))
  {
    var s0 := s.(doing := false);
    ReinsertKeeps(s0, s.batch);
    ReinsertFirst(s0, s.batch);
    var s1 := Reinsert(s0, s.batch);
    var s' := Finish(s, clock);
    assert s'.timers == s1.timers;
    assert Live(s') <= Live(s);
  }

  // ---------------------------------------------------------------- runs of the loop

  /** What happens on the loop's thread.  Between `Fired` and `Finished` the callbacks run, and whatever
      they add or cancel happens between them. */
  datatype Event =
    | Added(t: Timer, when: int, clock: int)
    | Canceled(t: Timer)
    | Fired(now: int)
    | Ran
    | Finished(clock: int)

  /** The clock is positive; a timer is inserted once; the handler is not entered twice. */
  ghost predicate Enabled(s: State, e: Event) {
    match e
    case Added(t, _, _) => CanAdd(s, t)
    case Canceled(_) => true
    case Fired(now) => !s.doing && now > 0
    case Ran => s.doing && s.ran < |s.batch|
    case Finished(_) => s.doing && s.ran == |s.batch|
  }

  function Step(s: State, e: Event): State
    requires e.Ran? ==> s.ran < |s.batch| && s.batch[s.ran].timer.To?
    requires e.Canceled? ==> (e.t in s.active ==> e.t in s.exp)
  {
    match e
    case Added(t, when, clock) => Add(s, t, when, clock)
    case Canceled(t) => Cancel(s, t)
    case Fired(now) => Fire(s, now)
    case Ran => RunNext(s)
    case Finished(clock) => Finish(s, clock)
  }

  lemma StepKeeps(s: State, e: Event)
    requires Inv(s) && Enabled(s, e)
    ensures Inv(Step(s, e))
  {
    match e
    case Added(t, when, clock) => AddKeeps(s, t, when, clock);
    case Canceled(t) => CancelKeeps(s, t);
    case Fired(now) => FireKeeps(s, now);
    case Ran => RunNextKeeps(s);
    case Finished(clock) => FinishKeeps(s, clock);
  }

  /** Any two runs of one timer are of an interval timer, and an interval apart; and the runs to come
      will be as well. */
  ghost predicate Spaced(s: State) {
    && (forall i, j :: 0 <= i < j < |s.runs| && s.runs[i].0 == s.runs[j].0 ==>
          s.runs[i].0.isInterval && s.runs[j].1 >= s.runs[i].1 + s.runs[i].0.interval)
    && (forall i :: 0 <= i < |s.runs| ==> s.runs[i].0 in s.known)
    && (forall i :: 0 <= i < |s.runs| && s.runs[i].0 in s.active && s.runs[i].0 in s.exp ==>
          s.runs[i].0.isInterval && s.exp[s.runs[i].0] >= s.runs[i].1 + s.runs[i].0.interval)
    && (forall i, k :: 0 <= i < |s.runs| && s.ran <= k < |s.batch| && s.batch[k].timer == To(s.runs[i].0) ==>
          s.runs[i].0.isInterval && s.now >= s.runs[i].1 + s.runs[i].0.interval)
    && (forall i, k :: 0 <= i < |s.runs| && 0 <= k < |s.batch| && s.batch[k].timer == To(s.runs[i].0) ==>
          s.runs[i].1 <= s.now)
  }

  /** The last `n` entries of the record are the first `n` of the batch, in order. */
  ghost predicate Logged(s: State, n: nat) {
    && n <= |s.runs| && n <= |s.batch|
    && forall k :: 0 <= k < n ==>
         s.batch[k].timer == To(s.runs[|s.runs| - n + k].0) && s.runs[|s.runs| - n + k].1 == s.now
  }

  ghost predicate BatchLogged(s: State) {
    Logged(s, s.ran)
  }

  lemma RunNextLogged(s: State)
    requires BatchOk(s) && BatchLogged(s) && s.ran < |s.batch|
    ensures BatchLogged(RunNext(s))
  {
    var s', n := RunNext(s), s.ran;
    forall k | 0 <= k <= n
      ensures var i := |s'.runs| - (n + 1) + k; s'.batch[k].timer == To(s'.runs[i].0) && s'.runs[i].1 == s'.now
    {
      if k < n {
        assert s'.runs[|s'.runs| - (n + 1) + k] == s.runs[|s.runs| - n + k];
      }
    }
  }

  lemma SameLogged(s: State, s': State)
    requires BatchLogged(s) && s'.runs == s.runs && s'.batch == s.batch && s'.ran == s.ran && s'.now == s.now
    ensures BatchLogged(s')
  {
  }

  lemma StepLogged(s: State, e: Event)
    requires Inv(s) && BatchLogged(s) && Enabled(s, e)
    ensures BatchLogged(Step(s, e))
  {
    match e
    case Added(t, when, clock) => SameLogged(s, Add(s, t, when, clock));
    case Canceled(t) => SameLogged(s, Cancel(s, t));
    case Fired(now) => assert Fire(s, now).ran == 0;
    case Ran => RunNextLogged(s);
    case Finished(clock) => assert Finish(s, clock).ran == 0;
  }

  lemma AddSpaced(s: State, t: Timer, when: int, clock: int)
    requires Inv(s) && Spaced(s) && CanAdd(s, t)
    ensures Spaced(Add(s, t, when, clock))
  {
  }

  lemma CancelSpaced(s: State, t: Timer)
    requires Inv(s) && Spaced(s)
    ensures Spaced(Cancel(s, t))
  {
  }

  lemma FireSpaced(s: State, now: int)
    requires Inv(s) && Spaced(s) && !s.doing
    ensures Spaced(Fire(s, now))
  {
    FireSplits(s, now);
    var s' := Fire(s, now);
    forall i, k | 0 <= i < |s'.runs| && 0 <= k < |s'.batch| && s'.batch[k].timer == To(s'.runs[i].0)
      ensures s'.runs[i].0.isInterval && now >= s'.runs[i].1 + s'.runs[i].0.interval && s'.runs[i].1 <= now
    {
      assert s'.batch[k] in s'.batch;
      assert s'.batch[k] in s.timers;
    }
  }

  lemma RunNextSpaced(s: State)
    requires Inv(s) && Spaced(s) && s.doing && s.ran < |s.batch|
    ensures Spaced(RunNext(s))
  {
    var t, s' := s.batch[s.ran].timer.t, RunNext(s);
    forall i | 0 <= i < |s'.runs|
      ensures s'.runs[i] == if i < |s.runs| then s.runs[i] else (t, s.now)
    {
    }
  }

  lemma FinishSpaced(s: State, clock: int)
    requires Inv(s) && Spaced(s) && s.doing && s.ran == |s.batch|
    ensures Spaced(Finish(s, clock))
  {
    ReinsertKeeps(s.(doing := false), s.batch);
    var s' := Finish(s, clock);
    forall i | 0 <= i < |s'.runs| && s'.runs[i].0 in s'.active
      ensures s'.runs[i].0.isInterval && s'.exp[s'.runs[i].0] >= s'.runs[i].1 + s'.runs[i].0.interval
    {
      AgainIsSpaced(s, i, s'.exp[s.runs[i].0]);
    }
    SpacedOutside(s, s');
  }

  /** Outside the handler only the timers in the sets are still to run. */
  lemma SpacedOutside(s: State, s': State)
    requires Spaced(s) && s'.runs == s.runs && s'.known == s.known && s'.batch == []
    requires forall i :: 0 <= i < |s'.runs| && s'.runs[i].0 in s'.active && s'.runs[i].0 in s'.exp ==>
               s'.runs[i].0.isInterval && s'.exp[s'.runs[i].0] >= s'.runs[i].1 + s'.runs[i].0.interval
    ensures Spaced(s')
  {
  }

  /** The next expiration of a timer that has run, when the handler ends. */
  lemma AgainIsSpaced(s: State, i: nat, again: int)
    requires BatchOk(s) && Spaced(s) && s.active <= s.exp.Keys && i < |s.runs|
    requires var t := s.runs[i].0;
             && (t in s.active || (t in TimersOf(s.batch) && GoesBack(s, t)))
             && (t in s.active || again == s.now + t.interval)
             && (t in s.active ==> t in TimersOf(s.batch) || again == s.exp[t])
    ensures s.runs[i].0.isInterval && again >= s.runs[i].1 + s.runs[i].0.interval
  {
    var t := s.runs[i].0;
    if t in s.active {
      ActiveIsNotInBatch(s, t);
    } else {
      var e :| e in s.batch && e.timer == To(t);
      var k :| 0 <= k < |s.batch| && s.batch[k] == e;
      assert s.runs[i].1 <= s.now;
    }
  }

  lemma ActiveIsNotInBatch(s: State, t: Timer)
    requires BatchOk(s) && t in s.active
    ensures t !in TimersOf(s.batch)
  {
    forall e | e in s.batch && e.timer.To?
      ensures e.timer.t != t
    {
      assert e.timer.t !in s.active;
    }
  }

  lemma StepSpaced(s: State, e: Event)
    requires Inv(s) && Spaced(s) && Enabled(s, e)
    ensures Spaced(Step(s, e))
  {
    match e
    case Added(t, when, clock) => AddSpaced(s, t, when, clock);
    case Canceled(t) => CancelSpaced(s, t);
    case Fired(now) => FireSpaced(s, now);
    case Ran => RunNextSpaced(s);
    case Finished(clock) => FinishSpaced(s, clock);
  }

  ghost predicate IsRun(states: seq<State>, events: seq<Event>) {
    && |states| == |events| + 1
    && Inv(states[0])
    && forall k :: 0 <= k < |events| && Inv(states[k]) ==>
         Enabled(states[k], events[k]) && states[k + 1] == Step(states[k], events[k])
  }

  /** Every state of every run from the empty queue: the sets agree, the alarm is in time, and runs are
      spaced; a timer that is not an interval timer therefore runs at most once. */
  lemma {:induction false} RunsAreOk(states: seq<State>, events: seq<Event>, k: nat)
    requires IsRun(states, events) && k < |states| && states[0] == START
    ensures Inv(states[k]) && Spaced(states[k]) && BatchLogged(states[k])
  {
    if k > 0 {
      RunsAreOk(states, events, k - 1);
      StepKeeps(states[k - 1], events[k - 1]);
      StepSpaced(states[k - 1], events[k - 1]);
      StepLogged(states[k - 1], events[k - 1]);
    }
  }

  /** Outside the handler the alarm never goes off later than the earliest expiration there is, but for
      the floor of 100 microseconds from the time it was set. */
  lemma NoLateWakeup(states: seq<State>, events: seq<Event>, k: nat, t: Timer)
    requires IsRun(states, events) && k < |states| && states[0] == START
    requires !states[k].doing && t in states[k].active
    ensures var s := states[k];
            && t in s.exp && s.alarm.Armed?
            && (s.alarm.deadline <= s.exp[t] || s.alarm.deadline <= s.alarm.at + FLOOR)
  {
    RunsAreOk(states, events, k);
    var s := states[k];
    var e := Entry(s.exp[t], To(t));
    var i :| 0 <= i < |s.timers| && s.timers[i] == e;
    assert i > 0 ==> Less(s.timers[0], s.timers[i]);
  }

  /** When the handler ends, every entry that had expired at its beginning has been run, in order. */
  lemma WholeBatchRan(states: seq<State>, events: seq<Event>, k: nat)
    requires IsRun(states, events) && k < |events| && states[0] == START && events[k].Finished?
    ensures Logged(states[k], |states[k].batch|)
  {
    RunsAreOk(states, events, k);
    assert Enabled(states[k], events[k]);
  }

  /** A timer without interval runs at most once in any run of the loop. */
  lemma OneShotRunsOnce(states: seq<State>, events: seq<Event>, k: nat, t: Timer)
    requires IsRun(states, events) && k < |states| && states[0] == START && !t.isInterval
    ensures Count(states[k].runs, t) <= 1
  {
    RunsAreOk(states, events, k);
    OneShotRecord(states[k].runs, t);
  }

  lemma {:induction false} OneShotRecord(runs: seq<(Timer, int)>, t: Timer)
    requires !t.isInterval
    requires forall i, j :: 0 <= i < j < |runs| && runs[i].0 == runs[j].0 ==> runs[i].0.isInterval
    ensures Count(runs, t) <= 1
    ensures Count(runs, t) == 0 <==> forall i :: 0 <= i < |runs| ==> runs[i].0 != t
  {
    if runs != [] {
      var init := runs[..|runs| - 1];
      OneShotRecord(init, t);
      assert forall i :: 0 <= i < |init| ==> init[i] == runs[i];
    }
  }

  // ---------------------------------------------------------------- cancelling

  /** A cancelled timer is in neither set, and will not go back in. */
  ghost predicate Cancelled(s: State, t: Timer) {
    && t in s.known && t !in s.active
    && (t in TimersOf(s.batch) ==> t in s.canceling)
  }

  lemma CancelCancels(s: State, t: Timer)
    requires Inv(s) && t in s.known
    ensures Cancelled(Cancel(s, t), t)
    ensures t in s.active ==> t !in TimersOf(Cancel(s, t).batch)
  {
    if t in TimersOf(s.batch) {
      var e :| e in s.batch && e.timer == To(t);
      var k :| 0 <= k < |s.batch| && s.batch[k] == e;
      assert t !in s.active;
    }
  }

  function Count(runs: seq<(Timer, int)>, t: Timer): nat {
    if runs == [] then 0
    else Count(runs[..|runs| - 1], t) + (if runs[|runs| - 1].0 == t then 1 else 0)
  }

  /** Whether its callback is still to come in the batch being run. */
  function ToCome(s: State, t: Timer): nat {
    if s.ran <= |s.batch| && t in TimersOf(s.batch[s.ran..]) then 1 else 0
  }

  /** How often a timer has run and is to run in the current batch. */
  function RunsDue(s: State, t: Timer): nat {
    Count(s.runs, t) + ToCome(s, t)
  }

  lemma RunNextCounts(s: State, t: Timer)
    requires Inv(s) && s.doing && s.ran < |s.batch|
    ensures RunsDue(RunNext(s), t) == RunsDue(s, t)
  {
    var s' := RunNext(s);
    var b := s.batch[s.ran..];
    TimersOfCons(b);
    assert b[1..] == s'.batch[s'.ran..];
    assert s'.runs[..|s.runs|] == s.runs;
  }

  lemma FinishCancelled(s: State, clock: int, t: Timer)
    requires Inv(s) && s.doing && Cancelled(s, t)
    ensures var s' := Finish(s, clock); Cancelled(s', t) && s'.runs == s.runs && ToCome(s', t) == 0
  {
    ReinsertKeeps(s.(doing := false), s.batch);
  }

  lemma CancelledStep(s: State, e: Event, t: Timer)
    requires Inv(s) && Enabled(s, e) && Cancelled(s, t)
    ensures Cancelled(Step(s, e), t)
    ensures RunsDue(Step(s, e), t) <= RunsDue(s, t)
  {
    match e
    case Added(_, _, _) =>
    case Canceled(_) =>
    case Fired(now) =>
      FireSetsAgree(s, now);
      var b := Step(s, e).batch;
      assert b[0..] == b;
    case Ran => RunNextCounts(s, t);
    case Finished(clock) => FinishCancelled(s, clock, t);
  }

  lemma CancelledNext(states: seq<State>, events: seq<Event>, k: nat, t: Timer)
    requires IsRun(states, events) && k < |events| && states[0] == START && Cancelled(states[k], t)
    ensures Cancelled(states[k + 1], t) && RunsDue(states[k + 1], t) <= RunsDue(states[k], t)
  {
    RunsAreOk(states, events, k);
    CancelledStep(states[k], events[k], t);
  }

  /** After it was cancelled a timer runs at most once more, and only if it was in the batch being run. */
  lemma {:induction false} CancelledRunsAtMostOnce(states: seq<State>, events: seq<Event>, i: nat, j: nat, t: Timer)
    requires IsRun(states, events) && i <= j < |states| && states[0] == START
    requires Cancelled(states[i], t)
    ensures Cancelled(states[j], t)
    ensures RunsDue(states[j], t) <= RunsDue(states[i], t)
    ensures Count(states[j].runs, t) <= Count(states[i].runs, t) + 1
  {
    if i < j {
      CancelledRunsAtMostOnce(states, events, i, j - 1, t);
      CancelledNext(states, events, j - 1, t);
    }
  }
}
