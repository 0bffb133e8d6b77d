/** The timer queue as the source keeps it: two sets, the batch of the handler, and the flag and set that
    catch cancellations made by callbacks. */
module TimerQueues {
  import opened TimerSpec
  import opened TimerPromises

  class TimerQueue {
    // the expiration_ field of every timer object
    var expirations: map<Timer, int>
    var timers: seq<Entry>  // std::set<Entry, Compare>, in order
    var activeTimers: set<Timer>
    var isDoingTimerCallback: bool
    var cancelingTimers: set<Timer>
    // the handler's own
    var expired: seq<Entry>
    var ran: nat
    var now: int
    // the timerfd, and every callback made
    var alarm: Alarm
    ghost var known: set<Timer>
    ghost var runs: seq<(Timer, int)>

    ghost function View(): State
      reads this
    {
      State(known, expirations, timers, activeTimers, isDoingTimerCallback, cancelingTimers, expired, ran, now, alarm,
            runs)
    }

    ghost predicate Valid()
      reads this
    {
      Inv(View())
    }

    constructor ()
      ensures Valid() && View() == START
    {
      expirations, timers, activeTimers := map[], [], {};
      isDoingTimerCallback, cancelingTimers := false, {};
      expired, ran, now := [], 0, 0;
      alarm, known, runs := Disarmed, {}, [];
    }

    /** Whether the timer is now the first to expire. */
    method InsertEntry(timer: Timer) returns (earliest: bool)
      requires timer in expirations
      modifies this`timers, this`activeTimers
      ensures View() == InsertTimer(old(View()), timer)
      ensures earliest <==> old(timers) == [] || expirations[timer] < old(timers)[0].when
    {
      earliest := false;
      var when := expirations[timer];
      if timers == [] || when < timers[0].when {
        earliest := true;
      }
      timers := Insert(timers, Entry(when, To(timer)));
      activeTimers := activeTimers + {timer};
    }

    method ResetTimerfd(nextExpiration: int, clock: int)
      modifies this`alarm
      ensures alarm == Arm(nextExpiration, clock)
      ensures clock + FLOOR <= alarm.deadline && (nextExpiration >= clock + FLOOR ==> alarm.deadline == nextExpiration)
    {
      var micro := nextExpiration - clock;
      if micro < 100 {
        micro := 100;
      }
      alarm := Armed(clock, clock + micro);
    }

    method AddTimer(timer: Timer, when: int, clock: int)
      requires Valid() && CanAdd(View(), timer)
      modifies this
      ensures Valid() && View() == Add(old(View()), timer, when, clock)
    {
      AddKeeps(View(), timer, when, clock);
      known := known + {timer};
      expirations := expirations[timer := when];
      var earliest := InsertEntry(timer);
      if earliest {
        ResetTimerfd(expirations[timer], clock);
      }
    }

    method CancelTimer(timer: Timer)
      requires Valid()
      modifies this
      ensures Valid() && View() == Cancel(old(View()), timer)
      ensures timer in old(activeTimers) ==> |timers| == |old(timers)| - 1
      ensures timer in known ==> Cancelled(View(), timer)
      ensures expirations == old(expirations) && expired == old(expired) && ran == old(ran) && alarm == old(alarm)
      ensures activeTimers == old(activeTimers) - {timer}
      ensures forall e :: e in timers <==> e in old(timers) && e.timer != To(timer)
      ensures cancelingTimers == old(cancelingTimers) +
              if timer !in old(activeTimers) && isDoingTimerCallback then {timer} else {}
    {
      CancelEffect(View(), timer);
      CancelKeeps(View(), timer);
      if timer in known {
        CancelCancels(View(), timer);
      }
      if timer in activeTimers {
        EraseFinds(timers, Entry(expirations[timer], To(timer)));
        timers := Erase(timers, Entry(expirations[timer], To(timer)));
        activeTimers := activeTimers - {timer};
      } else if isDoingTimerCallback {
        cancelingTimers := cancelingTimers + {timer};
      }
    }

    /** Takes the expired entries out of both sets. */
    method GetExpired(time: int) returns (taken: seq<Entry>)
      requires forall i :: 0 <= i < |timers| ==> timers[i].timer.To?
      modifies this`timers, this`activeTimers
      ensures taken + timers == old(timers) && activeTimers == old(activeTimers) - TimersOf(taken)
      ensures var s := Fire(old(View()), time); taken == s.batch && timers == s.timers && activeTimers == s.active
    {
      var it := LowerBound(timers, Entry(time, Null));
      taken := timers[..it];
      timers := timers[it..];
      EraseActive(taken);
    }

    method EraseActive(taken: seq<Entry>)
      requires forall i :: 0 <= i < |taken| ==> taken[i].timer.To?
      modifies this`activeTimers
      ensures activeTimers == old(activeTimers) - TimersOf(taken)
    {
      for i := 0 to |taken|
        invariant activeTimers == old(activeTimers) - TimersOf(taken[..i])
      {
        TimersOfSnoc(taken[..i], taken[i]);
        assert taken[..i + 1] == taken[..i] + [taken[i]];
        activeTimers := activeTimers - {taken[i].timer.t};
      }
      assert taken[..|taken|] == taken;
    }

    lemma TimersOfSnoc(es: seq<Entry>, e: Entry)
      requires e.timer.To?
      ensures TimersOf(es + [e]) == TimersOf(es) + {e.timer.t}
    {
      assert forall x :: x in es + [e] <==> x in es || x == e;
    }

    method StartBatch(time: int)
      requires forall i :: 0 <= i < |timers| ==> timers[i].timer.To?
      modifies this
      ensures View() == Fire(old(View()), time)
    {
      ghost var after := Fire(View(), time);
      expired := GetExpired(time);
      alarm := Disarmed;
      ran, now := 0, time;
      isDoingTimerCallback := true;
      cancelingTimers := {};
      assert View() == after;
    }

    /** The read callback up to its first timer. */
    method BeginHandler(time: int)
      requires Valid() && !isDoingTimerCallback && time > 0
      modifies this
      ensures Valid() && View() == Fire(old(View()), time)
    {
      FireKeeps(View(), time);
      StartBatch(time);
    }

    /** `entry.second->run()` for the next entry; what the callback does are calls of its own. */
    method RunCallback()
      requires Valid() && isDoingTimerCallback && ran < |expired|
      modifies this`runs, this`ran
      ensures Valid() && View() == RunNext(old(View()))
    {
      runs := runs + [(expired[ran].timer.t, now)];
      ran := ran + 1;
    }

    /** The loop of `reset`: interval timers that were not cancelled go back in. */
    method ReinsertExpired()
      requires forall i :: 0 <= i < |expired| ==> expired[i].timer.To? && expired[i].timer.t in expirations
      modifies this`expirations, this`timers, this`activeTimers
      ensures View() == Reinsert(old(View()), expired)
    {
      ghost var start := View();
      assert expired[0..] == expired;
      for i := 0 to |expired|
        invariant Reinsert(View(), expired[i..]) == Reinsert(start, expired)
        invariant expirations.Keys == start.exp.Keys
      {
        assert expired[i..][1..] == expired[i + 1..];
        var timer := expired[i].timer.t;
        if timer.isInterval && timer !in cancelingTimers {
          expirations := expirations[timer := Restarted(timer, now)];
          var earliest := InsertEntry(timer);
        }
      }
      assert expired[|expired|..] == [];
    }

    method FinishBatch(clock: int)
      requires forall i :: 0 <= i < |expired| ==> expired[i].timer.To? && expired[i].timer.t in expirations
      modifies this
      ensures View() == Finish(old(View()), clock)
    {
      isDoingTimerCallback := false;
      ReinsertExpired();
      expired, ran := [], 0;
      if timers != [] {
        var nextExpiration := timers[0].when;
        if nextExpiration > 0 {
          ResetTimerfd(nextExpiration, clock);
        }
      }
    }

    /** The read callback after its last timer: the flag goes down, and `reset` follows. */
    method EndHandler(clock: int)
      requires Valid() && isDoingTimerCallback && ran == |expired|
      modifies this
      ensures Valid() && View() == Finish(old(View()), clock)
    {
      FinishKeeps(View(), clock);
      FinishBatch(clock);
    }
  }
}
