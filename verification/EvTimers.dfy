/** ev_timer_start, ev_timer_stop, ev_timer_again and timers_reify. */
module EvTimers {
  import opened HeapOrder
  import opened EvWatcher
  import opened PendingOrder
  import PendingQueues
  import opened TimerExpiry
  import TimerTable

  class Loop {
    ghost const watchers: set<Watcher>
    const queues: PendingQueues.Queues
    const table: TimerTable.Table
    var mnNow: real
    var rfeeds: seq<Watcher>

    ghost predicate Valid()
      reads queues, queues.pendings, table, table.timers, watchers
    {
      && queues.watchers == table.watchers == watchers
      && queues.pendings as object != table.timers as object
      && queues.Valid() && table.Valid()
      && NonNegative()
    }

    /** What ev_timer_start asserts of every timer. */
    ghost predicate NonNegative()
      reads watchers`repeat
    {
      forall w :: w in watchers ==> w.repeat >= 0.0
    }

    ghost function Active(): set<Watcher>
      requires table.Shaped()
      reads table, table.timers
    {
      table.Active()
    }

    constructor (ws: set<Watcher>, now: real)
      requires forall w :: w in ws ==>
        w.active == 0 && w.pending == 0 && EV_MINPRI <= w.priority <= EV_MAXPRI && w.repeat >= 0.0
      ensures Valid() && watchers == ws && Active() == {} && mnNow == now
    {
      hide TimerTable.Table.Valid, TimerTable.Table.Active, TimerTable.Table.Shaped, PendingQueues.Queues.Valid;
      watchers, mnNow, rfeeds := ws, now, [];
      queues := new PendingQueues.Queues(ws);
      table := new TimerTable.Table(ws);
    }

    /** ev_timer_start. Priorities are in range, so pri_adjust has nothing to do. */
    method TimerStart(w: Watcher)
      requires Valid() && w in watchers
      modifies table, table.timers, watchers`active, w`at
      ensures Valid() && Active() == old(Active()) + {w}
      ensures w.at == old(if w.active == 0 then w.at + mnNow else w.at)
    {
      hide NonNegative, TimerTable.Table.Valid, TimerTable.Table.Active, TimerTable.Table.Shaped,
        PendingQueues.Queues.Valid;
      table.ActiveByIndex(w);
      if w.active != 0 { return; }
      table.Insert(w, w.at + mnNow);
    }

    /** ev_timer_stop: an active timer leaves with the time that was left to it. */
    method TimerStop(w: Watcher)
      requires Valid() && w in watchers
      modifies queues.pendings, w`pending, table`timercnt, table.timers, watchers`active, w`at
      ensures Valid() && Active() == old(Active()) - {w}
      ensures queues.pendings[..] == Apply(old(queues.pendings[..]), Clear(w, w.priority - EV_MINPRI))
      ensures w.pending == 0 && (old(w.pending) == 0 ==> queues.pendings[..] == old(queues.pendings[..]))
      ensures w.at == old(if w.active != 0 then w.at - mnNow else w.at)
    {
      hide NonNegative, TimerTable.Table.Valid, TimerTable.Table.Active, TimerTable.Table.Shaped,
        PendingQueues.Queues.Valid, Apply;
      var _ := queues.ClearPending(w);
      table.ActiveByIndex(w);
      if w.active == 0 { return; }
      table.Withdraw(w, w.at - mnNow);
    }

    /** ev_timer_again: restarts a repeating timer from now, and stops any other. */
    method TimerAgain(w: Watcher)
      requires Valid() && w in watchers
      modifies queues.pendings, w`pending, table, table.timers, watchers`active, w`at
      ensures Valid()
      ensures Active() == if w.repeat != 0.0 then old(Active()) + {w} else old(Active()) - {w}
      ensures queues.pendings[..] == Apply(old(queues.pendings[..]), Clear(w, w.priority - EV_MINPRI))
      ensures w.at ==
        if w.repeat != 0.0 then mnNow + w.repeat else old(if w.active != 0 then w.at - mnNow else w.at)
    {
      hide NonNegative, TimerTable.Table.Valid, TimerTable.Table.Active, TimerTable.Table.Shaped,
        PendingQueues.Queues.Valid, Apply;
      var _ := queues.ClearPending(w);
      table.ActiveByIndex(w);
      if w.active != 0 {
        if w.repeat != 0.0 {
          table.Retime(w, mnNow + w.repeat);
        } else {
          TimerStop(w);
        }
      } else if w.repeat != 0.0 {
        table.Insert(w, w.repeat + mnNow);
      }
    }

    // ----- Expiry -----

    /** Reschedules or stops an expired watcher. */
    method Expire(w: Watcher)
      requires Valid() && w in watchers && w in Active()
      modifies queues.pendings, w`pending, table`timercnt, table.timers, watchers`active, w`at
      ensures Valid()
      ensures Active() == if w.repeat != 0.0 then old(Active()) else old(Active()) - {w}
      ensures w.at == Rescheduled(old(w.at), w.repeat, mnNow)
      ensures queues.pendings[..] ==
        if w.repeat != 0.0 then old(queues.pendings[..])
        else Apply(old(queues.pendings[..]), Clear(w, w.priority - EV_MINPRI))
    {
      hide NonNegative, TimerTable.Table.Valid, TimerTable.Table.Active, TimerTable.Table.Shaped,
        PendingQueues.Queues.Valid, Apply;
      table.ActiveByIndex(w);
      if w.repeat != 0.0 {
        table.Retime(w, if w.at + w.repeat < mnNow then mnNow else w.at + w.repeat);
      } else {
        TimerStop(w);
      }
    }

    // Snapshots of the fields of the watchers.
    ghost function Times(): map<Watcher, real>
      reads watchers`at
    {
      map w | w in watchers :: w.at
    }

    ghost function Repeats(): map<Watcher, real>
      reads watchers`repeat
    {
      map w | w in watchers :: w.repeat
    }

    ghost predicate Round(fed: seq<Watcher>, active0: set<Watcher>, at0: map<Watcher, real>)
      requires table.Shaped()
      reads this`mnNow, table, table.timers, watchers`at, watchers`repeat
    {
      Expired<Watcher>(fed, active0, at0, Active(), Times(), Repeats(), mnNow)
    }

    /** Some timer is due. */
    predicate RootDue()
      requires table.timers.Length >= HEAP0 + table.timercnt
      reads this`mnNow, table, table.timers
    {
      table.timercnt > 0 && table.timers[HEAP0].at < mnNow
    }

    /** The queues after stopping the one-shot timers among `fed`. */
    ghost predicate Stopped(fed: seq<Watcher>, st0: PendingOrder.Queues<Watcher>)
      requires queues.PrioritiesFit() && queues.watchers == watchers && forall w :: w in fed ==> w in watchers
      reads queues, queues.pendings, watchers`priority, watchers`repeat
    {
      queues.pendings[..] == ApplyAll(st0, Stops(fed, queues.Prio(), Repeats()))
    }

    /** The state within a round of expiry that started with these timers, times and queues. */
    ghost predicate InRound(active0: set<Watcher>, at0: map<Watcher, real>, st0: PendingOrder.Queues<Watcher>)
      requires Valid()
      reads this, queues, queues.pendings, table, table.timers, watchers
    {
      (forall w :: w in rfeeds ==> w in watchers) && Round(rfeeds, active0, at0) && Stopped(rfeeds, st0)
    }

    /** One turn of the loop: the watcher at the root expires and is collected. */
    method ExpireRoot(ghost active0: set<Watcher>, ghost at0: map<Watcher, real>,
                      ghost st0: PendingOrder.Queues<Watcher>)
      requires Valid() && RootDue() && InRound(active0, at0, st0)
      modifies this`rfeeds, queues.pendings, watchers`pending, table`timercnt, table.timers, watchers`active,
        watchers`at
      ensures Valid() && InRound(active0, at0, st0)
      ensures rfeeds != [] && rfeeds[..|rfeeds| - 1] == old(rfeeds)
    {
      hide NonNegative, TimerTable.Table.Valid, TimerTable.Table.Shaped, TimerTable.Table.Active,
        PendingQueues.Queues.Valid;
      hide PendingQueues.Queues.PrioritiesFit, PendingQueues.Queues.Prio, Repeats, Apply, ApplyAll, Expired, Stops;
      NextToExpire();
      var w: Watcher := table.timers[HEAP0].w;
      ghost var active, times, reps, prio := Active(), Times(), Repeats(), queues.Prio();
      OneMoreExpired<Watcher>(rfeeds, active0, at0, active, times, reps, mnNow, w);
      OneMoreStopped<Watcher>(st0, rfeeds, prio, reps, w);
      Expire(w);
      assert Times() == times[w := Rescheduled(times[w], reps[w], mnNow)];
      rfeeds := rfeeds + [w];
    }

    lemma NextToExpire()
      requires Valid() && RootDue()
      ensures table.Shaped() && queues.PrioritiesFit() && HEAP0 < table.timers.Length
      ensures var w := table.timers[HEAP0].w;
        && w in Active() && w in watchers
        && w.at < mnNow && w.repeat >= 0.0 && Repeats()[w] == w.repeat
        && queues.Prio()[w] == w.priority - EV_MINPRI
      ensures Repeats().Keys == watchers && queues.Prio().Keys == watchers
      ensures Active() <= watchers
      ensures forall u :: u in Active() ==> table.timers[HEAP0].w.at <= u.at
    {
      table.RootIsDueFirst();
    }

    /** The do-while loop of timers_reify. */
    method ExpireAll()
      requires Valid() && rfeeds == []
      modifies this`rfeeds, queues.pendings, watchers`pending, table`timercnt, table.timers, watchers`active,
        watchers`at
      ensures Valid() && InRound(old(Active()), old(Times()), old(queues.pendings[..])) && !RootDue()
      ensures forall w :: w in old(Active()) && old(w.at) < mnNow && w.repeat > 0.0 ==>
        w in Active() && w.at == if old(w.at) + w.repeat >= mnNow then old(w.at) + w.repeat else mnNow
      ensures forall w :: w in old(Active()) && old(w.at) < mnNow && w.repeat == 0.0 ==>
        w !in Active() && w.at == old(w.at) - mnNow
      ensures forall w :: w in watchers && !(w in old(Active()) && old(w.at) < mnNow) ==>
        w.at == old(w.at) && (w in Active() <==> w in old(Active()))
    {
      hide NonNegative, TimerTable.Table.Valid, TimerTable.Table.Shaped, TimerTable.Table.Active,
        PendingQueues.Queues.Valid;
      hide Apply, Expired;
      NothingYet();
      ghost var active0, at0, st0 := Active(), Times(), queues.pendings[..];
      while RootDue()
        invariant Valid() && InRound(active0, at0, st0)
        invariant table.timers.Length >= HEAP0 + table.timercnt
        decreases watchers - set w | w in rfeeds
      {
        ghost var before := rfeeds;
        ExpireRoot(active0, at0, st0);
        ListGrows(before, rfeeds, active0, at0);
      }
      RootIsLast();
      RoundSettles(rfeeds, active0, at0);
    }

    lemma RootIsLast()
      requires Valid() && table.timers.Length >= HEAP0 + table.timercnt && !RootDue()
      ensures forall w :: w in Active() ==> w.at >= mnNow
    {
      if table.timercnt > 0 { table.RootIsDueFirst(); }
    }

    /** What became of each timer: one that was due and repeats is due again one interval later, but not before
        now; one that was due and does not repeat is not active any more; all others are as they were. */
    lemma RoundSettles(fed: seq<Watcher>, active0: set<Watcher>, at0: map<Watcher, real>)
      requires Valid() && Round(fed, active0, at0) && forall w :: w in Active() ==> w.at >= mnNow
      ensures active0 <= watchers && at0.Keys == watchers
      ensures forall w :: w in active0 && at0[w] < mnNow && w.repeat > 0.0 ==>
        w in Active() && w.at == if at0[w] + w.repeat >= mnNow then at0[w] + w.repeat else mnNow
      ensures forall w :: w in active0 && at0[w] < mnNow && w.repeat == 0.0 ==>
        w !in Active() && w.at == at0[w] - mnNow
      ensures forall w :: w in watchers && !(w in active0 && at0[w] < mnNow) ==>
        w.at == at0[w] && (w in Active() <==> w in active0)
    {
      hide TimerTable.Table.Active, TimerTable.Table.Shaped, PendingQueues.Queues.Valid, InOrder;
      AllExpired<Watcher>(fed, active0, at0, Active(), Times(), Repeats(), mnNow);
    }

    lemma ListGrows(before: seq<Watcher>, after: seq<Watcher>, active0: set<Watcher>, at0: map<Watcher, real>)
      requires Valid() && Round(after, active0, at0) && after != [] && after[..|after| - 1] == before
      requires forall w :: w in after ==> w in watchers
      ensures (watchers - set w | w in after) < (watchers - set w | w in before)
      ensures table.timers.Length >= HEAP0 + table.timercnt
    {
      var w := after[|after| - 1];
      assert forall i :: 0 <= i < |before| ==> before[i] == after[i] && after[i] != w;
      assert w in watchers - (set u | u in before) && w !in watchers - set u | u in after;
    }

    /** feed_reverse_done */
    method FeedReverseDone(revents: Events)
      requires Valid() && forall w :: w in rfeeds ==> w in watchers
      modifies this`rfeeds, queues`pendingpri, queues.pendings, watchers`pending
      ensures Valid() && rfeeds == []
      ensures queues.pendings[..] == FeedReverse(old(queues.pendings[..]), old(rfeeds), queues.Prio(), revents)
    {
      hide NonNegative, TimerTable.Table.Valid, PendingQueues.Queues.Valid, FeedReverse;
      queues.FeedReversed(rfeeds, revents);
      rfeeds := [];
    }

    /** What timers_reify achieves: no active timer is due any more, exactly those that were due have
        been fed, each once, and the queues hold them so that the earliest is invoked first. */
    ghost predicate Reified(fed: seq<Watcher>, active0: set<Watcher>, at0: map<Watcher, real>,
                            st0: PendingOrder.Queues<Watcher>)
      requires Valid() && forall w :: w in fed ==> w in watchers
      reads this`mnNow, queues, queues.pendings, table, table.timers, watchers
    {
      && Round(fed, active0, at0)
      && (forall w :: w in Active() ==> w.at >= mnNow)
      && (forall w :: w in active0 && at0[w] < mnNow ==> w in fed)
      && Fed(fed, st0)
    }

    /** The queues after stopping the one-shot timers among `fed` and feeding all of them. */
    ghost predicate Fed(fed: seq<Watcher>, st0: PendingOrder.Queues<Watcher>)
      requires queues.PrioritiesFit() && queues.watchers == watchers && forall w :: w in fed ==> w in watchers
      reads queues, queues.pendings, watchers`priority, watchers`repeat
    {
      var prio := queues.Prio();
      queues.pendings[..] == FeedReverse(ApplyAll(st0, Stops(fed, prio, Repeats())), fed, prio, EV_TIMER)
    }

    lemma NoneDue(fed: seq<Watcher>, active0: set<Watcher>, at0: map<Watcher, real>, st0: PendingOrder.Queues<Watcher>)
      requires Valid() && !RootDue() && Round(fed, active0, at0)
      requires (forall w :: w in fed ==> w in watchers) && Fed(fed, st0)
      ensures Reified(fed, active0, at0, st0)
    {
      hide FeedReverse, Stops, ApplyAll;
      if table.timercnt > 0 { table.RootIsDueFirst(); }
      AllExpired<Watcher>(fed, active0, at0, Active(), Times(), Repeats(), mnNow);
    }

    /** timers_reify */
    method TimersReify() returns (ghost fed: seq<Watcher>)
      requires Valid() && rfeeds == []
      modifies this`rfeeds, queues`pendingpri, queues.pendings, watchers`pending
      modifies table`timercnt, table.timers, watchers`active, watchers`at
      ensures Valid() && rfeeds == [] && forall w :: w in fed ==> w in watchers
      ensures Reified(fed, old(Active()), old(Times()), old(queues.pendings[..]))
      ensures forall w :: w in old(Active()) && old(w.at) < mnNow && w.repeat > 0.0 ==>
        w in Active() && w.at == if old(w.at) + w.repeat >= mnNow then old(w.at) + w.repeat else mnNow
      ensures forall w :: w in old(Active()) && old(w.at) < mnNow && w.repeat == 0.0 ==>
        w !in Active() && w.at == old(w.at) - mnNow
      ensures forall w :: w in watchers && !(w in old(Active()) && old(w.at) < mnNow) ==>
        w.at == old(w.at) && (w in Active() <==> w in old(Active()))
    {
      hide NonNegative, TimerTable.Table.Valid, TimerTable.Table.Shaped, TimerTable.Table.Active,
        PendingQueues.Queues.Valid;
      hide PendingQueues.Queues.Prio, PendingQueues.Queues.PrioritiesFit, Expired, Stops, FeedReverse, ApplyAll,
        Times, Repeats;
      NothingYet();
      ghost var active0, at0, st0 := Active(), Times(), queues.pendings[..];
      fed := [];
      if RootDue() {
        ExpireAll();
        fed := rfeeds;
        FeedReverseDone(EV_TIMER);
      }
      NoneDue(fed, active0, at0, st0);
      RoundSettles(fed, active0, at0);
    }

    lemma NothingYet()
      requires Valid()
      ensures Round([], Active(), Times()) && Fed([], queues.pendings[..]) && Stopped([], queues.pendings[..])
      ensures table.Shaped() && table.timers.Length >= HEAP0 + table.timercnt
    {
      NothingExpired<Watcher>(Active(), Times(), Repeats(), mnNow);
    }

    /** Active timers that are due, and those among them that are not pending or do not repeat. */
    ghost function Due(): set<Watcher>
      requires table.Shaped()
      reads this`mnNow, table, table.timers, watchers
    {
      set w | w in Active() && w in watchers && w.at < mnNow
    }

    ghost function DueFirst(): set<Watcher>
      requires table.Shaped()
      reads this`mnNow, table, table.timers, watchers
    {
      set w | w in Due() && (w.pending == 0 || w.repeat == 0.0)
    }

    lemma OnEntry()
      requires Valid()
      ensures table.Shaped() && queues.PrioritiesFit() && queues.pendings.Length == NUMPRI
      ensures Placed(queues.pendings[..], queues.Prio()) && queues.Prio().Keys == watchers
      ensures Times().Keys == Repeats().Keys == watchers && Active() <= watchers
      ensures Due() == set w | w in Active() && Times()[w] < mnNow
      ensures DueFirst() ==
        set w | w in Due() && (Unqueued<Watcher>(queues.pendings[..], queues.Prio(), w) || Repeats()[w] == 0.0)
    {}

    lemma AfterRound(fed: seq<Watcher>, active0: set<Watcher>, at0: map<Watcher, real>,
                     st0: PendingOrder.Queues<Watcher>)
      requires Valid() && (forall w :: w in fed ==> w in watchers) && Reified(fed, active0, at0, st0)
      ensures table.Shaped() && queues.PrioritiesFit() && queues.pendings.Length == NUMPRI
      ensures Expired<Watcher>(fed, active0, at0, Active(), Times(), Repeats(), mnNow)
      ensures Times().Keys == Repeats().Keys == watchers && Active() <= watchers
      ensures forall w :: w in Active() ==> w.at == Times()[w] >= mnNow
      ensures queues.pendings[..] ==
        FeedReverse(ApplyAll(st0, Stops(fed, queues.Prio(), Repeats())), fed, queues.Prio(), EV_TIMER)
    {
      hide FeedReverse, Stops, ApplyAll, Expired;
    }

    /** What ev_run does with timers once the time is updated: timers_reify, then the pending callbacks.
        Every due timer is invoked, nobody twice, and none stays due; a higher priority comes first, and within one
        priority the timers that were not pending on entry, earliest first, then whatever was. */
    method ReifyAndInvoke() returns (log: seq<Call<Watcher>>)
      requires Valid() && rfeeds == []
      modifies this`rfeeds, queues`pendingpri, queues.pendings, watchers`pending
      modifies table`timercnt, table.timers, watchers`active, watchers`at
      ensures Valid() && rfeeds == []
      ensures forall w :: w in Active() ==> w.at >= mnNow
      ensures forall w :: w in watchers ==> w.pending == 0
      ensures Timely<Watcher>(log, queues.Prio(), old(Times()), old(Due()), old(DueFirst()))
      ensures forall w :: w in old(DueFirst()) ==> Call(w, {8}) in log
      ensures forall w :: w in old(Active()) && old(w.at) < mnNow && w.repeat > 0.0 ==>
        w in Active() && w.at == if old(w.at) + w.repeat >= mnNow then old(w.at) + w.repeat else mnNow
      ensures forall w :: w in old(Active()) && old(w.at) < mnNow && w.repeat == 0.0 ==>
        w !in Active() && w.at == old(w.at) - mnNow
      ensures forall w :: w in watchers && !(w in old(Active()) && old(w.at) < mnNow) ==>
        w.at == old(w.at) && (w in Active() <==> w in old(Active()))
    {
      hide NonNegative, TimerTable.Table.Valid, TimerTable.Table.Shaped, TimerTable.Table.Active,
        PendingQueues.Queues.Valid, PendingQueues.Queues.Prio, PendingQueues.Queues.PrioritiesFit;
      hide Expired, Stops, FeedReverse, ApplyAll, Times, Repeats, Run, Timely, Due, DueFirst;
      OnEntry();
      ghost var active0, at0, st0, prio := Active(), Times(), queues.pendings[..], queues.Prio();
      ghost var due, first := Due(), DueFirst();
      ghost var fed := TimersReify();
      AfterRound(fed, active0, at0, st0);
      RoundIsTimely<Watcher>(st0, fed, active0, at0, Active(), Times(), prio, Repeats(), mnNow, due, first);
      log := queues.InvokePending([]);
      assert queues.Prio() == prio;
      TimelyCalls<Watcher>(log, prio, at0, due, first);
    }
  }
}
