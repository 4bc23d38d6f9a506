/** What a round of timer expiry amounts to, on values. */
module TimerExpiry {
  import opened PendingOrder

  /** The flag fed to an expired timer. */
  const EV_TIMER: Events := {8}

  /** The time a watcher is left with when it expires at `now`. */
  function Rescheduled(at: real, repeat: real, now: real): (r: real)
    ensures repeat == 0.0 ==> r + now == at
    ensures repeat != 0.0 ==> r >= now && r >= at + repeat && (r == now || r == at + repeat)
  {
    if repeat == 0.0 then at - now
    else if at + repeat < now then now
    else at + repeat
  }

  /** Every timer in `fed` was due at `now` and has been rescheduled or stopped; the others are as
      they were. */
  ghost predicate Fates<W>(fed: seq<W>, active0: set<W>, at0: map<W, real>, active: set<W>, at: map<W, real>,
                           repeat: map<W, real>, now: real)
  {
    && at0.Keys == at.Keys == repeat.Keys && active <= active0 <= at.Keys
    && (forall w :: w in fed ==> w in active0 && at0[w] < now && at[w] == Rescheduled(at0[w], repeat[w], now))
    && (forall w :: w in at && w !in fed ==> at[w] == at0[w])
    && (forall w :: w in active0 ==> (w in active <==> (w in fed ==> repeat[w] != 0.0)))
  }

  /** `fed` lists timers once each, earliest first, and before all that are not listed. */
  ghost predicate InOrder<W>(fed: seq<W>, active0: set<W>, at0: map<W, real>) {
    && active0 <= at0.Keys && (forall w :: w in fed ==> w in active0)
    && (forall i, j :: 0 <= i < j < |fed| ==> fed[i] != fed[j] && at0[fed[i]] <= at0[fed[j]])
    && (forall i, w :: 0 <= i < |fed| && w in active0 && w !in fed ==> at0[fed[i]] <= at0[w])
  }

  ghost predicate Expired<W>(fed: seq<W>, active0: set<W>, at0: map<W, real>, active: set<W>, at: map<W, real>,
                             repeat: map<W, real>, now: real)
  {
    Fates(fed, active0, at0, active, at, repeat, now) && InOrder(fed, active0, at0)
  }

  lemma NothingExpired<W>(active: set<W>, at: map<W, real>, repeat: map<W, real>, now: real)
    requires at.Keys == repeat.Keys && active <= at.Keys
    ensures Expired([], active, at, active, at, repeat, now)
  {}

  /** The active timer that is due first, if due at all, has not expired in this round. */
  lemma DueIsNew<W>(fed: seq<W>, active0: set<W>, at0: map<W, real>, active: set<W>, at: map<W, real>,
                    repeat: map<W, real>, now: real, w: W)
    requires Fates(fed, active0, at0, active, at, repeat, now)
    requires w in active && at[w] < now && repeat[w] >= 0.0
    ensures w !in fed && at[w] == at0[w]
  {}

  lemma FatesMore<W>(fed: seq<W>, active0: set<W>, at0: map<W, real>, active: set<W>, at: map<W, real>,
                     repeat: map<W, real>, now: real, w: W)
    requires Fates(fed, active0, at0, active, at, repeat, now)
    requires w in active && w !in fed && at[w] < now
    ensures Fates(fed + [w], active0, at0, if repeat[w] != 0.0 then active else active - {w},
                  at[w := Rescheduled(at[w], repeat[w], now)], repeat, now)
  {
    assert forall u :: u in fed + [w] <==> u in fed || u == w;
    hide Rescheduled;
  }

  lemma InOrderMore<W>(fed: seq<W>, active0: set<W>, at0: map<W, real>, w: W)
    requires InOrder(fed, active0, at0) && w in active0 && w !in fed
    requires forall u :: u in active0 && u !in fed ==> at0[w] <= at0[u]
    ensures InOrder(fed + [w], active0, at0)
  {
    assert forall u :: u in fed + [w] <==> u in fed || u == w;
  }

  lemma OneMoreExpired<W>(fed: seq<W>, active0: set<W>, at0: map<W, real>, active: set<W>, at: map<W, real>,
                          repeat: map<W, real>, now: real, w: W)
    requires Expired(fed, active0, at0, active, at, repeat, now)
    requires w in active && at[w] < now && repeat[w] >= 0.0 && forall u :: u in active ==> at[w] <= at[u]
    ensures Expired(fed + [w], active0, at0, if repeat[w] != 0.0 then active else active - {w},
                    at[w := Rescheduled(at[w], repeat[w], now)], repeat, now)
  {
    DueIsNew(fed, active0, at0, active, at, repeat, now, w);
    FatesMore(fed, active0, at0, active, at, repeat, now, w);
    forall u | u in active0 && u !in fed ensures at0[w] <= at0[u] {
      assert u in active && at[u] == at0[u];
    }
    hide Fates;
    InOrderMore(fed, active0, at0, w);
  }

  /** When no active timer is due any more, exactly those that were due have expired, each once. */
  lemma AllExpired<W>(fed: seq<W>, active0: set<W>, at0: map<W, real>, active: set<W>, at: map<W, real>,
                      repeat: map<W, real>, now: real)
    requires Expired(fed, active0, at0, active, at, repeat, now)
    requires forall u :: u in active ==> at[u] >= now
    ensures forall w :: w in fed ==> w in active0 && at0[w] < now
    ensures forall w :: w in active0 && at0[w] < now ==> w in fed
  {
    forall w | w in active0 && w !in fed ensures at0[w] >= now {
      assert w in active;
    }
  }

  /** The clears that stopping the expired one-shot timers amounts to. */
  function Stops<W(==)>(fed: seq<W>, prio: map<W, Pri>, repeat: map<W, real>): seq<Op<W>>
    requires forall w :: w in fed ==> w in prio && w in repeat
    decreases |fed|
  {
    if fed == [] then []
    else
      var w := fed[|fed| - 1];
      Stops(fed[..|fed| - 1], prio, repeat) + if repeat[w] == 0.0 then [Clear(w, prio[w])] else []
  }

  lemma OneMoreStopped<W>(st: Queues<W>, fed: seq<W>, prio: map<W, Pri>, repeat: map<W, real>, w: W)
    requires (forall u :: u in fed ==> u in prio && u in repeat) && w in prio && w in repeat
    ensures ApplyAll(st, Stops(fed + [w], prio, repeat)) ==
      if repeat[w] != 0.0 then ApplyAll(st, Stops(fed, prio, repeat))
      else Apply(ApplyAll(st, Stops(fed, prio, repeat)), Clear(w, prio[w]))
  {
    var stops := Stops(fed, prio, repeat);
    assert (fed + [w])[..|fed|] == fed;
    if repeat[w] == 0.0 {
      ApplyAllAppend(st, stops, Clear(w, prio[w]));
    } else {
      assert stops + [] == stops;
    }
  }

  // ----- The order of invocation -----

  ghost predicate Chronological<W>(calls: seq<Call<W>>, at0: map<W, real>) {
    && (forall c :: c in calls ==> c.w in at0)
    && (forall i, j :: 0 <= i < j < |calls| ==> at0[calls[i].w] <= at0[calls[j].w])
  }

  ghost predicate SortedBy<W>(ws: seq<W>, at0: map<W, real>) {
    && (forall i :: 0 <= i < |ws| ==> ws[i] in at0)
    && (forall i, j :: 0 <= i < j < |ws| ==> at0[ws[i]] <= at0[ws[j]])
  }

  lemma {:induction false} CallsAreSorted<W>(ws: seq<W>, at0: map<W, real>, prio: map<W, Pri>, p: Pri)
    requires SortedBy(ws, at0) && forall w :: w in ws ==> w in prio
    ensures var calls := CallsAt(ws, prio, p, EV_TIMER);
      && (forall c :: c in calls ==> c.w in ws && prio[c.w] == p && c.events == EV_TIMER)
      && (forall w :: w in ws && prio[w] == p ==> Call(w, EV_TIMER) in calls)
      && Chronological(calls, at0)
    decreases |ws|
  {
    hide Chronological, SortedBy;
    if ws == [] {
      NoCalls(at0);
    } else {
      var n := |ws| - 1;
      var rest, w := ws[..n], ws[n];
      SortedFront(ws, at0);
      assert ws == rest + [w];
      CallsAreSorted(rest, at0, prio, p);
      var calls := CallsAt(rest, prio, p, EV_TIMER);
      if prio[w] == p { OneCallLater(calls, rest, at0, w); } else { assert calls + [] == calls; }
    }
  }

  lemma NoCalls<W>(at0: map<W, real>)
    ensures Chronological<W>([], at0)
  {}

  lemma SortedFront<W>(ws: seq<W>, at0: map<W, real>)
    requires SortedBy(ws, at0) && ws != []
    ensures SortedBy(ws[..|ws| - 1], at0) && ws[|ws| - 1] in at0
    ensures forall w :: w in ws[..|ws| - 1] ==> w in at0 && at0[w] <= at0[ws[|ws| - 1]]
  {}

  lemma OneCallLater<W>(calls: seq<Call<W>>, rest: seq<W>, at0: map<W, real>, w: W)
    requires Chronological(calls, at0) && w in at0
    requires forall c :: c in calls ==> c.w in rest
    requires forall u :: u in rest ==> u in at0 && at0[u] <= at0[w]
    ensures Chronological(calls + [Call(w, EV_TIMER)], at0)
  {
    var more := calls + [Call(w, EV_TIMER)];
    forall i, j | 0 <= i < j < |more| ensures at0[more[i].w] <= at0[more[j].w] {
      assert more[i] == calls[i] && calls[i] in calls;
    }
  }

  lemma FedOnce<W>(fed: seq<W>, active0: set<W>, at0: map<W, real>)
    requires InOrder(fed, active0, at0)
    ensures forall i: nat, j: nat :: i < j < |fed| ==> fed[i] != fed[j]
    ensures SortedBy(fed, at0)
  {}

  /** The expired timers that were not pending, or are not any more because they were stopped. */
  ghost function NotPending<W>(fed: seq<W>, st0: Queues<W>, prio: map<W, Pri>, repeat: map<W, real>): set<W>
    requires forall w :: w in fed ==> w in prio && w in repeat
  {
    set w | w in fed && (Unqueued(st0, prio, w) || repeat[w] == 0.0)
  }

  ghost function Members<W>(ws: seq<W>): set<W> {
    set w | w in ws
  }

  ghost function Newcomers<W>(st: Queues<W>, ws: seq<W>, prio: map<W, Pri>): set<W>
    requires forall w :: w in ws ==> w in prio
  {
    set w | w in ws && Unqueued(st, prio, w)
  }

  lemma ClearUnqueues<W>(st: Queues<W>, prio: map<W, Pri>, w: W)
    requires Placed(st, prio) && w in prio
    ensures var st' := Apply(st, Clear(w, prio[w]));
      && Placed(st', prio)
      && forall u :: u in prio ==> (Unqueued(st', prio, u) <==> u == w || Unqueued(st, prio, u))
  {
    ApplyHasEffect(st, prio, Clear(w, prio[w]));
    hide QueuePlaced, Find, ClearSlot;
    assert QueuePlaced(st[prio[w]], prio[w], prio);
    ClearOneQueue(st[prio[w]], prio[w], prio, w);
  }

  /** The stops clear the one-shot timers and nothing else. */
  lemma {:induction false} StopsUnqueue<W>(st: Queues<W>, fed: seq<W>, prio: map<W, Pri>, repeat: map<W, real>)
    requires Placed(st, prio) && forall w :: w in fed ==> w in prio && w in repeat
    ensures var st' := ApplyAll(st, Stops(fed, prio, repeat));
      && Placed(st', prio)
      && forall u :: u in prio ==>
        (Unqueued(st', prio, u) <==> Unqueued(st, prio, u) || (u in fed && repeat[u] == 0.0))
    decreases |fed|
  {
    hide Placed, Unqueued, Apply, ApplyAll;
    if fed == [] {
      NoStops(st, prio, repeat);
    } else {
      var rest, w := fed[..|fed| - 1], fed[|fed| - 1];
      assert fed == rest + [w];
      StopsUnqueue(st, rest, prio, repeat);
      OneMoreStopped(st, rest, prio, repeat, w);
      hide Stops;
      if repeat[w] == 0.0 { ClearUnqueues(ApplyAll(st, Stops(rest, prio, repeat)), prio, w); }
    }
  }

  lemma NoStops<W>(st: Queues<W>, prio: map<W, Pri>, repeat: map<W, real>)
    ensures ApplyAll(st, Stops<W>([], prio, repeat)) == st
  {}

  /** A log that goes down the priorities below `n`. Every due timer is in it; those in `first`, which were
      not pending before, get EV_TIMER alone, and within their priority only timers of `first` that were
      due no later come before them. */
  ghost predicate TimelyBelow<W>(log: seq<Call<W>>, n: nat, prio: map<W, Pri>, at0: map<W, real>, due: set<W>,
                                 first: set<W>)
  {
    && first <= due <= at0.Keys
    && (forall c :: c in log ==> c.w in prio && prio[c.w] < n)
    && (forall w :: w in first && w in prio && prio[w] < n ==> Call(w, EV_TIMER) in log)
    && (forall w :: w in due && w in prio && prio[w] < n ==> Served(log, w))
    && (forall i: nat, j: nat :: i < j < |log| ==> InTurn(log[i].w, log[j].w, prio, at0, first))
  }

  ghost predicate Served<W>(log: seq<Call<W>>, w: W) {
    exists c :: c in log && c.w == w && EV_TIMER <= c.events
  }

  /** `u` may be invoked before `w`. */
  ghost predicate InTurn<W>(u: W, w: W, prio: map<W, Pri>, at0: map<W, real>, first: set<W>)
    requires first <= at0.Keys
  {
    && u in prio && w in prio && prio[u] >= prio[w]
    && (prio[u] == prio[w] && w in first ==> u in first && at0[u] <= at0[w])
  }

  /** All priorities, and nobody is invoked twice. */
  ghost predicate Timely<W>(log: seq<Call<W>>, prio: map<W, Pri>, at0: map<W, real>, due: set<W>, first: set<W>) {
    due <= prio.Keys && TimelyBelow(log, NUMPRI, prio, at0, due, first) && Different(log)
  }

  lemma TimelyCalls<W>(log: seq<Call<W>>, prio: map<W, Pri>, at0: map<W, real>, due: set<W>, first: set<W>)
    requires Timely(log, prio, at0, due, first)
    ensures forall w :: w in first ==> Call(w, {8}) in log
  {
    hide InTurn, Served, Different;
  }

  /** What one priority contributes: the timers of `first`, in order of their times, then those that waited. */
  ghost predicate Block<W>(calls: seq<Call<W>>, rest: seq<Call<W>>, p: Pri, prio: map<W, Pri>, at0: map<W, real>,
                           due: set<W>, first: set<W>)
  {
    && Chronological(calls, at0)
    && (forall c :: c in calls ==> c.w in first && c.w in prio && prio[c.w] == p)
    && (forall c :: c in rest ==> c.w !in first && c.w in prio && prio[c.w] == p)
    && (forall w :: w in first && w in prio && prio[w] == p ==> Call(w, EV_TIMER) in calls)
    && (forall w :: w in due - first && w in prio && prio[w] == p ==> Served(rest, w))
  }

  lemma BlockIsInTurn<W>(calls: seq<Call<W>>, rest: seq<Call<W>>, p: Pri, prio: map<W, Pri>, at0: map<W, real>,
                         due: set<W>, first: set<W>, i: nat, j: nat)
    requires Block(calls, rest, p, prio, at0, due, first) && first <= at0.Keys && i < j < |calls + rest|
    ensures InTurn((calls + rest)[i].w, (calls + rest)[j].w, prio, at0, first)
  {
    hide Served;
    var log := calls + rest;
    assert log[i] in log && log[j] in log;
    if j < |calls| { assert log[i] == calls[i] && log[j] == calls[j]; } else { assert log[j] in rest; }
  }

  lemma OneBlockMore<W>(calls: seq<Call<W>>, rest: seq<Call<W>>, below: seq<Call<W>>, p: Pri, prio: map<W, Pri>,
                        at0: map<W, real>, due: set<W>, first: set<W>)
    requires Block(calls, rest, p, prio, at0, due, first) && TimelyBelow(below, p, prio, at0, due, first)
    ensures TimelyBelow(calls + rest + below, p + 1, prio, at0, due, first)
  {
    var block, log := calls + rest, calls + rest + below;
    forall i: nat, j: nat | i < j < |log| ensures InTurn(log[i].w, log[j].w, prio, at0, first) {
      hide InTurn, Served;
      if j < |block| {
        BlockIsInTurn(calls, rest, p, prio, at0, due, first, i, j);
        assert log[i] == block[i] && log[j] == block[j];
      } else if i >= |block| {
        assert log[i] == below[i - |block|] && log[j] == below[j - |block|];
      } else {
        assert log[i] == block[i] && log[i] in block && log[j] == below[j - |block|] && log[j] in below;
        HigherFirst(log[i].w, log[j].w, prio, at0, first);
      }
    }
    hide InTurn, Chronological;
    forall w | w in due && w in prio && prio[w] < p + 1 ensures Served(log, w) {
      if prio[w] < p {
        ServedWithin(below, log, w);
      } else if w in first {
        assert Call(w, EV_TIMER) in log;
      } else {
        ServedWithin(rest, log, w);
      }
    }
  }

  lemma HigherFirst<W>(u: W, w: W, prio: map<W, Pri>, at0: map<W, real>, first: set<W>)
    requires first <= at0.Keys && u in prio && w in prio && prio[u] > prio[w]
    ensures InTurn(u, w, prio, at0, first)
  {}

  lemma ServedWithin<W>(part: seq<Call<W>>, log: seq<Call<W>>, w: W)
    requires Served(part, w) && forall c :: c in part ==> c in log
    ensures Served(log, w)
  {}

  /** Every slot that names a watcher gives its call. */
  lemma {:induction false} UnwindCalls<W>(q: seq<Slot<W>>)
    ensures forall c :: c in Unwind(q) ==> Slot(c.w, c.events) in q
    ensures forall s :: s in q && s.Slot? ==> Call(s.w, s.events) in Unwind(q)
    decreases |q|
  {
    if q != [] {
      assert q == q[..|q| - 1] + [q[|q| - 1]];
      UnwindCalls(q[..|q| - 1]);
    }
  }

  lemma {:induction false} FreshIsSorted<W>(st: Queues<W>, ws: seq<W>, prio: map<W, Pri>, at0: map<W, real>)
    requires SortedBy(ws, at0) && forall w :: w in ws ==> w in prio
    ensures SortedBy(Fresh(st, ws, prio), at0)
    decreases |ws|
  {
    hide SortedBy, Unqueued;
    if ws == [] {
      NoneToSort(at0);
    } else {
      SortedFront(ws, at0);
      var rest, w := ws[..|ws| - 1], ws[|ws| - 1];
      FreshIsSorted(st, rest, prio, at0);
      var front := Fresh(st, rest, prio);
      if Unqueued(st, prio, w) { OneMoreSorted(front, at0, w); } else { assert front + [] == front; }
    }
  }

  lemma NoneToSort<W>(at0: map<W, real>)
    ensures SortedBy<W>([], at0)
  {}

  lemma OneMoreSorted<W>(ws: seq<W>, at0: map<W, real>, w: W)
    requires SortedBy(ws, at0) && w in at0 && forall u :: u in ws ==> u in at0 && at0[u] <= at0[w]
    ensures SortedBy(ws + [w], at0)
  {
    forall i | 0 <= i < |ws| ensures (ws + [w])[i] in at0 && at0[(ws + [w])[i]] <= at0[w] {
      assert ws[i] in ws;
    }
  }

  /** The queue of one priority after the feed. */
  lemma FedBlock<W>(st: Queues<W>, fed: seq<W>, prio: map<W, Pri>, at0: map<W, real>, p: Pri)
    requires Placed(st, prio) && SortedBy(fed, at0) && forall w :: w in fed ==> w in prio
    ensures Block(CallsAt(Fresh(st, fed, prio), prio, p, EV_TIMER), Unwind(Waiting(st[p], fed, EV_TIMER)), p, prio, at0,
                  Members(fed), Newcomers(st, fed, prio))
  {
    hide SortedBy, Chronological, Unwind;
    var listed, q := Fresh(st, fed, prio), st[p];
    var first := Newcomers(st, fed, prio);
    var waiting := Waiting(q, fed, EV_TIMER);
    FreshIsSorted(st, fed, prio, at0);
    CallsAreSorted(listed, at0, prio, p);
    UnwindCalls(waiting);
    hide CallsAt, Fresh;
    assert QueuePlaced(q, p, prio);
    forall c | c in Unwind(waiting) ensures c.w !in first && c.w in prio && prio[c.w] == p {
      var i :| 0 <= i < |q| && waiting[i] == Slot(c.w, c.events);
      assert q[i] in q && Belongs(q[i], p, prio) && Holds(q[i], c.w);
    }
    forall w | w in fed && w !in first && prio[w] == p ensures Served(Unwind(waiting), w) {
      var i := IndexOf(q, w);
      assert waiting[i] == Slot(w, q[i].events + EV_TIMER) && waiting[i] in waiting;
      assert Call(w, q[i].events + EV_TIMER) in Unwind(waiting);
    }
  }

  lemma {:induction false} FedLogIsTimely<W>(st: Queues<W>, fed: seq<W>, prio: map<W, Pri>, at0: map<W, real>, n: nat)
    requires Placed(st, prio) && SortedBy(fed, at0) && (forall w :: w in fed ==> w in prio) && n <= NUMPRI
    requires forall i: nat, j: nat :: i < j < |fed| ==> fed[i] != fed[j]
    ensures TimelyBelow(UnwindBelow(FeedReverse(st, fed, prio, EV_TIMER), n), n, prio, at0, Members(fed),
                        Newcomers(st, fed, prio))
    decreases n
  {
    hide Placed, SortedBy, Unqueued, FeedReverse, Unwind, Waiting, Fresh, CallsAt, Block;
    var due, first := Members(fed), Newcomers(st, fed, prio);
    AllTimed(fed, at0);
    if n > 0 {
      hide TimelyBelow;
      FedLogIsTimely(st, fed, prio, at0, n - 1);
      ReverseFeedKeepsOrder(st, fed, prio, EV_TIMER, n - 1);
      FedBlock(st, fed, prio, at0, n - 1);
      OneBlockMore(CallsAt(Fresh(st, fed, prio), prio, n - 1, EV_TIMER),
                   Unwind(Waiting(st[n - 1], fed, EV_TIMER)),
                   UnwindBelow(FeedReverse(st, fed, prio, EV_TIMER), n - 1), n - 1, prio, at0, due, first);
    }
  }

  lemma AllTimed<W>(fed: seq<W>, at0: map<W, real>)
    requires SortedBy(fed, at0)
    ensures forall w :: w in fed ==> w in at0
  {}

  lemma QuietRunRepeatsNothing<W>(st: Queues<W>, prio: map<W, Pri>)
    requires Placed(st, prio)
    ensures Different(Run(st, []))
  {
    hide Placed, Run, Scheduled;
    RunIsScheduled(st, prio, []);
    QuietScheduleRepeatsNothing(PendingEvents(st, prio), prio, Run(st, []));
  }

  /** What invoking the pending events after a round of expiry amounts to, whatever was pending before it. */
  lemma EarliestIsInvokedFirst<W>(st0: Queues<W>, fed: seq<W>, active0: set<W>, at0: map<W, real>,
                                  prio: map<W, Pri>, repeat: map<W, real>)
    requires InOrder(fed, active0, at0) && Placed(st0, prio) && forall w :: w in fed ==> w in prio && w in repeat
    ensures var st := FeedReverse(ApplyAll(st0, Stops(fed, prio, repeat)), fed, prio, EV_TIMER);
      Timely(Run(st, []), prio, at0, Members(fed), NotPending(fed, st0, prio, repeat))
  {
    hide Run, Unwind, InOrder, SortedBy, Placed, Unqueued, TimelyBelow, Different, FeedReverse, Stops, ApplyAll,
      UnwindBelow;
    var stopped := ApplyAll(st0, Stops(fed, prio, repeat));
    FedOnce(fed, active0, at0);
    StopsUnqueue(st0, fed, prio, repeat);
    QuietRunUnwinds(FeedReverse(stopped, fed, prio, EV_TIMER));
    FedLogIsTimely(stopped, fed, prio, at0, NUMPRI);
    FeedReverseKeepsQueues(stopped, fed, prio, EV_TIMER);
    QuietRunRepeatsNothing(FeedReverse(stopped, fed, prio, EV_TIMER), prio);
    assert Newcomers(stopped, fed, prio) == NotPending(fed, st0, prio, repeat);
  }

  /** The same after a whole round, in terms of the timers that were due when it began. */
  lemma RoundIsTimely<W>(st0: Queues<W>, fed: seq<W>, active0: set<W>, at0: map<W, real>, active: set<W>,
                         at: map<W, real>, prio: map<W, Pri>, repeat: map<W, real>, now: real,
                         due: set<W>, first: set<W>)
    requires Expired(fed, active0, at0, active, at, repeat, now) && forall u :: u in active ==> at[u] >= now
    requires Placed(st0, prio) && prio.Keys == at0.Keys
    requires due == set w | w in active0 && at0[w] < now
    requires first == set w | w in due && (Unqueued(st0, prio, w) || repeat[w] == 0.0)
    ensures forall w :: w in fed ==> w in prio && w in repeat
    ensures var st := FeedReverse(ApplyAll(st0, Stops(fed, prio, repeat)), fed, prio, EV_TIMER);
      Timely(Run(st, []), prio, at0, due, first)
  {
    hide Placed, Unqueued, Timely, FeedReverse, Stops, ApplyAll, Run;
    AllExpired(fed, active0, at0, active, at, repeat, now);
    EarliestIsInvokedFirst(st0, fed, active0, at0, prio, repeat);
    assert Members(fed) == due;
    assert NotPending(fed, st0, prio, repeat) == first;
  }
}
