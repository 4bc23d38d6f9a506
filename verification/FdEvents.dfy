/** ev_io_start, ev_io_stop, fd_change and fd_reify: what watchers ask for reaches the poll table at
    the next fd_reify, and each changed descriptor is listed once until then. */
module FdEvents {
  import opened EvWatcher
  import opened PollTable
  import PendingOrder
  import PendingQueues

  datatype Reify = EV_ANFD_REIFY | IOFDSET_REIFY

  /** `base` holds the priority and the pending index. */
  class IoWatcher {
    const base: Watcher
    const fd: nat
    var events: Mask
    var active: bool

    constructor (base: Watcher, fd: nat, events: Mask)
      ensures this.base == base && this.fd == fd && this.events == events && !active
    {
      this.base, this.fd, this.events, this.active := base, fd, events, false;
    }
  }

  /** `head` is the list of the descriptor's active watchers; `events` what the backend was told. */
  datatype ANFD = ANFD(head: seq<IoWatcher>, events: Mask, reify: set<Reify>)

  /** The union of the masks of some watchers. */
  ghost function Union(ws: seq<IoWatcher>): Mask
    reads (set w | w in ws)`events
    decreases |ws|
  {
    if ws == [] then {} else ws[0].events + Union(ws[1..])
  }

  /** A flag is asked for exactly when some watcher asks for it. */
  lemma {:induction false} AskedFor(ws: seq<IoWatcher>, f: Flag)
    ensures f in Union(ws) <==> exists w :: w in ws && f in w.events
    decreases |ws|
  {
    if ws != [] {
      AskedFor(ws[1..], f);
      assert ws[0] in ws && forall w :: w in ws <==> w == ws[0] || w in ws[1..];
    }
  }

  /** wlist_del */
  function Without<T(==)>(s: seq<T>, x: T): seq<T>
    decreases |s|
  {
    if s == [] then [] else if s[0] == x then s[1..] else [s[0]] + Without(s[1..], x)
  }

  lemma NoRepeatsCons<T>(x: T, s: seq<T>)
    requires NoRepeats(s) && x !in s
    ensures NoRepeats([x] + s) && forall y :: y in [x] + s <==> y == x || y in s
  {}

  lemma NoRepeatsTail<T>(s: seq<T>)
    requires NoRepeats(s) && s != []
    ensures NoRepeats(s[1..]) && s[0] !in s[1..] && forall y :: y in s <==> y == s[0] || y in s[1..]
  {}

  lemma {:induction false} WithoutRemoves<T>(s: seq<T>, x: T)
    requires NoRepeats(s)
    ensures NoRepeats(Without(s, x))
    ensures forall y :: y in Without(s, x) <==> y in s && y != x
    decreases |s|
  {
    hide NoRepeats;
    if s != [] {
      NoRepeatsTail(s);
      WithoutRemoves(s[1..], x);
      if s[0] != x { NoRepeatsCons(s[0], Without(s[1..], x)); }
    }
  }

  ghost predicate NoRepeats<T>(s: seq<T>) {
    forall i, j :: 0 <= i < j < |s| ==> s[i] != s[j]
  }

  ghost function EventsOf(anfds: seq<ANFD>): (r: Interest)
    ensures |r| == |anfds| && forall fd: nat :: fd < |anfds| ==> r[fd] == anfds[fd].events
  {
    seq(|anfds|, fd requires 0 <= fd < |anfds| => anfds[fd].events)
  }

  /** The change list from position `i` on is what is left to do. */
  ghost predicate Outstanding(anfds: seq<ANFD>, fdchanges: seq<nat>, i: nat) {
    && i <= |fdchanges| && NoRepeats(fdchanges)
    && (forall fd :: fd in fdchanges ==> fd < |anfds|)
    && (forall fd: nat :: fd < |anfds| ==> (fd in fdchanges[i..] <==> anfds[fd].reify != {}))
  }

  class Loop {
    ghost const watchers: set<IoWatcher>
    const backend: Backend
    const queues: PendingQueues.Queues
    var anfds: seq<ANFD>
    var fdchanges: seq<nat>

    /** The lists hold the active watchers, each once, in the list of its own descriptor. */
    ghost predicate ListsValid()
      reads this`anfds, watchers`active
    {
      && (forall fd: nat, w :: fd < |anfds| && w in anfds[fd].head ==> w in watchers && w.fd == fd && w.active)
      && (forall fd: nat :: fd < |anfds| ==> NoRepeats(anfds[fd].head))
      && (forall w :: w in watchers && w.active ==> w.fd < |anfds| && w in anfds[w.fd].head)
    }

    /** A descriptor is in the change list, once, exactly while it has a reify flag. */
    ghost predicate ChangesValid()
      reads this
    {
      && (forall fd :: fd in fdchanges ==> fd < |anfds|)
      && NoRepeats(fdchanges)
      && (forall fd: nat :: fd < |anfds| ==> (fd in fdchanges <==> anfds[fd].reify != {}))
    }

    /** What the backend was told about each descriptor. */
    ghost function Told(): (r: Interest)
      reads this`anfds
      ensures |r| == |anfds| && forall fd: nat :: fd < |anfds| ==> r[fd] == anfds[fd].events
    {
      EventsOf(anfds)
    }

    ghost predicate Valid()
      reads this, backend, watchers`active, watchers`events
    {
      && ListsValid() && ChangesValid()
      && Listed(backend.pollidxs, backend.polls, Told())
      && (forall w :: w in watchers && w.active ==> EV_IOFDSET !in w.events)
      && Settled()
    }

    /** The pending queues are those of a loop that these watchers belong to. */
    ghost predicate QueuesValid()
      reads queues, queues.pendings, queues.watchers`pending, queues.watchers`priority
    {
      queues.Valid() && forall w :: w in watchers ==> w.base in queues.watchers
    }

    /** Descriptors without a reify flag have been reported as their watchers want. */
    ghost predicate Settled()
      requires ListsValid()
      reads this`anfds, watchers`active, watchers`events
    {
      forall fd: nat :: fd < |anfds| && anfds[fd].reify == {} ==> anfds[fd].events == Union(anfds[fd].head)
    }

    constructor (ws: set<IoWatcher>, queues: PendingQueues.Queues)
      requires forall w :: w in ws ==> !w.active
      ensures Valid() && watchers == ws && this.queues == queues && fdchanges == [] && fresh(backend)
    {
      watchers, anfds, fdchanges, this.queues := ws, [], [], queues;
      backend := new Backend();
    }

    /** fd_change */
    method FdChange(fd: nat, flags: set<Reify>)
      requires ChangesValid() && fd < |anfds| && flags != {}
      modifies this`anfds, this`fdchanges
      ensures ChangesValid()
      ensures anfds == old(anfds[fd := anfds[fd].(reify := anfds[fd].reify + flags)])
    {
      var reify := anfds[fd].reify;
      anfds := anfds[fd := anfds[fd].(reify := reify + flags)];
      if reify == {} { fdchanges := fdchanges + [fd]; }
    }

    /** Growth of anfds, with entries that are all zero. */
    method NeedSize(cnt: nat)
      requires Valid()
      modifies this`anfds
      ensures Valid() && |anfds| >= cnt && |anfds| >= old(|anfds|)
      ensures anfds[..old(|anfds|)] == old(anfds)
      ensures forall fd: nat :: old(|anfds|) <= fd < |anfds| ==> anfds[fd] == ANFD([], {}, {})
    {
      if cnt > |anfds| {
        ghost var told := Told();
        hide Listed;
        anfds := anfds + seq(cnt - |anfds|, _ => ANFD([], {}, {}));
        ListedAlike(backend.pollidxs, backend.polls, told, Told());
      }
    }

    /** ev_io_start. The mask was set by ev_io_set, which leaves the internal flag in it. */
    method IoStart(w: IoWatcher)
      requires Valid() && w in watchers
      modifies this`anfds, this`fdchanges, w`active, w`events
      ensures Valid() && w.active
      ensures old(w.active) ==> anfds == old(anfds) && w.events == old(w.events)
      ensures !old(w.active) ==> w.events == old(w.events) - {EV_IOFDSET} && |anfds| > w.fd && |anfds| >= old(|anfds|)
      ensures !old(w.active) ==> anfds[w.fd].head == [w] + old(if w.fd < |anfds| then anfds[w.fd].head else [])
      ensures !old(w.active) ==> forall fd: nat :: fd < |anfds| && fd != w.fd ==>
        anfds[fd] == if fd < |old(anfds)| then old(anfds)[fd] else ANFD([], {}, {})
      ensures !old(w.active) ==> EV_ANFD_REIFY in anfds[w.fd].reify
      ensures !old(w.active) && EV_IOFDSET in old(w.events) ==> IOFDSET_REIFY in anfds[w.fd].reify
    {
      hide Listed, Union, NoRepeats;
      if w.active { return; }
      NeedSize(w.fd + 1);
      // The code clears the flag last; nothing in between looks at it again.
      var reify := if EV_IOFDSET in w.events then {IOFDSET_REIFY, EV_ANFD_REIFY} else {EV_ANFD_REIFY};
      w.events := w.events - {EV_IOFDSET};
      Link(w, reify);
    }

    /** The list insertion and the change notice. */
    method Link(w: IoWatcher, reify: set<Reify>)
      requires Valid() && w in watchers && !w.active && w.fd < |anfds| && EV_IOFDSET !in w.events && reify != {}
      modifies this`anfds, this`fdchanges, w`active
      ensures Valid() && w.active
      ensures anfds == old(anfds)[w.fd := old(anfds)[w.fd].(
        head := [w] + old(anfds)[w.fd].head, reify := old(anfds)[w.fd].reify + reify)]
    {
      hide Listed, Union;
      var fd := w.fd;
      ghost var told := Told();
      NoRepeatsCons(w, anfds[fd].head);
      w.active := true;
      anfds := anfds[fd := anfds[fd].(head := [w] + anfds[fd].head)];
      FdChange(fd, reify);
      assert Told() == told;
    }

    /** ev_io_stop: also an event already queued for the watcher is not delivered any more. */
    method IoStop(w: IoWatcher)
      requires Valid() && QueuesValid() && w in watchers
      modifies this`anfds, this`fdchanges, w`active, queues.pendings, w.base`pending
      ensures Valid() && QueuesValid() && !w.active && w.base.pending == 0 && |anfds| == old(|anfds|)
      ensures queues.pendings[..] ==
        PendingOrder.Apply(old(queues.pendings[..]), PendingOrder.Clear(w.base, w.base.priority - EV_MINPRI))
      ensures anfds == if old(w.active) then old(anfds)[w.fd := old(anfds)[w.fd].(
        head := Without(old(anfds)[w.fd].head, w), reify := old(anfds)[w.fd].reify + {EV_ANFD_REIFY})] else old(anfds)
    {
      hide Listed, Union, Without, ListsValid, ChangesValid, Settled, Told, PendingQueues.Queues.Valid,
        PendingOrder.Apply;
      var _ := queues.ClearPending(w.base);
      if w.active { Unlink(w); }
    }

    /** The list removal and the change notice. */
    method Unlink(w: IoWatcher)
      requires Valid() && w in watchers && w.active
      modifies this`anfds, this`fdchanges, w`active
      ensures Valid() && !w.active && |anfds| == old(|anfds|)
      ensures w.fd < old(|anfds|) && anfds == old(anfds)[w.fd := old(anfds)[w.fd].(
        head := Without(old(anfds)[w.fd].head, w), reify := old(anfds)[w.fd].reify + {EV_ANFD_REIFY})]
    {
      hide Listed, Union, Without;
      var fd := w.fd;
      ghost var told := Told();
      WithoutRemoves(anfds[fd].head, w);
      anfds := anfds[fd := anfds[fd].(head := Without(anfds[fd].head, w))];
      w.active := false;
      FdChange(fd, {EV_ANFD_REIFY});
      assert Told() == told;
    }

    /** The state within a reify. */
    ghost predicate Reifying(i: nat)
      reads this, backend, watchers`active, watchers`events
    {
      && ListsValid() && Outstanding(anfds, fdchanges, i)
      && Listed(backend.pollidxs, backend.polls, Told())
      && (forall w :: w in watchers && w.active ==> EV_IOFDSET !in w.events)
      && Settled()
    }

    /** The mask of one descriptor as the backend is told it. */
    method Report(fd: nat) returns (oEvents: Mask, events: Mask, oReify: set<Reify>)
      requires fd < |anfds|
      modifies this`anfds
      ensures oEvents == old(anfds[fd].events) && events == old(Union(anfds[fd].head))
      ensures anfds == old(anfds)[fd := ANFD(old(anfds)[fd].head, events, {})]
      ensures oReify == if oEvents != events then {IOFDSET_REIFY} else old(anfds[fd].reify)
    {
      hide Union;
      oEvents, oReify := anfds[fd].events, anfds[fd].reify;
      events := UnionOf(anfds[fd].head);
      anfds := anfds[fd := ANFD(anfds[fd].head, events, {})];
      if oEvents != events { oReify := {IOFDSET_REIFY}; }
    }

    /** One turn of fd_reify. */
    method ReifyOne(i: nat)
      requires Reifying(i) && i < |fdchanges|
      modifies this`anfds, backend
      ensures Reifying(i + 1)
      ensures |anfds| == old(|anfds|) && forall fd: nat :: fd < |anfds| ==> anfds[fd].head == old(anfds[fd].head)
    {
      hide Listed, Union, Outstanding, NoRepeats;
      var fd := fdchanges[i];
      OutstandingNext(anfds, fdchanges, i, ANFD([], {}, {}));
      OutstandingNext(anfds, fdchanges, i, ANFD(anfds[fd].head, Union(anfds[fd].head), {}));
      ghost var told := Told();
      var oEvents, events, oReify := Report(fd);
      assert Told() == told[fd := events];
      if IOFDSET_REIFY in oReify { backend.Modify(fd, oEvents, events, told); }
      else { assert told[fd := events] == told; }
      assert Told() == told[fd := events];
    }

    lemma OutstandingNext(anfds: seq<ANFD>, fdchanges: seq<nat>, i: nat, anfd: ANFD)
      requires Outstanding(anfds, fdchanges, i) && i < |fdchanges| && anfd.reify == {}
      ensures fdchanges[i] < |anfds| && Outstanding(anfds[fdchanges[i] := anfd], fdchanges, i + 1)
    {
      assert fdchanges[i] in fdchanges;
      TailOfList(fdchanges, i);
    }

    lemma TailOfList(s: seq<nat>, i: nat)
      requires NoRepeats(s) && i < |s|
      ensures s[i] !in s[i + 1..] && forall x :: x in s[i..] <==> x == s[i] || x in s[i + 1..]
    {
      assert s[i..] == [s[i]] + s[i + 1..];
    }

    /** The inner loop of fd_reify. */
    method UnionOf(ws: seq<IoWatcher>) returns (events: Mask)
      ensures events == Union(ws)
    {
      events := {};
      var k := 0;
      assert ws[0..] == ws;
      while k < |ws|
        invariant k <= |ws| && events + Union(ws[k..]) == Union(ws)
      {
        assert ws[k..][1..] == ws[k + 1..];
        events := events + ws[k].events;
        k := k + 1;
      }
    }

    /** fd_reify: afterwards no change is outstanding and the poll table lists exactly the descriptors
        that some active watcher asks for something, each with all that is asked. */
    method FdReify()
      requires Valid()
      modifies this`anfds, this`fdchanges, backend
      ensures Valid() && fdchanges == []
      ensures |anfds| == old(|anfds|) && forall fd: nat :: fd < |anfds| ==> anfds[fd].head == old(anfds[fd].head)
      ensures forall fd: nat :: fd < |anfds| ==> anfds[fd].reify == {} && anfds[fd].events == Union(anfds[fd].head)
    {
      hide Listed, Union;
      assert fdchanges[0..] == fdchanges;
      for i := 0 to |fdchanges|
        invariant Reifying(i) && fdchanges == old(fdchanges)
        invariant |anfds| == old(|anfds|) && forall fd: nat :: fd < |anfds| ==> anfds[fd].head == old(anfds[fd].head)
      {
        ReifyOne(i);
      }
      assert fdchanges[|fdchanges|..] == [];
      fdchanges := [];
    }

    /** The kernel is asked to watch a descriptor for input, or for output, exactly when some active
        watcher of that descriptor wants to read, or write. */
    lemma KernelWatchesWhatIsWanted(fd: nat, flag: Flag, pollFlag: PollFlag)
      requires Valid() && fdchanges == []
      requires (flag, pollFlag) == (EV_READ, POLLIN) || (flag, pollFlag) == (EV_WRITE, POLLOUT)
      ensures (exists p :: p in backend.polls && p.fd == fd && pollFlag in p.events)
         <==> (exists w :: w in watchers && w.active && w.fd == fd && flag in w.events)
    {
      var i, ev := IndexFor(backend.pollidxs, fd), MaskOf(Told(), fd);
      if fd < |anfds| {
        assert ev == Union(anfds[fd].head);
        AskedFor(anfds[fd].head, flag);
      }
      assert Entry(backend.pollidxs, backend.polls, fd, ev);
      if i >= 0 {
        assert backend.polls[i] in backend.polls && backend.polls[i] == PollFd(fd, Translate(ev));
      }
      forall p | p in backend.polls && p.fd == fd ensures i >= 0 && p == backend.polls[i] {
        var k: nat :| k < |backend.polls| && backend.polls[k] == p;
      }
    }

    /** And it is asked about each descriptor at most once. */
    lemma PolledOnce(i: nat, j: nat)
      requires Valid() && i < j < |backend.polls|
      ensures backend.polls[i].fd != backend.polls[j].fd
    {
      assert IndexFor(backend.pollidxs, backend.polls[i].fd) == i;
    }
  }
}
