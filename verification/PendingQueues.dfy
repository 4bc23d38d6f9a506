/** ev_feed_event, clear_pending and ev_invoke_pending on their arrays and index fields. */
module PendingQueues {
  import opened EvWatcher
  import opened Wrappers
  import opened PendingOrder

  class Queues {
    /** The watchers used with this loop. */
    ghost const watchers: set<Watcher>
    const pendings: array<seq<Slot<Watcher>>>
    var pendingpri: int

    ghost predicate PrioritiesFit()
      reads watchers`priority
    {
      forall w :: w in watchers ==> EV_MINPRI <= w.priority <= EV_MAXPRI
    }

    ghost function Prio(): map<Watcher, Pri>
      requires PrioritiesFit()
      reads watchers`priority
    {
      map w | w in watchers :: w.priority - EV_MINPRI
    }

    ghost predicate Valid()
      reads this, pendings, watchers`pending, watchers`priority
    {
      && pendings.Length == NUMPRI && PrioritiesFit()
      && Placed(pendings[..], Prio())
      && BackIndexed(pendings[..], Prio())
    }

    ghost predicate BackIndexed(st: PendingOrder.Queues<Watcher>, prio: map<Watcher, Pri>)
      reads watchers`pending
    {
      prio.Keys == watchers && forall w :: w in watchers ==> w.pending == StoredIn(st, prio, w)
    }

    /** The queues when nothing has been fed yet. */
    constructor (ws: set<Watcher>)
      requires forall w :: w in ws ==> EV_MINPRI <= w.priority <= EV_MAXPRI && w.pending == 0
      ensures Valid() && watchers == ws && fresh(pendings)
      ensures pendings[..] == [[], [], [], [], []]
    {
      watchers, pendings, pendingpri := ws, new seq<Slot<Watcher>>[NUMPRI](_ => []), 0;
    }

    /** Adds events to the slot of a pending watcher, or gives the watcher a slot. */
    method FeedInPlace(w: Watcher, pri: Pri, revents: Events)
      requires pendings.Length == NUMPRI && w.pending == Stored(pendings[pri], w)
      modifies this`pendingpri, pendings, w`pending
      ensures pendingpri == NUMPRI - 1
      ensures pendings[..] == Apply(old(pendings[..]), Feed(w, pri, revents))
      ensures w.pending == old(if w.pending == 0 then |pendings[pri]| + 1 else w.pending)
    {
      var q := pendings[pri];
      if w.pending != 0 {
        pendings[pri] := q[w.pending - 1 := Slot(w, q[w.pending - 1].events + revents)];
      } else {
        w.pending := |q| + 1;
        pendings[pri] := q + [Slot(w, revents)];
      }
      pendingpri := NUMPRI - 1;
    }

    /** ev_feed_event */
    method FeedEvent(w: Watcher, revents: Events)
      requires Valid() && w in watchers
      modifies this`pendingpri, pendings, w`pending
      ensures Valid() && pendingpri == NUMPRI - 1
      ensures pendings[..] == Apply(old(pendings[..]), Feed(w, w.priority - EV_MINPRI, revents))
    {
      hide Placed, Stored, Apply;
      ghost var prio, st := Prio(), pendings[..];
      var pri: Pri := w.priority - EV_MINPRI;
      ApplyStores(st, prio, Feed(w, pri, revents));
      ApplyHasEffect(st, prio, Feed(w, pri, revents));
      FeedInPlace(w, pri, revents);
      hide StoredIn, PendingEvents, PendingOrder.Effect;
    }

    /** The loop of feed_reverse_done: feeds the listed watchers, the last one first. */
    method FeedReversed(ws: seq<Watcher>, revents: Events)
      requires Valid() && forall w :: w in ws ==> w in watchers
      modifies this`pendingpri, pendings, watchers`pending
      ensures Valid()
      ensures pendings[..] == FeedReverse(old(pendings[..]), ws, Prio(), revents)
    {
      hide Apply, Placed, BackIndexed;
      ghost var prio := Prio();
      var cnt := |ws|;
      assert ws[..cnt] == ws;
      while cnt > 0
        invariant cnt <= |ws| && Valid() && Prio() == prio
        invariant FeedReverse(pendings[..], ws[..cnt], prio, revents)
               == FeedReverse(old(pendings[..]), ws, prio, revents)
      {
        assert ws[..cnt][..cnt - 1] == ws[..cnt - 1];
        cnt := cnt - 1;
        FeedEvent(ws[cnt], revents);
      }
    }

    /** Leaves the slot of a pending watcher in place, but without the watcher. */
    method ClearInPlace(w: Watcher, pri: Pri) returns (events: Events)
      requires pendings.Length == NUMPRI && w.pending == Stored(pendings[pri], w)
      modifies pendings, w`pending
      ensures pendings[..] == Apply(old(pendings[..]), Clear(w, pri)) && w.pending == 0
      ensures old(w.pending) == 0 ==> pendings[..] == old(pendings[..])
      ensures forall p: nat :: p < NUMPRI ==> |pendings[p]| == old(|pendings[p]|)
      ensures Some(events) == old(Find(pendings[pri], w)) || (events == {} && old(Find(pendings[pri], w)).None?)
    {
      var q := pendings[pri];
      events := {};
      if w.pending != 0 {
        events := q[w.pending - 1].events;
        pendings[pri] := q[w.pending - 1 := Dummy(events)];
        w.pending := 0;
      }
    }

    /** clear_pending and ev_clear_pending: returns the events that will not be delivered. */
    method ClearPending(w: Watcher) returns (events: Events)
      requires Valid() && w in watchers
      modifies pendings, w`pending
      ensures Valid() && w.pending == 0
      ensures old(w.pending) == 0 ==> pendings[..] == old(pendings[..])
      ensures pendings[..] == Apply(old(pendings[..]), Clear(w, w.priority - EV_MINPRI))
      ensures forall p: nat :: p < NUMPRI ==> |pendings[p]| == old(|pendings[p]|)
      ensures events ==
        old(if w in PendingEvents(pendings[..], Prio()) then PendingEvents(pendings[..], Prio())[w] else {})
    {
      hide Placed, Stored, Find, Apply;
      ghost var prio, st := Prio(), pendings[..];
      var pri: Pri := w.priority - EV_MINPRI;
      ApplyStores(st, prio, Clear(w, pri));
      ApplyHasEffect(st, prio, Clear(w, pri));
      events := ClearInPlace(w, pri);
      hide StoredIn, PendingOrder.Effect;
    }

    /** No event waits above the priority being processed. */
    ghost predicate QuietAbove()
      requires pendings.Length == NUMPRI
      reads this, pendings
    {
      0 <= pendingpri < NUMPRI && forall p: nat :: pendingpri < p < NUMPRI ==> pendings[p] == []
    }

    /** What a callback does to the queues: any feeds and clears. */
    method Callback(ops: seq<Op<Watcher>>)
      requires Valid() && QuietAbove() && forall op :: op in ops ==> Fits(op, Prio())
      modifies this`pendingpri, pendings, watchers`pending
      ensures Valid() && QuietAbove()
      ensures pendings[..] == ApplyAll(old(pendings[..]), ops)
    {
      hide Apply, Placed, StoredIn, BackIndexed;
      var i := 0;
      assert ops[0..] == ops;
      while i < |ops|
        invariant i <= |ops| && Valid() && QuietAbove()
        invariant ApplyAll(pendings[..], ops[i..]) == ApplyAll(old(pendings[..]), ops)
      {
        assert ops[i..][1..] == ops[i + 1..];
        assert ops[i] in ops && Fits(ops[i], Prio());
        if ops[i].Feed? {
          FeedEvent(ops[i].w, ops[i].events);
        } else {
          var _ := ClearPending(ops[i].w);
        }
        i := i + 1;
      }
    }

    /** Takes the last slot of the current queue. */
    method TakeLast() returns (slot: Slot<Watcher>)
      requires Valid() && QuietAbove() && pendings[pendingpri] != []
      modifies pendings, watchers`pending
      ensures Valid() && QuietAbove()
      ensures slot == old(pendings[pendingpri][|pendings[pendingpri]| - 1])
      ensures pendings[..] == Popped(old(pendings[..]), pendingpri)
      ensures slot.Slot? ==> slot.w in watchers
    {
      hide Placed, StoredIn, Lookup;
      ghost var prio, st := Prio(), pendings[..];
      PopHasEffect(st, prio, pendingpri);
      PopStores(st, prio, pendingpri);
      var q := pendings[pendingpri];
      slot := q[|q| - 1];
      pendings[pendingpri] := q[..|q| - 1];
      assert pendings[..] == Popped(st, pendingpri);
      if slot.Slot? { slot.w.pending := 0; }
    }

    /** One turn of the inner loop: invokes the watcher of the last slot, unless it was cleared. */
    method InvokeOne(script: seq<seq<Op<Watcher>>>)
      returns (calls: seq<Call<Watcher>>, rest: seq<seq<Op<Watcher>>>)
      requires Valid() && QuietAbove() && pendings[pendingpri] != []
      requires ScriptFits(script)
      modifies this`pendingpri, pendings, watchers`pending
      ensures Valid() && QuietAbove() && ScriptFits(rest)
      ensures calls + Run(pendings[..], rest) == Run(old(pendings[..]), script)
      ensures |rest| < |script| ||
        (rest == script && pendingpri == old(pendingpri) && Total(pendings[..]) < Total(old(pendings[..])))
    {
      hide Apply, ApplyAll, Placed, BackIndexed;
      HighestIs(pendings[..], pendingpri);
      var slot := TakeLast();
      calls, rest := [], script;
      if slot.Slot? {
        calls := [Call(slot.w, slot.events)];
        if script != [] {
          assert script[0] in script;
          Callback(script[0]);
          rest := script[1..];
        }
      }
    }

    ghost predicate ScriptFits(script: seq<seq<Op<Watcher>>>)
      requires PrioritiesFit()
      reads watchers`priority
    {
      forall ops, op :: ops in script && op in ops ==> Fits(op, Prio())
    }

    /** The inner loop: runs until the current queue is empty, restarting at the top after a feed. */
    method InvokeCurrent(script: seq<seq<Op<Watcher>>>)
      returns (log: seq<Call<Watcher>>, rest: seq<seq<Op<Watcher>>>)
      requires Valid() && QuietAbove() && ScriptFits(script)
      modifies this`pendingpri, pendings, watchers`pending
      ensures Valid() && QuietAbove() && pendings[pendingpri] == [] && ScriptFits(rest)
      ensures log + Run(pendings[..], rest) == Run(old(pendings[..]), script)
      ensures |rest| < |script| ||
        (rest == script && pendingpri == old(pendingpri) && Total(pendings[..]) <= Total(old(pendings[..])))
    {
      hide Placed, Run, StoredIn, BackIndexed;
      log, rest := [], script;
      while |pendings[pendingpri]| != 0
        invariant Valid() && QuietAbove() && ScriptFits(rest)
        invariant log + Run(pendings[..], rest) == Run(old(pendings[..]), script)
        invariant |rest| < |script| ||
          (rest == script && pendingpri == old(pendingpri) && Total(pendings[..]) <= Total(old(pendings[..])))
        decreases |rest|, Total(pendings[..])
      {
        ghost var before, run := log, Run(pendings[..], rest);
        var calls;
        calls, rest := InvokeOne(rest);
        log := log + calls;
        assert log + Run(pendings[..], rest) == before + run;
      }
    }

    /** ev_invoke_pending. The i-th callback performs script[i]; the calls are those of the run, and
        nothing is left pending. */
    method InvokePending(script: seq<seq<Op<Watcher>>>) returns (log: seq<Call<Watcher>>)
      requires Valid() && ScriptFits(script)
      modifies this`pendingpri, pendings, watchers`pending
      ensures Valid()
      ensures log == Run(old(pendings[..]), script)
      ensures forall p :: 0 <= p < NUMPRI ==> pendings[p] == []
      ensures forall w :: w in watchers ==> w.pending == 0
    {
      hide Placed, Run, StoredIn;
      pendingpri := NUMPRI;
      log := [];
      var todo := script;
      while pendingpri != 0
        invariant 0 <= pendingpri <= NUMPRI && Valid() && ScriptFits(todo)
        invariant forall p :: pendingpri <= p < NUMPRI ==> pendings[p] == []
        invariant log + Run(pendings[..], todo) == Run(old(pendings[..]), script)
        decreases |todo|, Total(pendings[..]), pendingpri
      {
        pendingpri := pendingpri - 1;
        ghost var before, run := log, Run(pendings[..], todo);
        var calls;
        calls, todo := InvokeCurrent(todo);
        log := log + calls;
        assert log + Run(pendings[..], todo) == before + run;
      }
      NothingLeft(pendings[..], todo, Prio());
    }
  }

  lemma HighestIs<W>(st: PendingOrder.Queues<W>, p: nat)
    requires p < NUMPRI && st[p] != [] && forall k: nat :: p < k < NUMPRI ==> st[k] == []
    ensures Highest(st, NUMPRI) == p
  {}

  lemma NothingLeft<W>(st: PendingOrder.Queues<W>, script: seq<seq<Op<W>>>, prio: map<W, Pri>)
    requires forall p :: 0 <= p < NUMPRI ==> st[p] == []
    ensures Run(st, script) == []
    ensures forall w :: w in prio ==> StoredIn(st, prio, w) == 0
  {}
}
