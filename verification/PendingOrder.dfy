/** The pending queues of libev as values: feeding, clearing and invoking events, and in which order
    and with which events watchers are invoked. */
module PendingOrder {
  import opened Wrappers

  const NUMPRI: nat := 5
  /** An event mask, as the set of its flags; or-ing masks is union. */
  type Events = set<nat>

  type Pri = p: nat | p < NUMPRI

  /** A cleared slot keeps its place and its events, but names no watcher. */
  datatype Slot<W> = Slot(w: W, events: Events) | Dummy(events: Events)

  /** One queue for each priority. */
  type Queues<!W> = q: seq<seq<Slot<W>>> | |q| == NUMPRI witness [[], [], [], [], []]

  /** What a callback may do to the queues. */
  datatype Op<W> = Feed(w: W, pri: Pri, events: Events) | Clear(w: W, pri: Pri)

  datatype Call<W> = Call(w: W, events: Events)

  predicate Holds<W(==)>(s: Slot<W>, w: W) {
    s.Slot? && s.w == w
  }

  /** The place of `w` in a queue, or its length. */
  function IndexOf<W(==)>(q: seq<Slot<W>>, w: W): (i: nat)
    ensures i <= |q| && (i < |q| ==> Holds(q[i], w))
    ensures forall j :: 0 <= j < i ==> !Holds(q[j], w)
  {
    if q == [] || Holds(q[0], w) then 0 else 1 + IndexOf(q[1..], w)
  }

  function FeedSlot<W(==)>(q: seq<Slot<W>>, w: W, events: Events): seq<Slot<W>> {
    var i := IndexOf(q, w);
    if i < |q| then q[i := Slot(w, q[i].events + events)] else q + [Slot(w, events)]
  }

  function ClearSlot<W(==)>(q: seq<Slot<W>>, w: W): seq<Slot<W>> {
    var i := IndexOf(q, w);
    if i < |q| then q[i := Dummy(q[i].events)] else q
  }

  function Apply<W(==)>(st: Queues<W>, op: Op<W>): Queues<W> {
    match op
    case Feed(w, pri, events) => st[pri := FeedSlot(st[pri], w, events)]
    case Clear(w, pri) => st[pri := ClearSlot(st[pri], w)]
  }

  function ApplyAll<W(==)>(st: Queues<W>, ops: seq<Op<W>>): Queues<W>
    decreases |ops|
  {
    if ops == [] then st else ApplyAll(Apply(st, ops[0]), ops[1..])
  }

  lemma {:induction false} ApplyAllAppend<W>(st: Queues<W>, ops: seq<Op<W>>, op: Op<W>)
    ensures ApplyAll(st, ops + [op]) == Apply(ApplyAll(st, ops), op)
    decreases |ops|
  {
    hide Apply;
    if ops == [] {
      assert ops + [op] == [op] && [op][1..] == [];
    } else {
      assert (ops + [op])[1..] == ops[1..] + [op];
      ApplyAllAppend(Apply(st, ops[0]), ops[1..], op);
    }
  }

  function Total<W>(st: Queues<W>): nat {
    |st[0]| + |st[1]| + |st[2]| + |st[3]| + |st[4]|
  }

  /** The highest priority below `n` with a non-empty queue, or 0. */
  function Highest<W(==)>(st: Queues<W>, n: nat): (p: nat)
    requires n <= NUMPRI
    ensures p == 0 || (p < n && st[p] != [])
    ensures forall k :: p < k < n ==> st[k] == []
  {
    if n == 0 then 0 else if st[n - 1] != [] then n - 1 else Highest(st, n - 1)
  }

  function Popped<W>(st: Queues<W>, p: nat): (r: Queues<W>)
    requires p < NUMPRI && st[p] != []
    ensures Total(r) + 1 == Total(st)
  {
    st[p := st[p][..|st[p]| - 1]]
  }

  /** All invocations until the queues are empty. The i-th callback performs script[i]; later ones
      leave the queues alone. */
  function Run<W(==)>(st: Queues<W>, script: seq<seq<Op<W>>>): seq<Call<W>>
    decreases |script|, Total(st)
  {
    var p := Highest(st, NUMPRI);
    if st[p] == [] then []
    else
      var last := st[p][|st[p]| - 1];
      match last
      case Dummy(_) => Run(Popped(st, p), script)
      case Slot(w, events) =>
        [Call(w, events)] +
        if script == [] then Run(Popped(st, p), []) else Run(ApplyAll(Popped(st, p), script[0]), script[1..])
  }

  // ----- What the queues stand for -----

  ghost predicate Once<W>(q: seq<Slot<W>>) {
    forall i: nat, j: nat :: i < j < |q| && q[i].Slot? && q[j].Slot? ==> q[i].w != q[j].w
  }

  ghost predicate Belongs<W>(s: Slot<W>, p: nat, prio: map<W, Pri>) {
    s.Slot? ==> s.w in prio && prio[s.w] == p
  }

  /** A queue holds watchers of its priority, each in at most one slot. */
  ghost predicate QueuePlaced<W>(q: seq<Slot<W>>, p: nat, prio: map<W, Pri>) {
    Once(q) && forall s :: s in q ==> Belongs(s, p, prio)
  }

  ghost predicate Placed<W>(st: Queues<W>, prio: map<W, Pri>) {
    forall p: nat :: p < NUMPRI ==> QueuePlaced(st[p], p, prio)
  }

  function Find<W(==)>(q: seq<Slot<W>>, w: W): Option<Events> {
    var i := IndexOf(q, w);
    if i < |q| then Some(q[i].events) else None
  }

  /** The events queued for a watcher. */
  function Lookup<W(==)>(st: Queues<W>, prio: map<W, Pri>, w: W): Option<Events> {
    if w in prio then Find(st[prio[w]], w) else None
  }

  /** The index that is stored back in a watcher: its place in the queue counted from 1, or 0. */
  function Stored<W(==)>(q: seq<Slot<W>>, w: W): nat {
    var i := IndexOf(q, w);
    if i < |q| then i + 1 else 0
  }

  /** Each pending watcher with the events that its callback will get. */
  ghost function PendingEvents<W>(st: Queues<W>, prio: map<W, Pri>): (m: map<W, Events>)
    ensures m.Keys <= prio.Keys
  {
    map w | w in prio && Lookup(st, prio, w).Some? :: Lookup(st, prio, w).value
  }

  ghost predicate Fits<W>(op: Op<W>, prio: map<W, Pri>) {
    op.w in prio && op.pri == prio[op.w]
  }

  /** Feeding and clearing, on what the queues stand for. */
  ghost function Effect<W>(m: map<W, Events>, op: Op<W>): map<W, Events> {
    match op
    case Feed(w, _, events) => m[w := (if w in m then m[w] else {}) + events]
    case Clear(w, _) => m - {w}
  }

  ghost function EffectAll<W>(m: map<W, Events>, ops: seq<Op<W>>): map<W, Events>
    decreases |ops|
  {
    if ops == [] then m else EffectAll(Effect(m, ops[0]), ops[1..])
  }

  // ----- One queue -----

  lemma FoundAt<W>(q: seq<Slot<W>>, w: W, i: nat)
    requires Once(q) && i < |q| && Holds(q[i], w)
    ensures IndexOf(q, w) == i
  {}

  /** A slot for another watcher changes nothing about where `u` is found. */
  lemma SlotsElsewhere<W>(q: seq<Slot<W>>, r: seq<Slot<W>>, u: W)
    requires forall i: nat :: i < |q| && i < |r| ==> r[i] == q[i] || (!Holds(r[i], u) && !Holds(q[i], u))
    requires forall i: nat :: |q| <= i < |r| ==> !Holds(r[i], u)
    requires forall i: nat :: |r| <= i < |q| ==> !Holds(q[i], u)
    ensures Find(r, u) == Find(q, u) && Stored(r, u) == Stored(q, u)
  {
    var i, j := IndexOf(q, u), IndexOf(r, u);
    if i < |q| { assert Holds(r[i], u); }
    if j < |r| { assert Holds(q[j], u); }
  }

  lemma FeedOneQueue<W>(q: seq<Slot<W>>, p: nat, prio: map<W, Pri>, w: W, events: Events)
    requires QueuePlaced(q, p, prio) && w in prio && prio[w] == p
    ensures var r := FeedSlot(q, w, events);
      && QueuePlaced(r, p, prio)
      && Find(r, w) == Some((if Find(q, w).Some? then Find(q, w).value else {}) + events)
      && Stored(r, w) == (if Stored(q, w) == 0 then |q| + 1 else Stored(q, w))
      && forall u :: u != w ==> Find(r, u) == Find(q, u) && Stored(r, u) == Stored(q, u)
  {
    var r, i := FeedSlot(q, w, events), IndexOf(q, w);
    assert {} + events == events;
    FoundAt(r, w, i);
    forall u | u != w ensures Find(r, u) == Find(q, u) && Stored(r, u) == Stored(q, u) { SlotsElsewhere(q, r, u); }
  }

  lemma ClearOneQueue<W>(q: seq<Slot<W>>, p: nat, prio: map<W, Pri>, w: W)
    requires QueuePlaced(q, p, prio)
    ensures var r := ClearSlot(q, w);
      && QueuePlaced(r, p, prio) && Find(r, w) == None && Stored(r, w) == 0
      && forall u :: u != w ==> Find(r, u) == Find(q, u) && Stored(r, u) == Stored(q, u)
  {
    var r, i := ClearSlot(q, w), IndexOf(q, w);
    assert forall k: nat :: k < |q| && Holds(q[k], w) ==> k == i;
    forall u | u != w ensures Find(r, u) == Find(q, u) && Stored(r, u) == Stored(q, u) { SlotsElsewhere(q, r, u); }
  }

  lemma PopOneQueue<W>(q: seq<Slot<W>>, p: nat, prio: map<W, Pri>)
    requires QueuePlaced(q, p, prio) && q != []
    ensures var r, s := q[..|q| - 1], q[|q| - 1];
      && QueuePlaced(r, p, prio)
      && (s.Slot? ==> Find(q, s.w) == Some(s.events) && Find(r, s.w) == None && Stored(r, s.w) == 0)
      && forall u :: !Holds(s, u) ==> Find(r, u) == Find(q, u) && Stored(r, u) == Stored(q, u)
  {
    var r, s := q[..|q| - 1], q[|q| - 1];
    if s.Slot? { FoundAt(q, s.w, |q| - 1); }
    forall u | !Holds(s, u) ensures Find(r, u) == Find(q, u) && Stored(r, u) == Stored(q, u) {
      SlotsElsewhere(q, r, u);
    }
  }

  // ----- All queues -----

  /** Replacing one queue affects only the watchers of its priority. */
  lemma QueueReplaced<W>(st: Queues<W>, prio: map<W, Pri>, p: Pri, r: seq<Slot<W>>)
    requires Placed(st, prio) && QueuePlaced(r, p, prio)
    ensures Placed(st[p := r], prio)
    ensures forall u {:trigger Lookup(st[p := r], prio, u)} :: u in prio ==>
      Lookup(st[p := r], prio, u) == if prio[u] == p then Find(r, u) else Lookup(st, prio, u)
    ensures forall u {:trigger Lookup(st[p := r], prio, u)} :: u !in prio ==> Lookup(st[p := r], prio, u).None?
  {
    hide QueuePlaced, Find;
  }

  lemma ApplyHasEffect<W>(st: Queues<W>, prio: map<W, Pri>, op: Op<W>)
    requires Placed(st, prio) && Fits(op, prio)
    ensures Placed(Apply(st, op), prio)
    ensures PendingEvents(Apply(st, op), prio) == Effect(PendingEvents(st, prio), op)
  {
    hide QueuePlaced, Find, FeedSlot, ClearSlot;
    assert QueuePlaced(st[op.pri], op.pri, prio);
    if op.Feed? {
      FeedOneQueue(st[op.pri], op.pri, prio, op.w, op.events);
      QueueReplaced(st, prio, op.pri, FeedSlot(st[op.pri], op.w, op.events));
    } else {
      ClearOneQueue(st[op.pri], op.pri, prio, op.w);
      QueueReplaced(st, prio, op.pri, ClearSlot(st[op.pri], op.w));
    }
    hide Placed;
    var st' := Apply(st, op);
    forall u | u in prio && u != op.w ensures Lookup(st', prio, u) == Lookup(st, prio, u) {}
    assert Lookup(st', prio, op.w) ==
      if op.Feed?
      then Some((if Lookup(st, prio, op.w).Some? then Lookup(st, prio, op.w).value else {}) + op.events)
      else None;
    hide Lookup;
  }

  /** The index to store back in a watcher. */
  ghost function StoredIn<W>(st: Queues<W>, prio: map<W, Pri>, w: W): nat
    requires w in prio
  {
    Stored(st[prio[w]], w)
  }

  lemma ApplyStores<W>(st: Queues<W>, prio: map<W, Pri>, op: Op<W>)
    requires Placed(st, prio) && Fits(op, prio)
    ensures forall u :: u in prio && u != op.w ==> StoredIn(Apply(st, op), prio, u) == StoredIn(st, prio, u)
    ensures StoredIn(Apply(st, op), prio, op.w) ==
      if op.Clear? then 0
      else if StoredIn(st, prio, op.w) == 0 then |st[op.pri]| + 1
      else StoredIn(st, prio, op.w)
  {
    hide QueuePlaced, Stored, FeedSlot, ClearSlot;
    assert QueuePlaced(st[op.pri], op.pri, prio);
    if op.Feed? { FeedOneQueue(st[op.pri], op.pri, prio, op.w, op.events); }
    else { ClearOneQueue(st[op.pri], op.pri, prio, op.w); }
  }

  lemma PopStores<W>(st: Queues<W>, prio: map<W, Pri>, p: nat)
    requires Placed(st, prio) && p < NUMPRI && st[p] != []
    ensures var s := st[p][|st[p]| - 1];
      && (forall u :: u in prio && !Holds(s, u) ==> StoredIn(Popped(st, p), prio, u) == StoredIn(st, prio, u))
      && (s.Slot? ==> s.w in prio && StoredIn(Popped(st, p), prio, s.w) == 0)
  {
    var q, s := st[p], st[p][|st[p]| - 1];
    assert QueuePlaced(q, p, prio) && Belongs(s, p, prio);
    PopOneQueue(q, p, prio);
    hide QueuePlaced, Stored;
  }

  lemma {:induction false} ApplyAllHasEffect<W>(st: Queues<W>, prio: map<W, Pri>, ops: seq<Op<W>>)
    requires Placed(st, prio) && forall op :: op in ops ==> Fits(op, prio)
    ensures Placed(ApplyAll(st, ops), prio)
    ensures PendingEvents(ApplyAll(st, ops), prio) == EffectAll(PendingEvents(st, prio), ops)
    decreases |ops|
  {
    hide Placed, PendingEvents, Apply, Effect;
    if ops != [] {
      ApplyHasEffect(st, prio, ops[0]);
      ApplyAllHasEffect(Apply(st, ops[0]), prio, ops[1..]);
    }
  }

  lemma PopHasEffect<W>(st: Queues<W>, prio: map<W, Pri>, p: nat)
    requires Placed(st, prio) && p < NUMPRI && st[p] != []
    ensures Placed(Popped(st, p), prio)
    ensures var m, s := PendingEvents(st, prio), st[p][|st[p]| - 1];
      && (s.Slot? ==> s.w in m && m[s.w] == s.events && prio[s.w] == p)
      && PendingEvents(Popped(st, p), prio) == if s.Slot? then m - {s.w} else m
  {
    var q, s := st[p], st[p][|st[p]| - 1];
    assert QueuePlaced(q, p, prio) && Belongs(s, p, prio);
    PopOneQueue(q, p, prio);
    QueueReplaced(st, prio, p, q[..|q| - 1]);
    hide QueuePlaced, Find, Placed;
    var st' := st[p := q[..|q| - 1]];
    if s.Slot? { OneLess(st, st', prio, s.w); } else { NoneLess(st, st', prio); }
  }

  lemma OneLess<W>(st: Queues<W>, st': Queues<W>, prio: map<W, Pri>, w: W)
    requires Lookup(st', prio, w) == None
    requires forall u :: u in prio && u != w ==> Lookup(st', prio, u) == Lookup(st, prio, u)
    ensures PendingEvents(st', prio) == PendingEvents(st, prio) - {w}
  {
    hide Lookup;
  }

  lemma NoneLess<W>(st: Queues<W>, st': Queues<W>, prio: map<W, Pri>)
    requires forall u :: u in prio ==> Lookup(st', prio, u) == Lookup(st, prio, u)
    ensures PendingEvents(st', prio) == PendingEvents(st, prio)
  {
    hide Lookup;
  }

  lemma PendingBelowHighest<W>(st: Queues<W>, prio: map<W, Pri>, u: W)
    requires u in PendingEvents(st, prio)
    ensures prio[u] <= Highest(st, NUMPRI)
  {}

  /** The slot invoked next carries all events of its watcher, and no pending watcher has a higher
      priority. */
  lemma PopIsDue<W>(st: Queues<W>, prio: map<W, Pri>, p: nat)
    requires Placed(st, prio) && p == Highest(st, NUMPRI) && st[p] != []
    ensures Placed(Popped(st, p), prio)
    ensures var m, s := PendingEvents(st, prio), st[p][|st[p]| - 1];
      && PendingEvents(Popped(st, p), prio) == (if s.Slot? then m - {s.w} else m)
      && (s.Slot? ==> s.w in m && m[s.w] == s.events && forall u :: u in m ==> prio[u] <= prio[s.w])
  {
    hide Placed, PendingEvents, Popped;
    PopHasEffect(st, prio, p);
    forall u | u in PendingEvents(st, prio) ensures prio[u] <= p { PendingBelowHighest(st, prio, u); }
  }

  /** A priority schedule: until nothing is pending, some pending watcher of the highest pending
      priority is invoked with all events it has been fed since it became pending, and is pending no
      more; then its callback runs. */
  ghost predicate Scheduled<W>(m: map<W, Events>, prio: map<W, Pri>, script: seq<seq<Op<W>>>, log: seq<Call<W>>)
    decreases |log|
  {
    if log == [] then m == map[]
    else
      var c := log[0];
      && m.Keys <= prio.Keys && c.w in m && m[c.w] == c.events
      && (forall u :: u in m ==> prio[u] <= prio[c.w])
      && (if script == [] then Scheduled(m - {c.w}, prio, [], log[1..])
          else Scheduled(EffectAll(m - {c.w}, script[0]), prio, script[1..], log[1..]))
  }

  lemma NothingPending<W>(st: Queues<W>, prio: map<W, Pri>)
    requires st[Highest(st, NUMPRI)] == []
    ensures PendingEvents(st, prio) == map[]
  {
    assert forall k: nat :: k < NUMPRI ==> st[k] == [];
  }

  /** The run of the queues is a priority schedule of what was pending. */
  lemma {:induction false} RunIsScheduled<W>(st: Queues<W>, prio: map<W, Pri>, script: seq<seq<Op<W>>>)
    requires Placed(st, prio) && forall ops, op :: ops in script && op in ops ==> Fits(op, prio)
    ensures Scheduled(PendingEvents(st, prio), prio, script, Run(st, script))
    decreases |script|, Total(st)
  {
    hide Placed, PendingEvents, Fits;
    var p := Highest(st, NUMPRI);
    if st[p] == [] {
      NothingPending(st, prio);
    } else {
      PopIsDue(st, prio, p);
      if st[p][|st[p]| - 1].Dummy? || script == [] {
        RunIsScheduled(Popped(st, p), prio, script);
      } else {
        ApplyAllHasEffect(Popped(st, p), prio, script[0]);
        RunIsScheduled(ApplyAll(Popped(st, p), script[0]), prio, script[1..]);
      }
    }
  }

  // ----- Runs whose callbacks leave the queues alone -----

  /** Each pending watcher is invoked exactly once. */
  lemma {:induction false} QuietScheduleInvokesEachOnce<W>(m: map<W, Events>, prio: map<W, Pri>, log: seq<Call<W>>)
    requires Scheduled(m, prio, [], log)
    ensures |log| == |m|
    ensures forall w :: w in m ==> Call(w, m[w]) in log
    ensures forall c :: c in log ==> c.w in m && c.events == m[c.w]
    decreases |log|
  {
    if log != [] {
      var m' := m - {log[0].w};
      QuietScheduleInvokesEachOnce(m', prio, log[1..]);
      assert m'.Keys == m.Keys - {log[0].w};
      assert log == [log[0]] + log[1..];
    }
  }

  /** And none twice. */
  lemma {:induction false} QuietScheduleRepeatsNothing<W>(m: map<W, Events>, prio: map<W, Pri>, log: seq<Call<W>>)
    requires Scheduled(m, prio, [], log)
    ensures Different(log)
    decreases |log|
  {
    if log != [] {
      var m', rest := m - {log[0].w}, log[1..];
      QuietScheduleRepeatsNothing(m', prio, rest);
      QuietScheduleInvokesEachOnce(m', prio, rest);
      forall i: nat, j: nat | i < j < |log| ensures log[i].w != log[j].w {
        assert log[j] == rest[j - 1] && rest[j - 1] in rest;
        if i > 0 { assert log[i] == rest[i - 1]; }
      }
    }
  }

  ghost predicate Different<W>(log: seq<Call<W>>) {
    forall i: nat, j: nat :: i < j < |log| ==> log[i].w != log[j].w
  }

  /** The invocations a single queue leads to: the last slot first. */
  function Unwind<W>(q: seq<Slot<W>>): seq<Call<W>>
    decreases |q|
  {
    if q == [] then []
    else
      var s := q[|q| - 1];
      (if s.Slot? then [Call(s.w, s.events)] else []) + Unwind(q[..|q| - 1])
  }

  function UnwindBelow<W>(st: Queues<W>, n: nat): seq<Call<W>>
    requires n <= NUMPRI
  {
    if n == 0 then [] else Unwind(st[n - 1]) + UnwindBelow(st, n - 1)
  }

  lemma {:induction false} UnwindSkipsEmpty<W>(st: Queues<W>, p: nat, n: nat)
    requires p < n <= NUMPRI && forall k: nat :: p < k < n ==> st[k] == []
    ensures UnwindBelow(st, n) == UnwindBelow(st, p + 1)
    decreases n
  {
    if p + 1 < n { UnwindSkipsEmpty(st, p, n - 1); }
  }

  lemma {:induction false} UnwindIgnoresHigher<W>(st: Queues<W>, p: nat, q: seq<Slot<W>>, n: nat)
    requires n <= p < NUMPRI
    ensures UnwindBelow(st[p := q], n) == UnwindBelow(st, n)
    decreases n
  {
    if n > 0 { UnwindIgnoresHigher(st, p, q, n - 1); }
  }

  lemma UnwindPops<W>(st: Queues<W>, p: nat)
    requires p < NUMPRI && st[p] != []
    ensures var s := st[p][|st[p]| - 1];
      UnwindBelow(st, p + 1) == (if s.Slot? then [Call(s.w, s.events)] else []) + UnwindBelow(Popped(st, p), p + 1)
  {
    var s, q := st[p][|st[p]| - 1], st[p][..|st[p]| - 1];
    var top := if s.Slot? then [Call(s.w, s.events)] else [];
    UnwindIgnoresHigher(st, p, q, p);
    assert Unwind(st[p]) == top + Unwind(q);
    assert UnwindBelow(Popped(st, p), p + 1) == Unwind(q) + UnwindBelow(st, p);
    hide Unwind;
    assert (top + Unwind(q)) + UnwindBelow(st, p) == top + (Unwind(q) + UnwindBelow(st, p));
  }

  lemma QuietRunStep<W>(st: Queues<W>, p: nat)
    requires p == Highest(st, NUMPRI) && st[p] != []
    ensures var s := st[p][|st[p]| - 1];
      Run(st, []) == (if s.Slot? then [Call(s.w, s.events)] else []) + Run(Popped(st, p), [])
  {}

  lemma {:induction false} QuietRunUnwinds<W>(st: Queues<W>)
    ensures Run(st, []) == UnwindBelow(st, NUMPRI)
    decreases Total(st)
  {
    var p := Highest(st, NUMPRI);
    UnwindSkipsEmpty(st, p, NUMPRI);
    if st[p] == [] {
      assert p == 0;
    } else {
      hide UnwindBelow, Run;
      UnwindSkipsEmpty(Popped(st, p), p, NUMPRI);
      UnwindPops(st, p);
      QuietRunStep(st, p);
      QuietRunUnwinds(Popped(st, p));
    }
  }

  // ----- Events fed in reverse come out in order -----

  /** feed_reverse_done: feeds the collected watchers, the last one first. */
  function FeedReverse<W(==)>(st: Queues<W>, ws: seq<W>, prio: map<W, Pri>, events: Events): Queues<W>
    requires forall w :: w in ws ==> w in prio
    decreases |ws|
  {
    if ws == [] then st
    else
      var w := ws[|ws| - 1];
      FeedReverse(Apply(st, Feed(w, prio[w], events)), ws[..|ws| - 1], prio, events)
  }

  /** The watchers of priority `p` in `ws`, each to be called with `events`. */
  function CallsAt<W(==)>(ws: seq<W>, prio: map<W, Pri>, p: nat, events: Events): seq<Call<W>>
    requires forall w :: w in ws ==> w in prio
    decreases |ws|
  {
    if ws == [] then []
    else
      var w := ws[|ws| - 1];
      CallsAt(ws[..|ws| - 1], prio, p, events) + if prio[w] == p then [Call(w, events)] else []
  }

  ghost predicate Unqueued<W>(st: Queues<W>, prio: map<W, Pri>, w: W)
    requires w in prio
  {
    Find(st[prio[w]], w) == None
  }

  /** The watchers of `ws` that are not queued. */
  ghost function Fresh<W>(st: Queues<W>, ws: seq<W>, prio: map<W, Pri>): (r: seq<W>)
    requires forall w :: w in ws ==> w in prio
    ensures forall w :: w in r ==> w in ws
    ensures forall w :: w in ws ==> (w in r <==> Unqueued(st, prio, w))
    decreases |ws|
  {
    if ws == [] then []
    else
      var w := ws[|ws| - 1];
      Fresh(st, ws[..|ws| - 1], prio) + if Unqueued(st, prio, w) then [w] else []
  }

  /** A slot when the watchers in `ws` have been fed too. */
  function Topped<W(==)>(s: Slot<W>, ws: seq<W>, events: Events): Slot<W> {
    if s.Slot? && s.w in ws then Slot(s.w, s.events + events) else s
  }

  function Waiting<W(==)>(q: seq<Slot<W>>, ws: seq<W>, events: Events): (r: seq<Slot<W>>)
    ensures |r| == |q| && forall i: nat :: i < |q| ==> r[i] == Topped(q[i], ws, events)
    decreases |q|
  {
    if q == [] then [] else Waiting(q[..|q| - 1], ws, events) + [Topped(q[|q| - 1], ws, events)]
  }

  /** A feed keeps who else is queued. */
  lemma FedElsewhere<W>(st: Queues<W>, prio: map<W, Pri>, w: W, events: Events, u: W)
    requires Placed(st, prio) && w in prio && u in prio && u != w
    ensures Unqueued(Apply(st, Feed(w, prio[w], events)), prio, u) <==> Unqueued(st, prio, u)
  {
    hide QueuePlaced, Find, FeedSlot;
    assert QueuePlaced(st[prio[w]], prio[w], prio);
    FeedOneQueue(st[prio[w]], prio[w], prio, w, events);
  }

  lemma {:induction false} FreshElsewhere<W>(st: Queues<W>, ws: seq<W>, prio: map<W, Pri>, w: W, events: Events)
    requires Placed(st, prio) && w in prio && w !in ws && forall u :: u in ws ==> u in prio
    ensures Fresh(Apply(st, Feed(w, prio[w], events)), ws, prio) == Fresh(st, ws, prio)
    decreases |ws|
  {
    hide Apply, Unqueued, Placed;
    if ws != [] {
      FreshElsewhere(st, ws[..|ws| - 1], prio, w, events);
      FedElsewhere(st, prio, w, events, ws[|ws| - 1]);
    }
  }

  lemma ToppedOneMore<W>(s: Slot<W>, rest: seq<W>, w: W, events: Events)
    ensures Topped(s, rest + [w], events) ==
      if Holds(s, w) then Slot(w, s.events + events) else Topped(s, rest, events)
    ensures w !in rest && s.Slot? && s.w == w ==> Topped(s, rest, events) == s
  {
    assert forall u :: u in rest + [w] <==> u in rest || u == w;
  }

  lemma WaitingForOneMore<W>(q: seq<Slot<W>>, rest: seq<W>, w: W, events: Events)
    requires w !in rest && Once(q)
    ensures Waiting(FeedSlot(q, w, events), rest, events) ==
      Waiting(q, rest + [w], events) + if Find(q, w).None? then [Slot(w, events)] else []
  {
    var i := IndexOf(q, w);
    ToppedOneMore(Slot(w, if i < |q| then q[i].events + events else events), rest, w, events);
    assert Once(q) && forall k: nat :: k < |q| && Holds(q[k], w) ==> k == i;
    forall k: nat | k < |q|
      ensures Waiting(FeedSlot(q, w, events), rest, events)[k] == Waiting(q, rest + [w], events)[k]
    {
      hide Topped, Waiting;
      ToppedOneMore(q[k], rest, w, events);
    }
    hide Topped, Waiting;
  }

  lemma NobodyElseWaits<W>(q: seq<Slot<W>>, p: nat, prio: map<W, Pri>, rest: seq<W>, w: W, events: Events)
    requires QueuePlaced(q, p, prio) && w in prio && prio[w] != p
    ensures Waiting(q, rest, events) == Waiting(q, rest + [w], events)
  {
    assert forall u :: u in rest + [w] <==> u in rest || u == w;
    forall k: nat | k < |q| ensures !Holds(q[k], w) { assert Belongs(q[k], p, prio); }
  }

  lemma UnwindLast<W>(q: seq<Slot<W>>, w: W, events: Events)
    ensures Unwind(q + [Slot(w, events)]) == [Call(w, events)] + Unwind(q)
  {
    assert (q + [Slot(w, events)])[..|q|] == q;
  }

  /** Feeding the last of `ws` first: it is called behind the others of its priority, or was waiting. */
  lemma FeedLast<W>(st: Queues<W>, rest: seq<W>, prio: map<W, Pri>, w: W, events: Events, p: Pri)
    requires QueuePlaced(st[p], p, prio) && w in prio && w !in rest
    ensures var last := if prio[w] == p && Unqueued(st, prio, w) then [Call(w, events)] else [];
      Unwind(Waiting(Apply(st, Feed(w, prio[w], events))[p], rest, events))
      == last + Unwind(Waiting(st[p], rest + [w], events))
  {
    hide Find, Waiting, FeedSlot, Unwind;
    if prio[w] != p {
      NobodyElseWaits(st[p], p, prio, rest, w, events);
    } else {
      var waiting := Waiting(st[p], rest + [w], events);
      WaitingForOneMore(st[p], rest, w, events);
      if Unqueued(st, prio, w) { UnwindLast(waiting, w, events); } else { assert waiting + [] == waiting; }
    }
  }

  lemma CallsOfFresh<W>(st: Queues<W>, ws: seq<W>, prio: map<W, Pri>, events: Events, p: Pri)
    requires ws != [] && forall w :: w in ws ==> w in prio
    ensures var w, rest := ws[|ws| - 1], ws[..|ws| - 1];
      CallsAt(Fresh(st, ws, prio), prio, p, events) ==
      CallsAt(Fresh(st, rest, prio), prio, p, events)
      + if prio[w] == p && Unqueued(st, prio, w) then [Call(w, events)] else []
  {
    hide Unqueued;
    var w, rest := ws[|ws| - 1], ws[..|ws| - 1];
    var front := Fresh(st, rest, prio);
    if Unqueued(st, prio, w) { assert (front + [w])[..|front|] == front; } else { assert front + [] == front; }
  }

  lemma FeedKeepsQueues<W>(st: Queues<W>, prio: map<W, Pri>, w: W, events: Events)
    requires Placed(st, prio) && w in prio
    ensures Placed(Apply(st, Feed(w, prio[w], events)), prio)
  {
    ApplyHasEffect(st, prio, Feed(w, prio[w], events));
  }

  lemma Regroup<T>(a: seq<T>, b: seq<T>, c: seq<T>)
    ensures (a + b) + c == a + (b + c)
  {}

  lemma {:induction false} FeedReverseKeepsQueues<W>(st: Queues<W>, ws: seq<W>, prio: map<W, Pri>, events: Events)
    requires Placed(st, prio) && forall w :: w in ws ==> w in prio
    ensures Placed(FeedReverse(st, ws, prio, events), prio)
    decreases |ws|
  {
    hide Placed, Apply;
    if ws != [] {
      var w := ws[|ws| - 1];
      FeedKeepsQueues(st, prio, w, events);
      FeedReverseKeepsQueues(Apply(st, Feed(w, prio[w], events)), ws[..|ws| - 1], prio, events);
    }
  }

  lemma WaitingForNobody<W>(q: seq<Slot<W>>, events: Events)
    ensures Waiting(q, [], events) == q
  {}

  /** The reverse feed and the last-in-first-out queues cancel: of the watchers fed together, those that
      were not queued come out, within their priority, in the order in which they were collected and
      before whatever the queue held already; those that were queued keep their place there. */
  lemma {:induction false} ReverseFeedKeepsOrder<W>(st: Queues<W>, ws: seq<W>, prio: map<W, Pri>, events: Events,
                                                    p: Pri)
    requires Placed(st, prio) && forall w :: w in ws ==> w in prio
    requires forall i: nat, j: nat :: i < j < |ws| ==> ws[i] != ws[j]
    ensures Unwind(FeedReverse(st, ws, prio, events)[p])
         == CallsAt(Fresh(st, ws, prio), prio, p, events) + Unwind(Waiting(st[p], ws, events))
    decreases |ws|
  {
    hide Apply, Unqueued, Find, Unwind, QueuePlaced;
    if ws == [] {
      WaitingForNobody(st[p], events);
    } else {
      var w, rest := ws[|ws| - 1], ws[..|ws| - 1];
      var st' := Apply(st, Feed(w, prio[w], events));
      assert ws == rest + [w] && w !in rest;
      FeedKeepsQueues(st, prio, w, events);
      FreshElsewhere(st, rest, prio, w, events);
      FeedLast(st, rest, prio, w, events, p);
      hide Placed, Waiting;
      CallsOfFresh(st, ws, prio, events, p);
      ReverseFeedKeepsOrder(st', rest, prio, events, p);
      hide *;
      Regroup(CallsAt(Fresh(st, rest, prio), prio, p, events),
              if prio[w] == p && Unqueued(st, prio, w) then [Call(w, events)] else [],
              Unwind(Waiting(st[p], ws, events)));
    }
  }
}
