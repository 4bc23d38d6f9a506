/** The work queue behind a segmented download, as a machine over the atomic steps of its threads: the main
    thread pushes segments and waits, each worker pops one, asks its server, and counts a success or puts the
    segment back and exits. Any interleaving is a run. */
module Download {
  import opened Wrappers
  import opened Segments

  type Answer = string

  datatype Worker = Idle | Busy(segment: Segment) | Exited

  /** `done` remembers every success in order; the program keeps only their number. */
  datatype State = State(
    unpushed: seq<Segment>,
    queue: seq<Segment>,
    workers: seq<Worker>,
    countSuccessRequests: nat,
    countExitThreads: nat,
    answers: seq<Option<Answer>>,
    stopped: bool,
    done: seq<(Segment, Answer)>)

  datatype Step =
    | Push
    | Pop(w: nat)
    | Succeed(w: nat, answer: Answer)
    | Fail(w: nat)
    | Stop // the wait is over
    | Leave(w: nat) // a pop from the stopped queue

  function Begin(segments: seq<Segment>, countWorkers: nat, countAnswers: nat): State {
    State(segments, [], seq(countWorkers, _ => Idle), 0, 0, seq(countAnswers, _ => None), false, [])
  }

  /** What the main thread waits for, once it has pushed everything. */
  predicate WaitIsOver(st: State, countSegments: nat) {
    st.unpushed == [] && (st.countSuccessRequests == countSegments || st.countExitThreads == |st.workers|)
  }

  predicate Enabled(st: State, step: Step, countSegments: nat) {
    match step
    case Push => st.unpushed != []
    case Pop(w) => w < |st.workers| && st.workers[w].Idle? && st.queue != [] && !st.stopped
    case Succeed(w, _) => w < |st.workers| && st.workers[w].Busy? && st.workers[w].segment.posInArray < |st.answers|
    case Fail(w) => w < |st.workers| && st.workers[w].Busy?
    case Stop => WaitIsOver(st, countSegments) && !st.stopped
    case Leave(w) => w < |st.workers| && st.workers[w].Idle? && st.stopped
  }

  function Do(st: State, step: Step, countSegments: nat): State
    requires Enabled(st, step, countSegments)
  {
    match step
    case Push => st.(unpushed := st.unpushed[1..], queue := st.queue + [st.unpushed[0]])
    case Pop(w) => st.(queue := st.queue[1..], workers := st.workers[w := Busy(st.queue[0])])
    case Succeed(w, answer) =>
      var s := st.workers[w].segment;
      st.(workers := st.workers[w := Idle], countSuccessRequests := st.countSuccessRequests + 1,
          answers := st.answers[s.posInArray := Some(answer)], done := st.done + [(s, answer)])
    case Fail(w) =>
      st.(workers := st.workers[w := Exited], queue := st.queue + [st.workers[w].segment],
          countExitThreads := st.countExitThreads + 1)
    case Stop => st.(stopped := true)
    case Leave(w) => st.(workers := st.workers[w := Exited], countExitThreads := st.countExitThreads + 1)
  }

  /** The state after a run, when every step of it was enabled. */
  function Run(segments: seq<Segment>, countWorkers: nat, steps: seq<Step>): Option<State> {
    if steps == [] then Some(Begin(segments, countWorkers, |segments|))
    else
      var before, last := Run(segments, countWorkers, steps[..|steps| - 1]), steps[|steps| - 1];
      if before.Some? && Enabled(before.value, last, |segments|) then Some(Do(before.value, last, |segments|))
      else None
  }

  // ----- Where the segments are -----

  function Held(w: Worker): multiset<Segment> {
    if w.Busy? then multiset{w.segment} else multiset{}
  }

  function InFlight(workers: seq<Worker>): multiset<Segment> {
    if workers == [] then multiset{}
    else InFlight(workers[..|workers| - 1]) + Held(workers[|workers| - 1])
  }

  function IfExited(w: Worker): nat {
    if w.Exited? then 1 else 0
  }

  function CountExited(workers: seq<Worker>): (n: nat)
    ensures n <= |workers|
  {
    if workers == [] then 0
    else CountExited(workers[..|workers| - 1]) + IfExited(workers[|workers| - 1])
  }

  function Fetched(done: seq<(Segment, Answer)>): multiset<Segment> {
    if done == [] then multiset{} else Fetched(done[..|done| - 1]) + multiset{done[|done| - 1].0}
  }

  lemma {:induction false} WorkerChanges(workers: seq<Worker>, w: nat, new_: Worker)
    requires w < |workers|
    ensures InFlight(workers[w := new_]) + Held(workers[w]) == InFlight(workers) + Held(new_)
    ensures CountExited(workers[w := new_]) + IfExited(workers[w]) == CountExited(workers) + IfExited(new_)
  {
    hide Held, IfExited;
    var n := |workers| - 1;
    if w == n {
      assert workers[w := new_][..n] == workers[..n];
    } else {
      WorkerChanges(workers[..n], w, new_);
      assert workers[w := new_][..n] == workers[..n][w := new_];
      Exchange(InFlight(workers[..n][w := new_]), Held(workers[w]), InFlight(workers[..n]), Held(new_),
               Held(workers[n]));
    }
  }

  function IfBusy(w: Worker): nat {
    if w.Busy? then 1 else 0
  }

  lemma WorkerChangesSize(workers: seq<Worker>, w: nat, new_: Worker)
    requires w < |workers|
    ensures |InFlight(workers[w := new_])| + IfBusy(workers[w]) == |InFlight(workers)| + IfBusy(new_)
    ensures CountExited(workers[w := new_]) + IfExited(workers[w]) == CountExited(workers) + IfExited(new_)
  {
    hide InFlight, CountExited;
    WorkerChanges(workers, w, new_);
    assert |InFlight(workers[w := new_]) + Held(workers[w])| == |InFlight(workers) + Held(new_)|;
  }

  lemma Exchange(a: multiset<Segment>, b: multiset<Segment>, c: multiset<Segment>, d: multiset<Segment>,
                 e: multiset<Segment>)
    requires a + b == c + d
    ensures (a + e) + b == (c + e) + d
  {
    assert (a + e) + b == (a + b) + e;
  }

  // ----- What every run keeps -----

  /** Pairwise different segments, each with its own slot. */
  ghost predicate Slots(segments: seq<Segment>) {
    forall i: nat :: i < |segments| ==> segments[i].posInArray == i
  }

  /** No segment is lost or duplicated. */
  ghost predicate Conserved(st: State, segments: seq<Segment>) {
    Everywhere(st) == multiset(segments)
  }

  /** The counters say what happened. */
  ghost predicate Counted(st: State, countWorkers: nat) {
    && st.countSuccessRequests == |st.done| && st.countExitThreads == CountExited(st.workers)
    && |st.workers| == countWorkers
  }

  /** Slots are filled by the successes and by nothing else. */
  ghost predicate Answered(st: State, segments: seq<Segment>) {
    && |st.answers| == |segments|
    && (forall k: nat :: k < |st.done| ==>
         var (s, a) := st.done[k]; s in segments && s.posInArray < |segments| && st.answers[s.posInArray] == Some(a))
    && forall j: nat, k: nat :: j < k < |st.done| ==> st.done[j].0 != st.done[k].0
  }

  ghost predicate Inv(st: State, segments: seq<Segment>, countWorkers: nat) {
    Conserved(st, segments) && Counted(st, countWorkers) && Answered(st, segments)
    && (st.stopped ==> WaitIsOver(st, |segments|))
  }

  lemma {:induction false} BeginWorkers(n: nat)
    ensures InFlight(seq(n, _ => Idle)) == multiset{} && CountExited(seq(n, _ => Idle)) == 0
  {
    if n > 0 {
      BeginWorkers(n - 1);
      assert seq(n, _ => Idle)[..n - 1] == seq(n - 1, _ => Idle);
    }
  }

  lemma BeginKeeps(segments: seq<Segment>, countWorkers: nat)
    ensures Inv(Begin(segments, countWorkers, |segments|), segments, countWorkers)
  {
    BeginWorkers(countWorkers);
  }

  lemma {:induction false} BusyIsInFlight(workers: seq<Worker>, w: nat)
    requires w < |workers| && workers[w].Busy?
    ensures workers[w].segment in InFlight(workers)
  {
    if w < |workers| - 1 { BusyIsInFlight(workers[..|workers| - 1], w); }
  }

  lemma {:induction false} FetchedIsDone(done: seq<(Segment, Answer)>, k: nat)
    requires k < |done|
    ensures done[k].0 in Fetched(done)
  {
    if k < |done| - 1 { FetchedIsDone(done[..|done| - 1], k); }
  }

  lemma {:induction false} SlotsAreDistinct(segments: seq<Segment>, s: Segment)
    requires Slots(segments)
    ensures multiset(segments)[s] <= 1
  {
    var n := |segments|;
    if n > 0 {
      var front := segments[..n - 1];
      SlotsAreDistinct(front, s);
      assert segments == front + [segments[n - 1]];
      assert multiset(front)[s] > 0 ==> s in front;
    }
  }

  lemma Move(a: multiset<Segment>, b: multiset<Segment>, c: multiset<Segment>, d: multiset<Segment>,
             a': multiset<Segment>, b': multiset<Segment>, c': multiset<Segment>, d': multiset<Segment>,
             s: multiset<Segment>)
    requires (a == a' + s && b' == b + s && c' == c && d' == d) // pushed
          || (a' == a && b == b' + s && c' == c + s && d' == d) // popped
          || (a' == a && b' == b && c' + s == c && d' == d + s) // answered
          || (a' == a && b' == b + s && c' + s == c && d' == d) // put back
    ensures a' + b' + c' + d' == a + b + c + d
  {}

  lemma TakeFirst(s: seq<Segment>)
    requires s != []
    ensures multiset(s) == multiset(s[1..]) + multiset{s[0]}
  {
    assert s == [s[0]] + s[1..];
  }

  /** Moving a segment between the places. */
  lemma ConservedStep(st: State, step: Step, segments: seq<Segment>)
    requires Conserved(st, segments) && Enabled(st, step, |segments|)
    ensures Conserved(Do(st, step, |segments|), segments)
  {
    if step.Push? || step.Pop? {
      QueueStep(st, step, |segments|);
    } else if !step.Stop? {
      WorkerStep(st, step, |segments|);
    }
  }

  function Everywhere(st: State): multiset<Segment> {
    multiset(st.unpushed) + multiset(st.queue) + InFlight(st.workers) + Fetched(st.done)
  }

  lemma QueueStep(st: State, step: Step, n: nat)
    requires Enabled(st, step, n) && (step.Push? || step.Pop?)
    ensures Everywhere(Do(st, step, n)) == Everywhere(st)
  {
    hide InFlight, Fetched;
    var st' := Do(st, step, n);
    var s := if step.Push? then st.unpushed[0] else st.queue[0];
    if step.Push? {
      TakeFirst(st.unpushed);
    } else {
      TakeFirst(st.queue);
      WorkerChanges(st.workers, step.w, Busy(s));
    }
    Move(multiset(st.unpushed), multiset(st.queue), InFlight(st.workers), Fetched(st.done),
         multiset(st'.unpushed), multiset(st'.queue), InFlight(st'.workers), Fetched(st'.done), multiset{s});
  }

  lemma FetchedMore(done: seq<(Segment, Answer)>, d: (Segment, Answer))
    ensures Fetched(done + [d]) == Fetched(done) + multiset{d.0}
  {
    assert (done + [d])[..|done|] == done;
  }

  lemma WorkerStep(st: State, step: Step, n: nat)
    requires Enabled(st, step, n) && (step.Succeed? || step.Fail? || step.Leave?)
    ensures Everywhere(Do(st, step, n)) == Everywhere(st)
  {
    hide InFlight, Fetched;
    if step.Succeed? { FetchedMore(st.done, (st.workers[step.w].segment, step.answer)); }
    var st', s := Do(st, step, n), Held(st.workers[step.w]);
    WorkerChanges(st.workers, step.w, st'.workers[step.w]);
    Move(multiset(st.unpushed), multiset(st.queue), InFlight(st.workers), Fetched(st.done),
         multiset(st'.unpushed), multiset(st'.queue), InFlight(st'.workers), Fetched(st'.done), s);
  }

  lemma CountedStep(st: State, step: Step, n: nat, countWorkers: nat)
    requires Counted(st, countWorkers) && Enabled(st, step, n)
    ensures Counted(Do(st, step, n), countWorkers)
  {
    hide CountExited;
    if !step.Push? && !step.Stop? {
      WorkerChangesSize(st.workers, step.w, Do(st, step, n).workers[step.w]);
    }
  }

  /** A segment in flight is one of the segments and has not been answered. */
  lemma InFlightIsOpen(st: State, segments: seq<Segment>, w: nat)
    requires Slots(segments) && Conserved(st, segments) && w < |st.workers| && st.workers[w].Busy?
    ensures var s := st.workers[w].segment;
      s in segments && s.posInArray < |segments| && segments[s.posInArray] == s
      && forall k: nat :: k < |st.done| ==> st.done[k].0 != s
  {
    var s := st.workers[w].segment;
    BusyIsInFlight(st.workers, w);
    SlotsAreDistinct(segments, s);
    assert s in multiset(segments);
    forall k: nat | k < |st.done| ensures st.done[k].0 != s {
      FetchedIsDone(st.done, k);
    }
  }

  lemma AnsweredStep(st: State, step: Step, segments: seq<Segment>)
    requires Slots(segments) && Conserved(st, segments) && Answered(st, segments)
    requires Enabled(st, step, |segments|)
    ensures Answered(Do(st, step, |segments|), segments)
  {
    hide Conserved;
    if step.Succeed? {
      InFlightIsOpen(st, segments, step.w);
      AnsweredMore(st, step.w, step.answer, segments);
    }
  }

  /** One more answer, to a segment that had none. */
  lemma AnsweredMore(st: State, w: nat, answer: Answer, segments: seq<Segment>)
    requires Slots(segments) && Answered(st, segments) && w < |st.workers| && st.workers[w].Busy?
    requires var s := st.workers[w].segment;
      s in segments && s.posInArray < |segments| && segments[s.posInArray] == s
      && forall k: nat :: k < |st.done| ==> st.done[k].0 != s
    requires Enabled(st, Succeed(w, answer), |segments|)
    ensures Answered(Do(st, Succeed(w, answer), |segments|), segments)
  {
    var s, st' := st.workers[w].segment, Do(st, Succeed(w, answer), |segments|);
    forall k: nat | k < |st.done| ensures st.done[k].0.posInArray != s.posInArray {
      var d := st.done[k].0;
      var i: nat :| i < |segments| && segments[i] == d;
      assert segments[d.posInArray] == d;
    }
  }

  lemma InvStep(st: State, step: Step, segments: seq<Segment>, countWorkers: nat)
    requires Slots(segments) && Inv(st, segments, countWorkers) && Enabled(st, step, |segments|)
    ensures Inv(Do(st, step, |segments|), segments, countWorkers)
  {
    hide Conserved, Answered, Slots;
    ConservedStep(st, step, segments);
    CountedStep(st, step, |segments|, countWorkers);
    AnsweredStep(st, step, segments);
    if st.stopped { StoppedIsQuiet(st, step, segments, countWorkers); }
  }

  lemma {:induction false} AllExited(workers: seq<Worker>, w: nat)
    requires w < |workers| && CountExited(workers) == |workers|
    ensures workers[w].Exited?
  {
    if w < |workers| - 1 { AllExited(workers[..|workers| - 1], w); }
  }

  lemma {:induction false} CountFetched(done: seq<(Segment, Answer)>)
    ensures |Fetched(done)| == |done|
  {
    if done != [] { CountFetched(done[..|done| - 1]); }
  }

  /** Once the wait is over nothing is in flight, so workers can only leave. */
  lemma StoppedIsQuiet(st: State, step: Step, segments: seq<Segment>, countWorkers: nat)
    requires Inv(st, segments, countWorkers) && st.stopped && Enabled(st, step, |segments|)
    ensures step.Leave?
  {
    hide Answered;
    if step.Succeed? || step.Fail? {
      BusyIsInFlight(st.workers, step.w);
      CountFetched(st.done);
      assert |segments| == |multiset(segments)| >= |InFlight(st.workers)| + |Fetched(st.done)|;
      assert st.countExitThreads == |st.workers|;
      AllExited(st.workers, step.w);
    }
  }

  /** In every interleaving. */
  lemma {:induction false} RunKeeps(segments: seq<Segment>, countWorkers: nat, steps: seq<Step>)
    requires Slots(segments) && Run(segments, countWorkers, steps).Some?
    ensures Inv(Run(segments, countWorkers, steps).value, segments, countWorkers)
  {
    hide Inv, Enabled, Slots;
    if steps == [] {
      BeginKeeps(segments, countWorkers);
    } else {
      var front := steps[..|steps| - 1];
      RunKeeps(segments, countWorkers, front);
      InvStep(Run(segments, countWorkers, front).value, steps[|steps| - 1], segments, countWorkers);
    }
  }

  // ----- What that means -----

  /** Until the wait is over some thread can move: the main thread can push, or a worker can pop, or a worker
      has a request out, which may succeed with any answer or fail. */
  lemma NeverStuck(segments: seq<Segment>, countWorkers: nat, steps: seq<Step>)
    requires Slots(segments) && Run(segments, countWorkers, steps).Some?
    ensures var st := Run(segments, countWorkers, steps).value;
      WaitIsOver(st, |segments|)
      || Enabled(st, Push, |segments|)
      || (exists w: nat :: Enabled(st, Pop(w), |segments|))
      || (exists w: nat :: Enabled(st, Fail(w), |segments|) && (forall a :: Enabled(st, Succeed(w, a), |segments|)))
  {
    hide Run, Answered, CountExited, InFlight;
    RunKeeps(segments, countWorkers, steps);
    var st := Run(segments, countWorkers, steps).value;
    AnswersFit(st, segments, countWorkers);
    if !WaitIsOver(st, |segments|) && st.unpushed == [] {
      var w := SomeLive(st.workers);
      if st.workers[w].Busy? {
        InFlightIsOpen(st, segments, w);
        assert Enabled(st, Fail(w), |segments|);
      } else if st.queue != [] {
        assert Enabled(st, Pop(w), |segments|);
      } else {
        NothingQueued(st, segments, countWorkers);
        var b := SomeBusy(st.workers);
        InFlightIsOpen(st, segments, b);
        assert Enabled(st, Fail(b), |segments|);
      }
    }
  }

  lemma AnswersFit(st: State, segments: seq<Segment>, countWorkers: nat)
    requires Inv(st, segments, countWorkers)
    ensures |st.answers| == |segments|
  {}

  /** With nothing queued, the successes and the requests out make up everything. */
  lemma NothingQueued(st: State, segments: seq<Segment>, countWorkers: nat)
    requires Inv(st, segments, countWorkers) && st.unpushed == [] && st.queue == []
    ensures |segments| == |InFlight(st.workers)| + st.countSuccessRequests
  {
    hide Answered, InFlight, Fetched;
    CountFetched(st.done);
    assert |multiset(segments)| == |InFlight(st.workers) + Fetched(st.done)|;
  }

  lemma {:induction false} SomeLive(workers: seq<Worker>) returns (w: nat)
    requires CountExited(workers) < |workers|
    ensures w < |workers| && !workers[w].Exited?
  {
    var n := |workers| - 1;
    if workers[n].Exited? { w := SomeLive(workers[..n]); } else { w := n; }
  }

  lemma {:induction false} SomeBusy(workers: seq<Worker>) returns (w: nat)
    requires |InFlight(workers)| > 0
    ensures w < |workers| && workers[w].Busy?
  {
    var n := |workers| - 1;
    if workers[n].Busy? { w := n; } else { w := SomeBusy(workers[..n]); }
  }

  function Fails(steps: seq<Step>): nat {
    if steps == [] then 0
    else Fails(steps[..|steps| - 1]) + if steps[|steps| - 1].Fail? then 1 else 0
  }

  /** What is still to do: every step takes something away. */
  function Left(st: State): int {
    3 * |st.unpushed| + 2 * |st.queue| + |InFlight(st.workers)|
    + 2 * (|st.workers| - CountExited(st.workers)) + if st.stopped then 0 else 1
  }

  lemma StepTakesAway(st: State, step: Step, n: nat)
    requires Enabled(st, step, n)
    ensures Left(Do(st, step, n)) < Left(st)
  {
    hide InFlight, CountExited;
    if !step.Push? && !step.Stop? {
      WorkerChangesSize(st.workers, step.w, Do(st, step, n).workers[step.w]);
    }
  }

  /** Every run ends, after a number of steps linear in segments and workers; each worker fails at most
      once. */
  lemma {:induction false} RunsAreShort(segments: seq<Segment>, countWorkers: nat, steps: seq<Step>)
    requires Run(segments, countWorkers, steps).Some?
    ensures var st := Run(segments, countWorkers, steps).value;
      && |steps| + Left(st) <= 3 * |segments| + 2 * countWorkers + 1
      && Left(st) >= 0 && |st.workers| == countWorkers
      && Fails(steps) <= CountExited(st.workers) <= countWorkers
  {
    hide Left, Enabled, Do;
    if steps == [] {
      BeginLeft(segments, countWorkers);
    } else {
      var n := |steps| - 1;
      RunsAreShort(segments, countWorkers, steps[..n]);
      var st := Run(segments, countWorkers, steps[..n]).value;
      StepTakesAway(st, steps[n], |segments|);
      StepExits(st, steps[n], |segments|);
      LeftIsNatural(Do(st, steps[n], |segments|));
    }
  }

  lemma BeginLeft(segments: seq<Segment>, countWorkers: nat)
    ensures var st := Begin(segments, countWorkers, |segments|);
      Left(st) == 3 * |segments| + 2 * countWorkers + 1 && CountExited(st.workers) == 0
  {
    BeginWorkers(countWorkers);
  }

  lemma LeftIsNatural(st: State)
    ensures Left(st) >= 0
  {}

  lemma StepExits(st: State, step: Step, n: nat)
    requires Enabled(st, step, n)
    ensures |Do(st, step, n).workers| == |st.workers|
    ensures CountExited(Do(st, step, n).workers)
         == CountExited(st.workers) + if step.Fail? || step.Leave? then 1 else 0
  {
    hide CountExited;
    if !step.Push? && !step.Stop? {
      WorkerChangesSize(st.workers, step.w, Do(st, step, n).workers[step.w]);
    }
  }

  /** The result, `countSuccessRequests == segments.size()`: true exactly when every slot was filled, each by
      the one answer to its own segment; false, once the wait is over, only when every worker has exited. */
  lemma ResultIsTrueExactlyWhenComplete(segments: seq<Segment>, countWorkers: nat, steps: seq<Step>)
    requires Slots(segments) && Run(segments, countWorkers, steps).Some?
    ensures var st := Run(segments, countWorkers, steps).value;
      && |st.answers| == |segments|
      && (st.countSuccessRequests == |segments| <==> forall i: nat :: i < |segments| ==> st.answers[i].Some?)
      && (st.countSuccessRequests == |segments| ==> Fetched(st.done) == multiset(segments))
      && (forall i: nat :: i < |segments| && st.answers[i].Some? ==> (segments[i], st.answers[i].value) in st.done)
      && (st.stopped && st.countSuccessRequests != |segments| ==> st.countExitThreads == countWorkers)
  {
    RunKeeps(segments, countWorkers, steps);
    RunFills(segments, countWorkers, steps);
    var st := Run(segments, countWorkers, steps).value;
    hide Run, Inv, Fetched, Everywhere, Slots;
    InvMeans(st, segments, countWorkers);
    CountFetched(st.done);
    if st.countSuccessRequests == |segments| {
      NothingLeftOut(st, segments);
      forall i: nat | i < |segments| ensures st.answers[i].Some? {
        assert segments[i] in multiset(segments);
        var k := FetchedFrom(st.done, segments[i]);
      }
    } else if forall i: nat :: i < |segments| ==> st.answers[i].Some? {
      AllFetched(segments, st.done, st.answers);
    }
  }

  lemma InvMeans(st: State, segments: seq<Segment>, countWorkers: nat)
    requires Inv(st, segments, countWorkers)
    ensures Everywhere(st) == multiset(segments) && st.countSuccessRequests == |st.done|
    ensures |st.workers| == countWorkers
    ensures st.stopped && st.countSuccessRequests != |segments| ==> st.countExitThreads == countWorkers
  {
    hide Everywhere, Answered;
  }

  /** With as many answers as segments no segment is anywhere else. */
  lemma NothingLeftOut(st: State, segments: seq<Segment>)
    requires Everywhere(st) == multiset(segments) && |Fetched(st.done)| == |segments|
    ensures Fetched(st.done) == multiset(segments)
  {
    hide Fetched, InFlight;
    var others := multiset(st.queue) + multiset(st.unpushed) + InFlight(st.workers);
    assert others + Fetched(st.done) == multiset(segments);
    assert |others + Fetched(st.done)| == |others| + |Fetched(st.done)|;
    assert others == multiset{};
  }

  lemma {:induction false} FetchedFrom(done: seq<(Segment, Answer)>, s: Segment) returns (k: nat)
    requires s in Fetched(done)
    ensures k < |done| && done[k].0 == s
  {
    var n := |done| - 1;
    if done[n].0 == s { k := n; } else { k := FetchedFrom(done[..n], s); }
  }

  /** A filled slot was filled by a success on its own segment. */
  lemma {:induction false} RunFills(segments: seq<Segment>, countWorkers: nat, steps: seq<Step>)
    requires Slots(segments) && Run(segments, countWorkers, steps).Some?
    ensures var st := Run(segments, countWorkers, steps).value;
      && |st.answers| == |segments|
      && forall i: nat :: i < |segments| && st.answers[i].Some? ==> (segments[i], st.answers[i].value) in st.done
  {
    if steps != [] {
      var front, last := steps[..|steps| - 1], steps[|steps| - 1];
      RunFills(segments, countWorkers, front);
      RunKeeps(segments, countWorkers, front);
      var st := Run(segments, countWorkers, front).value;
      if last.Succeed? { InFlightIsOpen(st, segments, last.w); }
    }
  }

  lemma {:induction false} DistinctFetched(done: seq<(Segment, Answer)>, segments: seq<Segment>)
    requires forall i: nat :: i < |segments| ==> segments[i] in Fetched(done)
    requires Slots(segments)
    ensures |segments| <= |done|
  {
    CountFetched(done);
    forall s ensures multiset(segments)[s] <= Fetched(done)[s] {
      SlotsAreDistinct(segments, s);
      if s in multiset(segments) { assert s in segments; }
    }
    assert multiset(segments) <= Fetched(done);
    assert Fetched(done) == multiset(segments) + (Fetched(done) - multiset(segments));
  }

  lemma AllFetched(segments: seq<Segment>, done: seq<(Segment, Answer)>, answers: seq<Option<Answer>>)
    requires Slots(segments) && |answers| == |segments|
    requires forall i: nat :: i < |segments| ==> answers[i].Some? && (segments[i], answers[i].value) in done
    ensures |segments| <= |done|
  {
    forall i: nat | i < |segments| ensures segments[i] in Fetched(done) {
      var answered := (segments[i], answers[i].value);
      assert answered in done;
      var k: nat :| k < |done| && done[k] == answered;
      FetchedIsDone(done, k);
    }
    DistinctFetched(done, segments);
  }
}
