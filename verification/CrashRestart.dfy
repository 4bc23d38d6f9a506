/** A node over its whole life: it loads, replays, adds, saves, commits, fails at writing, and may crash after
    any of these. */
module CrashRestart {
  import opened Wrappers
  import opened ChainNumbering
  import opened ChainLinks
  import opened ChainLoading
  import opened ChainReload
  import opened Database
  import opened SavedHeaders
  import opened ChainFollowing
  import opened WorkerMain

  /** What is lost in a crash. `announced` is the last block sent to the workers since the start, or the
      position the replay starts after; `dropped` counts the blocks the worker could not write. */
  datatype Running = Running(
    chain: State,
    lastSaved: nat,
    queue: seq<Numbered>,
    announced: nat,
    unsaved: Option<Header>,
    dropped: nat)

  /** What is on disk, and a history: the blocks committed, how many were dropped before the first of them,
      how many were refused, and how often saving a header and committing a block failed. */
  datatype Node = Node(
    db: Database,
    main: MainBlock,
    run: Option<Running>,
    committed: seq<Numbered>,
    missed: nat,
    refused: nat,
    failedSaves: nat,
    failedWrites: nat)

  const FRESH := Node(EMPTY, MainBlock(0, ""), None, [], 0, 0, 0, 0)

  datatype Event =
    | Start(order: seq<Header>, from: nat) // `from`: the smallest position of any worker
    | Replay
    | Append
    | Save
    | SaveFails
    | Work
    | WorkFails
    | Crash

  function Count(r: Running): int {
    |r.chain.hashes| - 1
  }

  ghost predicate Possible(node: Node, e: Event, source: seq<Header>) {
    match e
    case Start(order, from) => node.run.None? && ListsAll(node.db, order) && from <= node.main.blockNumber
    case Replay =>
      node.run.Some? && var r := node.run.value;
      r.announced < Count(r) && r.chain.hashes[r.announced + 1] in r.chain.blocks
      && r.chain.blocks[r.chain.hashes[r.announced + 1]].number.Some?
    case Append =>
      node.run.Some? && var r := node.run.value;
      r.unsaved.None? && Count(r) <= r.announced && 0 <= Count(r) < |source|
    case Save => node.run.Some? && node.run.value.unsaved.Some?
    case SaveFails => node.run.Some? && node.run.value.unsaved.Some?
    case Work => node.run.Some? && node.run.value.queue != []
    case WorkFails => node.run.Some? && node.run.value.queue != []
    case Crash => node.run.Some?
  }

  ghost function After(node: Node, e: Event, source: seq<Header>): Node
    requires Possible(node, e, source)
  {
    match e
    case Start(order, from) => Started(node, order, from)
    case Replay => Replayed(node)
    case Append => Appended(node, source[Count(node.run.value)])
    case Save => node.(db := SaveBlock(node.db, node.run.value.unsaved.value),
                       run := Some(node.run.value.(unsaved := None)))
    case SaveFails => node.(failedSaves := node.failedSaves + 1, run := Some(node.run.value.(unsaved := None)))
    case Work => Worked(node, false)
    case WorkFails => Worked(node, true)
    case Crash => node.(run := None)
  }

  /** A node whose chain cannot be numbered does not come up. */
  function Started(node: Node, order: seq<Header>, from: nat): Node {
    var (r, chain) := Load(node.db, order);
    if r.Thrown? then node else node.(run := Some(Running(chain, node.main.blockNumber, [], from, None, 0)))
  }

  function Replayed(node: Node): Node
    requires node.run.Some? && node.run.value.announced < Count(node.run.value)
    requires var r := node.run.value;
      r.chain.hashes[r.announced + 1] in r.chain.blocks
      && r.chain.blocks[r.chain.hashes[r.announced + 1]].number.Some?
  {
    var r := node.run.value;
    var b := r.chain.blocks[r.chain.hashes[r.announced + 1]];
    node.(run := Some(r.(queue := Offered(r.lastSaved, r.queue, b), announced := r.announced + 1)))
  }

  /** A block of the source is added and announced, or the round ends. */
  function Appended(node: Node, b: Header): Node
    requires node.run.Some?
  {
    var r := node.run.value;
    var (number, chain) := Add(r.chain, b);
    if number.Thrown? then node.(run := Some(r.(chain := chain)))
    else
      node.(run := Some(r.(
        chain := chain,
        queue := Offered(r.lastSaved, r.queue, b.(number := Some(number.value))),
        announced := if r.announced < number.value then number.value else r.announced,
        unsaved := Some(b))))
  }

  function Worked(node: Node, writeFails: bool): Node
    requires node.run.Some? && node.run.value.queue != []
  {
    var r := node.run.value;
    var b, popped := r.queue[0], r.(queue := r.queue[1..]);
    match Judge(node.main, b, writeFails)
    case Skipped => node.(run := Some(popped))
    case Refused => node.(run := Some(popped), refused := node.refused + 1)
    case Lost => node.(run := Some(popped.(dropped := r.dropped + 1)), failedWrites := node.failedWrites + 1)
    case Committed(main) =>
      node.(run := Some(popped), main := main, committed := node.committed + [b],
            missed := if node.committed == [] then r.dropped else node.missed)
  }

  /** The node after a sequence of events from a fresh disk, when each was possible. */
  ghost function Life(events: seq<Event>, source: seq<Header>): Option<Node> {
    if events == [] then Some(FRESH) else Live(Life(events[..|events| - 1], source), events[|events| - 1], source)
  }

  ghost function Live(node: Option<Node>, e: Event, source: seq<Header>): Option<Node> {
    if node.Some? && Possible(node.value, e, source) then Some(After(node.value, e, source)) else None
  }

  /** A start with nothing committed yet that finds the parent of the last saved header missing. */
  ghost predicate MisledStart(node: Node, e: Event) {
    e.Start? && node.main.blockNumber == 0 && Misleads(node.db)
  }

  ghost predicate NeverMisled(events: seq<Event>, source: seq<Header>) {
    events == [] ||
    var front, e := events[..|events| - 1], events[|events| - 1];
    NeverMisled(front, source) && (Life(front, source).Some? ==> !MisledStart(Life(front, source).value, e))
  }

  // ----- What every life keeps -----

  /** Block i + 1 of the source, numbered. */
  function NumberedAt(source: seq<Header>, i: nat): Numbered
    requires i < |source|
  {
    source[i].(number := Some(i + 1))
  }

  /** The blocks c + 1 .. e of the source. */
  ghost predicate Piece(bs: seq<Numbered>, source: seq<Header>, c: nat, e: nat) {
    c <= e <= |source| && |bs| == e - c && forall i: nat :: i < e - c ==> bs[i] == NumberedAt(source, c + i)
  }

  function Furthest(r: Running): nat {
    if r.lastSaved < r.announced then r.announced else r.lastSaved
  }

  /** The commits: a contiguous piece of the source that the record on disk ends. */
  ghost predicate Commits(node: Node, source: seq<Header>) {
    var e := node.main.blockNumber;
    && e <= |source|
    && (if node.committed == [] then e == 0 && node.missed == 0 else node.missed < e)
    && Piece(node.committed, source, node.missed, e)
    && node.main.blockHash == (if e == 0 then "" else source[e - 1].hash)
    && (node.missed > 0 || node.refused > 0 ==> node.failedWrites > 0)
  }

  /** Which blocks were saved, by place in the source, and which one last, by number; and the place of the
      block that stands in for block 1 in memory, 0 on the right chain. */
  datatype Past = Past(saved: set<nat>, top: nat, standIn: nat)

  /** The headers on disk are those of the blocks saved: the front of the source, and the worker at most one
      block ahead of it, as long as no save has failed. */
  ghost predicate OnDisk(node: Node, source: seq<Header>, past: Past) {
    && SavedOnly(node.db, source, past.saved, past.top)
    && (node.failedSaves == 0 ==> past.saved == Range(0, past.top) && node.main.blockNumber <= past.top + 1)
  }

  /** The chain in memory follows the source, whatever was saved of it, and knows what was saved. Only a node
      that had commits when it started can have a wrong block 1. */
  ghost predicate Chained(r: Running, source: seq<Header>, past: Past, failedSaves: nat) {
    var n := Count(r);
    && Follows(r.chain, source, past.standIn) && (past.standIn > 0 ==> r.lastSaved > 0)
    && Knows(r.chain, source, past.saved)
    && (r.unsaved.Some? ==>
         && 0 < n <= r.announced && r.unsaved.value == source[n - 1]
         && n - 1 !in past.saved && source[n - 1].hash in r.chain.blocks)
    && (failedSaves == 0 ==>
         past.standIn == 0 && n == past.top + (if r.unsaved.Some? then 1 else 0) && r.lastSaved <= past.top + 1)
  }

  ghost predicate Knows(st: State, source: seq<Header>, saved: set<nat>) {
    forall i: nat :: i < |source| && i in saved ==> source[i].hash in st.blocks
  }

  /** The queue reaches up to the last block announced. It starts behind the last commit; or, when a write
      failed since the start, further on, so that nothing in it can follow the last commit. */
  ghost predicate Queued(r: Running, source: seq<Header>, e: nat, failedWrites: nat) {
    var f, q := Furthest(r), Furthest(r) - |r.queue|;
    && r.lastSaved <= e && (r.announced <= Count(r) || r.announced <= r.lastSaved)
    && e <= q && Piece(r.queue, source, q, f)
    && (e == 0 ==> q == r.dropped) && (q > e ==> failedWrites > 0)
    && (q > e ==> r.dropped > 0)
  }

  ghost predicate Inv(node: Node, source: seq<Header>, past: Past) {
    && Commits(node, source) && OnDisk(node, source, past)
    && (node.run.Some? ==>
         && Chained(node.run.value, source, past, node.failedSaves)
         && Queued(node.run.value, source, node.main.blockNumber, node.failedWrites))
  }

  const NO_PAST := Past({}, 0, 0)

  lemma FreshInv(source: seq<Header>)
    ensures Inv(FRESH, source, NO_PAST)
  {
    NothingSaved(source);
  }

  lemma FollowsCount(st: State, source: seq<Header>, t: nat)
    requires Follows(st, source, t)
    ensures 1 <= |st.hashes| <= |source| + 1
  {}

  /** What an event makes of the past. */
  ghost function PastAfter(node: Node, e: Event, past: Past): Past {
    match e
    case Start(_, _) => past.(standIn := StandIn(Complete(node.db), past.top))
    case Save =>
      if node.run.None? || Count(node.run.value) < 1 then past
      else past.(saved := past.saved + {Count(node.run.value) - 1}, top := Count(node.run.value))
    case _ => past
  }

  /** A restart that is not misled before the first commit keeps all that, with the chain up to the last block
      saved, or with a wrong block 1 that the worker is past; or the node does not come up. */
  lemma StartKeeps(node: Node, e: Event, source: seq<Header>, past: Past)
    requires Chain(source) && Inv(node, source, past) && Possible(node, e, source) && e.Start?
    requires !MisledStart(node, e)
    ensures Inv(After(node, e, source), source, PastAfter(node, e, past))
    ensures After(node, e, source).run.Some? <==> Complete(node.db) || Misleads(node.db)
  {
    hide Chain, SavedOnly, Load, ListsAll, Misleads, Complete, Follows;
    LoadOfWhatWasSaved(node.db, source, past.saved, past.top, e.order);
    CompleteMeansAllBelow(node.db, source, past.saved, past.top);
  }

  lemma ReplayKeeps(node: Node, source: seq<Header>, past: Past)
    requires Inv(node, source, past) && Possible(node, Replay, source)
    ensures Inv(After(node, Replay, source), source, past)
  {
    hide SavedOnly, Follows, Knows;
    var r := node.run.value;
    FollowsCount(r.chain, source, past.standIn);
    ListedAt(r.chain, source, past.standIn, r.announced + 1);
  }

  lemma AppendKeeps(node: Node, source: seq<Header>, past: Past)
    requires Chain(source) && Inv(node, source, past) && Possible(node, Append, source)
    ensures Inv(After(node, Append, source), source, past)
  {
    hide SavedOnly, Follows, Chain, Add;
    var r := node.run.value;
    FollowsCount(r.chain, source, past.standIn);
    NextOfSource(r.chain, source, past.standIn);
  }

  /** A save adds the block to those on disk, as the last one. */
  lemma SaveKeeps(node: Node, source: seq<Header>, past: Past)
    requires Chain(source) && Inv(node, source, past) && Possible(node, Save, source)
    ensures Inv(After(node, Save, source), source, PastAfter(node, Save, past))
  {
    hide Follows, Chain, SaveBlock, SavedOnly;
    var n := Count(node.run.value);
    FollowsCount(node.run.value.chain, source, past.standIn);
    SaveNew(node.db, source, past.saved, past.top, n - 1);
    if node.failedSaves == 0 { assert past.saved + {n - 1} == Range(0, n); }
  }

  /** The block is missing on disk, and nothing else changes. */
  lemma SaveFailureKeeps(node: Node, source: seq<Header>, past: Past)
    requires Inv(node, source, past) && Possible(node, SaveFails, source)
    ensures Inv(After(node, SaveFails, source), source, past)
  {
    hide SavedOnly, Follows, Knows;
  }

  /** The worker's next block is the one after its last commit, or one it refuses. */
  lemma NextInQueue(node: Node, source: seq<Header>, past: Past)
    requires Chain(source) && Inv(node, source, past) && node.run.Some? && node.run.value.queue != []
    ensures var r, e := node.run.value, node.main.blockNumber;
      var q := Furthest(r) - |r.queue|;
      && 0 <= q < |source| && r.queue[0] == NumberedAt(source, q) && r.queue[0].number.value > e
      && (node.main.blockHash != "" && node.main.blockHash != r.queue[0].prevHash <==> 0 < e < q)
  {
    hide Chain, SavedOnly, Follows, Knows;
    var r, e := node.run.value, node.main.blockNumber;
    var q: nat := Furthest(r) - |r.queue|;
    assert r.queue[0] == NumberedAt(source, q + 0);
    ChainAt(source, q);
    if e > 0 {
      ChainAt(source, e - 1);
      if e < q { HashesBeforeDiffer(source, e, q); }
    }
  }

  lemma PoppedQueue(r: Running, source: seq<Header>, e: nat, failed: nat, e': nat, dropped: nat, failed': nat)
    requires Queued(r, source, e, failed) && r.queue != []
    requires var q := Furthest(r) - |r.queue|;
      && e <= e' <= q + 1 && (e' == 0 ==> q + 1 == dropped) && (q + 1 > e' ==> failed' > 0 && dropped > 0)
    ensures Queued(r.(queue := r.queue[1..], dropped := dropped), source, e', failed')
  {
    var rest := r.queue[1..];
    forall i: nat | i < |rest| ensures rest[i] == r.queue[i + 1] {}
  }

  lemma OneMoreCommit(node: Node, source: seq<Header>, b: Numbered, dropped: nat)
    requires Commits(node, source) && node.main.blockNumber < |source|
    requires node.committed == [] ==> dropped < |source| && (dropped > 0 ==> node.failedWrites > 0)
    requires b == NumberedAt(source, if node.committed == [] then dropped else node.main.blockNumber)
    ensures Commits(node.(main := MainBlock(b.number.value, b.hash), committed := node.committed + [b],
                          missed := if node.committed == [] then dropped else node.missed), source)
  {}

  lemma ChainedWhateverIsQueued(r: Running, queue: seq<Numbered>, dropped: nat, source: seq<Header>, past: Past,
                                failedSaves: nat)
    requires Chained(r, source, past, failedSaves)
    ensures Chained(r.(queue := queue, dropped := dropped), source, past, failedSaves)
  {
    hide Follows, Knows;
  }

  lemma NotFarAhead(r: Running, source: seq<Header>, past: Past, e: nat, failedWrites: nat)
    requires Chained(r, source, past, 0) && Queued(r, source, e, failedWrites)
    ensures Furthest(r) <= past.top + 1
  {
    hide Follows, Knows, Piece;
  }

  lemma WorkKeeps(node: Node, writeFails: bool, source: seq<Header>, past: Past)
    requires Chain(source) && Inv(node, source, past) && node.run.Some? && node.run.value.queue != []
    ensures Inv(Worked(node, writeFails), source, past)
  {
    hide SavedOnly, Chain, Chained, Piece;
    NextInQueue(node, source, past);
    var r, e, failed := node.run.value, node.main.blockNumber, node.failedWrites;
    var rest := r.queue[1..];
    ChainedWhateverIsQueued(r, rest, r.dropped, source, past, node.failedSaves);
    ChainedWhateverIsQueued(r, rest, r.dropped + 1, source, past, node.failedSaves);
    if node.failedSaves == 0 { NotFarAhead(r, source, past, e, failed); }
    match Judge(node.main, r.queue[0], writeFails)
    case Skipped =>
    case Refused => PoppedQueue(r, source, e, failed, e, r.dropped, failed);
    case Lost => PoppedQueue(r, source, e, failed, e, r.dropped + 1, failed + 1);
    case Committed(main) =>
      PoppedQueue(r, source, e, failed, main.blockNumber, r.dropped, failed);
      OneMoreCommit(node, source, r.queue[0], r.dropped);
  }

  /** The block after the last commit is gone from memory. */
  ghost predicate Stuck(node: Node) {
    node.run.Some? && 0 < node.main.blockNumber < Furthest(node.run.value) - |node.run.value.queue|
  }

  /** A write that fails after the first commit loses the block that the next commit has to be. */
  lemma AFailedWriteIsStuck(node: Node, source: seq<Header>, past: Past)
    requires Chain(source) && Inv(node, source, past) && Possible(node, WorkFails, source)
    requires node.main.blockNumber > 0 && Judge(node.main, node.run.value.queue[0], true) == Lost
    ensures Stuck(After(node, WorkFails, source))
  {
    hide Chain, SavedOnly, Follows, Knows, Piece;
    NextInQueue(node, source, past);
  }

  /** From then on nothing is committed: the worker refuses every block until the node is started again. */
  lemma StuckUntilRestart(node: Node, e: Event, source: seq<Header>, past: Past)
    requires Chain(source) && Inv(node, source, past) && Stuck(node) && Possible(node, e, source) && !e.Start?
    ensures After(node, e, source).committed == node.committed && After(node, e, source).main == node.main
    ensures e != Crash ==> Stuck(After(node, e, source))
    ensures e in {Work, WorkFails} ==> After(node, e, source).refused == node.refused + 1
  {
    hide Chain, SavedOnly, Follows, Knows, Piece, SaveBlock, Add;
    var r := node.run.value;
    if e in {Work, WorkFails} { NextInQueue(node, source, past); }
    if e == Append { NextOfSource(r.chain, source, past.standIn); }
    if e == Replay { ListedAt(r.chain, source, past.standIn, r.announced + 1); }
  }

  /** Some past witnesses the invariant after every event. */
  lemma {:induction false} LifeKeeps(events: seq<Event>, source: seq<Header>) returns (past: Past)
    requires Chain(source) && Life(events, source).Some? && NeverMisled(events, source)
    ensures Inv(Life(events, source).value, source, past)
  {
    hide Chain, Inv, Possible, After, MisledStart, PastAfter;
    if events == [] {
      FreshInv(source);
      past := NO_PAST;
    } else {
      var front, e := events[..|events| - 1], events[|events| - 1];
      past := LifeKeeps(front, source);
      EventKeeps(Life(front, source).value, e, source, past);
      past := PastAfter(Life(front, source).value, e, past);
    }
  }

  lemma EventKeeps(node: Node, e: Event, source: seq<Header>, past: Past)
    requires Chain(source) && Inv(node, source, past) && Possible(node, e, source) && !MisledStart(node, e)
    ensures Inv(After(node, e, source), source, PastAfter(node, e, past))
  {
    hide Chain, SavedOnly, Chained, Queued, Commits, ListsAll, Complete, Misleads;
    match e
    case Start(order, from) => StartKeeps(node, e, source, past);
    case Replay => ReplayKeeps(node, source, past);
    case Append => AppendKeeps(node, source, past);
    case Save => SaveKeeps(node, source, past);
    case SaveFails => SaveFailureKeeps(node, source, past);
    case Work => WorkKeeps(node, false, source, past);
    case WorkFails => WorkKeeps(node, true, source, past);
    case Crash => CrashKeeps(node, source, past);
  }

  lemma CrashKeeps(node: Node, source: seq<Header>, past: Past)
    requires Inv(node, source, past)
    ensures Inv(node.(run := None), source, past)
  {
    hide SavedOnly, Piece;
  }

  // ----- What follows for whole lives -----

  /** Across any number of crashes, restarts and failed writes, as long as no restart was misled before the
      first commit: the commits are consecutive blocks of the source, each under its number in the source and
      linked to the one before it, and the record on disk is the last of them. They start at block 1 but for
      the writes that failed before the first commit, and nothing is refused unless a write failed. */
  lemma CommitsAreTheChain(events: seq<Event>, source: seq<Header>)
    requires Chain(source) && Life(events, source).Some? && NeverMisled(events, source)
    ensures var node := Life(events, source).value;
      && node.missed + |node.committed| <= |source|
      && (forall i: nat :: i < |node.committed| ==>
           node.committed[i].number == Some(node.missed + i + 1)
           && node.committed[i].hash == source[node.missed + i].hash)
      && (forall i: nat :: 0 < i < |node.committed| ==> node.committed[i].prevHash == node.committed[i - 1].hash)
      && (node.committed != [] ==> node.main.blockNumber == node.missed + |node.committed|
                                   && node.main.blockHash == node.committed[|node.committed| - 1].hash)
      && (node.committed == [] ==> node.main == MainBlock(0, "") && node.missed == 0)
      && (node.failedWrites == 0 ==> node.missed == 0 && node.refused == 0)
  {
    hide Life, Chain, OnDisk, NeverMisled, Chained, Queued;
    var past := LifeKeeps(events, source);
    var node := Life(events, source).value;
    forall i: nat | i < |node.committed| ensures node.committed[i] == NumberedAt(source, node.missed + i) {}
    forall i: nat | 0 < i < |node.committed| ensures node.committed[i].prevHash == node.committed[i - 1].hash {
      ChainAt(source, node.missed + i);
    }
  }

  /** A life in which no save fails is never misled. */
  lemma {:induction false} NoFailedSaveNeverMisleads(events: seq<Event>, source: seq<Header>)
    requires Chain(source) && Life(events, source).Some? && SaveFails !in events
    ensures NeverMisled(events, source) && Life(events, source).value.failedSaves == 0
  {
    hide Chain, Inv, Possible, After, Misleads;
    if events != [] {
      var front, e := events[..|events| - 1], events[|events| - 1];
      assert e in events && forall d :: d in front ==> d in events;
      NoFailedSaveNeverMisleads(front, source);
      var node := Life(front, source).value;
      var past := LifeKeeps(front, source);
      NotMisledWithoutFailure(node, source, past);
      NoFailureMore(node, e, source);
    }
  }

  lemma NotMisledWithoutFailure(node: Node, source: seq<Header>, past: Past)
    requires Chain(source) && Inv(node, source, past) && node.failedSaves == 0
    ensures !Misleads(node.db) && Complete(node.db)
  {
    hide Chain, SavedOnly, Misleads, Complete, Commits, Chained, Queued;
    MisledMeansParentMissing(node.db, source, past.saved, past.top);
    CompleteMeansAllBelow(node.db, source, past.saved, past.top);
  }

  lemma NoFailureMore(node: Node, e: Event, source: seq<Header>)
    requires Possible(node, e, source)
    ensures e != SaveFails ==> After(node, e, source).failedSaves == node.failedSaves
    ensures e != WorkFails ==> After(node, e, source).failedWrites == node.failedWrites
  {
    hide Load, Add, SaveBlock, ListsAll;
  }

  /** And its chain is always the front of the source, with nothing filed beside it. */
  lemma {:induction false} NoFailedSaveHoldsTheFront(events: seq<Event>, source: seq<Header>)
    requires Chain(source) && Life(events, source).Some? && SaveFails !in events
    ensures var node := Life(events, source).value;
      node.run.Some? ==>
      0 <= Count(node.run.value) <= |source| && Holds(node.run.value.chain, source[..Count(node.run.value)])
  {
    hide Chain, Inv, Possible, After, Misleads, Holds, NeverMisled, Add;
    if events != [] {
      var front, e := events[..|events| - 1], events[|events| - 1];
      assert e in events && forall d :: d in front ==> d in events;
      NoFailedSaveHoldsTheFront(front, source);
      NoFailedSaveNeverMisleads(front, source);
      var past := LifeKeeps(front, source);
      FrontStays(Life(front, source).value, e, source, past);
    }
  }

  lemma FrontStays(node: Node, e: Event, source: seq<Header>, past: Past)
    requires Chain(source) && Inv(node, source, past) && node.failedSaves == 0 && Possible(node, e, source)
    requires node.run.Some? ==>
      0 <= Count(node.run.value) <= |source| && Holds(node.run.value.chain, source[..Count(node.run.value)])
    ensures var after := After(node, e, source);
      after.run.Some? ==>
      0 <= Count(after.run.value) <= |source| && Holds(after.run.value.chain, source[..Count(after.run.value)])
  {
    hide Chain, SavedOnly, Load, ListsAll, Holds, AddAll, Complete, Commits, Chained, Queued, Add, SaveBlock;
    if e.Start? {
      LoadOfTheFront(node.db, source, past.saved, past.top, e.order);
      PrefixIsChain(source, past.top);
      AddingOneByOne(source[..past.top]);
      HoldsLength(AddAll(source[..past.top]), source[..past.top]);
    } else if e == Append {
      var n := Count(node.run.value);
      NextIsAdded(node.run.value.chain, source, n);
      HoldsLength(Add(node.run.value.chain, source[n]).1, source[..n + 1]);
    }
  }

  lemma {:induction false} NoFailedWrites(events: seq<Event>, source: seq<Header>)
    requires Life(events, source).Some? && WorkFails !in events
    ensures Life(events, source).value.failedWrites == 0
  {
    hide Possible, After;
    if events != [] {
      var front, e := events[..|events| - 1], events[|events| - 1];
      assert e in events && forall d :: d in front ==> d in events;
      NoFailedWrites(front, source);
      NoFailureMore(Life(front, source).value, e, source);
    }
  }

  /** Across any number of crashes and restarts, at any point, when no write fails: the commits are blocks 1, 2,
      3, ... of the source, each linked to the one before it, nothing is refused, and the record on disk is the
      last of them. */
  lemma CrashesAloneChangeNothing(events: seq<Event>, source: seq<Header>)
    requires Chain(source) && Life(events, source).Some? && SaveFails !in events && WorkFails !in events
    ensures var node := Life(events, source).value;
      && |node.committed| <= |source| && node.refused == 0
      && (forall i: nat :: i < |node.committed| ==>
           node.committed[i].number == Some(i + 1) && node.committed[i].hash == source[i].hash)
      && (forall i: nat :: 0 < i < |node.committed| ==> node.committed[i].prevHash == node.committed[i - 1].hash)
      && node.main.blockNumber == |node.committed|
      && (node.committed != [] ==> node.main.blockHash == node.committed[|node.committed| - 1].hash)
  {
    hide *;
    NoFailedSaveNeverMisleads(events, source);
    NoFailedWrites(events, source);
    CommitsAreTheChain(events, source);
    var node := Life(events, source).value;
    forall i: nat | i < |node.committed|
      ensures node.committed[i].number == Some(i + 1) && node.committed[i].hash == source[i].hash
    {
      assert node.committed[i].number == Some(node.missed + i + 1);
    }
  }

  /** What a restart would find at any moment: the headers saved, of which it rebuilds the chain exactly when
      none is missing below the last. As long as no save failed that is always so, the chain is that of adding
      the blocks one by one, and the worker is behind it by any number of blocks or ahead of it by at most one. */
  lemma RestartFindsWhatWasSaved(events: seq<Event>, source: seq<Header>, order: seq<Header>)
    returns (saved: set<nat>, top: nat)
    requires Chain(source) && Life(events, source).Some? && NeverMisled(events, source)
    requires ListsAll(Life(events, source).value.db, order)
    ensures var node := Life(events, source).value;
      && SavedOnly(node.db, source, saved, top)
      && Load(node.db, order).0
         == (if Complete(node.db) then Done(top) else if Misleads(node.db) then Done(1) else Thrown)
      && (Complete(node.db) ==>
           Follows(Load(node.db, order).1, source, 0) && |Load(node.db, order).1.hashes| == top + 1)
      && (node.failedSaves == 0 ==>
           && saved == Range(0, top) && top <= |source| && node.main.blockNumber <= top + 1
           && Complete(node.db) && Load(node.db, order) == (Done(top), AddAll(source[..top])))
  {
    hide Life, Chain, SavedOnly, Load, AddAll, ListsAll, NeverMisled, Misleads, Complete, Follows, Commits, Chained,
      Queued;
    var past := LifeKeeps(events, source);
    saved, top := past.saved, past.top;
    var node := Life(events, source).value;
    LoadOfWhatWasSaved(node.db, source, saved, top, order);
    if node.failedSaves == 0 { LoadOfTheFront(node.db, source, saved, top, order); }
  }

  // ----- Lives in which a write fails -----

  lemma LifeStep(events: seq<Event>, e: Event, source: seq<Header>)
    ensures Life(events + [e], source) == Live(Life(events, source), e, source)
    ensures NeverMisled(events + [e], source) <==>
      NeverMisled(events, source) && (Life(events, source).Some? ==> !MisledStart(Life(events, source).value, e))
  {
    hide Live, MisledStart;
    assert (events + [e])[..|events|] == events;
  }

  lemma LifeBegins(source: seq<Header>)
    ensures Life([], source) == Some(FRESH)
    ensures Life([Start([], 0)], source) == Some(FRESH.(run := Some(Running(Initial(), 0, [], 0, None, 0))))
    ensures NeverMisled([Start([], 0)], source)
  {
    LifeStep([], Start([], 0), source);
    assert [] + [Start([], 0)] == [Start([], 0)];
    LoadNothing();
  }

  /** What appending the next block does to a node that is up to date with its own chain. */
  lemma NextAppended(node: Node, source: seq<Header>, n: nat)
    requires Chain(source) && n < |source| && node.run.Some? && node.run.value.unsaved.None?
    requires var r := node.run.value; Holds(r.chain, source[..n]) && r.announced == n && r.lastSaved == 0
    ensures Possible(node, Append, source)
    ensures var r := node.run.value; var chain := Add(r.chain, source[n]).1;
      && Holds(chain, source[..n + 1])
      && After(node, Append, source) ==
         node.(run := Some(r.(chain := chain, queue := r.queue + [NumberedAt(source, n)], announced := n + 1,
                              unsaved := Some(source[n]))))
  {
    hide Chain, Holds, Add;
    var r := node.run.value;
    HoldsLength(r.chain, source[..n]);
    NextIsAdded(r.chain, source, n);
  }

  /** A fresh node that holds one block in memory, announced, and saved or not. */
  ghost function One(source: seq<Header>, saved: bool): Node
    requires |source| >= 1
  {
    FRESH.(db := if saved then SaveBlock(EMPTY, source[0]) else EMPTY, failedSaves := if saved then 0 else 1,
           run := Some(Running(Add(Initial(), source[0]).1, 0, [NumberedAt(source, 0)], 1, None, 0)))
  }

  /** And then the second one, saved. */
  ghost function Two(source: seq<Header>, firstSaved: bool): Node
    requires |source| >= 2
  {
    var one := One(source, firstSaved);
    one.(db := SaveBlock(one.db, source[1]),
         run := Some(Running(Add(one.run.value.chain, source[1]).1, 0,
                             [NumberedAt(source, 0), NumberedAt(source, 1)], 2, None, 0)))
  }

  function OneAppended(saved: bool): seq<Event> {
    [Start([], 0)] + [Append] + [if saved then Save else SaveFails]
  }

  function TwoAppended(firstSaved: bool): seq<Event> {
    OneAppended(firstSaved) + [Append] + [Save]
  }

  lemma {:induction false} OneIsAppended(source: seq<Header>, saved: bool)
    requires Chain(source) && |source| >= 1
    ensures Life(OneAppended(saved), source) == Some(One(source, saved)) && NeverMisled(OneAppended(saved), source)
    ensures Holds(One(source, saved).run.value.chain, source[..1])
  {
    hide Chain, Holds, Add, Initial, SaveBlock, Life, NeverMisled;
    InitialIsFull();
    assert source[..0] == [];
    LifeBegins(source);
    NextAppended(Life([Start([], 0)], source).value, source, 0);
    assert [] + [NumberedAt(source, 0)] == [NumberedAt(source, 0)];
    LifeStep([Start([], 0)], Append, source);
    LifeStep([Start([], 0)] + [Append], if saved then Save else SaveFails, source);
  }

  lemma {:induction false} TwoAreAppended(source: seq<Header>, firstSaved: bool)
    requires Chain(source) && |source| >= 2
    ensures Life(TwoAppended(firstSaved), source) == Some(Two(source, firstSaved))
    ensures NeverMisled(TwoAppended(firstSaved), source)
  {
    hide Chain, Holds, Add, Initial, SaveBlock, Life, NeverMisled, OneAppended;
    OneIsAppended(source, firstSaved);
    NextAppended(One(source, firstSaved), source, 1);
    assert [NumberedAt(source, 0)] + [NumberedAt(source, 1)] == [NumberedAt(source, 0), NumberedAt(source, 1)];
    LifeStep(OneAppended(firstSaved), Append, source);
    LifeStep(OneAppended(firstSaved) + [Append], Save, source);
  }

  /** The write of block 1 fails, and block 2 becomes the first commit. */
  lemma {:induction false} FirstCommitMayBeBlockTwo(source: seq<Header>)
    requires Chain(source) && |source| >= 2
    ensures var events := TwoAppended(true) + [WorkFails] + [Work];
      && NeverMisled(events, source) && Life(events, source).Some?
      && Life(events, source).value.committed == [NumberedAt(source, 1)]
      && Life(events, source).value.missed == 1
  {
    hide Chain, Add, Initial, SaveBlock, Life, NeverMisled;
    TwoAreAppended(source, true);
    LifeStep(TwoAppended(true), WorkFails, source);
    LifeStep(TwoAppended(true) + [WorkFails], Work, source);
  }

  // ----- Restarts with nothing committed yet -----

  /** The worker's first commit after a restart from nothing. */
  ghost function RestartAndCommit(node: Node, order: seq<Header>, source: seq<Header>): Option<Node> {
    Live(Live(Live(Some(node), Start(order, 0), source), Replay, source), Work, source)
  }

  predicate BeginsWrong(committed: seq<Numbered>, source: seq<Header>) {
    committed != [] && (source == [] || committed[0].hash != source[0].hash)
  }

  /** The block that a misled restart commits as number 1. */
  lemma MisledRestart(node: Node, source: seq<Header>, past: Past, order: seq<Header>)
    requires Chain(source) && Inv(node, source, past) && node.run.None? && node.committed == []
    requires ListsAll(node.db, order) && Misleads(node.db)
    ensures 1 < past.top <= |source| && source[past.top - 1].hash != source[0].hash
    ensures var after := RestartAndCommit(node, order, source);
      after.Some? && after.value.committed == [source[past.top - 1].(number := Some(1))]
  {
    hide Chain, SavedOnly, Load, ListsAll, Misleads, Complete, Follows;
    LoadOfWhatWasSaved(node.db, source, past.saved, past.top, order);
    var st := Load(node.db, order).1;
    FollowsGenesis(st, source, past.top - 1);
    ListedAt(st, source, past.top - 1, 1);
    ChainDistinct(source, 0, past.top - 1);
  }

  /** Any other restart commits block 1, if it gets that far. */
  lemma RightRestart(node: Node, source: seq<Header>, past: Past, order: seq<Header>)
    requires Chain(source) && Inv(node, source, past) && node.run.None? && node.committed == []
    requires ListsAll(node.db, order) && !Misleads(node.db)
    ensures var after := RestartAndCommit(node, order, source);
      after.Some? ==> source != [] && after.value.committed == [NumberedAt(source, 0)]
  {
    hide Chain, SavedOnly, Load, ListsAll, Misleads, Complete, Follows;
    LoadOfWhatWasSaved(node.db, source, past.saved, past.top, order);
    if RestartAndCommit(node, order, source).Some? {
      var st := Load(node.db, order).1;
      FollowsGenesis(st, source, 0);
      ListedAt(st, source, 0, 1);
    }
  }

  /** At a restart with nothing committed the worker can commit a wrong block as number 1 if and only if the
      parent of the last header is missing on disk: NeverMisled asks for no more than it must. */
  lemma MisledExactlyWhenWrong(events: seq<Event>, source: seq<Header>, order: seq<Header>)
    requires Chain(source) && Life(events, source).Some? && NeverMisled(events, source)
    requires var node := Life(events, source).value;
      node.run.None? && node.committed == [] && ListsAll(node.db, order)
    ensures var after := Life(events + [Start(order, 0)] + [Replay] + [Work], source);
      Misleads(Life(events, source).value.db) <==>
      after.Some? && BeginsWrong(after.value.committed, source)
  {
    hide Life, Chain, NeverMisled, Misleads, Inv, Live, ListsAll;
    var past := LifeKeeps(events, source);
    var node := Life(events, source).value;
    LifeStep(events, Start(order, 0), source);
    LifeStep(events + [Start(order, 0)], Replay, source);
    LifeStep(events + [Start(order, 0)] + [Replay], Work, source);
    if Misleads(node.db) {
      MisledRestart(node, source, past, order);
    } else {
      RightRestart(node, source, past, order);
    }
  }

  /** It happens: saving block 1 fails, saving block 2 does not, and the node crashes before the worker commits
      anything. It comes up with block 2 as block 1, and the worker commits that. */
  lemma {:induction false} AMisledNodeCommitsTheWrongBlock(source: seq<Header>)
    requires Chain(source) && |source| >= 2
    ensures var before := TwoAppended(false) + [Crash];
      && NeverMisled(before, source) && Life(before, source).Some? && Misleads(Life(before, source).value.db)
      && var after := Life(before + [Start([source[1]], 0)] + [Replay] + [Work], source);
         after.Some? && BeginsWrong(after.value.committed, source)
  {
    hide Chain, Add, Initial, SaveBlock, Life, NeverMisled, Misleads, TwoAppended, After, ListsAll;
    TwoAreAppended(source, false);
    LifeStep(TwoAppended(false), Crash, source);
    Crashed(Two(source, false), source);
    SecondAlone(source);
    MisledExactlyWhenWrong(TwoAppended(false) + [Crash], source, [source[1]]);
  }

  lemma Crashed(node: Node, source: seq<Header>)
    requires node.run.Some?
    ensures Live(Some(node), Crash, source) == Some(node.(run := None))
  {}

  /** What is on disk when only the second block was saved. */
  lemma SecondAlone(source: seq<Header>)
    requires Chain(source) && |source| >= 2
    ensures ListsAll(SaveBlock(EMPTY, source[1]), [source[1]]) && Misleads(SaveBlock(EMPTY, source[1]))
  {
    hide Chain;
    ChainAt(source, 0);
    ChainAt(source, 1);
    ChainDistinct(source, 0, 1);
    assert source[1].(number := None) == source[1];
  }
}
