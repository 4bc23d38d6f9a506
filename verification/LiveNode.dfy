/** The classes of a node put together, and that what their methods do is what the events of its life do. */
module LiveNode {
  import opened Wrappers
  import opened ChainNumbering
  import opened ChainReload
  import opened BlockFeed
  import opened Database
  import opened SavedHeaders
  import opened ChainFollowing
  import opened WorkerMain
  import opened SyncRound
  import opened SyncRuns
  import opened CrashRestart
  import BlockChain
  import BlockFile

  // ----- Rounds as events -----

  ghost function RunFrom(node: Option<Node>, events: seq<Event>, source: seq<Header>): Option<Node> {
    if events == [] then node
    else Live(RunFrom(node, events[..|events| - 1], source), events[|events| - 1], source)
  }

  lemma {:induction false} LifeGoesOn(before: seq<Event>, events: seq<Event>, source: seq<Header>)
    ensures Life(before + events, source) == RunFrom(Life(before, source), events, source)
  {
    hide Live;
    if events == [] {
      assert before + events == before;
    } else {
      var front := events[..|events| - 1];
      LifeGoesOn(before, front, source);
      assert (before + events)[..|before + events| - 1] == before + front;
    }
  }

  /** A round that adds k blocks: each is appended and saved, the last perhaps only appended; then there may be
      one more that the chain refuses. */
  function RoundEvents(k: nat, unsaved: bool, refused: bool): seq<Event> {
    AddEvents(k, unsaved) + if refused then [Append] else []
  }

  function AddEvents(k: nat, unsaved: bool): seq<Event> {
    if k == 0 then [] else AddEvents(k - 1, false) + [Append] + [if unsaved then SaveFails else Save]
  }

  lemma RunOne(node: Option<Node>, events: seq<Event>, e: Event, source: seq<Header>)
    ensures RunFrom(node, events + [e], source) == Live(RunFrom(node, events, source), e, source)
  {
    assert (events + [e])[..|events|] == events;
  }

  /** The node after a round that added blocks m + 1 .. n of the source. */
  function AfterRound(node: Node, source: seq<Header>, m: nat, n: nat, unsaved: bool): Node
    requires node.run.Some? && m <= n <= |source| && (unsaved ==> m < n)
  {
    var r := node.run.value;
    node.(
      db := SaveAll(node.db, source[m..if unsaved then n - 1 else n]),
      failedSaves := node.failedSaves + if unsaved then 1 else 0,
      run := Some(r.(chain := AddEach(r.chain, source[m..n]),
                     queue := OfferedAll(r.lastSaved, r.queue, NumberedPiece(source, m, n)),
                     announced := if r.announced < n then n else r.announced)))
  }

  /** The node with one more block, appended as number n and saved or not. */
  function WithOneMore(node: Node, b: Header, n: nat, unsaved: bool): Node
    requires node.run.Some?
  {
    var r := node.run.value;
    node.(
      db := if unsaved then node.db else SaveBlock(node.db, b),
      failedSaves := node.failedSaves + if unsaved then 1 else 0,
      run := Some(r.(chain := Add(r.chain, b).1,
                     queue := Offered(r.lastSaved, r.queue, b.(number := Some(n))),
                     announced := if r.announced < n then n else r.announced)))
  }

  /** Adding a piece of the source is a run of events, on any chain that follows the source. */
  lemma {:induction false} RoundIsARunOfEvents(node: Node, source: seq<Header>, t: nat, m: nat, n: nat, unsaved: bool)
    requires Chain(source) && node.run.Some? && node.run.value.unsaved.None?
    requires m <= n <= |source| && (unsaved ==> m < n)
    requires Follows(node.run.value.chain, source, t) && |node.run.value.chain.hashes| == m + 1
    requires EachAdded(node.run.value.chain, source[m..n]) && m <= node.run.value.announced
    ensures RunFrom(Some(node), AddEvents(n - m, unsaved), source) == Some(AfterRound(node, source, m, n, unsaved))
    decreases n
  {
    hide *;
    AddEventsMore(n - m, unsaved);
    if m == n {
      NoRound(node, source, m);
    } else {
      EachAddedFront(node.run.value.chain, source, m, n);
      RoundIsARunOfEvents(node, source, t, m, n - 1, false);
      var events, save := AddEvents(n - 1 - m, false), if unsaved then SaveFails else Save;
      RunOne(Some(node), events, Append, source);
      RunOne(Some(node), events + [Append], save, source);
      AddFollowing(node.run.value.chain, source, t, m, n - 1);
      NextOfSource(AddEach(node.run.value.chain, source[m..n - 1]), source, t);
      AfterRoundRuns(node, source, m, n - 1, false);
      AppendAndSave(AfterRound(node, source, m, n - 1, false), source, n, unsaved);
      AfterRoundGrows(node, source, m, n, unsaved);
    }
  }

  lemma EachAddedFront(st: State, source: seq<Header>, m: nat, n: nat)
    requires m < n <= |source| && EachAdded(st, source[m..n])
    ensures EachAdded(st, source[m..n - 1]) && Add(AddEach(st, source[m..n - 1]), source[n - 1]).0.Done?
  {
    hide Add;
    FrontOfPiece(source, m, n);
  }

  lemma AddEventsMore(k: nat, unsaved: bool)
    ensures AddEvents(0, unsaved) == []
    ensures k > 0 ==>
      AddEvents(k, unsaved) == AddEvents(k - 1, false) + [Append] + [if unsaved then SaveFails else Save]
  {}

  lemma NoRound(node: Node, source: seq<Header>, m: nat)
    requires node.run.Some? && m <= |source| && m <= node.run.value.announced
    ensures RunFrom(Some(node), [], source) == Some(AfterRound(node, source, m, m, false))
  {}

  lemma AfterRoundRuns(node: Node, source: seq<Header>, m: nat, n: nat, unsaved: bool)
    requires node.run.Some? && m <= n <= |source| && (unsaved ==> m < n) && m <= node.run.value.announced
    ensures var after, r := AfterRound(node, source, m, n, unsaved), node.run.value;
      && after.run.Some? && after.run.value.unsaved == r.unsaved
      && after.run.value.chain == AddEach(r.chain, source[m..n]) && n <= after.run.value.announced
  {}

  lemma AfterRoundGrows(node: Node, source: seq<Header>, m: nat, n: nat, unsaved: bool)
    requires node.run.Some? && m < n <= |source|
    ensures WithOneMore(AfterRound(node, source, m, n - 1, false), source[n - 1], n, unsaved)
         == AfterRound(node, source, m, n, unsaved)
  {
    hide Add, SaveBlock, Offered, NumberedPiece, OfferedAll;
    FrontOfPiece(source, m, n);
    PieceGrows(node.run.value.lastSaved, node.run.value.queue, source, m, n);
  }

  lemma PieceGrows(lastSaved: nat, queue: seq<Numbered>, source: seq<Header>, m: nat, n: nat)
    requires m < n <= |source|
    ensures OfferedAll(lastSaved, queue, NumberedPiece(source, m, n))
         == Offered(lastSaved, OfferedAll(lastSaved, queue, NumberedPiece(source, m, n - 1)),
                    source[n - 1].(number := Some(n)))
  {
    hide Offered;
    var front := NumberedPiece(source, m, n - 1);
    assert NumberedPiece(source, m, n)[..|front|] == front;
  }

  lemma AppendAndSave(node: Node, source: seq<Header>, n: nat, unsaved: bool)
    requires node.run.Some? && node.run.value.unsaved.None? && 0 < n <= |source|
    requires |node.run.value.chain.hashes| == n && n - 1 <= node.run.value.announced
    requires Add(node.run.value.chain, source[n - 1]).0 == Done(n)
    ensures Live(Live(Some(node), Append, source), if unsaved then SaveFails else Save, source)
         == Some(WithOneMore(node, source[n - 1], n, unsaved))
  {
    hide Add, SaveBlock, Offered;
  }

  /** A block that the chain refuses. */
  lemma RefusedAppend(node: Node, source: seq<Header>, n: nat)
    requires node.run.Some? && node.run.value.unsaved.None? && n < |source|
    requires |node.run.value.chain.hashes| == n + 1 && n <= node.run.value.announced
    requires Add(node.run.value.chain, source[n]).0.Thrown?
    ensures Live(Some(node), Append, source)
         == Some(node.(run := Some(node.run.value.(chain := Add(node.run.value.chain, source[n]).1))))
  {
    hide Add;
  }

  // ----- Turns of the worker during a round -----

  predicate IsTurn(e: Event) {
    e == Work || e == WorkFails
  }

  predicate IsLoop(e: Event) {
    e == Replay || e == Append || e == Save || e == SaveFails
  }

  function TurnsOf(events: seq<Event>): (r: seq<Event>)
    ensures forall e :: e in r ==> IsTurn(e)
  {
    if events == [] then []
    else TurnsOf(events[..|events| - 1]) + if IsTurn(events[|events| - 1]) then [events[|events| - 1]] else []
  }

  function OthersOf(events: seq<Event>): seq<Event> {
    if events == [] then []
    else OthersOf(events[..|events| - 1]) + if IsTurn(events[|events| - 1]) then [] else [events[|events| - 1]]
  }

  /** A turn of the worker may as well come after what the loop does next. */
  lemma TurnCanWait(node: Option<Node>, w: Event, e: Event, source: seq<Header>)
    requires IsTurn(w) && IsLoop(e) && Live(Live(node, w, source), e, source).Some?
    ensures Live(Live(node, e, source), w, source) == Live(Live(node, w, source), e, source)
  {
    hide Appended, Replayed, SaveBlock, Worked;
    WorkedOnly(node.value, w == WorkFails);
    if e == Append {
      AppendedBeside(node.value, w == WorkFails, source[Count(node.value.run.value)]);
    } else if e == Replay {
      ReplayedBeside(node.value, w == WorkFails);
    } else {
      SavedBeside(node.value, w == WorkFails, e, source);
    }
  }

  /** What a turn leaves alone. */
  lemma WorkedOnly(node: Node, writeFails: bool)
    requires node.run.Some? && node.run.value.queue != []
    ensures var after := Worked(node, writeFails); var r, r' := node.run.value, after.run.value;
      && after.run.Some? && after.db == node.db && after.failedSaves == node.failedSaves
      && r'.chain == r.chain && r'.announced == r.announced && r'.unsaved == r.unsaved && r'.lastSaved == r.lastSaved
      && r'.queue == r.queue[1..]
  {
    hide Judge;
  }

  lemma AppendedBeside(node: Node, writeFails: bool, b: Header)
    requires node.run.Some? && node.run.value.queue != []
    ensures var after := Appended(node, b);
      && after.run.Some? && after.run.value.queue != []
      && Worked(after, writeFails) == Appended(Worked(node, writeFails), b)
  {
    hide Add, Offered, Judge;
    var number := Add(node.run.value.chain, b).0;
    if number.Done? {
      OfferedBehind(node.run.value.lastSaved, node.run.value.queue, b.(number := Some(number.value)));
    }
  }

  lemma ReplayedBeside(node: Node, writeFails: bool)
    requires Possible(node, Replay, []) && node.run.value.queue != []
    ensures var after := Replayed(node);
      && after.run.Some? && after.run.value.queue != []
      && Worked(after, writeFails) == Replayed(Worked(node, writeFails))
  {
    hide Offered, Judge;
    var r := node.run.value;
    OfferedBehind(r.lastSaved, r.queue, r.chain.blocks[r.chain.hashes[r.announced + 1]]);
  }

  lemma SavedBeside(node: Node, writeFails: bool, e: Event, source: seq<Header>)
    requires node.run.Some? && node.run.value.queue != [] && (e == Save || e == SaveFails)
    requires Possible(node, e, source)
    ensures Possible(Worked(node, writeFails), e, source)
    ensures var after := After(node, e, source);
      && after.run.Some? && after.run.value.queue != []
      && Worked(after, writeFails) == After(Worked(node, writeFails), e, source)
  {
    hide Judge, SaveBlock;
  }

  lemma OfferedBehind(lastSaved: nat, queue: seq<Numbered>, b: Numbered)
    requires queue != []
    ensures var more := Offered(lastSaved, queue, b);
      more != [] && more[0] == queue[0] && more[1..] == Offered(lastSaved, queue[1..], b)
  {}

  lemma {:induction false} TurnsCanWait(node: Option<Node>, ws: seq<Event>, e: Event, source: seq<Header>)
    requires (forall w :: w in ws ==> IsTurn(w)) && IsLoop(e) && Live(RunFrom(node, ws, source), e, source).Some?
    ensures RunFrom(Live(node, e, source), ws, source) == Live(RunFrom(node, ws, source), e, source)
  {
    hide Live, IsLoop;
    if ws != [] {
      var front, w := ws[..|ws| - 1], ws[|ws| - 1];
      assert IsTurn(w);
      TurnCanWait(RunFrom(node, front, source), w, e, source);
      LiveFromSome(Live(RunFrom(node, front, source), e, source), w, source);
      TurnsCanWait(node, front, e, source);
    }
  }

  lemma LiveFromSome(node: Option<Node>, e: Event, source: seq<Header>)
    requires Live(node, e, source).Some?
    ensures node.Some?
  {}

  lemma {:induction false} RunGoesOn(node: Option<Node>, before: seq<Event>, events: seq<Event>, source: seq<Header>)
    ensures RunFrom(node, before + events, source) == RunFrom(RunFrom(node, before, source), events, source)
  {
    hide Live;
    if events == [] {
      assert before + events == before;
    } else {
      var front := events[..|events| - 1];
      RunGoesOn(node, before, front, source);
      assert (before + events)[..|before + events| - 1] == before + front;
    }
  }

  /** The worker takes its turns whenever it likes: the node is in the end where it would be had the worker taken
      them, in the same order, after everything the loop did. */
  lemma {:induction false} TurnsCanComeLast(node: Option<Node>, events: seq<Event>, source: seq<Header>)
    requires (forall e :: e in events ==> IsTurn(e) || IsLoop(e)) && RunFrom(node, events, source).Some?
    ensures RunFrom(node, OthersOf(events) + TurnsOf(events), source) == RunFrom(node, events, source)
  {
    hide Live, IsLoop, IsTurn;
    if events == [] {
      assert OthersOf(events) + TurnsOf(events) == [];
    } else {
      var front, e := events[..|events| - 1], events[|events| - 1];
      var loop, turns := OthersOf(front), TurnsOf(front);
      LiveFromSome(RunFrom(node, front, source), e, source);
      TurnsCanComeLast(node, front, source);
      if IsTurn(e) {
        assert OthersOf(events) + TurnsOf(events) == (loop + turns) + [e];
        RunOne(node, loop + turns, e, source);
      } else {
        assert OthersOf(events) == loop + [e] && TurnsOf(events) == turns;
        RunGoesOn(node, loop, turns, source);
        RunOne(node, loop, e, source);
        RunGoesOn(node, loop + [e], turns, source);
        TurnsCanWait(RunFrom(node, loop, source), turns, e, source);
      }
    }
  }

  // ----- The classes -----

  /** A process of the node while it is up, and the disk it leaves behind when it is not. The history, and
      the events it is made of, are kept for the statements only. */
  class LiveNode {
    var sync: SyncImpl
    var up: bool
    var announced: nat
    ghost var dropped: nat
    ghost var committed: seq<Numbered>
    ghost var missed: nat
    ghost var refused: nat
    ghost var failedSaves: nat
    ghost var failedWrites: nat
    ghost var events: seq<Event>

    ghost function Run(): Running
      reads this, sync, sync.blockchain, sync.worker
    {
      Running(sync.blockchain.Now(), sync.worker.lastSavedBlock, sync.worker.queue, announced, None, dropped)
    }

    ghost function Now(): Node
      reads this, sync, sync.blockchain, sync.worker
    {
      Node(sync.db, sync.worker.disk, if up then Some(Run()) else None, committed, missed, refused, failedSaves,
           failedWrites)
    }

    /** The objects are in the state that the events so far lead to. */
    ghost predicate Lived(source: seq<Header>)
      reads this, sync, sync.blockchain, sync.worker
    {
      sync.blockchain.Filed() && sync.blockchain.hashes != [] && Life(events, source) == Some(Now())
    }

    constructor (isValidate: bool, ghost source: seq<Header>)
      ensures Lived(source) && events == [] && !up
      ensures fresh(sync) && fresh(sync.blockchain) && fresh(sync.worker)
    {
      var blockchain := new BlockChain.BlockChain();
      var feed := new NetworkBlockSource();
      var worker := new WorkerMain(MainBlock(0, ""));
      var file := new BlockFile.File();
      sync := new SyncImpl(isValidate, blockchain, feed, worker, file, EMPTY, map[]);
      up, announced, dropped, committed, missed, refused, failedSaves, failedWrites := false, 0, 0, [], 0, 0, 0, 0;
      events := [];
    }

    /** The objects of a new process, on the same disk. */
    method NewProcess()
      modifies this`sync
      ensures fresh(sync) && fresh(sync.blockchain) && fresh(sync.worker)
      ensures sync.db == old(sync.db) && sync.file == old(sync.file) && sync.filePos == old(sync.filePos)
      ensures sync.worker.disk == old(sync.worker.disk) && sync.worker.queue == []
      ensures sync.worker.lastSavedBlock == old(sync.worker.disk.blockNumber)
    {
      var blockchain := new BlockChain.BlockChain();
      var feed := new NetworkBlockSource();
      var worker := new WorkerMain(sync.worker.disk);
      sync := new SyncImpl(sync.isValidate, blockchain, feed, worker, sync.file, sync.db, sync.filePos);
    }

    /** A new process loads what is on disk, unless its chain cannot be numbered. */
    method Start(order: seq<Header>, from: nat, ghost source: seq<Header>)
      requires Lived(source) && Possible(Now(), Event.Start(order, from), source)
      modifies this
      ensures Lived(source) && events == old(events) + [Event.Start(order, from)]
      ensures old(NeverMisled(events, source) && !MisledStart(Now(), Event.Start(order, from))) ==>
        NeverMisled(events, source)
      ensures fresh(sync) && fresh(sync.blockchain) && fresh(sync.worker)
    {
      hide Load, Life, NeverMisled, MisledStart, Possible, ListsAll, BlockChain.BlockChain.Filed;
      LifeStep(events, Event.Start(order, from), source);
      EventStep(events, Now(), Event.Start(order, from), source);
      CanStart(Now(), order, from, source);
      LoadLists(sync.db, order);
      NewProcess();
      var r := sync.LoadBlockchain(order);
      if r.Done? { up, announced, dropped := true, from, 0; }
      events := events + [Event.Start(order, from)];
    }

    /** Sends the next block of the chain to the worker again. */
    method Replay(ghost source: seq<Header>)
      requires Lived(source) && Possible(Now(), Event.Replay, source)
      modifies this`announced, this`events, sync.worker
      ensures Lived(source) && events == old(events) + [Event.Replay]
    {
      hide Life, BlockChain.BlockChain.Filed;
      EventStep(events, Now(), Event.Replay, source);
      sync.ReplayOne(announced + 1);
      announced := announced + 1;
      events := events + [Event.Replay];
    }

    /** One turn of the worker. */
    method Work(writeFails: bool, ghost source: seq<Header>) returns (v: Verdict)
      requires Lived(source) && Possible(Now(), Event.Work, source)
      modifies this, sync.worker
      ensures Lived(source) && sync == old(sync)
      ensures events == old(events) + [if writeFails then WorkFails else Event.Work]
    {
      hide Life, Judge, Possible, BlockChain.BlockChain.Filed;
      CanWork(Now(), source);
      EventStep(events, Now(), if writeFails then WorkFails else Event.Work, source);
      ghost var b := sync.worker.queue[0];
      v := sync.worker.WorkOne(writeFails);
      events := events + [if writeFails then WorkFails else Event.Work];
      match v
      case Skipped =>
      case Refused => refused := refused + 1;
      case Lost => dropped, failedWrites := dropped + 1, failedWrites + 1;
      case Committed(_) =>
        missed := if committed == [] then dropped else missed;
        committed := committed + [b];
    }

    method Crash(ghost source: seq<Header>)
      requires Lived(source) && up
      modifies this`up, this`events
      ensures Lived(source) && events == old(events) + [Event.Crash] && !up
    {
      hide Life;
      EventStep(events, Now(), Event.Crash, source);
      up := false;
      events := events + [Event.Crash];
    }

    /** A round with a source that always gives the same chain, once the replay is over. What it adds is the
        next piece of that chain, and what it does to the node is a run of events: so many blocks appended and
        saved, the last perhaps only appended, and one more perhaps refused. Nothing is refused as long as no
        save has failed. */
    method Round(response: Option<LastBlock>, net: Net, faults: Faulty, ghost chain: seq<Block>)
      returns (ghost added: seq<Block>, ghost reached: Memory, why: Ending)
      requires Lived(HeadersOf(chain)) && NeverMisled(events, HeadersOf(chain)) && up
      requires Chain(HeadersOf(chain)) && Consistent(net, chain)
      requires |sync.blockchain.hashes| - 1 <= announced
      modifies this`announced, this`failedSaves, this`events
      modifies sync, sync.blockchain, sync.worker, sync.file, sync.source
      ensures Lived(HeadersOf(chain)) && NeverMisled(events, HeadersOf(chain)) && sync == old(sync)
      ensures events == old(events) + RoundEvents(|added|, why == Unsaved, why.Unadded?)
      ensures old(SaveFails !in events) ==> !why.Unadded?
      ensures var m := old(|sync.blockchain.hashes|) - 1;
        && m + |added| <= |chain| && added == chain[m..m + |added|]
        && |sync.blockchain.hashes| - 1 == m + |added| <= announced
      ensures sync.Now() == Left(reached, why)
      ensures Explained(why, net, sync.isValidate, faults, response, reached.chain, |sync.blockchain.hashes|,
                        sync.source.nextBlockToRead)
    {
      hide Chain, Consistent, Explained, Progress, HeadersOf, RoundEvents, Add, Life, NeverMisled,
        BlockChain.BlockChain.Filed;
      ghost var m0, node := sync.Now(), Now();
      added, reached, why := sync.Round(response, net, faults);
      RoundIsLived(events, chain, m0, net, sync.isValidate, faults, response, added, reached, why,
                   sync.source.nextBlockToRead, node);
      if announced < |sync.blockchain.hashes| - 1 { announced := |sync.blockchain.hashes| - 1; }
      if why == Unsaved { failedSaves := failedSaves + 1; }
      events := events + RoundEvents(|added|, why == Unsaved, why.Unadded?);
    }

    /** Whatever methods were called, what the worker has on disk is the last of a contiguous piece of the
        source. */
    lemma DiskFollowsTheSource(source: seq<Header>)
      requires Chain(source) && Lived(source) && NeverMisled(events, source)
      ensures committed != [] ==>
        && sync.worker.disk.blockNumber == missed + |committed| <= |source|
        && sync.worker.disk.blockHash == source[missed + |committed| - 1].hash
      ensures forall i: nat :: i < |committed| ==> committed[i].hash == source[missed + i].hash
      ensures failedWrites == 0 ==> missed == 0 && refused == 0
    {
      hide Life, Chain, NeverMisled;
      CommitsAreTheChain(events, source);
    }
  }

  lemma EventStep(events: seq<Event>, node: Node, e: Event, source: seq<Header>)
    requires Life(events, source) == Some(node) && Possible(node, e, source)
    ensures Life(events + [e], source) == Some(After(node, e, source))
  {
    hide Life, Possible, After;
    LifeStep(events, e, source);
  }

  lemma CanStart(node: Node, order: seq<Header>, from: nat, source: seq<Header>)
    requires Possible(node, Event.Start(order, from), source)
    ensures node.run.None? && ListsAll(node.db, order)
  {}

  lemma CanWork(node: Node, source: seq<Header>)
    requires Possible(node, Event.Work, source)
    ensures Possible(node, Event.WorkFails, source) && node.run.Some? && node.run.value.queue != []
  {}

  /** The state a round starts from. */
  lemma BetweenRounds(events: seq<Event>, source: seq<Header>, node: Node) returns (t: nat)
    requires Chain(source) && Life(events, source) == Some(node) && NeverMisled(events, source)
    requires node.run.Some? && node.run.value.unsaved.None?
    ensures Follows(node.run.value.chain, source, t) && 0 <= Count(node.run.value) <= |source|
  {
    hide Chain, Life, NeverMisled, Follows, Knows, OnDisk, Commits, Queued;
    var past := LifeKeeps(events, source);
    t := past.standIn;
    FollowsCount(node.run.value.chain, source, t);
  }

  lemma {:induction false} NotMisledByAdding(events: seq<Event>, k: nat, unsaved: bool, source: seq<Header>)
    requires NeverMisled(events, source)
    ensures NeverMisled(events + AddEvents(k, unsaved), source)
  {
    hide Life, NeverMisled;
    if k == 0 {
      assert events + [] == events;
    } else {
      NotMisledByAdding(events, k - 1, false, source);
      var before := events + AddEvents(k - 1, false);
      LifeStep(before, Append, source);
      LifeStep(before + [Append], if unsaved then SaveFails else Save, source);
      assert before + [Append] + [if unsaved then SaveFails else Save] == events + AddEvents(k, unsaved);
    }
  }

  lemma NotMisledByRounds(events: seq<Event>, k: nat, unsaved: bool, refused: bool, source: seq<Header>)
    requires NeverMisled(events, source)
    ensures NeverMisled(events + RoundEvents(k, unsaved, refused), source)
  {
    hide Life, NeverMisled, AddEvents;
    NotMisledByAdding(events, k, unsaved, source);
    LifeStep(events + AddEvents(k, unsaved), Append, source);
    assert events + AddEvents(k, unsaved) + [Append] == events + (AddEvents(k, unsaved) + [Append]);
    assert AddEvents(k, unsaved) + [] == AddEvents(k, unsaved);
  }

  /** The node with what a round left. */
  function Reached(node: Node, m: Memory, unsaved: bool): Node
    requires node.run.Some?
  {
    var r, n := node.run.value, |m.chain.hashes| - 1;
    node.(
      db := m.db,
      failedSaves := node.failedSaves + if unsaved then 1 else 0,
      run := Some(r.(chain := m.chain, queue := m.queue, announced := if r.announced < n then n else r.announced)))
  }

  lemma ReachedIsAfterRound(node: Node, source: seq<Header>, m: nat, n: nat, reached: Memory, unsaved: bool)
    requires node.run.Some? && m <= n <= |source| && (unsaved ==> m < n) && |reached.chain.hashes| == n + 1
    requires var r := node.run.value;
      && reached.chain == AddEach(r.chain, source[m..n])
      && reached.queue == OfferedAll(r.lastSaved, r.queue, NumberedPiece(source, m, n))
      && reached.db == SaveAll(node.db, source[m..if unsaved then n - 1 else n])
    ensures Reached(node, reached, unsaved) == AfterRound(node, source, m, n, unsaved)
  {
    hide AddEach, OfferedAll, NumberedPiece, SaveAll;
  }

  /** What the chain refused is the next block of the source. */
  lemma RefusedIsNext(chain: seq<Block>, k: nat, net: Net, isValidate: bool, faults: Faulty,
                      response: Option<LastBlock>, st: State, nextBlockToRead: nat, why: Ending)
    requires Consistent(net, chain) && why.Unadded?
    requires Explained(why, net, isValidate, faults, response, st, k + 1, nextBlockToRead)
    ensures k < |chain| && why.block == chain[k] && HeaderOf(why.block) == HeadersOf(chain)[k]
    ensures Add(st, HeadersOf(chain)[k]).0.Thrown?
  {
    hide Consistent, Answered, Add;
    AnswerIsInChain(net, chain, k + 1, why.block);
  }

  /** A round with a consistent source: what was added is a piece of it, and the node is where the events lead
      it. */
  lemma RoundEnds(chain: seq<Block>, t: nat, m: nat, m0: Memory, lastSaved: nat, net: Net, isValidate: bool,
                  faults: Faulty, response: Option<LastBlock>, added: seq<Block>, reached: Memory, why: Ending,
                  nextBlockToRead: nat, node: Node)
    requires Chain(HeadersOf(chain)) && Consistent(net, chain) && m <= |chain|
    requires Follows(m0.chain, HeadersOf(chain), t) && |m0.chain.hashes| == m + 1
    requires Progress(m0, lastSaved, net, isValidate, added, why == Unsaved, reached)
    requires Explained(why, net, isValidate, faults, response, reached.chain, m + |added| + 1, nextBlockToRead)
    requires node.run.Some? && node.run.value.unsaved.None? && m <= node.run.value.announced
    requires node.db == m0.db && node.run.value.chain == m0.chain && node.run.value.queue == m0.queue
    requires node.run.value.lastSaved == lastSaved
    ensures m + |added| <= |chain| && added == chain[m..m + |added|]
    ensures |Left(reached, why).chain.hashes| == m + |added| + 1
    ensures RunFrom(Some(node), RoundEvents(|added|, why == Unsaved, why.Unadded?), HeadersOf(chain))
         == Some(Reached(node, Left(reached, why), why == Unsaved))
  {
    hide *;
    var n, source, unsaved := m + |added|, HeadersOf(chain), why == Unsaved;
    ConsistentSourceIsFollowed(chain, t, m, m0, lastSaved, net, isValidate, added, unsaved, reached);
    RoundIsARunOfEvents(node, source, t, m, n, unsaved);
    ReachedIsAfterRound(node, source, m, n, reached, unsaved);
    RoundEventsAre(|added|, unsaved, why.Unadded?);
    if why.Unadded? {
      RefusedIsNext(chain, n, net, isValidate, faults, response, reached.chain, nextBlockToRead, why);
      NextOfSource(reached.chain, source, t);
      RunOne(Some(node), AddEvents(|added|, unsaved), Append, source);
      ReachedRuns(node, reached, unsaved);
      RefusedAppend(Reached(node, reached, unsaved), source, n);
      OrphanReached(node, reached, why.block);
    } else {
      NotOrphaned(reached, why);
    }
  }

  lemma RoundEventsAre(k: nat, unsaved: bool, refused: bool)
    ensures RoundEvents(k, unsaved, refused) ==
      if refused then AddEvents(k, unsaved) + [Append] else AddEvents(k, unsaved)
  {
    assert AddEvents(k, unsaved) + [] == AddEvents(k, unsaved);
  }

  lemma ReachedRuns(node: Node, m: Memory, unsaved: bool)
    requires node.run.Some?
    ensures var after := Reached(node, m, unsaved);
      && after.run.Some? && after.run.value.unsaved == node.run.value.unsaved && after.run.value.chain == m.chain
      && |m.chain.hashes| - 1 <= after.run.value.announced
  {}

  lemma OrphanReached(node: Node, m: Memory, b: Block)
    requires node.run.Some? && Add(m.chain, HeaderOf(b)).1.hashes == m.chain.hashes
    ensures Left(m, Unadded(b)).chain == Add(m.chain, HeaderOf(b)).1
    ensures var r := Reached(node, m, false);
      Reached(node, Left(m, Unadded(b)), false) ==
      r.(run := Some(r.run.value.(chain := Add(m.chain, HeaderOf(b)).1)))
  {
    hide Add;
  }

  /** A chain that is the front of the source is so after a round, too. */
  lemma FrontAfterRound(chain: seq<Block>, m: nat, n: nat, m0: Memory, lastSaved: nat, net: Net, isValidate: bool,
                        added: seq<Block>, unsaved: bool, reached: Memory)
    requires m <= n <= |chain| && added == chain[m..n]
    requires Chain(HeadersOf(chain)) && Holds(m0.chain, HeadersOf(chain)[..m])
    requires Progress(m0, lastSaved, net, isValidate, added, unsaved, reached)
    ensures Holds(reached.chain, HeadersOf(chain)[..n])
  {
    hide *;
    ProgressMeans(m0, lastSaved, net, isValidate, added, unsaved, reached);
    HeadersOfPiece(chain, m, n);
    AddAlong(m0.chain, HeadersOf(chain), m, n);
  }

  /** It takes every block that a consistent source gives next. */
  lemma FrontRefusesNothing(chain: seq<Block>, k: nat, net: Net, isValidate: bool, faults: Faulty,
                            response: Option<LastBlock>, st: State, nextBlockToRead: nat, why: Ending)
    requires Chain(HeadersOf(chain)) && Consistent(net, chain) && k <= |chain| && Holds(st, HeadersOf(chain)[..k])
    requires Explained(why, net, isValidate, faults, response, st, k + 1, nextBlockToRead)
    ensures !why.Unadded?
  {
    hide Chain, Consistent, Holds, HeadersOf, Answered, Failed, Add;
    match why
    case Unadded(b) => NextIsTaken(chain, HeadersOf(chain), net, k, st, b);
    case _ =>
  }

  /** As long as no save has failed nothing is refused. */
  lemma NothingIsRefused(events: seq<Event>, chain: seq<Block>, m: nat, m0: Memory, lastSaved: nat, net: Net,
                         isValidate: bool, faults: Faulty, response: Option<LastBlock>, added: seq<Block>,
                         reached: Memory, why: Ending, nextBlockToRead: nat)
    requires Chain(HeadersOf(chain)) && Consistent(net, chain) && SaveFails !in events
    requires Life(events, HeadersOf(chain)).Some? && Life(events, HeadersOf(chain)).value.run.Some?
    requires Life(events, HeadersOf(chain)).value.run.value.chain == m0.chain && |m0.chain.hashes| == m + 1
    requires Progress(m0, lastSaved, net, isValidate, added, why == Unsaved, reached)
    requires m + |added| <= |chain| && added == chain[m..m + |added|]
    requires Explained(why, net, isValidate, faults, response, reached.chain, m + |added| + 1, nextBlockToRead)
    ensures !why.Unadded?
  {
    hide *;
    NoFailedSaveHoldsTheFront(events, HeadersOf(chain));
    CountIs(Life(events, HeadersOf(chain)).value.run.value, m);
    FrontAfterRound(chain, m, m + |added|, m0, lastSaved, net, isValidate, added, why == Unsaved, reached);
    FrontRefusesNothing(chain, m + |added|, net, isValidate, faults, response, reached.chain, nextBlockToRead, why);
  }

  /** What a round does to a node that has lived through `events`. */
  lemma RoundIsLived(events: seq<Event>, chain: seq<Block>, m0: Memory, net: Net, isValidate: bool, faults: Faulty,
                     response: Option<LastBlock>, added: seq<Block>, reached: Memory, why: Ending,
                     nextBlockToRead: nat, node: Node)
    requires Chain(HeadersOf(chain)) && Consistent(net, chain)
    requires Life(events, HeadersOf(chain)) == Some(node) && NeverMisled(events, HeadersOf(chain))
    requires node.run.Some? && node.run.value.unsaved.None?
    requires node.run.value.chain == m0.chain && node.run.value.queue == m0.queue && node.db == m0.db
    requires |m0.chain.hashes| - 1 <= node.run.value.announced
    requires Progress(m0, node.run.value.lastSaved, net, isValidate, added, why == Unsaved, reached)
    requires Explained(why, net, isValidate, faults, response, reached.chain, |m0.chain.hashes| + |added|,
                       nextBlockToRead)
    ensures var m := |m0.chain.hashes| - 1;
      && 0 <= m && m + |added| <= |chain| && added == chain[m..m + |added|]
      && |Left(reached, why).chain.hashes| == m + |added| + 1
    ensures var more := RoundEvents(|added|, why == Unsaved, why.Unadded?);
      && Life(events + more, HeadersOf(chain)) == Some(Reached(node, Left(reached, why), why == Unsaved))
      && NeverMisled(events + more, HeadersOf(chain))
    ensures SaveFails !in events ==> !why.Unadded?
  {
    hide *;
    var t := BetweenRounds(events, HeadersOf(chain), node);
    var m := |m0.chain.hashes| - 1;
    CountIs(node.run.value, m);
    RoundEnds(chain, t, m, m0, node.run.value.lastSaved, net, isValidate, faults, response, added, reached, why,
              nextBlockToRead, node);
    LifeGoesOn(events, RoundEvents(|added|, why == Unsaved, why.Unadded?), HeadersOf(chain));
    NotMisledByRounds(events, |added|, why == Unsaved, why.Unadded?, HeadersOf(chain));
    if SaveFails !in events {
      NothingIsRefused(events, chain, m, m0, node.run.value.lastSaved, net, isValidate, faults, response, added,
                       reached, why, nextBlockToRead);
    }
  }

  lemma CountIs(r: Running, m: int)
    requires |r.chain.hashes| == m + 1
    ensures Count(r) == m
  {}

  /** Whatever is loaded, there is a genesis block in front; and headers on disk have names. */
  lemma LoadLists(db: Database, order: seq<Header>)
    requires ListsAll(db, order)
    ensures Load(db, order).1.hashes != []
    ensures forall i: nat :: i < |order| ==> order[i].hash != ""
  {
    hide FileAll, Walk;
  }
}
