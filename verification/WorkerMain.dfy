/** The worker that commits blocks: a queue in memory, its position on disk. */
module WorkerMain {
  import opened Wrappers
  import opened ChainNumbering

  /** The worker's record on disk; a missing one reads as number 0 and an empty hash. */
  datatype MainBlock = MainBlock(blockNumber: nat, blockHash: Hash)

  datatype Verdict = Skipped | Refused | Lost | Committed(main: MainBlock)

  /** A numbered block as the worker sees it. */
  type Numbered = h: Header | h.number.Some? witness Header("", "", Some(0))

  /** process: blocks up to the position found at start are not queued again. */
  function Offered(lastSavedBlock: nat, queue: seq<Numbered>, b: Numbered): seq<Numbered> {
    if b.number.value > lastSavedBlock then queue + [b] else queue
  }

  function OfferedAll(lastSavedBlock: nat, queue: seq<Numbered>, bs: seq<Numbered>): seq<Numbered> {
    if bs == [] then queue
    else Offered(lastSavedBlock, OfferedAll(lastSavedBlock, queue, bs[..|bs| - 1]), bs[|bs| - 1])
  }

  /** One turn of the worker. A block whose write throws is gone from the queue all the same. */
  function Judge(main: MainBlock, b: Numbered, writeFails: bool): Verdict {
    if b.number.value <= main.blockNumber then Skipped
    else if main.blockHash != "" && main.blockHash != b.prevHash then Refused
    else if writeFails then Lost
    else Committed(MainBlock(b.number.value, b.hash))
  }

  class WorkerMain {
    const lastSavedBlock: nat
    var queue: seq<Numbered>
    var disk: MainBlock

    constructor (disk: MainBlock)
      ensures lastSavedBlock == disk.blockNumber && queue == [] && this.disk == disk
    {
      this.lastSavedBlock, this.queue, this.disk := disk.blockNumber, [], disk;
    }

    method Process(b: Numbered)
      modifies this`queue
      ensures queue == Offered(lastSavedBlock, old(queue), b)
    {
      if b.number.value > lastSavedBlock { queue := queue + [b]; }
    }

    /** Takes one block off the queue. A block that does not follow the last commit is dropped with an error,
        one committed before silently, and one that cannot be written with an exception. */
    method WorkOne(writeFails: bool) returns (v: Verdict)
      requires queue != []
      modifies this
      ensures queue == old(queue)[1..] && v == Judge(old(disk), old(queue)[0], writeFails)
      ensures disk == if v.Committed? then v.main else old(disk)
      ensures var b, newer, follows := old(queue)[0], old(queue)[0].number.value > old(disk).blockNumber,
          old(disk).blockHash in {"", old(queue)[0].prevHash};
        && (v.Skipped? <==> !newer) && (v.Refused? <==> newer && !follows)
        && (v.Lost? <==> newer && follows && writeFails)
        && (v.Committed? ==> disk == MainBlock(b.number.value, b.hash))
    {
      var b := queue[0];
      queue := queue[1..];
      var prevHash := disk.blockHash;
      if b.number.value <= disk.blockNumber { return Skipped; }
      if !(prevHash == "" || prevHash == b.prevHash) { return Refused; }
      if writeFails { return Lost; }
      disk := MainBlock(b.number.value, b.hash);
      return Committed(disk);
    }
  }
}
