/** The source of new blocks: a window of blocks fetched ahead, handed out in order of their numbers. */
module BlockFeed {
  import opened Wrappers
  import opened ChainNumbering
  import Lz4Format

  const COUNT_ADVANCED_BLOCKS: nat := 8

  /** A block as it comes from the network: its header's links, the hashes its signature transactions carry,
      and its dump. */
  datatype Block = Block(hash: Hash, prevHash: Hash, signs: seq<Hash>, dump: Lz4Format.Bytes)

  function HeaderOf(b: Block): Header {
    Header(b.hash, b.prevHash, None)
  }

  /** What the servers answer when asked for block n during call i; None stands for every failure from the
      request to the parsing of the dump. */
  type Net = (nat, nat) -> Option<Block>

  /** b was given as block n at some time. */
  ghost predicate Answered(net: Net, n: nat, b: Block) {
    exists i: nat :: net(i, n) == Some(b)
  }

  /** Fetching block n failed at some time. */
  ghost predicate Failed(net: Net, n: nat) {
    exists i: nat :: net(i, n).None?
  }

  datatype LastBlock = LastBlock(lastBlock: nat, countServers: nat)

  class NetworkBlockSource {
    var nextBlockToRead: nat
    var lastBlockInBlockchain: nat
    var countServers: nat
    var advancedBlocks: map<nat, Option<Block>> // None: fetching it threw

    /** What is held ahead, block or exception, is what fetching that number gave. */
    ghost predicate Holding(net: Net)
      reads this
    {
      forall n :: n in advancedBlocks ==>
        if advancedBlocks[n].Some? then Answered(net, n, advancedBlocks[n].value) else Failed(net, n)
    }

    constructor ()
      ensures nextBlockToRead == 0 && lastBlockInBlockchain == 0 && advancedBlocks == map[]
    {
      nextBlockToRead, lastBlockInBlockchain, countServers, advancedBlocks := 0, 0, 0, map[];
    }

    /** Starts a round after the last block of the chain. */
    method DoProcess(countBlocks: nat, response: Option<LastBlock>) returns (r: Outcome<(bool, nat)>)
      modifies this
      ensures nextBlockToRead == countBlocks + 1
      ensures r.Thrown? <==> response.None?
      ensures r.Done? ==> r.value == (countBlocks < response.value.lastBlock, response.value.lastBlock)
      ensures r.Done? ==> lastBlockInBlockchain == response.value.lastBlock && advancedBlocks == map[]
      ensures r.Done? ==> countServers == response.value.countServers
    {
      nextBlockToRead := countBlocks + 1;
      if response.None? { return Thrown; }
      lastBlockInBlockchain := response.value.lastBlock;
      countServers := response.value.countServers;
      advancedBlocks := map[];
      return Done((lastBlockInBlockchain >= nextBlockToRead, lastBlockInBlockchain));
    }

    /** Hands out the next block, fetching up to eight ahead when it is not held. Nothing is handed out past
        the last block, and a failure leaves the position where it was. */
    method Process(net: Net, call: nat) returns (r: Outcome<Option<Block>>)
      requires Holding(net)
      modifies this
      ensures Holding(net)
      ensures lastBlockInBlockchain == old(lastBlockInBlockchain) && countServers == old(countServers)
      ensures r == Done(None) <==> old(nextBlockToRead) > lastBlockInBlockchain
      ensures r.Done? && r.value.Some? ==> Answered(net, old(nextBlockToRead), r.value.value)
      ensures r.Thrown? ==> countServers == 0 || Failed(net, old(nextBlockToRead))
      ensures nextBlockToRead == old(nextBlockToRead) + if r.Done? && r.value.Some? then 1 else 0
      ensures old(nextBlockToRead) <= lastBlockInBlockchain && old(nextBlockToRead) in old(advancedBlocks) ==>
        advancedBlocks == old(advancedBlocks)
        && r == Opened(advancedBlocks[old(nextBlockToRead)])
      ensures old(nextBlockToRead) <= lastBlockInBlockchain && old(nextBlockToRead) !in old(advancedBlocks) ==>
        if countServers == 0 then r == Thrown && advancedBlocks == map[]
        else
          && r == Opened(net(call, old(nextBlockToRead)))
          && advancedBlocks == map n | old(nextBlockToRead) <= n
                                       < old(nextBlockToRead) + 8 && n <= lastBlockInBlockchain
                                 :: net(call, n)
    {
      if lastBlockInBlockchain < nextBlockToRead { return Done(None); }
      if nextBlockToRead !in advancedBlocks {
        advancedBlocks := map[];
        if countServers == 0 { return Thrown; }
        var countAdvanced := lastBlockInBlockchain - nextBlockToRead + 1;
        if COUNT_ADVANCED_BLOCKS < countAdvanced { countAdvanced := COUNT_ADVANCED_BLOCKS; }
        for i := 0 to countAdvanced
          invariant nextBlockToRead == old(nextBlockToRead)
          invariant countServers == old(countServers) && lastBlockInBlockchain == old(lastBlockInBlockchain)
          invariant advancedBlocks == map n | nextBlockToRead <= n < nextBlockToRead + i :: net(call, n)
        {
          var currBlock := nextBlockToRead + i;
          advancedBlocks := advancedBlocks[currBlock := net(call, currBlock)];
        }
      }
      r := Opened(advancedBlocks[nextBlockToRead]);
      if r.Done? { nextBlockToRead := nextBlockToRead + 1; }
    }
  }

  /** A block held ahead, or the exception kept in its place. */
  function Opened(advanced: Option<Block>): Outcome<Option<Block>> {
    if advanced.Some? then Done(advanced) else Thrown
  }
}
