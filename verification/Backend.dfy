/** The backend around the chain: each handler changes the chain and feeds the bridge. */
module Backend {
  import opened GoInts
  import opened EthTypes
  import opened ForkChoice
  import opened ChainStore
  import Relay = BdnRelay
  import opened EthChain

  class Handler {
    const chain: Chain
    // what has gone out on the bridge, oldest first
    var sentToBDN: seq<Hash>
    var confirmedToGateway: seq<Hash>

    function World(): Relay.World
      reads this, chain
    {
      Relay.World(chain.State(), sentToBDN, confirmedToGateway)
    }

    constructor (cfg: Config)
      ensures World() == Relay.START && chain.cfg == cfg
    {
      chain := new Chain(cfg);
      sentToBDN, confirmedToGateway := [], [];
    }

    /** A block from a peer; tooOld tells whether its timestamp is past the configured age. */
    method ProcessBlock(block: Block, tooOld: bool, difficulty: Option<nat>, accepted: set<Hash>, confirmOk: bool)
      modifies this, chain
      ensures var header := block.header;
              World() == if Validate(old(chain.State()), HashOf(header), header.number) == Acceptable && !tooOld
                         then Relay.Step(chain.cfg, old(World()), Relay.PeerBlock(block, difficulty, accepted, confirmOk))
                         else old(World())
    {
      var v := chain.ValidateBlock(HashOf(block.header), ToInt64(block.header.number));
      if v != Acceptable || tooOld {
        return;
      }
      var newHeadCount := chain.AddBlock(block, difficulty, Blockchain);
      SendConfirmedBlocksToBDN(newHeadCount, accepted, confirmOk);
    }

    method ConfirmBlock(hash: Hash, accepted: set<Hash>, confirmOk: bool)
      modifies this, chain
      ensures World() == Relay.Step(chain.cfg, old(World()), Relay.Confirmed(hash, accepted, confirmOk))
    {
      var newHeads := chain.ConfirmBlock(hash);
      SendConfirmedBlocksToBDN(newHeads, accepted, confirmOk);
    }

    method StoreBDNBlock(block: Block, difficulty: Option<nat>)
      modifies chain
      ensures World() == Relay.Step(chain.cfg, old(World()), Relay.BdnBlock(block, difficulty))
    {
      var hash := HashOf(block.header);
      var hasBlock := chain.HasBlock(hash);
      if hasBlock {
        return;
      }
      var _ := chain.AddBlock(block, difficulty, BDN);
    }

    method CleanBlockStorage()
      modifies chain
      ensures World() == Relay.Step(chain.cfg, old(World()), Relay.Tick)
    {
      chain.Clean(chain.cfg.maxSize);
    }

    method SendConfirmedBlocksToBDN(count: nat, accepted: set<Hash>, confirmOk: bool)
      modifies this, chain
      ensures World() == Relay.SendConfirmed(chain.cfg, old(World()), count, accepted, confirmOk)
    {
      SendHeads(count, accepted);
      AnnounceDeepBlock(confirmOk);
    }

    /** The reverse loop: the new heads go out in ascending order, each marked once it is accepted. */
    method SendHeads(count: nat, accepted: set<Hash>)
      modifies this`sentToBDN, chain`blockHashToMetadata
      ensures World() == Relay.SendHeads(old(World()), count, accepted)
    {
      var newHeads, _ := chain.GetNewHeadsForBDN(count);
      ghost var hashes := Relay.HashesOf(newHeads);
      ghost var all := Relay.Deliver(chain.blockHashToMetadata, hashes, accepted);
      var i := |newHeads| - 1;
      assert hashes[..i + 1] == hashes;
      assert sentToBDN + all.1 == sentToBDN + all.1;
      while i >= 0
        invariant -1 <= i < |newHeads|
        invariant all.0 == Relay.Deliver(chain.blockHashToMetadata, hashes[..i + 1], accepted).0
        invariant old(sentToBDN) + all.1 == sentToBDN + Relay.Deliver(chain.blockHashToMetadata, hashes[..i + 1], accepted).1
        invariant chain.State() == old(chain.State()).(metadata := chain.blockHashToMetadata)
      {
        var hash := HashOf(newHeads[i].header);
        assert hashes[..i + 1][..i] == hashes[..i] && hashes[..i + 1][i] == hash;
        if hash in accepted {
          chain.MarkSentToBDN(hash);
          sentToBDN := sentToBDN + [hash];
        }
        i := i - 1;
      }
    }

    method AnnounceDeepBlock(confirmOk: bool)
      modifies this`confirmedToGateway, chain`blockHashToMetadata
      ensures World() == Relay.AnnounceDeep(old(World()), chain.cfg.confirmations, confirmOk)
    {
      var b := chain.BlockAtDepth(chain.cfg.confirmations);
      if !b.DepthBlock? {
        return;
      }
      var hash := HashOf(b.header);
      if hash !in chain.blockHashToMetadata || chain.blockHashToMetadata[hash].confirmedMsgSent || !confirmOk {
        return;
      }
      var metadata := chain.blockHashToMetadata[hash];
      confirmedToGateway := confirmedToGateway + [hash];
      chain.StoreBlockMetadata(hash, metadata.height, metadata.confirmed, true);
    }
  }
}
