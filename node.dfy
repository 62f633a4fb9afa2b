/** A peer-to-peer node's chain operations (blockchain.py, class Node):
    accepting a block from a peer, and adopting the longest valid chain
    among the peers' replies. The HTTP requests are not modelled: each
    peer's reply is given as an `Option<Blockchain>`, in the order the
    peers are visited, with `None` for a request that raised or did not
    answer 200. */
module Nodes {
  import opened Options
  import opened Blocks
  import opened Chain
  import opened Consensus
  import opened Transactions
  import opened ProofOfWork

  /** The blockchains that arrived. */
  function Arrived(replies: seq<Option<Blockchain>>): set<Blockchain>
  {
    set i | 0 <= i < |replies| && replies[i].Some? :: replies[i].value
  }

  /** Every block of every chain that arrived. */
  ghost function ArrivedBlocks(replies: seq<Option<Blockchain>>): set<Block>
    reads Arrived(replies)
  {
    set i, b | 0 <= i < |replies| && replies[i].Some? && b in replies[i].value.chain :: b
  }

  /** What one reply offers to the consensus rule. */
  ghost function OfferOf(reply: Option<Blockchain>, H: Hasher): Option<Offer>
    reads if reply.Some? then {reply.value} else {}
    reads if reply.Some? then reply.value.chain else []
  {
    if reply.None? then None else Some(Offer(|reply.value.chain|, ChainValid(reply.value.chain, H)))
  }

  /** What every reply offers, in order. */
  ghost function Offers(replies: seq<Option<Blockchain>>, H: Hasher): seq<Option<Offer>>
    reads Arrived(replies), ArrivedBlocks(replies)
  {
    seq(|replies|, i reads Arrived(replies), ArrivedBlocks(replies) requires 0 <= i < |replies| =>
      assert replies[i].Some? ==> replies[i].value in Arrived(replies);
      assert replies[i].Some? ==> forall b :: b in replies[i].value.chain ==> b in ArrivedBlocks(replies);
      OfferOf(replies[i], H))
  }

  class Node {
    /** calculate_hash, fixed for the whole network. */
    const H: Hasher
    var blockchain: Blockchain
    var peers: set<string>

    /** The local chain is never empty, its balance cache is current and it
        passes is_chain_valid. */
    ghost predicate Valid()
      reads this, blockchain, blockchain.chain
    {
      blockchain.Valid() && |blockchain.chain| >= 1 && ChainValid(blockchain.chain, H)
    }

    constructor (now: int, H: Hasher)
      ensures Valid() && fresh(blockchain)
      ensures |blockchain.chain| == 1 && peers == {}
      ensures this.H == H
      ensures blockchain.chain[0].index == 0 && blockchain.chain[0].transactions == []
      ensures blockchain.chain[0].previousHash == "0" && blockchain.chain[0].timestamp == now
      ensures blockchain.difficulty == 2 && blockchain.miningReward == 10
      ensures blockchain.pendingTransactions == [] && blockchain.balances == map[]
    {
      this.H := H;
      blockchain := new Blockchain(now, H);
      peers := {};
    }

    /** Node.validate_and_add_block: a block from a peer is appended, and
        the balances replayed, exactly when its index is the chain length,
        it points at the latest block and its stored hash is the recomputed
        one; otherwise nothing changes. Proof of work is not checked. */
    method ValidateAndAddBlock(block: Block) returns (accepted: bool)
      requires Valid()
      modifies blockchain
      ensures Valid()
      ensures accepted <==> old(block.index == |blockchain.chain|
                                && block.previousHash == blockchain.GetLatestBlock().hash
                                && block.hash == block.CalculateHash(H))
      ensures blockchain.chain == if accepted then old(blockchain.chain) + [block] else old(blockchain.chain)
      ensures blockchain.pendingTransactions == old(blockchain.pendingTransactions)
      ensures blockchain.difficulty == old(blockchain.difficulty)
      ensures blockchain.miningReward == old(blockchain.miningReward)
    {
      if block.index != |blockchain.chain| {
        return false;
      }
      if block.previousHash != blockchain.GetLatestBlock().hash {
        return false;
      }
      if block.hash != block.CalculateHash(H) {
        return false;
      }
      ChainValidAppend(blockchain.chain, block, H);
      blockchain.chain := blockchain.chain + [block];
      blockchain.UpdateBalances();
      return true;
    }

    /** The /mine route's call into the ledger: mine the pending
        transactions into a new block paying `minerAddress`. The local chain
        still passes is_chain_valid afterwards. */
    method Mine(minerAddress: string, rewardTime: int, blockTime: int, ghost solution: int) returns (block: Block)
      requires Valid()
      requires var txs := blockchain.pendingTransactions + [Reward(minerAddress, blockchain.miningReward, rewardTime)];
               var lastHash := blockchain.GetLatestBlock().hash;
               var d := blockchain.difficulty;
               Meets(H(|blockchain.chain|, txs, lastHash, Stamp(0, blockTime), 0), d)
               || (solution > 0 && Meets(H(|blockchain.chain|, txs, lastHash, Stamp(0, blockTime), solution), d))
      modifies blockchain
      ensures Valid() && fresh(block)
      ensures blockchain.chain == old(blockchain.chain) + [block]
      ensures block.index == old(|blockchain.chain|) && block.previousHash == old(blockchain.GetLatestBlock().hash)
      ensures block.transactions == old(blockchain.pendingTransactions) + [Reward(minerAddress, old(blockchain.miningReward), rewardTime)]
      ensures block.timestamp == Stamp(0, blockTime)
      ensures Meets(block.hash, blockchain.difficulty) && FirstPassingNonce(block, H, blockchain.difficulty)
      ensures blockchain.pendingTransactions == []
      ensures blockchain.difficulty == old(blockchain.difficulty) && blockchain.miningReward == old(blockchain.miningReward)
      ensures peers == old(peers)
    {
      ghost var before := blockchain.chain;
      block := blockchain.MinePendingTransactions(minerAddress, rewardTime, blockTime, H, solution);
      ChainValidAppend(before, block, H);
    }

    /** The walk of resolve_conflicts: the reply that is valid and longer
        than the longest seen so far, starting from `local`. */
    method LongestValidReply(replies: seq<Option<Blockchain>>, local: nat)
      returns (longestChain: Option<Blockchain>, ghost chosen: Option<nat>)
      ensures chosen == Choose(old(Offers(replies, H)), local)
      ensures longestChain.Some? <==> chosen.Some?
      ensures chosen.Some? ==> longestChain.value == replies[chosen.value].value
      ensures longestChain.Some? ==> longestChain.value in Arrived(replies)
                                     && |longestChain.value.chain| > local
                                     && ChainValid(longestChain.value.chain, H)
    {
      ghost var offers := Offers(replies, H);
      chosen := None;
      longestChain := None;
      var maxLength := local;
      var i := 0;
      while i < |replies|
        invariant 0 <= i <= |replies|
        invariant chosen == Choose(offers[..i], local)
        invariant chosen.Some? ==> chosen.value < i && offers[chosen.value].Some?
        invariant longestChain.Some? <==> chosen.Some?
        invariant chosen.Some? ==> longestChain.value == replies[chosen.value].value
        invariant maxLength == Bar(offers, local, chosen)
        invariant longestChain.Some? ==> longestChain.value in Arrived(replies)
                                         && |longestChain.value.chain| == maxLength > local
                                         && ChainValid(longestChain.value.chain, H)
      {
        ChooseSnoc(offers, local, i, chosen);
        match replies[i] {
          case None =>
            assert offers[i] == None;
          case Some(peerBlockchain) =>
            assert offers[i] == Some(Offer(|peerBlockchain.chain|, ChainValid(peerBlockchain.chain, H)));
            if |peerBlockchain.chain| > maxLength {
              var valid := peerBlockchain.IsChainValid(H);
              if valid {
                assert peerBlockchain in Arrived(replies);
                maxLength := |peerBlockchain.chain|;
                longestChain := Some(peerBlockchain);
                chosen := Some(i);
              }
            }
        }
        i := i + 1;
      }
      assert offers[..i] == offers;
    }

    /** Node.resolve_conflicts: adopt the reply the walk keeps, if any.
        Returns whether the chain was replaced. */
    method ResolveConflicts(replies: seq<Option<Blockchain>>) returns (replaced: bool)
      requires Valid()
      requires |replies| == |peers|
      requires forall b :: b in Arrived(replies) ==> b.Valid()
      modifies this
      ensures Valid()
      ensures var chosen := Choose(old(Offers(replies, H)), old(|blockchain.chain|));
              && replaced == chosen.Some?
              && blockchain == if chosen.Some? then replies[chosen.value].value else old(blockchain)
      ensures peers == old(peers)
    {
      ghost var offers := Offers(replies, H);
      var longestChain: Option<Blockchain>;
      ghost var chosen: Option<nat>;
      longestChain, chosen := LongestValidReply(replies, |blockchain.chain|);
      if longestChain.Some? {
        blockchain := longestChain.value;
        return true;
      }
      return false;
    }

    /** The body of sync_with_peers' loop: adopt `peer` when its chain is
        longer than the local one and valid, and otherwise keep the local one. */
    method AdoptIfLonger(peer: Blockchain)
      requires Valid() && peer.Valid()
      modifies this`blockchain
      ensures Valid()
      ensures blockchain == if |peer.chain| > old(|blockchain.chain|) && ChainValid(peer.chain, H)
                            then peer else old(blockchain)
    {
      if |peer.chain| > |blockchain.chain| {
        var valid := peer.IsChainValid(H);
        if valid {
          blockchain := peer;
        }
      }
    }

    /** Node.sync_with_peers: the same walk, but each valid reply longer
        than the current chain is adopted on the spot. It ends on the reply
        resolve_conflicts would adopt, and never shortens the chain. */
    method SyncWithPeers(replies: seq<Option<Blockchain>>)
      requires Valid()
      requires |replies| == |peers|
      requires forall b :: b in Arrived(replies) ==> b.Valid()
      modifies this
      ensures Valid()
      ensures var chosen := Choose(old(Offers(replies, H)), old(|blockchain.chain|));
              blockchain == if chosen.Some? then replies[chosen.value].value else old(blockchain)
      ensures |blockchain.chain| >= old(|blockchain.chain|)
      ensures peers == old(peers)
    {
      ghost var offers := Offers(replies, H);
      ghost var local := |blockchain.chain|;
      ghost var chosen: Option<nat> := None;
      ghost var bar := local;
      var i := 0;
      while i < |replies|
        invariant 0 <= i <= |replies|
        modifies this`blockchain
        invariant Valid()
        invariant chosen == Choose(offers[..i], local)
        invariant chosen.Some? ==> chosen.value < i && offers[chosen.value].Some?
        invariant blockchain == if chosen.Some? then replies[chosen.value].value else old(blockchain)
        invariant bar == Bar(offers, local, chosen) >= local
        invariant |blockchain.chain| == bar
      {
        ChooseSnoc(offers, local, i, chosen);
        match replies[i] {
          case None =>
            assert offers[i] == None;
          case Some(peerBlockchain) =>
            assert offers[i] == Some(Offer(|peerBlockchain.chain|, ChainValid(peerBlockchain.chain, H)));
            assert peerBlockchain in Arrived(replies);
            ghost var adopted := |peerBlockchain.chain| > |blockchain.chain| && ChainValid(peerBlockchain.chain, H);
            AdoptIfLonger(peerBlockchain);
            if adopted {
              chosen := Some(i);
              bar := |peerBlockchain.chain|;
            }
        }
        i := i + 1;
      }
      assert offers[..i] == offers;
    }
  }
}
