/** The ledger of one node (blockchain.py, class Blockchain). */
module Chain {
  import opened Transactions
  import opened ProofOfWork
  import opened Ledger
  import opened Blocks

  /** The dictionary form of a blockchain (Blockchain.to_dict); the cached
      balances are not part of it. */
  datatype ChainRecord = ChainRecord(
    chain: seq<BlockRecord>,
    difficulty: nat,
    pendingTransactions: seq<Transaction>,
    miningReward: int)

  /** A record as Blockchain.from_dict reads it back (see `Restamp`). */
  function RestampChain(rec: ChainRecord, now: int): ChainRecord
  {
    ChainRecord(
      seq(|rec.chain|, i requires 0 <= i < |rec.chain| => Restamp(rec.chain[i], now)),
      rec.difficulty,
      ReviveAll(rec.pendingTransactions, now),
      rec.miningReward)
  }

  /** A record none of whose timestamps is falsy is read back unchanged, so
      from_dict followed by to_dict gives back what to_dict produced. */
  lemma RestampChainKeepsStamped(rec: ChainRecord, now: int)
    requires forall i :: 0 <= i < |rec.chain| ==> rec.chain[i].timestamp != 0
    requires forall i, j :: 0 <= i < |rec.chain| && 0 <= j < |rec.chain[i].transactions|
               ==> rec.chain[i].transactions[j].timestamp != 0
    requires forall j :: 0 <= j < |rec.pendingTransactions| ==> rec.pendingTransactions[j].timestamp != 0
    ensures RestampChain(rec, now) == rec
  {
    var r := RestampChain(rec, now);
    forall i | 0 <= i < |rec.chain| ensures r.chain[i] == rec.chain[i] {
      RestampKeepsStamped(rec.chain[i], now);
    }
    assert r.chain == rec.chain;
    assert ReviveAll(rec.pendingTransactions, now) == rec.pendingTransactions;
  }

  class Blockchain {
    var chain: seq<Block>
    var difficulty: nat
    var pendingTransactions: seq<Transaction>
    var miningReward: int
    /** Cache of the balances replayed from the mined blocks. */
    var balances: map<string, int>

    /** The cache always holds the replay of every transaction in the chain;
        pending transactions are not in it. */
    ghost predicate Valid()
      reads this
    {
      balances == Replay(AllTransactions(chain))
    }

    /** Blockchain(): a genesis block, difficulty 2, reward 10, nothing
        pending, no balances. */
    constructor (now: int, H: Hasher)
      ensures Valid()
      ensures |chain| == 1 && fresh(chain[0])
      ensures chain[0].index == 0 && chain[0].transactions == [] && chain[0].previousHash == "0"
      ensures chain[0].timestamp == now && chain[0].nonce == 0 && chain[0].hash == chain[0].CalculateHash(H)
      ensures difficulty == 2 && miningReward == 10
      ensures pendingTransactions == [] && balances == map[]
    {
      var genesis := CreateGenesisBlock(now, H);
      chain := [genesis];
      difficulty := 2;
      pendingTransactions := [];
      miningReward := 10;
      balances := map[];
    }

    /** Blockchain.from_dict: the blocks, the pending transactions and the
        two settings come from the record, then the balances are replayed. */
    constructor FromDict(rec: ChainRecord, now: int)
      ensures Valid()
      ensures ToDict() == RestampChain(rec, now)
      ensures forall i :: 0 <= i < |chain| ==> fresh(chain[i])
    {
      var blocks: seq<Block> := [];
      var i := 0;
      while i < |rec.chain|
        invariant 0 <= i <= |rec.chain|
        invariant |blocks| == i
        invariant forall k :: 0 <= k < i ==> fresh(blocks[k]) && blocks[k].ToDict() == Restamp(rec.chain[k], now)
      {
        var b := new Block.FromDict(rec.chain[i], now);
        blocks := blocks + [b];
        i := i + 1;
      }
      chain := blocks;
      difficulty := rec.difficulty;
      pendingTransactions := ReviveAll(rec.pendingTransactions, now);
      miningReward := rec.miningReward;
      balances := map[];
      new;
      UpdateBalances();
    }

    /** Blockchain.create_genesis_block: index 0, no transactions and the
        previous hash "0". */
    static method CreateGenesisBlock(now: int, H: Hasher) returns (genesis: Block)
      ensures fresh(genesis)
      ensures genesis.index == 0 && genesis.transactions == [] && genesis.previousHash == "0"
      ensures genesis.timestamp == now && genesis.nonce == 0 && genesis.hash == genesis.CalculateHash(H)
    {
      genesis := new Block(0, [], "0", 0, now, H);
    }

    function GetLatestBlock(): Block
      reads this
      requires |chain| > 0
    {
      chain[|chain| - 1]
    }

    function ToDict(): ChainRecord
      reads this, chain
    {
      ChainRecord(Records(chain), difficulty, pendingTransactions, miningReward)
    }

    /** Blockchain.get_balance: the cached balance, 0 for an unknown
        address; it is what the address received minus what it was debited
        over the mined blocks. */
    function GetBalance(address: string): (balance: int)
      reads this
      requires Valid()
      ensures balance == Received(AllTransactions(chain), address) - Sent(AllTransactions(chain), address)
    {
      ReplayIsNetFlow(AllTransactions(chain), address);
      Get(balances, address)
    }

    /** Blockchain.add_transaction: an invalid transaction, or one whose
        non-`System` sender has a mined balance below the amount, leaves the
        pool as it is; otherwise exactly that transaction is appended. */
    method AddTransaction(tx: Transaction) returns (ok: bool, message: string)
      requires Valid()
      modifies this`pendingTransactions
      ensures Valid()
      ensures ok <==> tx.IsValid() && (tx.sender == System || GetBalance(tx.sender) >= tx.amount)
      ensures pendingTransactions == if ok then old(pendingTransactions) + [tx] else old(pendingTransactions)
      ensures message == if ok then "Transaction added successfully"
                         else if tx.IsValid() then "Insufficient balance"
                         else "Invalid transaction"
    {
      if tx.IsValid() {
        if tx.sender != System {
          var senderBalance := GetBalance(tx.sender);
          if senderBalance < tx.amount {
            return false, "Insufficient balance";
          }
        }
        pendingTransactions := pendingTransactions + [tx];
        return true, "Transaction added successfully";
      }
      return false, "Invalid transaction";
    }

    /** Blockchain.mine_pending_transactions: append the reward to the pool,
        build a block of the pool on top of the latest block, mine it, append
        it, replay the balances and empty the pool. `rewardTime` and
        `blockTime` are the clock readings of the two constructors; the
        requires says the nonce search ends (see Block.MineBlock). */
    method MinePendingTransactions(minerAddress: string, rewardTime: int, blockTime: int, H: Hasher, ghost solution: int)
      returns (block: Block)
      requires Valid() && |chain| > 0
      requires var txs := pendingTransactions + [Reward(minerAddress, miningReward, rewardTime)];
               var lastHash := GetLatestBlock().hash;
               Meets(H(|chain|, txs, lastHash, Stamp(0, blockTime), 0), difficulty)
               || (solution > 0 && Meets(H(|chain|, txs, lastHash, Stamp(0, blockTime), solution), difficulty))
      modifies this
      ensures Valid() && fresh(block)
      ensures chain == old(chain) + [block]
      ensures block.index == old(|chain|) && block.previousHash == old(GetLatestBlock().hash)
      ensures block.transactions == old(pendingTransactions) + [Reward(minerAddress, miningReward, rewardTime)]
      ensures block.timestamp == Stamp(0, blockTime)
      ensures block.hash == block.CalculateHash(H) && Meets(block.hash, difficulty)
      ensures FirstPassingNonce(block, H, difficulty)
      ensures pendingTransactions == []
      ensures difficulty == old(difficulty) && miningReward == old(miningReward)
      ensures Links(old(GetLatestBlock()), block, H)
    {
      var rewardTransaction := Reward(minerAddress, miningReward, rewardTime);
      pendingTransactions := pendingTransactions + [rewardTransaction];
      var latest := GetLatestBlock();
      block := new Block(|chain|, pendingTransactions, latest.hash, 0, blockTime, H);
      block.MineBlock(difficulty, H, solution);
      chain := chain + [block];
      UpdateBalances();
      pendingTransactions := [];
    }

    /** Blockchain.update_balances: rebuild the cache by replaying every
        transaction of every block in order. */
    method UpdateBalances()
      modifies this`balances
      ensures Valid()
    {
      var replay: map<string, int> := map[];
      ghost var replayed: seq<Transaction> := [];
      var i := 0;
      while i < |chain|
        invariant 0 <= i <= |chain|
        invariant replayed == AllTransactions(chain[..i])
        invariant replay == Replay(replayed)
      {
        var transactions := chain[i].transactions;
        ghost var base := replayed;
        var j := 0;
        while j < |transactions|
          invariant 0 <= j <= |transactions|
          invariant replayed == base + transactions[..j]
          invariant replay == Replay(replayed)
        {
          var tx := transactions[j];
          ghost var before := replay;
          if tx.sender != System {
            replay := replay[tx.sender := Get(replay, tx.sender) - tx.amount];
          }
          replay := replay[tx.receiver := Get(replay, tx.receiver) + tx.amount];
          ApplyInTwoSteps(before, tx, replay);
          ReplaySnoc(replayed, tx);
          PrefixSnoc(transactions, j);
          replayed := replayed + [tx];
          j := j + 1;
        }
        assert transactions[..j] == transactions;
        AllTransactionsPrefixSnoc(chain, i);
        assert replayed == AllTransactions(chain[..i + 1]);
        i := i + 1;
      }
      assert chain[..i] == chain;
      balances := replay;
    }

    /** Blockchain.is_chain_valid, the loop that stops at the first block
        whose hash or link is wrong. */
    method IsChainValid(H: Hasher) returns (ok: bool)
      ensures ok == ChainValid(chain, H)
    {
      var i := 1;
      while i < |chain|
        invariant 1 <= i && (i <= |chain| || i == 1)
        invariant forall k :: 1 <= k < i ==> Links(chain[k - 1], chain[k], H)
      {
        var currentBlock := chain[i];
        var previousBlock := chain[i - 1];
        if currentBlock.hash != currentBlock.CalculateHash(H) {
          return false;
        }
        if currentBlock.previousHash != previousBlock.hash {
          return false;
        }
        i := i + 1;
      }
      return true;
    }
  }

  lemma PrefixSnoc<T>(s: seq<T>, j: int)
    requires 0 <= j < |s|
    ensures s[..j + 1] == s[..j] + [s[j]]
  {
  }

  /** The transactions of one more block. */
  lemma AllTransactionsPrefixSnoc(chain: seq<Block>, i: int)
    requires 0 <= i < |chain|
    ensures AllTransactions(chain[..i + 1]) == AllTransactions(chain[..i]) + chain[i].transactions
  {
    assert chain[..i + 1] == chain[..i] + [chain[i]];
    AllTransactionsSnoc(chain[..i], chain[i]);
  }
}
