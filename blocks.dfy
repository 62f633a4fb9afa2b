/** Blocks and chains of blocks (blockchain.py, class Block, and the
    link check of Blockchain.is_chain_valid). */
module Blocks {
  import opened Transactions
  import opened ProofOfWork

  /** Block.calculate_hash: the digest of (index, transactions,
      previous_hash, timestamp, nonce). The digest (SHA-256 over a canonical
      JSON text) is not modelled: every operation takes it as a parameter. */
  type Hasher = (int, seq<Transaction>, string, int, int) -> string

  /** The dictionary form of a block (Block.to_dict). */
  datatype BlockRecord = BlockRecord(
    index: int,
    transactions: seq<Transaction>,
    previousHash: string,
    timestamp: int,
    nonce: int,
    hash: string)

  /** A record as Block.from_dict reads it back: every falsy timestamp, of
      the block and of its transactions, becomes `now`. */
  function Restamp(rec: BlockRecord, now: int): (r: BlockRecord)
    ensures r.index == rec.index && r.previousHash == rec.previousHash
    ensures r.nonce == rec.nonce && r.hash == rec.hash
  {
    rec.(transactions := ReviveAll(rec.transactions, now), timestamp := Stamp(rec.timestamp, now))
  }

  /** A record none of whose timestamps is falsy is read back unchanged. */
  lemma RestampKeepsStamped(rec: BlockRecord, now: int)
    requires rec.timestamp != 0
    requires forall i :: 0 <= i < |rec.transactions| ==> rec.transactions[i].timestamp != 0
    ensures Restamp(rec, now) == rec
  {
    assert ReviveAll(rec.transactions, now) == rec.transactions;
  }

  class Block {
    const index: int
    const transactions: seq<Transaction>
    const previousHash: string
    const timestamp: int
    var nonce: int
    var hash: string

    /** Block(index, transactions, previous_hash, timestamp): nonce 0 and
        the hash of those contents. */
    constructor (index: int, transactions: seq<Transaction>, previousHash: string, givenTime: int, now: int, H: Hasher)
      ensures this.index == index && this.transactions == transactions && this.previousHash == previousHash
      ensures timestamp == Stamp(givenTime, now)
      ensures nonce == 0 && hash == CalculateHash(H)
    {
      this.index := index;
      this.transactions := transactions;
      this.previousHash := previousHash;
      this.timestamp := Stamp(givenTime, now);
      this.nonce := 0;
      new;
      this.hash := CalculateHash(H);
    }

    /** Block.from_dict: the contents come from the record and the stored
        nonce and hash are taken as they are, never recomputed. */
    constructor FromDict(rec: BlockRecord, now: int)
      ensures ToDict() == Restamp(rec, now)
      ensures nonce == rec.nonce && hash == rec.hash
    {
      index := rec.index;
      transactions := ReviveAll(rec.transactions, now);
      previousHash := rec.previousHash;
      timestamp := Stamp(rec.timestamp, now);
      nonce := rec.nonce;
      hash := rec.hash;
    }

    /** The hash these contents would have with nonce `n`. */
    function HashWith(H: Hasher, n: int): string
    {
      H(index, transactions, previousHash, timestamp, n)
    }

    function CalculateHash(H: Hasher): string
      reads this
    {
      HashWith(H, nonce)
    }

    function ToDict(): BlockRecord
      reads this
    {
      BlockRecord(index, transactions, previousHash, timestamp, nonce, hash)
    }

    /** Block.mine_block: bump the nonce and rehash until the hash starts
        with `difficulty` zeros. The search has no bound in the source; the
        requires says exactly that it ends: the current hash already meets
        the target, or some later nonce `solution` does. */
    method MineBlock(difficulty: nat, H: Hasher, ghost solution: int)
      requires Meets(hash, difficulty) || (solution > nonce && Meets(HashWith(H, solution), difficulty))
      modifies this
      ensures Meets(hash, difficulty)
      ensures old(nonce) <= nonce
      ensures nonce == old(nonce) ==> hash == old(hash)
      ensures nonce != old(nonce) ==> hash == CalculateHash(H) && !Meets(old(hash), difficulty)
      ensures old(hash == CalculateHash(H)) ==> hash == CalculateHash(H)
      ensures forall n :: old(nonce) < n < nonce ==> !Meets(HashWith(H, n), difficulty)
      ensures old(nonce == 0 && hash == CalculateHash(H)) ==> FirstPassingNonce(this, H, difficulty)
    {
      var target := Zeros(difficulty);
      while Prefix(hash, difficulty) != target
        invariant old(nonce) <= nonce
        invariant nonce == old(nonce) ==> hash == old(hash)
        invariant nonce != old(nonce) ==> hash == CalculateHash(H) && !Meets(old(hash), difficulty)
        invariant forall n :: old(nonce) < n < nonce ==> !Meets(HashWith(H, n), difficulty)
        invariant Meets(hash, difficulty) || (solution > nonce && Meets(HashWith(H, solution), difficulty))
        decreases solution - nonce
      {
        nonce := nonce + 1;
        hash := CalculateHash(H);
      }
    }
  }

  /** No nonce from 0 up to the block's own gives a hash that meets
      `difficulty`: the search that found the nonce started at 0 and stopped
      at the first passing one. */
  predicate FirstPassingNonce(b: Block, H: Hasher, difficulty: nat)
    reads b
  {
    forall n :: 0 <= n < b.nonce ==> !Meets(b.HashWith(H, n), difficulty)
  }

  /** The check is_chain_valid makes of block `b` against its predecessor:
      the stored hash is the recomputed one and it points at `prev`. */
  predicate Links(prev: Block, b: Block, H: Hasher)
    reads prev, b
  {
    b.hash == b.CalculateHash(H) && b.previousHash == prev.hash
  }

  /** Blockchain.is_chain_valid: every block after the first links to its
      predecessor. Neither proof of work, nor indices, nor the first block
      are checked. */
  predicate ChainValid(chain: seq<Block>, H: Hasher)
    reads chain
  {
    forall i :: 1 <= i < |chain| ==> Links(chain[i - 1], chain[i], H)
  }

  /** A chain of at most one block is always valid, whatever that block holds. */
  lemma ShortChainValid(chain: seq<Block>, H: Hasher)
    requires |chain| <= 1
    ensures ChainValid(chain, H)
  {
  }

  /** Appending keeps a chain valid exactly when the new block links to the
      last one; the old chain's validity is kept in any case. */
  lemma ChainValidAppend(chain: seq<Block>, b: Block, H: Hasher)
    requires |chain| >= 1
    ensures ChainValid(chain + [b], H) <==> ChainValid(chain, H) && Links(chain[|chain| - 1], b, H)
  {
    var c := chain + [b];
    if ChainValid(c, H) {
      forall i | 1 <= i < |chain| ensures Links(chain[i - 1], chain[i], H) {
        assert c[i - 1] == chain[i - 1] && c[i] == chain[i];
      }
      assert Links(c[|chain| - 1], c[|chain|], H);
    }
  }

  /** All transactions of a chain, block by block, in order. */
  function AllTransactions(chain: seq<Block>): seq<Transaction>
    decreases |chain|
  {
    if chain == [] then [] else AllTransactions(chain[..|chain| - 1]) + chain[|chain| - 1].transactions
  }

  lemma AllTransactionsSnoc(chain: seq<Block>, b: Block)
    ensures AllTransactions(chain + [b]) == AllTransactions(chain) + b.transactions
  {
    assert (chain + [b])[..|chain|] == chain;
  }

  /** The dictionary forms of a chain's blocks. */
  function Records(chain: seq<Block>): seq<BlockRecord>
    reads chain
  {
    seq(|chain|, i reads chain requires 0 <= i < |chain| => chain[i].ToDict())
  }
}
