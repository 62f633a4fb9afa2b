# A verified model of a proof-of-work ledger node

This project models the ledger logic of `blockchain.py`, a small
peer-to-peer proof-of-work blockchain node, and proves properties of that
model in Dafny. It covers:

- transactions and their validation;
- blocks, their dictionary form and the proof-of-work nonce search;
- the `Blockchain` object: the pending pool, mining, the balance cache and
  the chain check;
- the node's chain operations: accepting a block from a peer, and the
  longest-valid-chain rule of `resolve_conflicts` and `sync_with_peers`.

Modules, one per file:

| file | module | models |
|---|---|---|
| `options.dfy` | `Options` | an `Option` type |
| `transactions.dfy` | `Transactions` | `Transaction`, `is_valid`, the `timestamp or time.time()` fallback, the reward transaction |
| `proof_of_work.dfy` | `ProofOfWork` | the target `"0" * difficulty` and the test `hash[:difficulty] == target` |
| `blocks.dfy` | `Blocks` | class `Block` (constructor, `calculate_hash`, `mine_block`, `to_dict`, `from_dict`); the link check of `is_chain_valid` |
| `ledger.dfy` | `Ledger` | the balance replay of `update_balances` as a function, with its accounting lemmas |
| `blockchain.dfy` | `Chain` | class `Blockchain` with the fields `chain`, `difficulty`, `pendingTransactions`, `miningReward` and `balances`, and its methods |
| `consensus.dfy` | `Consensus` | the selection rule of the consensus loop, over what it looks at in each reply (length and validity) |
| `node.dfy` | `Nodes` | class `Node`: `validate_and_add_block`, the `/mine` call, `resolve_conflicts`, `sync_with_peers` |

Modelling choices:

- **The hash.** `calculate_hash` is SHA-256 over a canonical JSON text. Here it is a parameter
  `H: Hasher`, a total function of (index, transactions, previous hash,
  timestamp, nonce) that returns a string. Nothing is assumed about it.
- **Blocks.** A `Block` is a class: `mine_block` and `from_dict` overwrite its `nonce` and `hash`.
  Its other four fields are `const`. A transaction is never changed after it is
  built, so it is a datatype, and its dictionary form is the value itself.
- **The balance cache.** `Blockchain` keeps the cache `balances`, and `Blockchain.Valid()` states
  that it always equals `Replay` of every transaction in the chain, in order.
  `Node.Valid()` adds that the chain is non-empty and passes
  `is_chain_valid`.
- **Peer replies.** Each reply is an `Option<Blockchain>`: `None` means the request
  raised or did not answer 200, and `Some` is the object that
  `Blockchain.from_dict` built. Replies come in the order the peers are
  visited. Each arrived object is assumed to have a current balance cache,
  which `FromDict` guarantees.
- **The consensus rule.** `resolve_conflicts` and `sync_with_peers` are proved against
  `Consensus.Choose`. `Consensus.ChooseIsWinner` proves that this choice is the longest
  valid reply strictly longer than the local chain, and the earliest among equals.
- **Timestamps.** A missing or zero timestamp is `0`, and the clock reading that
  replaces it is a parameter `now`.

Where a reader might expect otherwise, the model follows the code:

- `is_chain_valid` checks only that each block after the first carries its
  recomputed hash and points at its predecessor. It checks neither proof of work,
  nor indices, nor the genesis block (`Blocks.ChainValid`, `Blocks.ShortChainValid`).
- `validate_and_add_block` checks the index, the link and the stored hash. It does not
  check proof of work or the block's transactions.
- The reward sender is the literal `"System"`, and it is exempt from the balance check.
  `add_transaction` also checks that both parties are non-empty and distinct.
- The balance check reads only mined balances and ignores the pending
  pool. So two pending payments of a sender's whole balance are both accepted,
  and once the block holding them is mined the sender is overdrawn by that
  balance, unless the sender mined the block and its reward makes up for it
  (`Ledger.OverdraftOnceMined`).
- Ties between equally long valid replies go to the first one in visiting
  order. That order is the iteration order of a set of URLs, not the order
  in which peers registered.
- Adopting a peer's chain replaces the node's whole `Blockchain` object. The
  node takes the peer's pending pool, difficulty and reward along with its
  chain, and the local pending transactions are lost. Nothing merges or prunes
  the two pools.
- A block is built and mined on the node's own chain, with no snapshot and
  no retry.

## Model

| member | source | states |
|---|---|---|
| Transactions.Transaction.IsValid | blockchain.py:38-46 | valid exactly when the amount is positive, sender and receiver differ, and neither is empty |
| Transactions.Revive | blockchain.py:24-28 | a transaction rebuilt from its dictionary keeps its parties and amount; a non-falsy timestamp makes it identical to the original |
| Transactions.ReviveAll | blockchain.py:96-97 | the transactions of a record are rebuilt one for one and in order, each keeping its parties and amount; each one with a non-falsy timestamp comes back unchanged |
| Transactions.Reward | blockchain.py:134 | the reward, which mining never validates, passes `is_valid` exactly when the reward is positive and the miner's address is non-empty and not `System` |
| ProofOfWork.Zeros | blockchain.py:70 | the target has exactly `difficulty` characters, all '0' |
| ProofOfWork.Prefix | blockchain.py:73 | the slice `h[:d]` is a prefix of `h` of length `min(d, len(h))` |
| ProofOfWork.MeetsIffLeadingZeros | blockchain.py:70-73 | a hash passes the mining test exactly when it has at least `difficulty` characters and the first `difficulty` are '0' |
| ProofOfWork.MeetsDownward | blockchain.py:70-73 | a hash that passes for one difficulty passes for every lower one |
| Blocks.Restamp | blockchain.py:94-101 | reading a block record back keeps its index, previous hash, nonce and hash |
| Blocks.RestampKeepsStamped | blockchain.py:84-101 | a record with no falsy timestamp is read back unchanged, so `to_dict` after `from_dict` returns the record |
| Blocks.Block.constructor | blockchain.py:49-55 | a new block keeps its index, transactions and previous hash, stamps the given or current time, starts at nonce 0 with the hash of its contents |
| Blocks.Block.FromDict | blockchain.py:94-101 | the rebuilt block's dictionary is the restamped record; nonce and hash are the stored ones, not recomputed |
| Blocks.Block.MineBlock | blockchain.py:68-80 | afterwards the hash passes the proof-of-work test; the nonce never decreases; the hash is the block's own whenever the loop ran or it already was; every skipped nonce fails the test; a hash that already passes is kept; a search started at nonce 0 with the block's own hash ends on the first passing nonce |
| Blocks.ShortChainValid | blockchain.py:175-189 | a chain of zero or one block is always valid, whatever that block holds |
| Blocks.ChainValidAppend | blockchain.py:175-189 | appending keeps a chain valid exactly when the old chain was valid and the new block links to the last one |
| Chain.RestampChainKeepsStamped | blockchain.py:191-210 | a chain record with no falsy timestamp is read back unchanged |
| Chain.Blockchain.constructor | blockchain.py:104-109 | a new ledger holds only the genesis block, difficulty 2, reward 10, an empty pool and empty balances |
| Chain.Blockchain.FromDict | blockchain.py:199-210 | the rebuilt ledger's dictionary is the restamped record, its blocks are new, and its balances are the replay of its chain |
| Chain.Blockchain.CreateGenesisBlock | blockchain.py:111-113 | the genesis block has index 0, no transactions, previous hash "0", nonce 0 and the hash of its contents |
| Chain.Blockchain.GetBalance | blockchain.py:171-173 | the balance is what the address received minus what it was debited over the mined blocks |
| Chain.Blockchain.AddTransaction | blockchain.py:118-129 | accepted exactly when the transaction is valid and its sender is `System` or has a mined balance of at least the amount; accepted appends exactly it to the pool, rejected leaves the pool unchanged; the balance cache stays current; the three messages |
| Chain.Blockchain.MinePendingTransactions | blockchain.py:131-156 | the chain grows by one new block with index the old length, the old latest hash, the old pool followed by the reward, a passing proof of work and its own hash; its nonce is the first passing one counting from 0; the pool is emptied and the balances replayed |
| Chain.Blockchain.UpdateBalances | blockchain.py:158-169 | the nested loops leave the cache equal to the replay of every transaction of every block in order |
| Chain.Blockchain.IsChainValid | blockchain.py:175-189 | the loop returns true exactly when every block after the first carries its recomputed hash and points at its predecessor |
| Ledger.ApplyInTwoSteps | blockchain.py:164-169 | the debit then the credit of the loop body are one replay step, with the credit reading the debited map |
| Ledger.ReplayIsNetFlow | blockchain.py:158-173 | every replayed balance is the total received minus the total sent by a sender other than `System` |
| Ledger.ReplayKeys | blockchain.py:158-169 | the replayed map has an entry for exactly the receivers and the non-`System` senders |
| Ledger.UnseenAddressIsZero | blockchain.py:171-173 | an address that never sends nor receives has no entry and balance 0 |
| Ledger.ApplyTotal | blockchain.py:164-169 | one replay step moves money between parties and adds only what `System` pays |
| Ledger.ReplayConservesMinted | blockchain.py:158-169 | the sum of all balances equals the total paid by `System` |
| Ledger.OverdraftOnceMined | blockchain.py:118-140 | two pending payments of a sender's whole mined balance, once mined in a block that ends with the reward, leave the sender at minus that balance, plus the reward when the sender mined the block |
| Consensus.Choose | blockchain.py:399-413 | the loop's choice, when there is one, is a reply that arrived |
| Consensus.ChooseIsWinner | blockchain.py:397-419 | some reply is chosen exactly when some arrived reply is valid and longer than the local chain; the chosen one is such a reply, at least as long as every other and strictly longer than every earlier one |
| Consensus.ChooseSnoc | blockchain.py:402-411 | one loop step: a reply is kept exactly when it arrived, beats the running maximum and is valid |
| Consensus.WinnerIsUnique | blockchain.py:408-411 | at most one reply satisfies the rule, so ties go to the earliest reply |
| Consensus.ChosenIsLonger | blockchain.py:408-417 | the chosen reply is valid and strictly longer than the local chain; with no choice every valid reply is no longer |
| Nodes.Node.constructor | blockchain.py:213-216 | a new node holds a fresh ledger whose only block is the genesis block (index 0, no transactions, previous hash "0"), with difficulty 2, reward 10, an empty pool, empty balances and no peers |
| Nodes.Node.ValidateAndAddBlock | blockchain.py:363-379 | accepted exactly when the index is the chain length, the block points at the latest block and its stored hash is recomputed; accepted appends exactly the block, rejected changes nothing; the chain stays valid |
| Nodes.Node.Mine | blockchain.py:234-237 | mining appends one new block, which holds the old pool followed by the reward, has the next index, links to the old latest block, passes the proof-of-work test on the first passing nonce; the pool is emptied, difficulty, reward and peers are kept, and the local chain still passes `is_chain_valid` |
| Nodes.Node.LongestValidReply | blockchain.py:399-413 | the loop ends holding the reply `Choose` picks, which arrived, is valid and is longer than the local chain |
| Nodes.Node.ResolveConflicts | blockchain.py:397-419 | returns true exactly when a reply is chosen; the node then holds that reply's blockchain, and otherwise its own; the node stays valid |
| Nodes.Node.AdoptIfLonger | blockchain.py:389-392 | the local blockchain is replaced by the peer's exactly when the peer's chain is longer and valid; the node stays valid |
| Nodes.Node.SyncWithPeers | blockchain.py:381-396 | ends holding the reply `Choose` picks, or its own blockchain; the chain never gets shorter; the node stays valid |

## Left out

- Flask routes, the HTML template and the `/status` out-of-sync probe (blockchain.py:221-340, 439 onwards) are left out. They are HTTP and UI plumbing.
- `broadcast_block`, `broadcast_transaction` and `register_with_peer` are left out. They are network I/O.
- The `requests` calls and `Blockchain.from_dict` of each reply in the consensus loops are outside the model. Each reply is given as an already-built blockchain or `None`.
- `argparse`/`main`, logging, `Node.port`, `Node.node_id` and the Flask app object are left out. They are process plumbing.
- The mining timing is left out. Clock readings are parameters (`now`, `rewardTime`, `blockTime`).
- SHA-256 and canonical JSON are left out. The hash is the parameter `H`, so no property of the digest (collision resistance, fixed length) is used.
- Amounts are integers, not Python floats. Rounding is not modelled.
- The difficulty is a natural number. A negative difficulty in a peer's record is not modelled.
- One clock reading `now` serves a whole `from_dict` call, where the original may read the clock once per missing timestamp.
- A timestamp of `None` and a timestamp of 0 are both the falsy value 0.
- `mine_pending_transactions` puts the pool's list object into the block and then rebinds the pool. The model copies the sequence. In a sequential run nothing can observe the difference, because the pool is emptied right after.
- Concurrency is not modelled. `app.run` (blockchain.py:436) serves requests on threads, and the model runs every operation to completion, one at a time.
- The aliasing of the pool into the block under concurrent requests is not modelled. A transaction accepted during the nonce search (blockchain.py:73-75) is appended to the same list the block holds. The block then carries transactions after the reward, and one appended after the final hash leaves the block's stored hash different from its recomputed hash.
- Blocks.Block.MineBlock: the nonce search has no bound in the source. The model requires that it ends: the current hash already passes, or a later nonce `solution` does. It does not model a search that never ends.
- Chain.Blockchain.MinePendingTransactions: it states that the new block links to the old latest block. It does not restate that the whole chain stays valid; `Nodes.Node.Mine` proves that.
