/** Balances derived by replaying transactions in order
    (Blockchain.update_balances and Blockchain.get_balance, blockchain.py). */
module Ledger {
  import opened Transactions

  /** The `balances` dictionary: address to balance. */
  type Balances = map<string, int>

  /** `balances.get(address, 0)`. */
  function Get(m: Balances, address: string): int
  {
    if address in m then m[address] else 0
  }

  /** One step of the replay: debit the sender unless it is `System`, then
      credit the receiver, reading the already-debited map. */
  function Apply(m: Balances, tx: Transaction): Balances
  {
    var debited := if tx.sender != System then m[tx.sender := Get(m, tx.sender) - tx.amount] else m;
    debited[tx.receiver := Get(debited, tx.receiver) + tx.amount]
  }

  /** The balances after replaying `txs` in order from an empty map. */
  function Replay(txs: seq<Transaction>): Balances
    decreases |txs|
  {
    if txs == [] then map[] else Apply(Replay(txs[..|txs| - 1]), txs[|txs| - 1])
  }

  /** Total amount `address` receives in `txs`. */
  function Received(txs: seq<Transaction>, address: string): int
    decreases |txs|
  {
    if txs == [] then 0
    else
      var last := txs[|txs| - 1];
      Received(txs[..|txs| - 1], address) + (if last.receiver == address then last.amount else 0)
  }

  /** Total amount `address` is debited in `txs`: what it sends, unless it is `System`. */
  function Sent(txs: seq<Transaction>, address: string): int
    decreases |txs|
  {
    if txs == [] then 0
    else
      var last := txs[|txs| - 1];
      Sent(txs[..|txs| - 1], address) + (if last.sender == address && address != System then last.amount else 0)
  }

  /** Total amount created by `System`-sent transactions in `txs`. */
  function Minted(txs: seq<Transaction>): int
    decreases |txs|
  {
    if txs == [] then 0
    else
      var last := txs[|txs| - 1];
      Minted(txs[..|txs| - 1]) + (if last.sender == System then last.amount else 0)
  }

  /** The addresses that get an entry in the replayed map: every receiver
      and every sender other than `System`. */
  function Parties(txs: seq<Transaction>): set<string>
    decreases |txs|
  {
    if txs == [] then {}
    else
      var last := txs[|txs| - 1];
      Parties(txs[..|txs| - 1]) + {last.receiver} + (if last.sender != System then {last.sender} else {})
  }

  /** The sum of all balances in a map. */
  ghost function Total(m: Balances): int
    decreases |m|
  {
    if m == map[] then 0
    else
      var k :| k in m;
      m[k] + Total(m - {k})
  }

  /** The two dictionary updates of the replay loop's body are one `Apply`. */
  lemma ApplyInTwoSteps(m: Balances, tx: Transaction, result: Balances)
    requires var debited := if tx.sender != System then m[tx.sender := Get(m, tx.sender) - tx.amount] else m;
             result == debited[tx.receiver := Get(debited, tx.receiver) + tx.amount]
    ensures result == Apply(m, tx)
  {
  }

  /** Replaying one more transaction is one more `Apply`. */
  lemma ReplaySnoc(txs: seq<Transaction>, tx: Transaction)
    ensures Replay(txs + [tx]) == Apply(Replay(txs), tx)
  {
    assert (txs + [tx])[..|txs|] == txs;
  }

  /** The balance of every address is what it received minus what it was
      debited, over all transactions in order. */
  lemma {:induction false} ReplayIsNetFlow(txs: seq<Transaction>, address: string)
    ensures Get(Replay(txs), address) == Received(txs, address) - Sent(txs, address)
    decreases |txs|
  {
    if txs != [] {
      ReplayIsNetFlow(txs[..|txs| - 1], address);
    }
  }

  /** The replayed map has an entry for exactly the parties of `txs`. */
  lemma {:induction false} ReplayKeys(txs: seq<Transaction>)
    ensures Replay(txs).Keys == Parties(txs)
    decreases |txs|
  {
    if txs != [] {
      ReplayKeys(txs[..|txs| - 1]);
    }
  }

  /** An address that never sends nor receives has no entry, so its balance is 0. */
  lemma UnseenAddressIsZero(txs: seq<Transaction>, address: string)
    requires forall i :: 0 <= i < |txs| ==> txs[i].sender != address && txs[i].receiver != address
    ensures address !in Replay(txs)
    ensures Get(Replay(txs), address) == 0
  {
    ReplayKeys(txs);
    NotAParty(txs, address);
  }

  lemma {:induction false} NotAParty(txs: seq<Transaction>, address: string)
    requires forall i :: 0 <= i < |txs| ==> txs[i].sender != address && txs[i].receiver != address
    ensures address !in Parties(txs)
    decreases |txs|
  {
    if txs != [] {
      NotAParty(txs[..|txs| - 1], address);
    }
  }

  /** Removing any one key takes away exactly its value from the total. */
  lemma {:induction false} TotalRemove(m: Balances, k: string)
    requires k in m
    ensures Total(m) == m[k] + Total(m - {k})
    decreases |m|
  {
    var j :| j in m && Total(m) == m[j] + Total(m - {j});
    if j != k {
      assert (m - {j}) - {k} == (m - {k}) - {j};
      TotalRemove(m - {j}, k);
      TotalRemove(m - {k}, j);
    }
  }

  /** Setting a key to `v` changes the total by `v` minus its old balance. */
  lemma TotalUpdate(m: Balances, k: string, v: int)
    ensures Total(m[k := v]) == Total(m) - Get(m, k) + v
  {
    TotalRemove(m[k := v], k);
    assert m[k := v] - {k} == m - {k};
    if k in m {
      TotalRemove(m, k);
    } else {
      assert m - {k} == m;
    }
  }

  /** One step moves money between parties and adds only what `System` pays. */
  lemma ApplyTotal(m: Balances, tx: Transaction)
    ensures Total(Apply(m, tx)) == Total(m) + (if tx.sender == System then tx.amount else 0)
  {
    var debited := if tx.sender != System then m[tx.sender := Get(m, tx.sender) - tx.amount] else m;
    if tx.sender != System {
      TotalUpdate(m, tx.sender, Get(m, tx.sender) - tx.amount);
    }
    TotalUpdate(debited, tx.receiver, Get(debited, tx.receiver) + tx.amount);
  }

  /** The sum of all balances equals the total minted by `System`. */
  lemma {:induction false} ReplayConservesMinted(txs: seq<Transaction>)
    ensures Total(Replay(txs)) == Minted(txs)
    decreases |txs|
  {
    if txs != [] {
      ReplayConservesMinted(txs[..|txs| - 1]);
      ApplyTotal(Replay(txs[..|txs| - 1]), txs[|txs| - 1]);
    }
  }

  /** What one replay step does to a single address's balance. */
  lemma ApplyBalance(m: Balances, tx: Transaction, address: string)
    ensures Get(Apply(m, tx), address)
            == Get(m, address)
               - (if tx.sender == address && address != System then tx.amount else 0)
               + (if tx.receiver == address then tx.amount else 0)
  {
  }

  /** The balance check only reads mined balances, so two pending payments
      of a sender's whole balance are both accepted. A mined block holds the
      pool followed by the reward; once it is replayed the sender is
      overdrawn by that balance, unless the sender mined the block and the
      reward makes up for it. */
  lemma OverdraftOnceMined(txs: seq<Transaction>, first: Transaction, second: Transaction,
                           miner: string, reward: int, now: int)
    requires first.sender == second.sender && first.sender != System
    requires first.receiver != first.sender && second.receiver != second.sender
    requires first.amount == second.amount == Get(Replay(txs), first.sender)
    ensures Get(Replay(txs + [first, second, Reward(miner, reward, now)]), first.sender)
            == -first.amount + (if miner == first.sender then reward else 0)
  {
    var a := first.sender;
    var rewardTx := Reward(miner, reward, now);
    var once := txs + [first];
    var twice := once + [second];
    var mined := twice + [rewardTx];
    ReplaySnoc(txs, first);
    ApplyBalance(Replay(txs), first, a);
    ReplaySnoc(once, second);
    ApplyBalance(Replay(once), second, a);
    ReplaySnoc(twice, rewardTx);
    ApplyBalance(Replay(twice), rewardTx, a);
    assert mined == txs + [first, second, rewardTx];
  }
}
