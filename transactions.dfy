/** Transactions (blockchain.py, class Transaction). */
module Transactions {

  /** The sender name of mining rewards; such transactions are exempt from
      the balance check and are never debited. */
  const System: string := "System"

  /** A transfer of `amount` from `sender` to `receiver`, stamped with the
      time it was created. A transaction is never changed after it is built,
      and its dictionary form carries exactly these four fields, so the value
      is its own record. Amounts are integers here (floating point in the
      original). */
  datatype Transaction = Transaction(sender: string, receiver: string, amount: int, timestamp: int)
  {
    /** Basic validation: a positive amount between two distinct, non-empty
        parties. The checks run in the source's order. */
    function IsValid(): (ok: bool)
      ensures ok <==> amount > 0 && sender != receiver && sender != "" && receiver != ""
    {
      if amount <= 0 then false
      else if sender == receiver then false
      else if sender == "" || receiver == "" then false
      else true
    }
  }

  /** `timestamp or time.time()`: a falsy timestamp (0 here, None in the
      original) is replaced by the current time `now`. */
  function Stamp(given: int, now: int): int
  {
    if given == 0 then now else given
  }

  /** A transaction rebuilt from its dictionary form, which passes the
      stored timestamp through `Stamp`. */
  function Revive(tx: Transaction, now: int): (r: Transaction)
    ensures r.sender == tx.sender && r.receiver == tx.receiver && r.amount == tx.amount
    ensures tx.timestamp != 0 ==> r == tx
  {
    Transaction(tx.sender, tx.receiver, tx.amount, Stamp(tx.timestamp, now))
  }

  /** Every transaction of `txs` rebuilt from its dictionary form: one for
      one and in order, each keeping its parties and amount, and each with a
      non-falsy timestamp coming back unchanged. */
  function ReviveAll(txs: seq<Transaction>, now: int): (r: seq<Transaction>)
    ensures |r| == |txs|
    ensures forall i :: 0 <= i < |txs| ==>
              r[i].sender == txs[i].sender && r[i].receiver == txs[i].receiver && r[i].amount == txs[i].amount
    ensures forall i :: 0 <= i < |txs| && txs[i].timestamp != 0 ==> r[i] == txs[i]
  {
    seq(|txs|, i requires 0 <= i < |txs| => Revive(txs[i], now))
  }

  /** The reward transaction a miner pays itself, sent by `System`. Mining
      never validates it: it passes is_valid exactly when the reward is
      positive and the miner's address is non-empty and not `System`. */
  function Reward(minerAddress: string, amount: int, now: int): (tx: Transaction)
    ensures tx.IsValid() <==> amount > 0 && minerAddress != System && minerAddress != ""
  {
    Transaction(System, minerAddress, amount, Stamp(0, now))
  }
}
