/** The longest-valid-chain rule of Node.resolve_conflicts and
    Node.sync_with_peers (blockchain.py), stated over what the loop looks at
    in each peer reply: the chain's length and whether it is valid. */
module Consensus {
  import opened Options

  /** What a peer's chain offers: its length and whether is_chain_valid holds. */
  datatype Offer = Offer(length: nat, valid: bool)

  /** Reply `j` could replace a local chain of length `local`: it arrived,
      is valid and is strictly longer. */
  predicate Eligible(offers: seq<Option<Offer>>, local: nat, j: int)
  {
    0 <= j < |offers| && offers[j].Some? && offers[j].value.valid && offers[j].value.length > local
  }

  /** Reply `w` is the one to adopt: eligible, at least as long as every
      eligible reply, and strictly longer than every eligible reply before it. */
  predicate IsWinner(offers: seq<Option<Offer>>, local: nat, w: int)
  {
    && Eligible(offers, local, w)
    && (forall j :: 0 <= j < |offers| && Eligible(offers, local, j) ==> offers[j].value.length <= offers[w].value.length)
    && (forall j :: 0 <= j < w && Eligible(offers, local, j) ==> offers[j].value.length < offers[w].value.length)
  }

  /** The running maximum of the loop: the chosen reply's length, or the
      local length while nothing is chosen. */
  function Bar(offers: seq<Option<Offer>>, local: nat, chosen: Option<nat>): nat
  {
    if chosen.Some? && chosen.value < |offers| && offers[chosen.value].Some?
    then offers[chosen.value].value.length
    else local
  }

  /** The reply the loop ends up with, processing the replies in order and
      keeping a reply only when it is valid and beats the running maximum. */
  function Choose(offers: seq<Option<Offer>>, local: nat): (chosen: Option<nat>)
    ensures chosen.Some? ==> chosen.value < |offers| && offers[chosen.value].Some?
    decreases |offers|
  {
    if offers == [] then None
    else
      var n := |offers| - 1;
      var prev := Choose(offers[..n], local);
      if offers[n].Some? && offers[n].value.length > Bar(offers[..n], local, prev) && offers[n].value.valid
      then Some(n)
      else prev
  }

  /** The loop's choice is the rule's winner: some reply is chosen exactly
      when some reply is eligible, and the chosen one is the longest
      eligible reply, the earliest among equals. */
  lemma {:induction false} ChooseIsWinner(offers: seq<Option<Offer>>, local: nat)
    ensures Choose(offers, local).Some? <==> exists j :: Eligible(offers, local, j)
    ensures Choose(offers, local).Some? ==> IsWinner(offers, local, Choose(offers, local).value)
    decreases |offers|
  {
    if offers != [] {
      var n := |offers| - 1;
      var prefix := offers[..n];
      ChooseIsWinner(prefix, local);
      assert forall j :: 0 <= j < n ==> (Eligible(prefix, local, j) <==> Eligible(offers, local, j));
      var prev := Choose(prefix, local);
      if prev.Some? {
        assert Bar(prefix, local, prev) == Bar(offers, local, prev);
      }
      if offers[n].Some? && offers[n].value.length > Bar(prefix, local, prev) && offers[n].value.valid {
        assert Eligible(offers, local, n);
      }
    }
  }

  /** One more reply: the loop step. */
  lemma ChooseSnoc(offers: seq<Option<Offer>>, local: nat, i: nat, prev: Option<nat>)
    requires i < |offers| && prev == Choose(offers[..i], local)
    ensures prev.Some? ==> prev.value < i && offers[prev.value].Some?
    ensures Choose(offers[..i + 1], local)
            == if offers[i].Some? && offers[i].value.length > Bar(offers, local, prev) && offers[i].value.valid
               then Some(i) else prev
  {
    assert offers[..i + 1][..i] == offers[..i];
    ChooseIsWinner(offers[..i], local);
    if prev.Some? {
      assert Bar(offers[..i], local, prev) == Bar(offers, local, prev);
    }
  }

  /** At most one reply is the winner, so the rule is deterministic: ties
      at the greatest length go to the earliest reply. */
  lemma WinnerIsUnique(offers: seq<Option<Offer>>, local: nat, w1: int, w2: int)
    requires IsWinner(offers, local, w1) && IsWinner(offers, local, w2)
    ensures w1 == w2
  {
    assert offers[w1].value.length == offers[w2].value.length;
  }

  /** The chosen reply is strictly longer than the local chain, so an
      adoption never shortens it; with no eligible reply nothing is chosen. */
  lemma ChosenIsLonger(offers: seq<Option<Offer>>, local: nat)
    ensures match Choose(offers, local)
            case None => forall j :: 0 <= j < |offers| && offers[j].Some? && offers[j].value.valid ==> offers[j].value.length <= local
            case Some(w) => w < |offers| && offers[w].Some? && offers[w].value.valid && offers[w].value.length > local
  {
    ChooseIsWinner(offers, local);
    var chosen := Choose(offers, local);
    if chosen.None? {
      forall j | 0 <= j < |offers| && offers[j].Some? && offers[j].value.valid
        ensures offers[j].value.length <= local
      {
        assert !Eligible(offers, local, j);
      }
    }
  }
}
