/** The proof-of-work test of Block.mine_block (blockchain.py). */
module ProofOfWork {

  /** `"0" * difficulty`. */
  function Zeros(d: nat): (z: string)
    ensures |z| == d
    ensures forall i :: 0 <= i < d ==> z[i] == '0'
  {
    if d == 0 then "" else Zeros(d - 1) + "0"
  }

  /** The slice `h[:d]`, which is all of `h` when `h` is shorter than `d`. */
  function Prefix(h: string, d: nat): (p: string)
    ensures |p| == if d <= |h| then d else |h|
    ensures p <= h
  {
    if d <= |h| then h[..d] else h
  }

  /** The exit test of the mining loop: `h[:d] == "0" * d`. */
  predicate Meets(h: string, d: nat)
  {
    Prefix(h, d) == Zeros(d)
  }

  /** A hash meets difficulty `d` exactly when it has at least `d`
      characters and the first `d` of them are all '0'. */
  lemma MeetsIffLeadingZeros(h: string, d: nat)
    ensures Meets(h, d) <==> d <= |h| && forall i :: 0 <= i < d ==> h[i] == '0'
  {
    if d <= |h| && forall i :: 0 <= i < d ==> h[i] == '0' {
      assert Prefix(h, d) == Zeros(d);
    }
  }

  /** A hash that meets a difficulty meets every lower one. */
  lemma MeetsDownward(h: string, d: nat, e: nat)
    requires Meets(h, d) && e <= d
    ensures Meets(h, e)
  {
    MeetsIffLeadingZeros(h, d);
    MeetsIffLeadingZeros(h, e);
  }
}
