/** Chain validity: every block must name the hash of its predecessor and carry a
    proof that answers the predecessor's proof. The first block is taken as given. */
module Chain {
  import opened BlockTypes
  import opened Hashing
  import opened Puzzle

  /** `cur` may directly follow `prev`. */
  predicate Linked(c: Crypto, prev: Block, cur: Block)
  {
    cur.previousHash == Hash(c, prev) && ValidProof(c, prev.proof, cur.proof)
  }

  predicate LinkedAt(c: Crypto, chain: seq<Block>, i: int)
    requires 1 <= i < |chain|
  {
    Linked(c, chain[i - 1], chain[i])
  }

  /** The reference definition: every adjacent pair is linked. */
  predicate IsValidChain(c: Crypto, chain: seq<Block>)
  {
    forall i :: 1 <= i < |chain| ==> LinkedAt(c, chain, i)
  }

  /** The walk over adjacent pairs from position `current` on, checking the hash
      link first and the proof second, and stopping at the first failure. */
  function Walk(c: Crypto, chain: seq<Block>, current: nat): (ok: bool)
    requires 1 <= current <= |chain|
    ensures ok <==> forall i :: current <= i < |chain| ==> LinkedAt(c, chain, i)
    decreases |chain| - current
  {
    if current == |chain| then true
    else
      var lastBlock := chain[current - 1];
      var block := chain[current];
      if block.previousHash != Hash(c, lastBlock) then
        assert !LinkedAt(c, chain, current);
        false
      else if !ValidProof(c, lastBlock.proof, block.proof) then
        assert !LinkedAt(c, chain, current);
        false
      else Walk(c, chain, current + 1)
  }

  /** Validity check of a candidate chain. The first block is read before the walk
      starts, so an empty chain is an error rather than an answer. */
  function ValidChain(c: Crypto, chain: seq<Block>): (r: Result<bool>)
    ensures r.Failure? <==> |chain| == 0
    ensures r.Success? ==> (r.value <==> IsValidChain(c, chain))
    ensures |chain| == 1 ==> r == Success(true)
  {
    if |chain| == 0 then Failure(EmptyChain) else Success(Walk(c, chain, 1))
  }

  /** Replacing a block that has a successor by one with a different hash breaks
      the successor's link, so the chain is no longer valid. */
  lemma TamperingBreaksChain(c: Crypto, chain: seq<Block>, i: nat, b: Block)
    requires IsValidChain(c, chain)
    requires i + 1 < |chain|
    requires Hash(c, b) != Hash(c, chain[i])
    ensures !IsValidChain(c, chain[i := b])
  {
    var tampered := chain[i := b];
    assert LinkedAt(c, chain, i + 1);
    assert !LinkedAt(c, tampered, i + 1);
  }

  /** Extending a chain by one block: the result is valid exactly when the old chain
      was and the new block is linked to the old last block. */
  lemma {:induction false} AppendValid(c: Crypto, chain: seq<Block>, b: Block)
    requires |chain| > 0
    ensures IsValidChain(c, chain + [b]) <==> IsValidChain(c, chain) && Linked(c, Last(chain), b)
  {
    var ext := chain + [b];
    if IsValidChain(c, ext) {
      forall i | 1 <= i < |chain|
        ensures LinkedAt(c, chain, i)
      {
        assert LinkedAt(c, ext, i);
      }
      assert LinkedAt(c, ext, |chain|);
    }
    if IsValidChain(c, chain) && Linked(c, Last(chain), b) {
      forall i | 1 <= i < |ext|
        ensures LinkedAt(c, ext, i)
      {
        if i < |chain| {
          assert LinkedAt(c, chain, i);
        }
      }
    }
  }
}
