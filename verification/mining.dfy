/** The mining sequence a node runs: solve the puzzle on the tip's proof, credit
    the node with the reward, then mint a block linked to the tip. */
module Mining {
  import opened BlockTypes
  import opened Hashing
  import opened Puzzle
  import opened Chain
  import opened Blockchain

  /** The reward is a transfer from the pseudo-sender "0". */
  const RewardSender: string := "0"
  const RewardAmount: int := 1

  /** `bound` is a known answer to the tip's puzzle; it only bounds the search. */
  method Mine(c: Crypto, l: Ledger, nodeIdentifier: string, timestamp: real, ghost bound: nat)
    returns (r: Minted)
    requires |l.chain| > 0
    requires ValidProof(c, LastBlock(l).proof, bound)
    ensures r.ledger.chain == l.chain + [r.block]
    ensures r.block.index == |l.chain| + 1 && r.block.timestamp == timestamp
    ensures r.block.proof >= 0
    ensures r.block.transactions == l.pending + [Transaction(RewardSender, nodeIdentifier, RewardAmount)]
    ensures r.ledger.pending == [] && r.ledger.nodes == l.nodes
    ensures r.block.previousHash == Hash(c, LastBlock(l))
    ensures ValidProof(c, LastBlock(l).proof, r.block.proof)
    ensures forall q: nat :: q < r.block.proof ==> !ValidProof(c, LastBlock(l).proof, q)
    ensures IsValidChain(c, l.chain) ==> IsValidChain(c, r.ledger.chain)
    ensures WellIndexed(l.chain) ==> WellIndexed(r.ledger.chain)
  {
    var lastBlock := LastBlock(l);
    var proof := ProofOfWork(c, lastBlock.proof, bound);
    var submitted := NewTransaction(l, RewardSender, nodeIdentifier, RewardAmount);
    var previousHash := Hash(c, lastBlock);
    r := NewBlock(c, submitted.ledger, proof, Some(previousHash), timestamp);
    MintValidity(c, submitted.ledger, proof, Some(previousHash), timestamp);
  }
}
