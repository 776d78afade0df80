/** The ledger's own operations: construction with the genesis block, minting a
    block from the pending pool, submitting a transaction and registering a peer. */
module Blockchain {
  import opened BlockTypes
  import opened Hashing
  import opened Puzzle
  import opened Chain

  const GenesisProof: int := 100
  const GenesisPreviousHash: string := "1"

  /** Python truthiness of the optional `previous_hash` argument: absent and empty
      both count as "not supplied". */
  predicate IsTruthy(previousHash: Option<string>)
  {
    previousHash.Some? && previousHash.value != ""
  }

  /** Blocks carry their 1-based position as index. */
  predicate WellIndexed(chain: seq<Block>)
  {
    forall i :: 0 <= i < |chain| ==> chain[i].index == i + 1
  }

  datatype Minted = Minted(ledger: Ledger, block: Block)

  datatype Submitted = Submitted(ledger: Ledger, nextIndex: int)

  /** Builds a block from the pending pool, clears the pool and appends the block.
      Without a truthy `previousHash` the hash of the current last block is used,
      so that case needs a non-empty chain. The proof is not checked here. */
  function NewBlock(c: Crypto, l: Ledger, proof: int, previousHash: Option<string>, timestamp: real): (r: Minted)
    requires |l.chain| > 0 || IsTruthy(previousHash)
    ensures r.ledger.chain == l.chain + [r.block]
    ensures r.block.index == |l.chain| + 1
    ensures r.block.transactions == l.pending
    ensures r.block.proof == proof && r.block.timestamp == timestamp
    ensures IsTruthy(previousHash) ==> r.block.previousHash == previousHash.value
    ensures !IsTruthy(previousHash) ==> r.block.previousHash == Hash(c, Last(l.chain))
    ensures r.ledger.pending == [] && r.ledger.nodes == l.nodes
  {
    var block := Block(
      |l.chain| + 1,
      timestamp,
      l.pending,
      proof,
      if IsTruthy(previousHash) then previousHash.value else Hash(c, Last(l.chain)));
    Minted(Ledger(l.chain + [block], [], l.nodes), block)
  }

  /** A fresh ledger: no peers, an empty pool and only the genesis block. */
  function Init(c: Crypto, timestamp: real): (l: Ledger)
    ensures |l.chain| == 1 && l.pending == [] && l.nodes == {}
    ensures l.chain[0] == Block(1, timestamp, [], GenesisProof, GenesisPreviousHash)
    ensures IsValidChain(c, l.chain) && WellIndexed(l.chain)
  {
    NewBlock(c, Ledger([], [], {}), GenesisProof, Some(GenesisPreviousHash), timestamp).ledger
  }

  /** The current tip of the chain. */
  function LastBlock(l: Ledger): (b: Block)
    requires |l.chain| > 0
    ensures l.chain == l.chain[..|l.chain| - 1] + [b]
    ensures WellIndexed(l.chain) ==> b.index == |l.chain|
  {
    Last(l.chain)
  }

  /** Adds a transfer to the end of the pool and reports the index of the block
      after the current tip. */
  function NewTransaction(l: Ledger, sender: string, recipient: string, amount: int): (r: Submitted)
    requires |l.chain| > 0
    ensures r.ledger.pending == l.pending + [Transaction(sender, recipient, amount)]
    ensures r.ledger.chain == l.chain && r.ledger.nodes == l.nodes
    ensures r.nextIndex == LastBlock(l).index + 1
  {
    Submitted(
      l.(pending := l.pending + [Transaction(sender, recipient, amount)]),
      LastBlock(l).index + 1)
  }

  function RegisterNode(l: Ledger, address: string): (r: Ledger)
    ensures address in r.nodes
    ensures forall n :: n in r.nodes <==> n == address || n in l.nodes
    ensures r.chain == l.chain && r.pending == l.pending
  {
    l.(nodes := l.nodes + {address})
  }

  /** Minting keeps blocks numbered by position. */
  lemma NewBlockKeepsIndexing(c: Crypto, l: Ledger, proof: int, previousHash: Option<string>, timestamp: real)
    requires |l.chain| > 0 || IsTruthy(previousHash)
    requires WellIndexed(l.chain)
    ensures WellIndexed(NewBlock(c, l, proof, previousHash, timestamp).ledger.chain)
  {
  }

  /** On a ledger built by minting, the index a submission reports is the index
      of the block the next mint creates, and that block carries the submission
      as its last transaction. */
  lemma SubmissionLandsInNextBlock(c: Crypto, l: Ledger, sender: string, recipient: string, amount: int,
                                   proof: int, previousHash: Option<string>, timestamp: real)
    requires |l.chain| > 0 && WellIndexed(l.chain)
    ensures var s := NewTransaction(l, sender, recipient, amount);
            var m := NewBlock(c, s.ledger, proof, previousHash, timestamp);
            m.block.index == s.nextIndex
            && |m.block.transactions| > 0
            && Last(m.block.transactions) == Transaction(sender, recipient, amount)
  {
  }

  /** Minting keeps a valid chain valid exactly when the proof answers the tip's
      proof and the block links to the tip; with no truthy hash supplied the link
      is automatic. */
  lemma MintValidity(c: Crypto, l: Ledger, proof: int, previousHash: Option<string>, timestamp: real)
    requires |l.chain| > 0
    ensures var m := NewBlock(c, l, proof, previousHash, timestamp);
            IsValidChain(c, m.ledger.chain)
            <==> IsValidChain(c, l.chain)
                 && ValidProof(c, LastBlock(l).proof, proof)
                 && m.block.previousHash == Hash(c, LastBlock(l))
  {
    var m := NewBlock(c, l, proof, previousHash, timestamp);
    AppendValid(c, l.chain, m.block);
  }

  /** Supplying the tip's hash explicitly mints the same block as omitting it. */
  lemma ExplicitTipHashSameAsDefault(c: Crypto, l: Ledger, proof: int, timestamp: real)
    requires |l.chain| > 0
    ensures NewBlock(c, l, proof, Some(Hash(c, LastBlock(l))), timestamp)
            == NewBlock(c, l, proof, None, timestamp)
  {
  }
}
