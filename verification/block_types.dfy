/** The records the ledger stores: transactions, blocks and the ledger state itself,
    plus the small Option/Result wrappers used for optional arguments and the one
    runtime error the core can raise. */
module BlockTypes {

  datatype Option<T> = None | Some(value: T)

  /** The only failure the core raises on data it does not control: reading the
      first block of an empty chain (the IndexError `valid_chain` raises at `chain[0]`). */
  datatype ChainError = EmptyChain

  datatype Result<T> = Success(value: T) | Failure(error: ChainError)

  /** A transfer record; no balance or uniqueness rule is attached to it. */
  datatype Transaction = Transaction(sender: string, recipient: string, amount: int)

  /** A block as stored in the chain. Blocks received from peers carry whatever
      index, proof and previous hash the peer sent. */
  datatype Block = Block(
    index: int,
    timestamp: real,
    transactions: seq<Transaction>,
    proof: int,
    previousHash: string)

  /** The state of one node: its chain, the pool of transactions waiting for the
      next block, and the set of registered peer addresses. */
  datatype Ledger = Ledger(chain: seq<Block>, pending: seq<Transaction>, nodes: set<string>)

  function Last<T>(s: seq<T>): T
    requires |s| > 0
  {
    s[|s| - 1]
  }
}
