# A verified model of a minimal proof-of-work ledger

This project models the `Blockchain` class of `man.py`: a single-process ledger
that keeps a chain of blocks and a pool of pending transactions. It covers five
parts:

- **Construction.** A genesis block has index 1, proof 100 and previous hash `"1"`.
- **Minting.** `new_block` moves the pending pool into a new block linked to the tip.
- **Submission.** `new_transaction` appends a transfer to the pool.
- **Puzzle.** `valid_proof` and `proof_of_work` implement the proof-of-work puzzle.
- **Validity and consensus.** `valid_chain` checks a chain, and `resolve_conflicts` adopts the longest valid chain a peer offers.

The code is modelled as immutable values and pure functions (`Ledger`, `Block`,
`Transaction`), organised in these modules:

- `BlockTypes` holds the records and the `Option`/`Result` wrappers.
- `Hashing` holds the block hash.
- `Puzzle` holds decimal formatting, the puzzle and the proof search.
- `Chain` holds chain validity.
- `Blockchain` holds the ledger operations.
- `Consensus` holds conflict resolution.
- `Mining` holds the mining sequence of the `/mine` route.

SHA-256 and `json.dumps(sort_keys=True)` are foreign library calls. They are
supplied as the two deterministic functions of a `Crypto` value. The block hash
is the digest of the canonical serialisation. The puzzle checks the digest of the
two proofs' decimal texts written one after the other, and requires the four
leading characters `"0000"`. The clock and the node identifier are parameters.

### Errors and preconditions

The code raises an error on its own data in two places:

- `valid_chain` reads `chain[0]`. A reply reaches `valid_chain` only when its
  status is 200 and its reported length exceeds the running maximum, which
  starts at the local length and is raised by every chain adopted earlier in
  the pass. Such a reply carrying an empty chain aborts the whole
  `resolve_conflicts` pass with an `IndexError`. Peer data is outside the
  ledger's control, so this is modelled as `Failure(EmptyChain)`;
  `Consensus.Crashes` states the running-maximum condition and
  `Consensus.ResolveConflicts` fails exactly when some reply meets it.
- `new_block` without a truthy `previous_hash`, and `last_block`, read the last
  block of the chain. The ledger's chain is never empty: construction creates
  the genesis block, and an adopted chain is non-empty. These two are therefore
  preconditions, not error results.

### Behaviour of the code worth knowing

- **Reported length.** `resolve_conflicts` compares the length a peer *reports*
  (man.py:57-61), not the length of the chain it sends. The two are kept
  distinct in the model. `Consensus.InflatedLengthCanShorten` shows that an
  overstated length can replace a longer local chain by a shorter one.
  `Consensus.HonestLengthsOnlyLengthen` shows that truthful lengths cannot.
- **Tie-breaking.** When two valid chains tie at the greatest reported length,
  the first one seen wins, so the result depends on the set's iteration order
  (`Consensus.TieGoesToFirstSeen`).
- **Trusted proofs.** `new_block` trusts the proof and hash it is given and
  rejects neither a stale nor an invalid mint. `Blockchain.MintValidity` states exactly when
  a mint keeps the chain valid.

## Model

| member | source | states |
|---|---|---|
| Hashing.SameSerialisationSameHash | man.py:97-101 | the hash of a block depends only on its canonical (key-sorted) serialisation; this follows directly from the definition of `Hash` and is stated for the record, not as proof content |
| Puzzle.NatDecimal | man.py:119 | decimal text of a natural number is a non-empty digit string whose leading digit is `0` only for the text "0" itself |
| Puzzle.Decimal | man.py:119 | Python's integer text starts with a minus sign exactly for negative numbers |
| Puzzle.NatDecimalRoundTrip | man.py:119 | reading back the decimal text of n gives n |
| Puzzle.DecimalInjective | man.py:119 | distinct integers have distinct decimal texts |
| Puzzle.PuzzleSeesOnlyConcatenation | man.py:117-121 | the puzzle sees only the concatenated text, so (12, 3) and (1, 23) are the same puzzle for every digest |
| Puzzle.ProofOfWork | man.py:109-114 | the ascending search returns a proof that answers the last proof, and no smaller natural number answers it |
| Puzzle.MinimalProofUnique | man.py:109-114 | the smallest answer is unique, so the search result is determined by the last proof |
| Chain.Walk | man.py:26-43 | the pairwise walk from a position succeeds iff every later adjacent pair has the hash link and a valid proof |
| Chain.ValidChain | man.py:22-43 | an empty chain is an error; otherwise the answer is true iff every adjacent pair is linked, and any one-block chain is valid |
| Chain.TamperingBreaksChain | man.py:32-34 | replacing a block that has a successor by one with a different hash makes a valid chain invalid |
| Chain.AppendValid | man.py:26-41 | a chain extended by one block is valid iff the old chain is valid and the block is linked to the old tip |
| Blockchain.Init | man.py:9-15 | a fresh ledger has one block (index 1, proof 100, previous hash "1", no transactions), an empty pool and no peers, and its chain is valid and numbered by position |
| Blockchain.NewBlock | man.py:72-84 | the chain grows by exactly the new block and earlier blocks are unchanged; the block's index is the old length + 1 and it holds the old pool; the pool is emptied; a truthy previous hash is stored verbatim, otherwise the tip's hash is used |
| Blockchain.LastBlock | man.py:104-106 | the result is the block at the last position of the chain, and on a chain numbered by position its index is the chain length |
| Blockchain.NewTransaction | man.py:87-94 | exactly one transfer is appended to the end of the pool; chain and peers are unchanged; the result is the tip's index + 1 |
| Blockchain.RegisterNode | man.py:18-19 | the peer set gains exactly the address; chain and pool are unchanged |
| Blockchain.NewBlockKeepsIndexing | man.py:74 | minting keeps every block's index equal to its 1-based position |
| Blockchain.SubmissionLandsInNextBlock | man.py:74-76 | on a chain numbered by position, the index a submission reports is the index of the next minted block, which ends with that transfer |
| Blockchain.MintValidity | man.py:72-84 | after minting the chain is valid iff it was valid before, the proof answers the tip's proof, and the block's previous hash is the tip's hash |
| Blockchain.ExplicitTipHashSameAsDefault | man.py:78 | passing the tip's hash explicitly mints the same block as passing none |
| Consensus.Scan | man.py:51-63 | the scan over replies fails iff some reply reaches the validity check with an empty chain; otherwise it picks nothing iff no reply qualifies, and else picks the qualifying reply with the greatest reported length, first seen on ties |
| Consensus.ResolveConflicts | man.py:46-69 | a failure occurs exactly when a reply reaches the check with an empty chain; otherwise the ledger is replaced iff some reply qualifies (status 200, reported length above the local length, valid chain); when replaced the new chain is that of the selected reply and pool and peers are kept; when not replaced the ledger is unchanged |
| Consensus.SelectionUnique | man.py:61-63 | at most one reply meets the selection rule |
| Consensus.AdoptedChainIsValid | man.py:61-67 | an adopted chain is non-empty, valid, and comes from a reply whose reported length exceeds the local length |
| Consensus.HonestLengthsOnlyLengthen | man.py:57-61 | if every reported length is the true length, resolution never fails and only ever lengthens the chain |
| Consensus.InflatedLengthCanShorten | man.py:57-61 | a reply overstating its length can replace a two-block chain by a one-block chain |
| Consensus.TieGoesToFirstSeen | man.py:54-63 | of two valid chains tying at the greatest length, the first seen is adopted, so the outcome depends on peer order |
| Mining.Mine | man.py:134-149 | mining appends one block with index old length + 1 and the given timestamp, holding the old pool plus the reward transfer ("0" to the node, amount 1), linked to the old tip with the smallest non-negative proof; it keeps a valid chain valid and keeps indices positional |

## Left out

- The Flask routes and response formatting (man.py:124-223) are HTTP glue. Only the `/mine` sequence is modelled, as `Mining.Mine`.
- The HTTP fetch of each peer's chain (man.py:55-58) is network I/O. Replies are given already fetched, as status, reported length and chain, one per registered peer in the set's iteration order. The code's call to `request.get` on Flask's request object and its use of `response.json` are part of this glue and are not modelled.
- `time()` and `uuid4()` are nondeterministic sources. They are parameters (`timestamp`, `nodeIdentifier`).
- SHA-256 and JSON serialisation are foreign library calls. They are the deterministic functions of `Crypto`; no digest properties such as collision resistance are assumed.
- The debug `print` calls in `valid_chain` (man.py:28-30) have no effect on the result.
- Puzzle.ProofOfWork: requires a known answer `bound` to the puzzle. When no natural number answers the last proof, the code's search never ends, and that case is not modelled.
- Mining.Mine: requires a known answer `bound` to the tip's puzzle, for the same reason as `Puzzle.ProofOfWork`; when no answer exists the code's search never ends and that case is not modelled.
- Malformed peer data (missing keys, non-list chains, non-integer proofs or lengths) is excluded by the types. Only the empty chain, which the types allow, is modelled as an error.
- Transaction amounts are integers. The code accepts any JSON number, and `hash` serialises amounts, so `json.dumps` writes 5 and 5.0 differently; the `int` type merges numbers the code's hashes would tell apart.
- Concurrency and cancellation of an in-flight search are outside the single-threaded code.
