# A verified model of a minimal proof-of-work ledger

This project models the core of a single-node proof-of-work ledger ("learnnet"), written in Rust, and proves properties of that model. The ledger has three parts:

- a chain of blocks;
- a pool of pending transactions;
- a set of registered peers, plus a puzzle difficulty fixed when the ledger is built.

The ledger can do six things:

- take in transactions;
- forge blocks, which drain the pending pool into a new block;
- mine blocks, which means solving the puzzle, paying the miner a reward transaction and forging a block linked to the last one;
- register peers;
- replace its chain wholesale;
- check a chain's validity, meaning that every pair of neighbouring blocks is linked by hash and by proof.

Conflict resolution between nodes follows "longest valid chain wins". The peers' chains are parsed and parse failures are skipped. The longest candidate that is valid under the local rules, the earliest one on a tie, replaces the local chain if it is strictly longer than it.

The files:

- `wrappers.dfy` — `Wrappers.Option`, the optional value the ledger and the consensus modules share.
- `ordering.dfy` — `Ordering`. It models the Rust `BTreeSet`: a strictly ascending, duplicate-free sequence under a strict total order. It covers `insert`, the maximum that `next_back` gives, `len`, and the lexicographic order Rust derives for strings and sets.
- `blocks.dfy` — `Blocks`. It holds `Transaction` and `Block`, their derived orders (each proved a strict total order), and the subset types `TransactionSet` and `Chain` (the two `BTreeSet`s). It also holds `Hasher`, which carries the two digest functions. Both digests are uninterpreted, so every property holds whatever they compute.
- `puzzle.dfy` — `Puzzle`. It holds the decimal formatting of proofs, `valid_proof` and the `proof_of_work` search.
- `ledger.dfy` — `Ledger`. It holds `check_hash`, `check_proof`, chain validity, and the `Blockchain` class. The class has fields `chain`, `currentTransactions`, `nodes`, `difficulty` and `hasher`, and its methods update those fields in place.
- `consensus.dfy` — `Consensus`. It holds `deserialize` as a filtering loop and `resolve_conflicts` as a loop that reduces the candidates. Each loop is proved against a spec function (`Parsed` and `Select`), and lemmas state what those functions guarantee.
- `scenarios.dfy` — `LedgerScenarios`. The unit tests of `src/lib/blockchain.rs` are restated there as client methods that return what each test inspects; their postconditions follow from the contracts alone. Where a test depends on a concrete digest value, that fact is a precondition.

`Linked`, `IsValidChain`, `ValidProof`, `Guess`, `Parsed` and `Select` are specification functions. They do what the source lines they model do, and the rows below state what is proved about them.

## Model

| member | source | states |
|---|---|---|
| `Ordering.SeqLtStrictTotal` | src/lib/blockchain.rs:24-31 | the lexicographic order derived for `String` and `BTreeSet` fields is irreflexive, transitive and connected whenever the element order is |
| `Ordering.Insert` | src/lib/blockchain.rs:117 | `BTreeSet::insert` keeps the set ascending, adds exactly the new element, leaves the set unchanged when the element is present, and otherwise grows it by one |
| `Ordering.InsertGreatest` | src/lib/blockchain.rs:117-118 | an element greater than every present element is placed at the end, where `next_back` finds it |
| `Ordering.LastIsMaximum` | src/lib/blockchain.rs:121-124 | the last element of a sorted set is its maximum |
| `Ordering.SortedCardinality` | src/lib/blockchain.rs:94-96 | a sorted set has no duplicates, so its length is the number of distinct elements |
| `Ordering.SortedUnique` | src/lib/blockchain.rs:30 | two sorted sets with the same elements are the same sequence, so a `BTreeSet` is determined by its contents |
| `Blocks.TransactionLtIsStrictTotalOrder` | src/lib/blockchain.rs:17 | the order derived for transactions (sender, recipient, amount) is a strict total order |
| `Blocks.BlockLtIsStrictTotalOrder` | src/lib/blockchain.rs:24-31 | the derived block order (index, timestamp, proof, previous hash, transactions) is a strict total order |
| `Blocks.AddTransaction` | src/lib/blockchain.rs:55 | inserting into the pending set adds exactly that transaction; a duplicate leaves the set unchanged |
| `Blocks.AddBlock` | src/lib/blockchain.rs:117 | inserting a block adds exactly that block; a block above all present blocks is appended at the end |
| `Blocks.ChainLength` | src/lib/blockchain.rs:94-96 | a chain's length counts distinct blocks |
| `Blocks.ChainExtensional` | src/lib/blockchain.rs:11 | a chain is determined by the set of blocks it holds |
| `Puzzle.Decimal` | src/lib/blockchain.rs:151 | the decimal text of a proof is non-empty, all digits, and has no leading zero |
| `Puzzle.DecimalRoundTrip` | src/lib/blockchain.rs:151 | reading the decimal text of a number back gives the number |
| `Puzzle.Zeros` | src/lib/blockchain.rs:149 | the hash prefix has exactly `difficulty` characters, all `'0'` |
| `Puzzle.ValidProofLeadingZeros` | src/lib/blockchain.rs:146-158 | `valid_proof` holds iff the digest of the two proofs' concatenated decimal texts begins with `difficulty` `'0'` characters |
| `Puzzle.ValidProofLowerDifficulty` | src/lib/blockchain.rs:149-153 | a proof that solves the puzzle at some difficulty solves it at every lower difficulty |
| `Puzzle.ConcatenationIsAmbiguous` | src/lib/blockchain.rs:151 | the puzzle sees only the concatenated text: proofs (1, 23) and (12, 3) are judged alike |
| `Puzzle.LeastProofUnique` | src/lib/blockchain.rs:134-142 | the least solution is unique |
| `Puzzle.ZeroDifficultyLeastProof` | src/lib/blockchain.rs:136-139 | at difficulty 0 the search stops at proof 0 |
| `Puzzle.ProofOfWork` | src/lib/blockchain.rs:134-142 | the linear search returns a proof that solves the puzzle, and every smaller proof fails it |
| `Ledger.CheckHashOnlyPreviousHash` | src/lib/blockchain.rs:191-198 | `check_hash` looks at the current block's previous hash only: two blocks with the same previous hash get the same verdict, and a block carrying the previous block's digest passes |
| `Ledger.CheckProof` | src/lib/blockchain.rs:200-206 | `check_proof` holds iff the digest of the previous and current proofs' concatenated decimal texts begins with `difficulty` `'0'` characters; no other field of either block matters |
| `Ledger.ShortChainValid` | src/lib/blockchain.rs:176-189 | chains of at most one block are valid |
| `Ledger.BrokenLinkInvalid` | src/lib/blockchain.rs:191-206 | a tampered previous hash, or a proof that fails the puzzle, anywhere in the chain makes it invalid |
| `Ledger.ValidChainExtend` | src/lib/blockchain.rs:179-187 | appending a block keeps a chain valid iff the chain was valid and the block links to the old last block |
| `Ledger.ValidChainPrefix` | src/lib/blockchain.rs:179-187 | every prefix of a valid chain is valid |
| `Ledger.NextIndexSortsLast` | src/lib/blockchain.rs:104 | on a chain indexed 1..n, a block with index n + 1 is new and sorts after every block |
| `Ledger.Blockchain.NewWith` | src/lib/blockchain.rs:39-48 | the chain is exactly the genesis block (index 1, proof 100, previous hash "Genesis block.", no transactions); pending and peers are empty; the chain is indexed 1..1 and valid |
| `Ledger.Blockchain.Len` | src/lib/blockchain.rs:94-96 | the length is the number of distinct blocks in the chain |
| `Ledger.Blockchain.LastBlock` | src/lib/blockchain.rs:121-124 | the last block is in the chain and is its greatest block; on a chain indexed 1..n its index is n |
| `Ledger.Blockchain.HashLastBlock` | src/lib/blockchain.rs:167-171 | a block passes `check_hash` against the last block exactly when its previous hash is the returned digest |
| `Ledger.Blockchain.NewTransaction` | src/lib/blockchain.rs:54-58 | the pending set gains exactly the transaction (a duplicate leaves it unchanged), the result is the last block's index + 1, and chain and peers are untouched |
| `Ledger.Blockchain.RegisterNode` | src/lib/blockchain.rs:82-84 | the result is true iff the address was new; the peer set gains the address and grows by one exactly when the result is true |
| `Ledger.Blockchain.Replace` | src/lib/blockchain.rs:90-92 | the chain becomes exactly the given chain; pending transactions and peers are untouched |
| `Ledger.Blockchain.CreateBlock` | src/lib/blockchain.rs:98-110 | the block gets index length + 1, the given timestamp, proof and previous hash, and exactly the old pending set; the pending set becomes empty |
| `Ledger.Blockchain.NewBlock` | src/lib/blockchain.rs:115-119 | the chain gains exactly the forged block, grows by one unless the block was present, and the pending set is emptied; on a chain indexed 1..n the block is appended and returned as the last block, and the chain stays indexed 1..n+1 |
| `Ledger.Blockchain.NewBlockProof` | src/lib/blockchain.rs:160-165 | the proof is the least solution of the puzzle set by the last block's proof |
| `Ledger.Blockchain.Mine` | src/lib/blockchain.rs:63-73 | the forged block has the next index, the least proof for the old last proof, the old last block's digest as previous hash, and exactly the old pending set plus the reward; pending is emptied; on a chain indexed 1..n the chain grows by exactly that block, and a valid chain stays valid |
| `Ledger.Blockchain.ValidChain` | src/lib/blockchain.rs:176-189 | the loop with its early return answers exactly whether every neighbouring pair passes `check_hash` and `check_proof`; it changes nothing |
| `Consensus.Deserialize` | src/lib/consensus.rs:54-65 | the loop returns exactly the successful parses, in response order, skipping failures |
| `Consensus.ParsedAppend` | src/lib/consensus.rs:56-63 | parsing distributes over concatenation of the responses, so the parses keep their order |
| `Consensus.ParsedSingle` | src/lib/consensus.rs:59-62 | one response yields its chain if it parses, nothing otherwise |
| `Consensus.ParsedMembers` | src/lib/consensus.rs:54-65 | a chain is among the parses iff some response parses to it |
| `Consensus.SelectInvariant` | src/lib/consensus.rs:23-28 | the running maximum starts at the local length and never falls below it; a selected chain is a valid candidate, strictly longer than the local chain, whose length is the maximum |
| `Consensus.SelectMaximal` | src/lib/consensus.rs:23-28 | no valid candidate is longer than the final maximum |
| `Consensus.SelectMonotone` | src/lib/consensus.rs:25 | the maximum after a prefix of the candidates never exceeds the final maximum |
| `Consensus.SelectFound` | src/lib/consensus.rs:23-29 | a chain is selected iff some candidate is strictly longer than the local chain and valid |
| `Consensus.SelectFirst` | src/lib/consensus.rs:24-26 | the selected chain is the first candidate to reach the maximum: every earlier valid candidate is strictly shorter |
| `Consensus.ResolveConflicts` | src/lib/consensus.rs:10-34 | returns true iff some parsed candidate is strictly longer than the chain at entry and valid; then the installed chain is the reduction's choice, longer, valid and non-empty; otherwise the chain is unchanged; pending transactions and peers are never touched |
| `LedgerScenarios.RewardAndOne` | src/lib/blockchain.rs:24-30 | a transaction set holding exactly the reward and a submission from "a" is, in order, the reward then the submission, because the reward's sender "0" sorts before "a" |
| `LedgerScenarios.ChainScenario` | src/lib/blockchain.rs:271-277 | a fresh ledger has one block (the genesis block), and two after one block is forged |
| `LedgerScenarios.NewTransactionScenario` | src/lib/blockchain.rs:216-224 | after one submission to a fresh ledger, the pool's greatest transaction is the submission (sender "a", recipient "b", amount 100), due for block 2 |
| `LedgerScenarios.NewBlockScenario` | src/lib/blockchain.rs:227-239 | the pool holds one transaction after a submission and none after a block is forged |
| `LedgerScenarios.RegisterNodeScenario` | src/lib/blockchain.rs:280-287 | registering a peer gives one peer, and registering it again still one |
| `LedgerScenarios.InvalidHashScenario` | src/lib/blockchain.rs:290-298 | a block forged with previous hash "abc", when that is not the genesis digest, makes `valid_chain` false |
| `LedgerScenarios.InvalidProofScenario` | src/lib/blockchain.rs:301-311 | a block linked by the genesis digest but with proof 2, when 2 does not solve the genesis puzzle, makes `valid_chain` false |
| `LedgerScenarios.MineScenario` | src/lib/blockchain.rs:313-322 | after one submission and one `mine` on a fresh ledger, the chain has two blocks, the pool is empty, the mined block holds exactly the reward and the submission, and `valid_chain` holds |

## Left out

- HTTP fetching of the peers' chains (src/lib/consensus.rs:36-52) is network I/O. `ResolveConflicts` takes the responses as a given sequence, in the order the peers are visited. The order of a `HashSet` is unspecified, so that order is an input. The panics the fetch loop raises on a connection or read failure are not modelled.
- Only the shape of JSON parsing (`serde_json::from_str`) is modelled: it is an uninterpreted `parse: string -> Option<Chain>`. Its results are chains, so they are sorted like any `BTreeSet`.
- SHA-256 and block serialisation from `lib::hasher` are uninterpreted (`Hasher`). `lib/hasher.rs` is not part of this model. The block hash is modelled as infallible, since the source panics on its error. The regression `valid_proof(100, 1, 3) == false` and the test that two hashes of one block agree depend on the concrete digest, so they are not stated. The second holds trivially because the digest is a function.
- `Puzzle.ProofOfWork`: the unbounded search terminates only if a solution exists. The model takes a ghost `solution` as a precondition, and so do `NewBlockProof` and `Mine`.
- Integer widths are not modelled: `usize` index, `u64` proof and difficulty, `i64` timestamp. The model does not capture overflow of `proof += 1` or of `index + 1`.
- The clock (`Utc::now`) is a `now` parameter. Logging macros are dropped.
- The field order of `Transaction` is taken as sender, recipient, amount, and the derived `Ord` follows that order. `lib/transaction.rs` is not part of this model.
- `Ledger.Blockchain.NewTransaction`, `Ledger.Blockchain.LastBlock` and `Ledger.Blockchain.Mine` require a non-empty chain, because the source panics on an empty one.
- `Ledger.Blockchain.Mine`: its result and its effect on validity are stated only for chains indexed 1..n. `valid_chain` does not check indices. After `replace` installs a valid chain with other indices, the forged block (index length + 1) can sort into the middle of the chain and break its links, so the source promises nothing there. On a hash failure the source panics after the reward transaction is already pooled; with an infallible hash that path does not arise.
- `Consensus.ResolveConflicts` takes one response per registered peer, but the model does not tie the `responses` sequence to `nodes`: every property is stated for all response sequences, so it holds for the one the peers give.
- The accessors `chain()` and `nodes()` are plain field reads. The test-only `Blockchain::new()` is `NewWith(3, …)`, used as `TestDifficulty` in the scenarios.
- The commented-out Python reference (src/lib/blockchain.rs:326-607) and the `mining-tests` test at line 267, which does not compile, are not modelled.
