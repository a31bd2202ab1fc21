/**
 * The ledger's unit tests, restated as client code that returns what each
 * test inspects; the postconditions follow from the operations' contracts
 * alone. Where a test depends on concrete digests, the digest fact it relies
 * on is a precondition.
 */
module LedgerScenarios {
  import opened Ordering
  import opened Blocks
  import opened Puzzle
  import opened Ledger

  /** The difficulty the tests' `Blockchain::new()` uses. */
  const TestDifficulty: nat := 3

  /** The pool holding a submission from "a" and the reward is, in order, the reward then the submission. */
  lemma RewardAndOne(s: TransactionSet, t: Transaction)
    requires t == Transaction("a", "b", 100)
    requires forall u :: u in s <==> u == t || u == Reward
    ensures s == [Reward, t]
  {
    assert StringLt("0", "a") by {
      assert "0"[0] == '0' && "a"[0] == 'a';
      assert CharLt('0', 'a');
    }
    assert TransactionLt(Reward, t);
    TransactionLtIsStrictTotalOrder();
    SortedUnique(s, [Reward, t], TransactionLt);
  }

  /** A fresh ledger holds the genesis block only; forging one more makes two. */
  method ChainScenario(h: Hasher, now: int) returns (genesisOnly: nat, afterForge: nat)
    ensures genesisOnly == 1 && afterForge == 2
  {
    var blockchain := new Blockchain.NewWith(TestDifficulty, h, now);
    genesisOnly := blockchain.Len();
    var _ := blockchain.NewBlock(100, "abc", now);
    afterForge := blockchain.Len();
  }

  /** A submitted transaction lands in the pool as its greatest element and is due for block 2. */
  method NewTransactionScenario(h: Hasher, now: int) returns (index: nat, last: Transaction)
    ensures index == 2
    ensures last.sender == "a" && last.recipient == "b" && last.amount == 100
  {
    var blockchain := new Blockchain.NewWith(TestDifficulty, h, now);
    index := blockchain.NewTransaction(Transaction("a", "b", 100));
    assert blockchain.currentTransactions == [Transaction("a", "b", 100)];
    last := blockchain.currentTransactions[|blockchain.currentTransactions| - 1];
  }

  /** Forging a block empties the pending pool. */
  method NewBlockScenario(h: Hasher, now: int) returns (before: nat, after: nat)
    ensures before == 1 && after == 0
  {
    var blockchain := new Blockchain.NewWith(TestDifficulty, h, now);
    var _ := blockchain.NewTransaction(Transaction("a", "b", 100));
    before := |blockchain.currentTransactions|;
    var _ := blockchain.NewBlock(2, "abc", now);
    after := |blockchain.currentTransactions|;
  }

  /** Registering the same peer twice leaves one peer. */
  method RegisterNodeScenario(h: Hasher, now: int) returns (afterFirst: nat, afterSecond: nat)
    ensures afterFirst == 1 && afterSecond == 1
  {
    var blockchain := new Blockchain.NewWith(TestDifficulty, h, now);
    var _ := blockchain.RegisterNode("http://localhost:9000");
    afterFirst := |blockchain.nodes|;
    var _ := blockchain.RegisterNode("http://localhost:9000");
    afterSecond := |blockchain.nodes|;
  }

  /** A block whose previous hash is not the genesis digest breaks the chain. */
  method InvalidHashScenario(h: Hasher, now: int) returns (valid: bool)
    requires h.hashBlock(Block(1, now, GenesisProof, GenesisHash, [])) != "abc"
    ensures !valid
  {
    var blockchain := new Blockchain.NewWith(TestDifficulty, h, now);
    var _ := blockchain.NewTransaction(Transaction("a", "b", 100));
    var _ := blockchain.NewBlock(2, "abc", now);
    valid := blockchain.ValidChain(blockchain.chain);
    BrokenLinkInvalid(h, TestDifficulty, blockchain.chain, 1);
  }

  /** A correctly linked block whose proof does not solve the puzzle breaks the chain. */
  method InvalidProofScenario(h: Hasher, now: int) returns (valid: bool)
    requires !ValidProof(h, GenesisProof, 2, TestDifficulty)
    ensures !valid
  {
    var blockchain := new Blockchain.NewWith(TestDifficulty, h, now);
    var _ := blockchain.NewTransaction(Transaction("a", "b", 100));
    var hash := blockchain.HashLastBlock();
    var _ := blockchain.NewBlock(2, hash, now);
    valid := blockchain.ValidChain(blockchain.chain);
    BrokenLinkInvalid(h, TestDifficulty, blockchain.chain, 1);
  }

  /**
   * Mining after one submission: two blocks, an empty pool, the new block
   * holding the reward and the submission, and the chain valid.
   */
  method MineScenario(h: Hasher, now: int, later: int, ghost solution: nat)
    returns (length: nat, pending: nat, transactions: TransactionSet, valid: bool)
    requires ValidProof(h, GenesisProof, solution, TestDifficulty)
    ensures length == 2 && pending == 0
    ensures transactions == [Reward, Transaction("a", "b", 100)]
    ensures valid
  {
    var blockchain := new Blockchain.NewWith(TestDifficulty, h, now);
    var t := Transaction("a", "b", 100);
    var _ := blockchain.NewTransaction(t);
    var mined, forged := blockchain.Mine(later, solution);
    length := blockchain.Len();
    pending := |blockchain.currentTransactions|;
    transactions := mined.transactions;
    RewardAndOne(transactions, t);
    valid := blockchain.ValidChain(blockchain.chain);
  }
}
