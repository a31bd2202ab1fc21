/**
 * The ledger's records: transactions, blocks and chains, with the orders
 * Rust derives for them. A chain is a `BTreeSet<Block>` and a block's
 * transactions a `BTreeSet<Transaction>`; both are modelled as the ascending,
 * duplicate-free sequences that those sets iterate over.
 */
module Blocks {
  import opened Ordering

  /** A transfer. Identical (sender, recipient, amount) triples are the same transaction. */
  datatype Transaction = Transaction(sender: string, recipient: string, amount: nat)

  predicate CharLt(a: char, b: char) {
    a < b
  }

  /** `Ord` for `String`: lexicographic, character by character. */
  predicate StringLt(a: string, b: string) {
    SeqLt(a, b, CharLt)
  }

  /** Derived `Ord` for `Transaction`: by sender, then recipient, then amount. */
  predicate TransactionLt(a: Transaction, b: Transaction) {
    || StringLt(a.sender, b.sender)
    || (a.sender == b.sender && StringLt(a.recipient, b.recipient))
    || (a.sender == b.sender && a.recipient == b.recipient && a.amount < b.amount)
  }

  /** A `BTreeSet<Transaction>`. */
  type TransactionSet = s: seq<Transaction> | Sorted(s, TransactionLt) witness []

  datatype Block = Block(
    index: nat,
    timestamp: int,
    proof: nat,
    previousHash: string,
    transactions: TransactionSet)

  /** Derived `Ord` for `Block`: by index, timestamp, proof, previous hash, then transactions. */
  predicate BlockLt(a: Block, b: Block) {
    || a.index < b.index
    || (a.index == b.index && a.timestamp < b.timestamp)
    || (a.index == b.index && a.timestamp == b.timestamp && a.proof < b.proof)
    || (a.index == b.index && a.timestamp == b.timestamp && a.proof == b.proof
        && StringLt(a.previousHash, b.previousHash))
    || (a.index == b.index && a.timestamp == b.timestamp && a.proof == b.proof
        && a.previousHash == b.previousHash
        && SeqLt(a.transactions, b.transactions, TransactionLt))
  }

  /** A `BTreeSet<Block>`: a chain iterates its blocks in `BlockLt` order. */
  type Chain = c: seq<Block> | Sorted(c, BlockLt) witness []

  /**
   * The digests of the hasher module: `hash_string` on text and the canonical
   * block hash. Both are left uninterpreted; every property is stated relative
   * to them.
   */
  datatype Hasher = Hasher(hashString: string -> string, hashBlock: Block -> string)

  lemma StringLtIsStrictTotalOrder()
    ensures StrictTotalOrder(StringLt)
  {
    assert StrictTotalOrder(CharLt);
    SeqLtStrictTotal(CharLt);
  }

  lemma TransactionLtIsStrictTotalOrder()
    ensures StrictTotalOrder(TransactionLt)
  {
    StringLtIsStrictTotalOrder();
  }

  lemma BlockLtIsStrictTotalOrder()
    ensures StrictTotalOrder(BlockLt)
  {
    StringLtIsStrictTotalOrder();
    TransactionLtIsStrictTotalOrder();
    SeqLtStrictTotal(TransactionLt);
  }

  /** A transaction set with one more transaction, as `BTreeSet::insert` builds it. */
  function AddTransaction(s: TransactionSet, t: Transaction): (r: TransactionSet)
    ensures forall u :: u in r <==> u in s || u == t
    ensures t in s ==> r == s
    ensures t !in s ==> |r| == |s| + 1
  {
    TransactionLtIsStrictTotalOrder();
    Insert(s, t, TransactionLt)
  }

  /** A chain with one more block, as `BTreeSet::insert` builds it. */
  function AddBlock(c: Chain, b: Block): (r: Chain)
    ensures forall x :: x in r <==> x in c || x == b
    ensures b in c ==> r == c
    ensures b !in c ==> |r| == |c| + 1
    ensures (forall x :: x in c ==> BlockLt(x, b)) ==> r == c + [b]
  {
    BlockLtIsStrictTotalOrder();
    if forall x :: x in c ==> BlockLt(x, b) then
      InsertGreatest(c, b, BlockLt);
      Insert(c, b, BlockLt)
    else
      Insert(c, b, BlockLt)
  }

  /** `BTreeSet::len`: a chain's length counts distinct blocks. */
  lemma ChainLength(c: Chain)
    ensures |Elements(c)| == |c|
  {
    BlockLtIsStrictTotalOrder();
    SortedCardinality(c, BlockLt);
  }

  /** A chain is determined by the blocks it holds. */
  lemma ChainExtensional(c: Chain, d: Chain)
    requires forall b :: b in c <==> b in d
    ensures c == d
  {
    BlockLtIsStrictTotalOrder();
    SortedUnique(c, d, BlockLt);
  }
}
