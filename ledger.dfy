/**
 * The single-node ledger: a chain of blocks, a pool of pending transactions,
 * the registered peers and a fixed puzzle difficulty, with the operations that
 * add transactions, forge and mine blocks, register peers, replace the chain
 * and check a chain's validity.
 */
module Ledger {
  import opened Wrappers
  import opened Ordering
  import opened Blocks
  import opened Puzzle

  /** A peer's address. */
  type Url = string

  const GenesisProof: nat := 100
  const GenesisHash: string := "Genesis block."

  /** The coin a node pays itself for mining a block; sender "0" marks a new coin. */
  const Reward: Transaction := Transaction("0", "my node address", 1)

  /** `check_hash`: the current block names the digest of the previous one. */
  predicate CheckHash(h: Hasher, previous: Block, current: Block) {
    current.previousHash == h.hashBlock(previous)
  }

  /**
   * Of the current block, `check_hash` looks at the previous hash only, and
   * a block that carries the previous block's digest passes.
   */
  lemma CheckHashOnlyPreviousHash(h: Hasher, previous: Block, current: Block, other: Block)
    requires other.previousHash == current.previousHash
    ensures CheckHash(h, previous, current) <==> CheckHash(h, previous, other)
    ensures CheckHash(h, previous, current.(previousHash := h.hashBlock(previous)))
  {
  }

  /**
   * `check_proof`: the current proof solves the puzzle set by the previous
   * proof, that is, the digest of the two proofs' decimal texts, written one
   * after the other, starts with `difficulty` zero characters.
   */
  predicate CheckProof(h: Hasher, previous: Block, current: Block, difficulty: nat): (ok: bool)
    ensures ok <==>
      var digest := h.hashString(Decimal(previous.proof) + Decimal(current.proof));
      difficulty <= |digest| && forall i :: 0 <= i < difficulty ==> digest[i] == '0'
  {
    ValidProofLeadingZeros(h, previous.proof, current.proof, difficulty);
    ValidProof(h, previous.proof, current.proof, difficulty)
  }

  /** Both links between two neighbouring blocks hold. */
  predicate Linked(h: Hasher, difficulty: nat, previous: Block, current: Block) {
    CheckHash(h, previous, current) && CheckProof(h, previous, current, difficulty)
  }

  /** A chain is valid when every pair of neighbouring blocks, in chain order, is linked. */
  predicate IsValidChain(h: Hasher, difficulty: nat, c: seq<Block>) {
    forall i :: 0 < i < |c| ==> Linked(h, difficulty, c[i - 1], c[i])
  }

  /** Chains of at most one block are valid. */
  lemma ShortChainValid(h: Hasher, difficulty: nat, c: seq<Block>)
    requires |c| <= 1
    ensures IsValidChain(h, difficulty, c)
  {
  }

  /** A tampered previous hash or a proof that fails the puzzle makes a chain invalid. */
  lemma BrokenLinkInvalid(h: Hasher, difficulty: nat, c: seq<Block>, i: nat)
    requires 0 < i < |c|
    requires c[i].previousHash != h.hashBlock(c[i - 1]) || !ValidProof(h, c[i - 1].proof, c[i].proof, difficulty)
    ensures !IsValidChain(h, difficulty, c)
  {
  }

  /** Extending a chain at its end keeps it valid exactly when the new block links to the old last one. */
  lemma ValidChainExtend(h: Hasher, difficulty: nat, c: seq<Block>, b: Block)
    ensures IsValidChain(h, difficulty, c + [b]) <==>
      IsValidChain(h, difficulty, c) && (c != [] ==> Linked(h, difficulty, c[|c| - 1], b))
  {
    var d := c + [b];
    if IsValidChain(h, difficulty, d) {
      forall i | 0 < i < |c| ensures Linked(h, difficulty, c[i - 1], c[i]) {
        assert d[i - 1] == c[i - 1] && d[i] == c[i];
      }
      if c != [] {
        assert Linked(h, difficulty, d[|c| - 1], d[|c|]);
      }
    }
  }

  /** Every prefix of a valid chain is valid. */
  lemma ValidChainPrefix(h: Hasher, difficulty: nat, c: seq<Block>, k: nat)
    requires k <= |c|
    requires IsValidChain(h, difficulty, c)
    ensures IsValidChain(h, difficulty, c[..k])
  {
  }

  /** The chain's blocks carry the indices 1, 2, ..., n in order, as forging gives them. */
  predicate WellIndexed(c: seq<Block>) {
    forall i :: 0 <= i < |c| ==> c[i].index == i + 1
  }

  /** On a well-indexed chain, a block with the next index sorts after every block present. */
  lemma NextIndexSortsLast(c: seq<Block>, b: Block)
    requires WellIndexed(c) && b.index == |c| + 1
    ensures forall x :: x in c ==> BlockLt(x, b)
    ensures b !in c
  {
  }

  class Blockchain {
    var chain: Chain
    var currentTransactions: TransactionSet
    var nodes: set<Url>
    const difficulty: nat
    const hasher: Hasher

    /** `new_with`: an empty ledger seeded with the genesis block. */
    constructor NewWith(difficulty: nat, hasher: Hasher, now: int)
      ensures chain == [Block(1, now, GenesisProof, GenesisHash, [])]
      ensures currentTransactions == [] && nodes == {}
      ensures this.difficulty == difficulty && this.hasher == hasher
      ensures WellIndexed(chain) && IsValidChain(hasher, difficulty, chain)
    {
      this.difficulty := difficulty;
      this.hasher := hasher;
      chain := [];
      currentTransactions := [];
      nodes := {};
      new;
      var genesis := NewBlock(GenesisProof, GenesisHash, now);
    }

    /** `len`: the number of distinct blocks in the chain. */
    function Len(): (n: nat)
      reads this
      ensures n == |Elements(chain)|
    {
      ChainLength(chain);
      |chain|
    }

    /** `last_block`: the greatest block of the chain. The source panics on an empty chain. */
    function LastBlock(): (last: Block)
      reads this
      requires chain != []
      ensures last in chain
      ensures forall b :: b in chain ==> b == last || BlockLt(b, last)
      ensures WellIndexed(chain) ==> last.index == |chain|
    {
      LastIsMaximum(chain, BlockLt);
      chain[|chain| - 1]
    }

    /**
     * `hash_last_block`: the digest of the last block, the previous hash a
     * block needs to pass `check_hash` after the last block.
     */
    function HashLastBlock(): (digest: string)
      reads this
      requires chain != []
      ensures forall b :: CheckHash(hasher, LastBlock(), b) <==> b.previousHash == digest
    {
      hasher.hashBlock(LastBlock())
    }

    /** `new_transaction`: add a transaction to the pending pool and name the block it will join. */
    method NewTransaction(transaction: Transaction) returns (nextIndex: nat)
      requires chain != []
      modifies this`currentTransactions
      ensures forall t :: t in currentTransactions <==> t in old(currentTransactions) || t == transaction
      ensures transaction in old(currentTransactions) ==> currentTransactions == old(currentTransactions)
      ensures |currentTransactions| ==
        old(|currentTransactions|) + (if transaction in old(currentTransactions) then 0 else 1)
      ensures nextIndex == LastBlock().index + 1
      ensures WellIndexed(chain) ==> nextIndex == |chain| + 1
    {
      currentTransactions := AddTransaction(currentTransactions, transaction);
      nextIndex := LastBlock().index + 1;
    }

    /** `register_node`: add a peer; true exactly when it was not yet known. */
    method RegisterNode(address: Url) returns (inserted: bool)
      modifies this`nodes
      ensures inserted <==> address !in old(nodes)
      ensures nodes == old(nodes) + {address}
      ensures |nodes| == old(|nodes|) + (if inserted then 1 else 0)
    {
      inserted := address !in nodes;
      assert !inserted ==> nodes + {address} == nodes;
      nodes := nodes + {address};
    }

    /** `replace`: install another chain wholesale, without checking it. */
    method Replace(newChain: Chain)
      modifies this`chain
      ensures chain == newChain
    {
      chain := newChain;
    }

    /** `create_block`: a block with the next index that takes over the whole pending pool. */
    method CreateBlock(proof: nat, previousHash: string, now: int) returns (block: Block)
      modifies this`currentTransactions
      ensures block.index == |chain| + 1 && block.timestamp == now
      ensures block.proof == proof && block.previousHash == previousHash
      ensures block.transactions == old(currentTransactions)
      ensures currentTransactions == []
    {
      var transactions := currentTransactions;
      currentTransactions := [];
      block := Block(|chain| + 1, now, proof, previousHash, transactions);
    }

    /**
     * `new_block`: forge a block and insert it into the chain; the result is
     * the chain's last block afterwards, which on a well-indexed chain is the
     * new one.
     */
    method NewBlock(proof: nat, previousHash: string, now: int) returns (last: Block)
      modifies this`chain, this`currentTransactions
      ensures var block := Block(old(|chain|) + 1, now, proof, previousHash, old(currentTransactions));
        && (forall b :: b in chain <==> b in old(chain) || b == block)
        && |chain| == old(|chain|) + (if block in old(chain) then 0 else 1)
        && (WellIndexed(old(chain)) ==> chain == old(chain) + [block] && last == block)
      ensures WellIndexed(old(chain)) ==> WellIndexed(chain)
      ensures currentTransactions == []
      ensures chain != [] && last == LastBlock()
    {
      var block := CreateBlock(proof, previousHash, now);
      if WellIndexed(chain) {
        NextIndexSortsLast(chain, block);
      }
      chain := AddBlock(chain, block);
      last := LastBlock();
    }

    /** `new_block_proof`: solve the puzzle set by the last block's proof. */
    method NewBlockProof(ghost solution: nat) returns (proof: nat)
      requires chain != []
      requires ValidProof(hasher, LastBlock().proof, solution, difficulty)
      ensures IsLeastProof(hasher, LastBlock().proof, proof, difficulty)
    {
      proof := ProofOfWork(hasher, LastBlock().proof, difficulty, solution);
    }

    /**
     * `mine`: solve the puzzle, pay the reward into the pending pool and forge
     * a block linked to the last one. `forged` names the block forged.
     */
    method Mine(now: int, ghost solution: nat) returns (mined: Block, ghost forged: Block)
      requires chain != []
      requires ValidProof(hasher, LastBlock().proof, solution, difficulty)
      modifies this`chain, this`currentTransactions
      ensures forged.index == old(|chain|) + 1 && forged.timestamp == now
      ensures IsLeastProof(hasher, old(LastBlock()).proof, forged.proof, difficulty)
      ensures forged.previousHash == hasher.hashBlock(old(LastBlock()))
      ensures forall t :: t in forged.transactions <==> t in old(currentTransactions) || t == Reward
      ensures forall b :: b in chain <==> b in old(chain) || b == forged
      ensures currentTransactions == []
      ensures chain != [] && mined == LastBlock()
      ensures WellIndexed(old(chain)) ==>
        chain == old(chain) + [forged] && mined == forged && WellIndexed(chain)
      ensures WellIndexed(old(chain)) && IsValidChain(hasher, difficulty, old(chain)) ==>
        IsValidChain(hasher, difficulty, chain)
    {
      ghost var last := LastBlock();
      var proof := NewBlockProof(solution);
      var _ := NewTransaction(Reward);
      assert chain == old(chain) && LastBlock() == last;
      var previousHash := HashLastBlock();
      ghost var pending := currentTransactions;
      forged := Block(old(|chain|) + 1, now, proof, previousHash, pending);
      mined := NewBlock(proof, previousHash, now);
      assert Linked(hasher, difficulty, last, forged);
      if WellIndexed(old(chain)) {
        ValidChainExtend(hasher, difficulty, old(chain), forged);
      }
    }

    /**
     * `valid_chain`: walk the chain in order, checking each block against the
     * one before it, and stop at the first broken link.
     */
    method ValidChain(c: Chain) returns (valid: bool)
      ensures valid == IsValidChain(hasher, difficulty, c)
    {
      var previous: Option<Block> := None;
      for i := 0 to |c|
        invariant previous == if i == 0 then None else Some(c[i - 1])
        invariant IsValidChain(hasher, difficulty, c[..i])
      {
        var block := c[i];
        if previous.Some? {
          if !CheckHash(hasher, previous.value, block) || !CheckProof(hasher, previous.value, block, difficulty) {
            assert !Linked(hasher, difficulty, c[i - 1], c[i]);
            return false;
          }
        }
        ValidChainExtend(hasher, difficulty, c[..i], block);
        assert c[..i] + [block] == c[..i + 1];
        previous := Some(block);
      }
      assert c[..|c|] == c;
      return true;
    }
  }
}
