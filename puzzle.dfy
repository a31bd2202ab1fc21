/**
 * The proof-of-work puzzle: a proof solves the puzzle for the previous proof
 * when the digest of the two numbers' decimal texts, written one after the
 * other, starts with `difficulty` zero characters.
 */
module Puzzle {
  import opened Blocks

  /** Rust's `{}` formatting of an unsigned integer: decimal, no leading zeros. */
  function Decimal(n: nat): (s: string)
    ensures |s| >= 1
    ensures forall i :: 0 <= i < |s| ==> '0' <= s[i] <= '9'
    ensures |s| > 1 ==> s[0] != '0'
  {
    if n < 10 then [Digit(n)] else Decimal(n / 10) + [Digit(n % 10)]
  }

  function Digit(d: nat): (c: char)
    requires d < 10
    ensures '0' <= c <= '9'
  {
    ('0' as int + d) as char
  }

  /** The number a string of decimal digits denotes. */
  function DecimalValue(s: string): nat
    requires forall i :: 0 <= i < |s| ==> '0' <= s[i] <= '9'
  {
    if s == [] then 0
    else DecimalValue(s[..|s| - 1]) * 10 + (s[|s| - 1] as int - '0' as int)
  }

  /** Formatting a number and reading it back gives the number. */
  lemma {:induction false} DecimalRoundTrip(n: nat)
    ensures DecimalValue(Decimal(n)) == n
  {
    if n >= 10 {
      DecimalRoundTrip(n / 10);
      var s := Decimal(n);
      assert s[..|s| - 1] == Decimal(n / 10);
    }
  }

  /** `"0".repeat(n)`. */
  function Zeros(n: nat): (s: string)
    ensures |s| == n && forall i :: 0 <= i < n ==> s[i] == '0'
  {
    if n == 0 then [] else Zeros(n - 1) + ['0']
  }

  /** The text whose digest decides the puzzle: `format!("{}{}", last_proof, proof)`. */
  function Guess(lastProof: nat, proof: nat): string {
    Decimal(lastProof) + Decimal(proof)
  }

  /** `valid_proof`: the digest of the guess starts with `difficulty` zeros. */
  predicate ValidProof(h: Hasher, lastProof: nat, proof: nat, difficulty: nat) {
    Zeros(difficulty) <= h.hashString(Guess(lastProof, proof))
  }

  /** `valid_proof` counts leading zero characters of the digest. */
  lemma ValidProofLeadingZeros(h: Hasher, lastProof: nat, proof: nat, difficulty: nat)
    ensures ValidProof(h, lastProof, proof, difficulty) <==>
      var digest := h.hashString(Guess(lastProof, proof));
      difficulty <= |digest| && forall i :: 0 <= i < difficulty ==> digest[i] == '0'
  {
  }

  /** A solution at some difficulty solves every lower difficulty too. */
  lemma ValidProofLowerDifficulty(h: Hasher, lastProof: nat, proof: nat, difficulty: nat, lower: nat)
    requires lower <= difficulty
    requires ValidProof(h, lastProof, proof, difficulty)
    ensures ValidProof(h, lastProof, proof, lower)
  {
  }

  /**
   * The puzzle sees only the concatenated text, so two pairs of proofs whose
   * decimal texts concatenate to the same string are judged alike.
   */
  lemma ConcatenationIsAmbiguous(h: Hasher, difficulty: nat)
    ensures ValidProof(h, 1, 23, difficulty) == ValidProof(h, 12, 3, difficulty)
  {
    assert Decimal(23) == "23" && Decimal(12) == "12";
    assert Guess(1, 23) == "123" == Guess(12, 3);
  }

  /** `proof` is the least solution: what the linear search from 0 finds. */
  ghost predicate IsLeastProof(h: Hasher, lastProof: nat, proof: nat, difficulty: nat) {
    && ValidProof(h, lastProof, proof, difficulty)
    && forall q :: 0 <= q < proof ==> !ValidProof(h, lastProof, q, difficulty)
  }

  /** At most one proof is the least solution. */
  lemma LeastProofUnique(h: Hasher, lastProof: nat, p: nat, q: nat, difficulty: nat)
    requires IsLeastProof(h, lastProof, p, difficulty) && IsLeastProof(h, lastProof, q, difficulty)
    ensures p == q
  {
  }

  /** At difficulty 0 every proof solves the puzzle, so the search stops at 0. */
  lemma ZeroDifficultyLeastProof(h: Hasher, lastProof: nat)
    ensures IsLeastProof(h, lastProof, 0, 0)
  {
  }

  /**
   * `proof_of_work`: scan 0, 1, 2, ... for the first solution. The search
   * terminates only if a solution exists; `solution` is one, and the search
   * stops at or before it.
   */
  method ProofOfWork(h: Hasher, lastProof: nat, difficulty: nat, ghost solution: nat) returns (proof: nat)
    requires ValidProof(h, lastProof, solution, difficulty)
    ensures IsLeastProof(h, lastProof, proof, difficulty)
    ensures proof <= solution
  {
    proof := 0;
    while !ValidProof(h, lastProof, proof, difficulty)
      invariant proof <= solution
      invariant forall q :: 0 <= q < proof ==> !ValidProof(h, lastProof, q, difficulty)
      decreases solution - proof
    {
      proof := proof + 1;
    }
  }
}
