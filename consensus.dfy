/**
 * Conflict resolution between nodes: "longest valid chain wins". The peers'
 * responses are parsed and parse failures are skipped. The longest candidate
 * that is valid under the local ledger's rules, the earliest one on a tie,
 * replaces the local chain if it is strictly longer than it.
 */
module Consensus {
  import opened Wrappers
  import opened Blocks
  import opened Ledger

  /** The chains a sequence of peer responses yields: the successful parses, in order. */
  function Parsed(parse: string -> Option<Chain>, responses: seq<string>): seq<Chain> {
    if responses == [] then []
    else
      var earlier := Parsed(parse, responses[..|responses| - 1]);
      match parse(responses[|responses| - 1])
      case Some(c) => earlier + [c]
      case None => earlier
  }

  /** Parsing distributes over concatenation, so the parses keep the responses' order. */
  lemma {:induction false} ParsedAppend(parse: string -> Option<Chain>, a: seq<string>, b: seq<string>)
    ensures Parsed(parse, a + b) == Parsed(parse, a) + Parsed(parse, b)
    decreases |b|
  {
    if b == [] {
      assert a + b == a;
    } else {
      var ab := a + b;
      assert ab[..|ab| - 1] == a + b[..|b| - 1];
      assert ab[|ab| - 1] == b[|b| - 1];
      ParsedAppend(parse, a, b[..|b| - 1]);
    }
  }

  /** One response yields its chain if it parses and nothing otherwise. */
  lemma ParsedSingle(parse: string -> Option<Chain>, response: string)
    ensures Parsed(parse, [response]) == match parse(response) case Some(c) => [c] case None => []
  {
  }

  /** A chain is among the parses exactly when some response parses to it. */
  lemma {:induction false} ParsedMembers(parse: string -> Option<Chain>, responses: seq<string>)
    ensures forall c :: c in Parsed(parse, responses) <==>
      exists i :: 0 <= i < |responses| && parse(responses[i]) == Some(c)
    decreases |responses|
  {
    if responses != [] {
      var n := |responses| - 1;
      var earlier := responses[..n];
      ParsedMembers(parse, earlier);
      forall c ensures c in Parsed(parse, responses) <==>
        exists i :: 0 <= i < |responses| && parse(responses[i]) == Some(c)
      {
        if c in Parsed(parse, earlier) {
          var i :| 0 <= i < |earlier| && parse(earlier[i]) == Some(c);
          assert responses[i] == earlier[i];
        }
        if exists i :: 0 <= i < |responses| && parse(responses[i]) == Some(c) {
          var i :| 0 <= i < |responses| && parse(responses[i]) == Some(c);
          if i < n {
            assert earlier[i] == responses[i];
          }
        }
      }
    }
  }

  /** `deserialize`: keep each response that parses, skip (and log) each that does not. */
  method Deserialize(parse: string -> Option<Chain>, responses: seq<string>) returns (chains: seq<Chain>)
    ensures chains == Parsed(parse, responses)
  {
    chains := [];
    for i := 0 to |responses|
      invariant chains == Parsed(parse, responses[..i])
    {
      assert responses[..i + 1][..i] == responses[..i];
      match parse(responses[i]) {
        case Some(chain) =>
          chains := chains + [chain];
        case None =>
          // the failure is logged and the response skipped
      }
    }
    assert responses[..|responses|] == responses;
  }

  /** The state of the reduction: the longest length seen and the chain that reached it, if any. */
  datatype Selection = Selection(maxLength: nat, chain: Option<Chain>)

  /**
   * The reduction over the candidates, from the local length: a candidate
   * takes over when it is strictly longer than the running maximum and valid.
   */
  function Select(h: Hasher, difficulty: nat, candidates: seq<Chain>, length: nat): Selection {
    if candidates == [] then Selection(length, None)
    else
      var s := Select(h, difficulty, candidates[..|candidates| - 1], length);
      var c := candidates[|candidates| - 1];
      if |c| > s.maxLength && IsValidChain(h, difficulty, c) then Selection(|c|, Some(c)) else s
  }

  /**
   * The reduction's invariant: the maximum starts at the local length and
   * only grows; a selected chain is a valid candidate whose length is the
   * maximum.
   */
  lemma {:induction false} SelectInvariant(h: Hasher, difficulty: nat, candidates: seq<Chain>, length: nat)
    ensures var s := Select(h, difficulty, candidates, length);
      && s.maxLength >= length
      && (s.chain.None? ==> s.maxLength == length)
      && (s.chain.Some? ==>
            && s.maxLength == |s.chain.value| > length
            && IsValidChain(h, difficulty, s.chain.value)
            && s.chain.value in candidates)
    decreases |candidates|
  {
    if candidates != [] {
      var earlier := candidates[..|candidates| - 1];
      SelectInvariant(h, difficulty, earlier, length);
      var s := Select(h, difficulty, earlier, length);
      if s.chain.Some? {
        assert s.chain.value in candidates by {
          var i :| 0 <= i < |earlier| && earlier[i] == s.chain.value;
          assert candidates[i] == earlier[i];
        }
      }
    }
  }

  /** No valid candidate is longer than the selected maximum. */
  lemma {:induction false} SelectMaximal(h: Hasher, difficulty: nat, candidates: seq<Chain>, length: nat)
    ensures forall i :: 0 <= i < |candidates| && IsValidChain(h, difficulty, candidates[i]) ==>
      |candidates[i]| <= Select(h, difficulty, candidates, length).maxLength
    decreases |candidates|
  {
    if candidates != [] {
      var earlier := candidates[..|candidates| - 1];
      SelectMaximal(h, difficulty, earlier, length);
      forall i | 0 <= i < |candidates| - 1 ensures candidates[i] == earlier[i] {
      }
    }
  }

  /** Later prefixes never lower the maximum: `max_length` never decreases. */
  lemma {:induction false} SelectMonotone(h: Hasher, difficulty: nat, candidates: seq<Chain>, length: nat, k: nat)
    requires k <= |candidates|
    ensures Select(h, difficulty, candidates[..k], length).maxLength <=
      Select(h, difficulty, candidates, length).maxLength
    decreases |candidates|
  {
    if k < |candidates| {
      var earlier := candidates[..|candidates| - 1];
      assert earlier[..k] == candidates[..k];
      SelectMonotone(h, difficulty, earlier, length, k);
    } else {
      assert candidates[..k] == candidates;
    }
  }

  /** A chain is selected exactly when some valid candidate is strictly longer than the local chain. */
  lemma SelectFound(h: Hasher, difficulty: nat, candidates: seq<Chain>, length: nat)
    ensures Select(h, difficulty, candidates, length).chain.Some? <==>
      exists i :: 0 <= i < |candidates| && |candidates[i]| > length && IsValidChain(h, difficulty, candidates[i])
  {
    SelectInvariant(h, difficulty, candidates, length);
    SelectMaximal(h, difficulty, candidates, length);
    var s := Select(h, difficulty, candidates, length);
    if s.chain.Some? {
      var i :| 0 <= i < |candidates| && candidates[i] == s.chain.value;
      assert |candidates[i]| > length && IsValidChain(h, difficulty, candidates[i]);
    }
  }

  /**
   * The selected chain is the first candidate to reach the maximum: every
   * valid candidate before it is strictly shorter, so a later candidate of
   * equal length never displaces an earlier one.
   */
  lemma {:induction false} SelectFirst(h: Hasher, difficulty: nat, candidates: seq<Chain>, length: nat)
    ensures var s := Select(h, difficulty, candidates, length);
      s.chain.Some? ==>
        exists i :: 0 <= i < |candidates| && candidates[i] == s.chain.value &&
          forall j :: 0 <= j < i && IsValidChain(h, difficulty, candidates[j]) ==> |candidates[j]| < |candidates[i]|
    decreases |candidates|
  {
    if candidates != [] {
      var n := |candidates| - 1;
      var earlier := candidates[..n];
      var s := Select(h, difficulty, earlier, length);
      var c := candidates[n];
      if |c| > s.maxLength && IsValidChain(h, difficulty, c) {
        SelectMaximal(h, difficulty, earlier, length);
        forall j | 0 <= j < n && IsValidChain(h, difficulty, candidates[j]) ensures |candidates[j]| < |c| {
          assert candidates[j] == earlier[j];
        }
      } else if s.chain.Some? {
        SelectFirst(h, difficulty, earlier, length);
        var i :| 0 <= i < |earlier| && earlier[i] == s.chain.value &&
          forall j :: 0 <= j < i && IsValidChain(h, difficulty, earlier[j]) ==> |earlier[j]| < |earlier[i]|;
        assert candidates[i] == earlier[i];
        forall j | 0 <= j < i && IsValidChain(h, difficulty, candidates[j]) ensures |candidates[j]| < |candidates[i]| {
          assert candidates[j] == earlier[j];
        }
      }
    }
  }

  /**
   * `resolve_conflicts`: reduce the peers' parsed chains to the longest
   * valid one, the earliest on a tie, and install it if it is strictly longer
   * than the local chain; report whether the chain was replaced. The peers' responses are given, in the order the peers are
   * visited.
   */
  method ResolveConflicts(blockchain: Blockchain, parse: string -> Option<Chain>, responses: seq<string>)
    returns (replaced: bool)
    modifies blockchain`chain
    ensures var best := Select(blockchain.hasher, blockchain.difficulty, Parsed(parse, responses), old(|blockchain.chain|));
      && replaced == best.chain.Some?
      && blockchain.chain == if replaced then best.chain.value else old(blockchain.chain)
    ensures replaced <==>
      exists c :: c in Parsed(parse, responses) &&
        |c| > old(|blockchain.chain|) && IsValidChain(blockchain.hasher, blockchain.difficulty, c)
    ensures replaced ==>
      && |blockchain.chain| > old(|blockchain.chain|)
      && IsValidChain(blockchain.hasher, blockchain.difficulty, blockchain.chain)
      && blockchain.chain != []
    ensures blockchain.currentTransactions == old(blockchain.currentTransactions)
    ensures blockchain.nodes == old(blockchain.nodes)
  {
    ghost var length := |blockchain.chain|;
    var newChain: Option<Chain> := None;
    var maxLength: nat := blockchain.Len();
    var candidates := Deserialize(parse, responses);
    for i := 0 to |candidates|
      invariant Selection(maxLength, newChain) ==
        Select(blockchain.hasher, blockchain.difficulty, candidates[..i], length)
      invariant maxLength >= length
      invariant newChain.Some? ==> maxLength == |newChain.value|
      invariant unchanged(blockchain)
    {
      SelectInvariant(blockchain.hasher, blockchain.difficulty, candidates[..i + 1], length);
      assert candidates[..i + 1][..i] == candidates[..i];
      var chain := candidates[i];
      if |chain| > maxLength {
        var valid := blockchain.ValidChain(chain);
        if valid {
          maxLength := |chain|;
          newChain := Some(chain);
        }
      }
    }
    assert candidates[..|candidates|] == candidates;
    SelectInvariant(blockchain.hasher, blockchain.difficulty, candidates, length);
    SelectFound(blockchain.hasher, blockchain.difficulty, candidates, length);
    ParsedMembers(parse, responses);
    replaced := newChain.Some?;
    if newChain.Some? {
      blockchain.Replace(newChain.value);
    }
  }
}
