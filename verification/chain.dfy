/**
  The data model of the Markov chain (markov_chain_ex3a.h).

  A `MarkovChain` owns a linked list of `MarkovNode`s; here the list is a
  sequence and a node is identified by its position in it, which is the
  insertion order the C list keeps. A node's frequency list is a sequence
  of `Edge`s whose `target` is the database position of the successor
  word, standing for the `MarkovNode*` the C struct stores.
*/
module MarkovChain {

  /** One `MarkovNodeFrequency`: a successor node and how often it followed. */
  datatype Edge = Edge(target: nat, frequency: int)

  /**
    One `MarkovNode`: its word, its frequency list and `total_of_frequency`.
    `frequency_list_size` is the length of `edges`.
  */
  datatype WordNode = WordNode(word: string, edges: seq<Edge>, total: int)

  /** The chain's database: nodes in insertion order. */
  type Database = seq<WordNode>

  /** The character that ends a sentence. */
  const Period: char := '.'

  /** A word whose last character is a period ends a sentence. */
  predicate IsTerminal(w: string)
  {
    |w| > 0 && w[|w| - 1] == Period
  }

  /** The sum of the frequencies of `edges`, accumulated from the back. */
  function SumFrequencies(edges: seq<Edge>): int
  {
    if |edges| == 0 then 0
    else SumFrequencies(edges[..|edges| - 1]) + edges[|edges| - 1].frequency
  }

  /** The sum of the frequencies of the first `j` entries. */
  function Prefix(edges: seq<Edge>, j: nat): int
    requires j <= |edges|
  {
    SumFrequencies(edges[..j])
  }

  /** How often `target` is recorded as a successor in `edges`. */
  function FrequencyTo(edges: seq<Edge>, target: nat): int
  {
    if |edges| == 0 then 0
    else FrequencyTo(edges[..|edges| - 1], target)
         + (if edges[|edges| - 1].target == target then edges[|edges| - 1].frequency else 0)
  }

  predicate TargetsBelow(edges: seq<Edge>, n: nat)
  {
    forall i :: 0 <= i < |edges| ==> edges[i].target < n
  }

  predicate DistinctTargets(edges: seq<Edge>)
  {
    forall i, j :: 0 <= i < j < |edges| ==> edges[i].target != edges[j].target
  }

  predicate PositiveFrequencies(edges: seq<Edge>)
  {
    forall i :: 0 <= i < |edges| ==> edges[i].frequency >= 1
  }

  /**
    The invariant of one node in a database of `n` nodes: a non-empty word,
    successors that exist, one entry per distinct successor, every entry
    counted at least once, and `total_of_frequency` equal to the sum of
    the counts.
  */
  predicate NodeValid(node: WordNode, n: nat)
  {
    && |node.word| > 0
    && TargetsBelow(node.edges, n)
    && DistinctTargets(node.edges)
    && PositiveFrequencies(node.edges)
    && node.total == SumFrequencies(node.edges)
  }

  predicate DistinctWords(db: Database)
  {
    forall i, j :: 0 <= i < j < |db| ==> db[i].word != db[j].word
  }

  /** The invariant every chain the builder produces keeps. */
  predicate ChainValid(db: Database)
  {
    && DistinctWords(db)
    && forall i :: 0 <= i < |db| ==> NodeValid(db[i], |db|)
  }

  /** True when some entry of `edges` leads to `target`. */
  predicate HasEdge(edges: seq<Edge>, target: nat)
  {
    exists i :: 0 <= i < |edges| && edges[i].target == target
  }

  /**
    The outcome of the allocations `malloc` and `realloc` are asked for, in
    order: either every one succeeds, or the first `successes` succeed and
    the next one fails.
  */
  datatype Memory = Unlimited | FailsAfter(successes: nat)
  {
    predicate CanAllocate()
    {
      Unlimited? || successes > 0
    }

    /** The memory state after one allocation attempt that succeeded. */
    function Consume(): Memory
    {
      if FailsAfter? && successes > 0 then FailsAfter(successes - 1) else this
    }
  }

  /** When every count is positive, `total_of_frequency` is at least `frequency_list_size`. */
  lemma {:induction false} SumOfPositiveIsAtLeastLength(edges: seq<Edge>)
    requires PositiveFrequencies(edges)
    ensures SumFrequencies(edges) >= |edges|
  {
    if |edges| > 0 {
      SumOfPositiveIsAtLeastLength(edges[..|edges| - 1]);
    }
  }
}
