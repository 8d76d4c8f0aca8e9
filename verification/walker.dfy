/**
  The random choices of the walk (markov_chain_ex3a.c): picking a start
  word and picking a successor by weight. Every call to `rand()` is
  replaced by a `raw: nat` draw the caller passes in, so a run is
  determined by its sequence of draws.
*/
module Walker {
  import opened Wrappers
  import opened MarkovChain

  /**
    `get_random_number`: `rand() % max_number`. `rand()` is never negative,
    so C's truncating `%` agrees with Dafny's; `max_number` must be positive.
  */
  function GetRandomNumber(raw: nat, maxNumber: int): (r: int)
    requires maxNumber > 0
    ensures 0 <= r < maxNumber
  {
    raw % maxNumber
  }

  /** Every number in range is the result of some draw, so no index is out of reach. */
  lemma GetRandomNumberCoversRange(maxNumber: int, k: int)
    requires 0 <= k < maxNumber
    ensures GetRandomNumber(k, maxNumber) == k
    ensures GetRandomNumber(k + maxNumber, maxNumber) == k
  {
    var n := k + maxNumber;
    var q := n / maxNumber;
    assert n == q * maxNumber + n % maxNumber;
    MultipleBounds(q, maxNumber);
    assert q == 1;
  }

  /** A multiple of a positive `m` is at least `2 * m` from a factor of 2 up, and not positive from a factor of 0 down. */
  lemma MultipleBounds(q: int, m: int)
    requires m > 0
    ensures q >= 2 ==> q * m >= 2 * m
    ensures q <= 0 ==> q * m <= 0
  {
  }

  /**
    `get_node_by_index`: follows `next` from the first node `index` times
    and returns the node reached, which is the `index`-th in insertion order.
  */
  function GetNodeByIndex(db: Database, index: nat): (r: WordNode)
    requires index < |db|
    ensures r == db[index]
  {
    if index == 0 then db[0] else GetNodeByIndex(db[1..], index - 1)
  }

  /** Where `get_first_random_node` stopped: the node's position and how many draws it used. */
  datatype Start = Start(index: nat, used: nat)

  /**
    `get_first_random_node`: draws positions until one holds a word that
    does not end in a period. With only the finite `draws` at hand the
    model answers `None` when every draw was rejected; the C loop keeps
    drawing.
  */
  function GetFirstRandomNode(db: Database, draws: seq<nat>): (r: Option<Start>)
    requires |db| > 0
    ensures r.Some? ==> r.value.index < |db| && !IsTerminal(db[r.value.index].word)
    ensures r.Some? ==> 1 <= r.value.used <= |draws|
                        && r.value.index == GetRandomNumber(draws[r.value.used - 1], |db|)
    ensures r.Some? ==> forall k :: 0 <= k < r.value.used - 1 ==> IsTerminal(db[GetRandomNumber(draws[k], |db|)].word)
    ensures r.None? <==> forall k :: 0 <= k < |draws| ==> IsTerminal(db[GetRandomNumber(draws[k], |db|)].word)
  {
    if |draws| == 0 then None
    else
      var i := GetRandomNumber(draws[0], |db|);
      if !IsTerminal(GetNodeByIndex(db, i).word) then Some(Start(i, 1))
      else
        match GetFirstRandomNode(db, draws[1..])
        case None => None
        case Some(s) => Some(Start(s.index, s.used + 1))
  }

  /** Every word that does not end in a period can be the start of a tweet. */
  lemma {:induction false} EveryNonTerminalCanStart(db: Database, i: nat)
    requires i < |db|
    requires !IsTerminal(db[i].word)
    ensures GetFirstRandomNode(db, [i]) == Some(Start(i, 1))
  {
    GetRandomNumberCoversRange(|db|, i);
  }

  /**
    The `for` loop of `get_next_random_node` from entry `j` on, where
    `inRange` is the running sum of the earlier entries' counts: the target
    of the first entry whose interval `[inRange, inRange + frequency)`
    contains `i`, or `None` (NULL) when the list ends first.
  */
  function SelectFrom(edges: seq<Edge>, i: int, j: nat, inRange: int): (r: Option<nat>)
    requires j <= |edges|
    ensures r.Some? ==> exists k :: j <= k < |edges| && edges[k].target == r.value
    decreases |edges| - j
  {
    if j == |edges| then None
    else if inRange <= i < inRange + edges[j].frequency then Some(edges[j].target)
    else SelectFrom(edges, i, j + 1, inRange + edges[j].frequency)
  }

  /**
    `get_next_random_node`: a number below `total_of_frequency` picks the
    entry whose interval of the running sum contains it. The result, when
    there is one, is always a successor recorded in the list.
  */
  function GetNextRandomNode(node: WordNode, raw: nat): (r: Option<nat>)
    requires node.total > 0
    ensures r.Some? ==> HasEdge(node.edges, r.value)
  {
    SelectFrom(node.edges, GetRandomNumber(raw, node.total), 0, 0)
  }

  /** Entry `k` owns the draws in `[Prefix(k), Prefix(k) + frequency)`. */
  predicate InInterval(edges: seq<Edge>, k: nat, i: int)
    requires k < |edges|
  {
    Prefix(edges, k) <= i < Prefix(edges, k) + edges[k].frequency
  }

  /** The running sum one entry further on. */
  lemma PrefixStep(edges: seq<Edge>, k: nat)
    requires k < |edges|
    ensures Prefix(edges, k + 1) == Prefix(edges, k) + edges[k].frequency
  {
    assert edges[..k + 1][..k] == edges[..k];
  }

  /** With positive counts the running sum strictly grows along the list. */
  lemma {:induction false} PrefixMonotone(edges: seq<Edge>, a: nat, b: nat)
    requires PositiveFrequencies(edges)
    requires a <= b <= |edges|
    ensures Prefix(edges, a) + (b - a) <= Prefix(edges, b)
    decreases b - a
  {
    if a < b {
      PrefixStep(edges, a);
      PrefixMonotone(edges, a + 1, b);
    }
  }

  /** No two entries' intervals overlap. */
  lemma IntervalUnique(edges: seq<Edge>, k1: nat, k2: nat, i: int)
    requires PositiveFrequencies(edges)
    requires k1 < |edges| && k2 < |edges|
    requires InInterval(edges, k1, i) && InInterval(edges, k2, i)
    ensures k1 == k2
  {
    if k1 < k2 {
      PrefixStep(edges, k1);
      PrefixMonotone(edges, k1 + 1, k2);
    } else if k2 < k1 {
      PrefixStep(edges, k2);
      PrefixMonotone(edges, k2 + 1, k1);
    }
  }

  /** Every number below the sum of the counts lies in some entry's interval. */
  lemma {:induction false} IntervalExists(edges: seq<Edge>, j: nat, i: int) returns (k: nat)
    requires PositiveFrequencies(edges)
    requires j <= |edges|
    requires Prefix(edges, j) <= i < SumFrequencies(edges)
    ensures j <= k < |edges| && InInterval(edges, k, i)
    decreases |edges| - j
  {
    assert edges[..|edges|] == edges;
    if j == |edges| {
      assert false;
    }
    PrefixStep(edges, j);
    if i < Prefix(edges, j) + edges[j].frequency {
      k := j;
    } else {
      k := IntervalExists(edges, j + 1, i);
    }
  }

  /** The scan from entry `j` returns the target of the entry whose interval holds `i`. */
  lemma {:induction false} SelectFromFindsInterval(edges: seq<Edge>, i: int, j: nat, k: nat)
    requires PositiveFrequencies(edges)
    requires j <= k < |edges|
    requires Prefix(edges, j) <= i
    requires InInterval(edges, k, i)
    ensures SelectFrom(edges, i, j, Prefix(edges, j)) == Some(edges[k].target)
    decreases k - j
  {
    PrefixStep(edges, j);
    if j < k {
      PrefixMonotone(edges, j + 1, k);
      SelectFromFindsInterval(edges, i, j + 1, k);
    }
  }

  /**
    Weighted selection: for a node whose total is the sum of its counts,
    the draw `r = raw % total` selects exactly the entry `k` whose
    interval `[Prefix(k), Prefix(k) + frequency(k))` contains `r`; such an
    entry always exists and is unique, so the result is never NULL and
    entry `k` is chosen by exactly `frequency(k)` of the `total` numbers.
  */
  lemma GetNextRandomNodeIsWeighted(node: WordNode, raw: nat) returns (k: nat)
    requires node.total > 0
    requires PositiveFrequencies(node.edges)
    requires node.total == SumFrequencies(node.edges)
    ensures k < |node.edges| && InInterval(node.edges, k, GetRandomNumber(raw, node.total))
    ensures GetNextRandomNode(node, raw) == Some(node.edges[k].target)
    ensures forall k' :: 0 <= k' < |node.edges| && InInterval(node.edges, k', GetRandomNumber(raw, node.total)) ==> k' == k
  {
    var i := GetRandomNumber(raw, node.total);
    assert node.edges[..0] == [];
    k := IntervalExists(node.edges, 0, i);
    SelectFromFindsInterval(node.edges, i, 0, k);
    forall k' | 0 <= k' < |node.edges| && InInterval(node.edges, k', i)
      ensures k' == k
    {
      IntervalUnique(node.edges, k, k', i);
    }
  }

  /** On a valid node of an `n`-node chain a step always succeeds and stays inside the chain. */
  lemma GetNextRandomNodeInChain(node: WordNode, n: nat, raw: nat)
    requires NodeValid(node, n)
    requires node.total > 0
    ensures GetNextRandomNode(node, raw).Some?
    ensures GetNextRandomNode(node, raw).value < n
  {
    var k := GetNextRandomNodeIsWeighted(node, raw);
  }

  /** Each entry's interval lies inside `[0, total)`, so every entry is picked by exactly `frequency` draws below the total. */
  lemma EveryEntryReachable(node: WordNode, k: nat, i: int)
    requires PositiveFrequencies(node.edges)
    requires node.total == SumFrequencies(node.edges)
    requires k < |node.edges|
    requires InInterval(node.edges, k, i)
    ensures 0 <= i < node.total
    ensures GetNextRandomNode(node, i) == Some(node.edges[k].target)
  {
    IntervalInsideTotal(node.edges, k);
    assert GetRandomNumber(i, node.total) == i;
    assert node.edges[..0] == [];
    SelectFromFindsInterval(node.edges, i, 0, k);
  }

  /** Every entry's interval lies inside `[0, SumFrequencies(edges))`. */
  lemma IntervalInsideTotal(edges: seq<Edge>, k: nat)
    requires PositiveFrequencies(edges)
    requires k < |edges|
    ensures 0 <= Prefix(edges, k)
    ensures Prefix(edges, k) + edges[k].frequency <= SumFrequencies(edges)
  {
    assert edges[..0] == [];
    assert edges[..|edges|] == edges;
    PrefixMonotone(edges, 0, k);
    PrefixStep(edges, k);
    PrefixMonotone(edges, k + 1, |edges|);
  }
}
