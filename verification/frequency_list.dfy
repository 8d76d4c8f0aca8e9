/**
  The per-word frequency table: `is_node_in_frequency_list` and
  `add_node_to_frequency_list` (markov_chain_ex3a.c).
*/
module FrequencyList {
  import opened MarkovChain

  /** `IS_NOT_ON_LIST`, the index returned when a word has no entry. */
  const NotOnList: int := -1

  /**
    `is_node_in_frequency_list`: the first index whose target's word equals
    `w`, or `NotOnList`.
  */
  function IsNodeInFrequencyList(db: Database, edges: seq<Edge>, w: string): (r: int)
    requires TargetsBelow(edges, |db|)
    ensures r == NotOnList <==> forall i :: 0 <= i < |edges| ==> db[edges[i].target].word != w
    ensures r != NotOnList ==> 0 <= r < |edges| && db[edges[r].target].word == w
    ensures r != NotOnList ==> forall j :: 0 <= j < r ==> db[edges[j].target].word != w
  {
    if |edges| == 0 then NotOnList
    else if db[edges[0].target].word == w then 0
    else
      var k := IsNodeInFrequencyList(db, edges[1..], w);
      if k == NotOnList then NotOnList else k + 1
  }

  /** The node after `add_node_to_frequency_list`, and its return code (0 success, 1 allocation error). */
  datatype Recorded = Recorded(node: WordNode, status: int)

  /**
    `add_node_to_frequency_list`: records that the node at `target` followed
    `node`. An existing entry for the successor's word gets one more
    occurrence; otherwise the list grows by one entry `(target, 1)`, unless
    `realloc` fails (`allocOk` false), in which case 1 is returned and the
    node is unchanged. The total grows by one on success.
  */
  function AddNodeToFrequencyList(db: Database, node: WordNode, target: nat, allocOk: bool): (r: Recorded)
    requires target < |db|
    requires TargetsBelow(node.edges, |db|)
    ensures r.status == 0 || r.status == 1
    ensures r.status == 1 <==> !allocOk && !HasEdgeToWord(db, node.edges, db[target].word)
    ensures r.status == 1 ==> r.node == node
    ensures r.node.word == node.word
    ensures r.status == 0 ==> r.node.total == node.total + 1
    ensures r.status == 0 && HasEdgeToWord(db, node.edges, db[target].word) ==> |r.node.edges| == |node.edges|
    ensures r.status == 0 && HasEdgeToWord(db, node.edges, db[target].word) ==>
              forall i :: 0 <= i < |node.edges| ==>
                && r.node.edges[i].target == node.edges[i].target
                && r.node.edges[i].frequency
                   == node.edges[i].frequency + (if i == IsNodeInFrequencyList(db, node.edges, db[target].word) then 1 else 0)
    ensures r.status == 0 && HasEdgeToWord(db, node.edges, db[target].word) && DistinctWords(db) && DistinctTargets(node.edges) ==>
              forall i :: 0 <= i < |node.edges| ==>
                && r.node.edges[i].target == node.edges[i].target
                && r.node.edges[i].frequency
                   == node.edges[i].frequency + (if db[node.edges[i].target].word == db[target].word then 1 else 0)
    ensures r.status == 0 && !HasEdgeToWord(db, node.edges, db[target].word) ==>
              r.node.edges == node.edges + [Edge(target, 1)]
    ensures TargetsBelow(r.node.edges, |db|)
  {
    var k := IsNodeInFrequencyList(db, node.edges, db[target].word);
    if k != NotOnList then
      var e := node.edges[k];
      Recorded(node.(edges := node.edges[k := Edge(e.target, e.frequency + 1)], total := node.total + 1), 0)
    else if !allocOk then
      Recorded(node, 1)
    else
      Recorded(node.(edges := node.edges + [Edge(target, 1)], total := node.total + 1), 0)
  }

  /** Some entry of `edges` leads to a node whose word is `w`. */
  predicate HasEdgeToWord(db: Database, edges: seq<Edge>, w: string)
    requires TargetsBelow(edges, |db|)
  {
    exists i :: 0 <= i < |edges| && db[edges[i].target].word == w
  }

  /** Raising the count of entry `k` raises the sum by the same amount. */
  lemma {:induction false} SumAfterUpdate(edges: seq<Edge>, k: nat, e: Edge)
    requires k < |edges|
    ensures SumFrequencies(edges[k := e]) == SumFrequencies(edges) - edges[k].frequency + e.frequency
    decreases |edges|
  {
    var last := |edges| - 1;
    if k == last {
      assert edges[k := e][..last] == edges[..last];
    } else {
      assert edges[k := e][..last] == edges[..last][k := e];
      SumAfterUpdate(edges[..last], k, e);
    }
  }

  /** Raising the count of entry `k` by `d` raises the count of its target by `d` and of no other target. */
  lemma {:induction false} FrequencyToAfterUpdate(edges: seq<Edge>, k: nat, d: int, t: nat)
    requires k < |edges|
    ensures FrequencyTo(edges[k := Edge(edges[k].target, edges[k].frequency + d)], t)
            == FrequencyTo(edges, t) + (if edges[k].target == t then d else 0)
    decreases |edges|
  {
    var e := Edge(edges[k].target, edges[k].frequency + d);
    var last := |edges| - 1;
    if k == last {
      assert edges[k := e][..last] == edges[..last];
    } else {
      assert edges[k := e][..last] == edges[..last][k := e];
      FrequencyToAfterUpdate(edges[..last], k, d, t);
    }
  }

  /** A target below every entry's target has no recorded occurrence. */
  lemma {:induction false} FrequencyToAbsent(edges: seq<Edge>, t: nat)
    requires forall i :: 0 <= i < |edges| ==> edges[i].target != t
    ensures FrequencyTo(edges, t) == 0
  {
    if |edges| > 0 {
      FrequencyToAbsent(edges[..|edges| - 1], t);
    }
  }

  /**
    `add_node_to_frequency_list` preserves the node invariant: the total
    stays the sum of the counts, no two entries share a target, and every
    count stays positive.
  */
  lemma {:induction false} AddNodeToFrequencyListPreservesNode(db: Database, node: WordNode, target: nat, allocOk: bool)
    requires target < |db|
    requires DistinctWords(db)
    requires NodeValid(node, |db|)
    ensures NodeValid(AddNodeToFrequencyList(db, node, target, allocOk).node, |db|)
  {
    var r := AddNodeToFrequencyList(db, node, target, allocOk);
    var k := IsNodeInFrequencyList(db, node.edges, db[target].word);
    if r.status == 0 {
      if k != NotOnList {
        IncrementPreservesNode(node, k, |db|);
      } else {
        AppendPreservesNode(db, node, target);
      }
    }
  }

  /** Raising one entry's count and the total by one keeps the node invariant. */
  lemma IncrementPreservesNode(node: WordNode, k: nat, n: nat)
    requires k < |node.edges|
    requires NodeValid(node, n)
    ensures var e := node.edges[k];
            NodeValid(node.(edges := node.edges[k := Edge(e.target, e.frequency + 1)], total := node.total + 1), n)
  {
    var e := node.edges[k];
    var edges' := node.edges[k := Edge(e.target, e.frequency + 1)];
    SumAfterUpdate(node.edges, k, Edge(e.target, e.frequency + 1));
    assert forall i :: 0 <= i < |edges'| ==> edges'[i].target == node.edges[i].target;
  }

  /** Appending `(target, 1)` for a successor word not yet listed keeps the node invariant. */
  lemma AppendPreservesNode(db: Database, node: WordNode, target: nat)
    requires target < |db|
    requires NodeValid(node, |db|)
    requires forall i :: 0 <= i < |node.edges| ==> db[node.edges[i].target].word != db[target].word
    ensures NodeValid(node.(edges := node.edges + [Edge(target, 1)], total := node.total + 1), |db|)
  {
    var edges' := node.edges + [Edge(target, 1)];
    assert edges'[..|edges'| - 1] == node.edges;
    assert SumFrequencies(edges') == node.total + 1;
    assert forall i :: 0 <= i < |node.edges| ==> edges'[i] == node.edges[i];
    forall i, j | 0 <= i < j < |edges'|
      ensures edges'[i].target != edges'[j].target
    {
      if j == |edges'| - 1 {
        assert db[node.edges[i].target].word != db[target].word;
      }
    }
  }

  /**
    In a database with distinct words, recording `target` after `node`
    raises the count of exactly that successor by one and leaves every
    other successor's count as it was; on allocation failure nothing changes.
  */
  lemma {:induction false} AddNodeToFrequencyListCounts(db: Database, node: WordNode, target: nat, allocOk: bool, t: nat)
    requires target < |db|
    requires DistinctWords(db)
    requires TargetsBelow(node.edges, |db|)
    ensures var r := AddNodeToFrequencyList(db, node, target, allocOk);
            FrequencyTo(r.node.edges, t)
            == FrequencyTo(node.edges, t) + (if r.status == 0 && t == target then 1 else 0)
  {
    var r := AddNodeToFrequencyList(db, node, target, allocOk);
    var k := IsNodeInFrequencyList(db, node.edges, db[target].word);
    if k != NotOnList {
      var e := node.edges[k];
      assert e.target == target by {
        assert db[e.target].word == db[target].word;
      }
      FrequencyToAfterUpdate(node.edges, k, 1, t);
    } else if r.status == 0 {
      var edges' := node.edges + [Edge(target, 1)];
      assert edges'[..|edges'| - 1] == node.edges;
    }
  }
}
