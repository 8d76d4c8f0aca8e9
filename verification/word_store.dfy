/**
  The word store: `get_node_from_database` and `add_to_database`
  (markov_chain_ex3a.c). Words are looked up by string equality (`strcmp`)
  and a new word is appended at the end of the database.
*/
module WordStore {
  import opened Wrappers
  import opened MarkovChain

  /**
    `get_node_from_database`: walks the list from its first node and returns
    the position of the first node whose word equals `w`, or `None` (NULL)
    when no node holds `w`.
  */
  function GetNodeFromDatabase(db: Database, w: string): (r: Option<nat>)
    ensures r.Some? ==> r.value < |db| && db[r.value].word == w
    ensures r.Some? ==> forall j :: 0 <= j < r.value ==> db[j].word != w
    ensures r.None? <==> forall i :: 0 <= i < |db| ==> db[i].word != w
  {
    if |db| == 0 then None
    else if db[0].word == w then Some(0)
    else
      match GetNodeFromDatabase(db[1..], w)
      case None => None
      case Some(k) => Some(k + 1)
  }

  /** The result of `add_to_database`: the database afterwards and the node returned. */
  datatype Interned = Interned(db: Database, node: Option<nat>)

  /** The node `add_to_database` creates for a new word. */
  function NewNode(w: string): WordNode
  {
    WordNode(w, [], 0)
  }

  /**
    `add_to_database`: an existing word yields its node and no change; a new
    word is copied into a fresh node with an empty frequency list, appended
    at the end and returned; when any of the allocations fails (`allocOk`
    false) the result is NULL and the database is unchanged.
  */
  function AddToDatabase(db: Database, w: string, allocOk: bool): (r: Interned)
    ensures r.node.Some? ==> r.node.value < |r.db| && r.db[r.node.value].word == w
    ensures r.node.None? <==> !allocOk && forall i :: 0 <= i < |db| ==> db[i].word != w
    ensures r.node.None? ==> r.db == db
    ensures (exists i :: 0 <= i < |db| && db[i].word == w) ==> r.db == db
    ensures r.db == db || r.db == db + [NewNode(w)]
    ensures |r.db| == |db| + 1 ==> r.node == Some(|db|)
    ensures DistinctWords(db) ==> DistinctWords(r.db)
  {
    match GetNodeFromDatabase(db, w)
    case Some(existing) => Interned(db, Some(existing))
    case None =>
      if !allocOk then Interned(db, None)
      else Interned(db + [NewNode(w)], Some(|db|))
  }

  /** Interning is idempotent: a second call with the same word finds the node the first returned and changes nothing. */
  lemma {:induction false} AddToDatabaseIdempotent(db: Database, w: string, first: bool, second: bool)
    requires DistinctWords(db)
    requires AddToDatabase(db, w, first).node.Some?
    ensures AddToDatabase(AddToDatabase(db, w, first).db, w, second) == AddToDatabase(db, w, first)
  {
    var r := AddToDatabase(db, w, first);
    var k := r.node.value;
    assert r.db[k].word == w;
    var again := GetNodeFromDatabase(r.db, w);
    assert again.Some?;
    assert again.value == k by {
      if again.value < k {
        assert r.db[again.value].word == w;
      } else if again.value > k {
        assert r.db[k].word == w;
      }
    }
  }

  /** Adding a word keeps every earlier node as it was and keeps the chain invariant. */
  lemma {:induction false} AddToDatabasePreservesChain(db: Database, w: string, allocOk: bool)
    requires ChainValid(db)
    requires |w| > 0
    ensures |AddToDatabase(db, w, allocOk).db| >= |db|
    ensures AddToDatabase(db, w, allocOk).db[..|db|] == db
    ensures ChainValid(AddToDatabase(db, w, allocOk).db)
  {
    var r := AddToDatabase(db, w, allocOk);
    if |r.db| == |db| + 1 {
      forall i | 0 <= i < |r.db|
        ensures NodeValid(r.db[i], |r.db|)
      {
        if i < |db| {
          assert NodeValid(db[i], |db|);
        }
      }
    }
  }
}
