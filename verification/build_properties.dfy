/**
  What a build records, stated against the text it read: the chain's words
  are the words read, the count of every transition `a -> b` is the number
  of times `b` directly followed `a` within one line, and `written_words`
  counts the words read.
*/
module BuildProperties {
  import opened Wrappers
  import opened MarkovChain
  import opened WordStore
  import opened FrequencyList
  import opened Builder

  /** How often the chain records that `b` followed `a`; 0 when either word is missing. */
  function EdgeCount(db: Database, a: string, b: string): int
  {
    match GetNodeFromDatabase(db, a)
    case None => 0
    case Some(i) =>
      match GetNodeFromDatabase(db, b)
      case None => 0
      case Some(j) => FrequencyTo(db[i].edges, j)
  }

  /** The number of positions where `b` directly follows `a` in `ws`. */
  function PairCount(ws: seq<string>, a: string, b: string): nat
  {
    if |ws| < 2 then 0
    else (if ws[0] == a && ws[1] == b then 1 else 0) + PairCount(ws[1..], a, b)
  }

  /** Whether the chain holds a node for `x`. */
  predicate Stored(db: Database, x: string)
  {
    GetNodeFromDatabase(db, x).Some?
  }

  // ---------------------------------------------------------------------
  // Lookups in a chain of distinct words

  /** In a chain of distinct words, looking up a node's word finds that node. */
  lemma FindInDistinct(db: Database, i: nat)
    requires DistinctWords(db)
    requires i < |db|
    ensures GetNodeFromDatabase(db, db[i].word) == Some(i)
  {
  }

  /** Lookups see only the words, so a chain with the same words answers alike. */
  lemma FindSameWords(db: Database, db': Database, x: string)
    requires |db'| == |db|
    requires forall i :: 0 <= i < |db| ==> db'[i].word == db[i].word
    ensures GetNodeFromDatabase(db', x) == GetNodeFromDatabase(db, x)
  {
  }

  /** A lookup after appending a node: an earlier match wins, else the new node, else nothing. */
  lemma FindAfterAppend(db: Database, n: WordNode, x: string)
    ensures var r := GetNodeFromDatabase(db + [n], x);
            if GetNodeFromDatabase(db, x).Some? then r == GetNodeFromDatabase(db, x)
            else if n.word == x then r == Some(|db|)
            else r.None?
  {
    var db' := db + [n];
    assert forall i :: 0 <= i < |db| ==> db'[i] == db[i];
    assert db'[|db|] == n;
  }

  // ---------------------------------------------------------------------
  // One interning and one recorded transition

  /** Interning a word changes no transition count. */
  lemma InternWordEdges(db: Database, mem: Memory, w: string, a: string, b: string)
    requires ChainValid(db)
    requires |w| > 0
    requires InternWord(db, mem, w).Some?
    ensures EdgeCount(InternWord(db, mem, w).value.db, a, b) == EdgeCount(db, a, b)
  {
    var added := AddToDatabase(db, w, mem.CanAllocate());
    var db' := added.db;
    if db' != db {
      assert db' == db + [NewNode(w)];
      FindAfterAppend(db, NewNode(w), a);
      FindAfterAppend(db, NewNode(w), b);
      var fa := GetNodeFromDatabase(db, a);
      if fa.Some? && GetNodeFromDatabase(db, b).None? && b == w {
        FrequencyToAbsent(db[fa.value].edges, |db|);
      }
    }
  }

  /** Interning a word adds exactly that word to the chain's words. */
  lemma InternWordWords(db: Database, mem: Memory, w: string, x: string)
    requires ChainValid(db)
    requires |w| > 0
    requires InternWord(db, mem, w).Some?
    ensures Stored(InternWord(db, mem, w).value.db, x) <==> Stored(db, x) || x == w
  {
    var added := AddToDatabase(db, w, mem.CanAllocate());
    var db' := added.db;
    if db' != db {
      assert db' == db + [NewNode(w)];
      FindAfterAppend(db, NewNode(w), x);
    }
  }

  /** Recording `from -> to` adds one to exactly that transition's count. */
  lemma RecordTransitionEdges(db: Database, mem: Memory, from: nat, to: nat, a: string, b: string)
    requires ChainValid(db)
    requires from < |db| && to < |db|
    requires RecordTransition(db, mem, from, to).Some?
    ensures EdgeCount(RecordTransition(db, mem, from, to).value.db, a, b)
            == EdgeCount(db, a, b) + (if a == db[from].word && b == db[to].word then 1 else 0)
  {
    var rec := AddNodeToFrequencyList(db, db[from], to, mem.CanAllocate());
    var db' := db[from := rec.node];
    assert RecordTransition(db, mem, from, to).value.db == db';
    FindSameWords(db, db', a);
    FindSameWords(db, db', b);
    FindInDistinct(db, from);
    FindInDistinct(db, to);
    var fa := GetNodeFromDatabase(db, a);
    var fb := GetNodeFromDatabase(db, b);
    if fa.Some? && fb.Some? && fa.value == from {
      AddNodeToFrequencyListCounts(db, db[from], to, mem.CanAllocate(), fb.value);
    }
  }

  /** Recording a transition keeps the chain's words. */
  lemma RecordTransitionWords(db: Database, mem: Memory, from: nat, to: nat, x: string)
    requires ChainValid(db)
    requires from < |db| && to < |db|
    requires RecordTransition(db, mem, from, to).Some?
    ensures Stored(RecordTransition(db, mem, from, to).value.db, x) <==> Stored(db, x)
  {
    var db' := RecordTransition(db, mem, from, to).value.db;
    FindSameWords(db, db', x);
  }

  /**
    One pass of the loop counts one word, lowers the flag only when the
    count reaches a limit other than `READ_ALL_WORDS`, and fails only when
    memory runs out.
  */
  lemma TakeWordCounts(limit: int, st: FillState, prev: nat, w: string)
    requires ChainValid(st.db) && prev < |st.db| && |w| > 0
    ensures var r := TakeWord(limit, st, prev, w);
            && (r.None? ==> !st.mem.Unlimited?)
            && (r.Some? ==> r.value.state == CountWord(limit, true, st, r.value.state.db, r.value.state.mem))
            && (r.Some? && st.mem.Unlimited? ==> r.value.state.mem.Unlimited?)
  {
    var interned := InternWord(st.db, st.mem, w);
    if interned.Some? {
      var added := interned.value;
      assert st.mem.Unlimited? ==> added.mem.Unlimited?;
      var rec := RecordTransition(added.db, added.mem, prev, added.node);
      assert rec.Some? && st.mem.Unlimited? ==> rec.value.mem.Unlimited?;
    }
  }

  /** One pass of the loop adds one to the count of `prev -> w` only. */
  lemma TakeWordEdges(limit: int, st: FillState, prev: nat, w: string, a: string, b: string)
    requires ChainValid(st.db) && prev < |st.db| && |w| > 0
    requires TakeWord(limit, st, prev, w).Some?
    ensures EdgeCount(TakeWord(limit, st, prev, w).value.state.db, a, b)
            == EdgeCount(st.db, a, b) + (if a == st.db[prev].word && b == w then 1 else 0)
  {
    var added := InternWord(st.db, st.mem, w).value;
    InternWordEdges(st.db, st.mem, w, a, b);
    RecordTransitionEdges(added.db, added.mem, prev, added.node, a, b);
  }

  /** One pass of the loop adds `w` to the chain's words. */
  lemma TakeWordWords(limit: int, st: FillState, prev: nat, w: string, x: string)
    requires ChainValid(st.db) && prev < |st.db| && |w| > 0
    requires TakeWord(limit, st, prev, w).Some?
    ensures Stored(TakeWord(limit, st, prev, w).value.state.db, x) <==> Stored(st.db, x) || x == w
  {
    var added := InternWord(st.db, st.mem, w).value;
    InternWordWords(st.db, st.mem, w, x);
    RecordTransitionWords(added.db, added.mem, prev, added.node, x);
  }

  // ---------------------------------------------------------------------
  // The loop over the rest of a line

  /** A non-empty prefix is its first element followed by a prefix of the tail. */
  lemma TakeCons<T>(s: seq<T>, n: nat)
    requires 1 <= n <= |s|
    ensures s[..n] == [s[0]] + s[1..][..n - 1]
  {
  }

  /**
    From `st` to `r` the chain's words gain exactly the first `c` words of
    `ws`, with `c` the words counted in between.
  */
  predicate WordsGrow(st: FillState, r: FillState, ws: seq<string>, x: string)
  {
    var c := r.written - st.written;
    && 0 <= c <= |ws|
    && (Stored(r.db, x) <==> Stored(st.db, x) || x in ws[..c])
  }

  /** One word taken, then `WordsGrow` for the rest, gives `WordsGrow` for the whole. */
  lemma WordsStep(st: FillState, t: FillState, r: FillState, ws: seq<string>, x: string)
    requires 0 < |ws|
    requires t.written == st.written + 1
    requires Stored(t.db, x) <==> Stored(st.db, x) || x == ws[0]
    requires WordsGrow(t, r, ws[1..], x)
    ensures WordsGrow(st, r, ws, x)
  {
    TakeCons(ws, r.written - st.written);
  }

  /** One transition recorded, then `RestEdgesGrow` for the rest, gives `RestEdgesGrow` for the whole. */
  lemma EdgesStep(st: FillState, t: FillState, r: FillState, p: string, rest: seq<string>, a: string, b: string)
    requires 0 < |rest|
    requires t.written == st.written + 1
    requires EdgeCount(t.db, a, b) == EdgeCount(st.db, a, b) + (if a == p && b == rest[0] then 1 else 0)
    requires RestEdgesGrow(t, r, rest[0], rest[1..], a, b)
    ensures RestEdgesGrow(st, r, p, rest, a, b)
  {
    var c1 := r.written - t.written;
    TakeCons(rest, c1 + 1);
    PairCountCons(p, rest[0], rest[1..][..c1], a, b);
  }

  /** The pairs of a sequence are its first pair and the pairs of its tail. */
  lemma PairCountCons(p: string, q: string, ws: seq<string>, a: string, b: string)
    ensures PairCount([p] + ([q] + ws), a, b) == (if p == a && q == b then 1 else 0) + PairCount([q] + ws, a, b)
  {
    assert ([p] + ([q] + ws))[1..] == [q] + ws;
  }

  /** The first word and the tail of a sequence of non-empty words. */
  lemma NonEmptyTail(ws: seq<string>)
    requires |ws| > 0 && NonEmptyWords(ws)
    ensures |ws[0]| > 0 && NonEmptyWords(ws[1..])
  {
  }

  /** One turn of the loop, when the flag is up and a word remains. */
  lemma FillRestUnfold(limit: int, st: FillState, prev: nat, rest: seq<string>, t: Taken)
    requires ChainValid(st.db) && prev < |st.db| && NonEmptyWords(rest)
    requires |rest| > 0 && st.flag
    requires TakeWord(limit, st, prev, rest[0]) == Some(t)
    ensures FillRest(limit, st, prev, rest) == FillRest(limit, t.state, t.node, rest[1..])
  {
  }

  /**
    `written_words` grows by one per word the loop takes; the loop takes
    every word unless it lowers the flag, which it does only when the count
    equals a limit other than `READ_ALL_WORDS`; a lowered flag stops it at once.
  */
  lemma {:induction false} FillRestAccounting(limit: int, st: FillState, prev: nat, rest: seq<string>)
    requires ChainValid(st.db) && prev < |st.db| && NonEmptyWords(rest)
    requires FillRest(limit, st, prev, rest).Filled?
    ensures var r := FillRest(limit, st, prev, rest).state;
            && st.written <= r.written <= st.written + |rest|
            && (!st.flag ==> r == st)
            && (r.flag ==> r.written == st.written + |rest|)
            && (limit == ReadAllWords ==> r.flag == st.flag)
            && (st.flag && !r.flag ==> limit != ReadAllWords && r.written == limit && r.written > st.written)
    decreases |rest|
  {
    if |rest| > 0 && st.flag {
      TakeWordCounts(limit, st, prev, rest[0]);
      var t := TakeWord(limit, st, prev, rest[0]).value;
      FillRestUnfold(limit, st, prev, rest, t);
      NonEmptyTail(rest);
      FillRestAccounting(limit, t.state, t.node, rest[1..]);
    }
  }

  /** With unlimited memory the loop never fails. */
  lemma {:induction false} FillRestUnlimited(limit: int, st: FillState, prev: nat, rest: seq<string>)
    requires ChainValid(st.db) && prev < |st.db| && NonEmptyWords(rest)
    requires st.mem.Unlimited?
    ensures FillRest(limit, st, prev, rest).Filled?
    ensures FillRest(limit, st, prev, rest).state.mem.Unlimited?
    decreases |rest|
  {
    if |rest| > 0 && st.flag {
      TakeWordCounts(limit, st, prev, rest[0]);
      var t := TakeWord(limit, st, prev, rest[0]).value;
      FillRestUnfold(limit, st, prev, rest, t);
      NonEmptyTail(rest);
      FillRestUnlimited(limit, t.state, t.node, rest[1..]);
    }
  }

  /**
    From `st` to `r` the chain gains, for the transition `a -> b`, the
    adjacent pairs of `p` followed by the first `c` words of `rest`, with
    `c` the words counted in between.
  */
  predicate RestEdgesGrow(st: FillState, r: FillState, p: string, rest: seq<string>, a: string, b: string)
  {
    var c := r.written - st.written;
    && 0 <= c <= |rest|
    && EdgeCount(r.db, a, b) == EdgeCount(st.db, a, b) + PairCount([p] + rest[..c], a, b)
  }

  /**
    With `c` the number of words the loop took, the count of every
    transition grows by the adjacent pairs of the previous word followed
    by those `c` words.
  */
  lemma {:induction false} FillRestEdges(limit: int, st: FillState, prev: nat, rest: seq<string>, a: string, b: string)
    requires ChainValid(st.db) && prev < |st.db| && NonEmptyWords(rest)
    requires FillRest(limit, st, prev, rest).Filled?
    ensures RestEdgesGrow(st, FillRest(limit, st, prev, rest).state, st.db[prev].word, rest, a, b)
    decreases |rest|
  {
    var r := FillRest(limit, st, prev, rest).state;
    if |rest| == 0 || !st.flag {
      assert [st.db[prev].word] + rest[..r.written - st.written] == [st.db[prev].word];
    } else {
      var t := TakeWord(limit, st, prev, rest[0]).value;
      FillRestUnfold(limit, st, prev, rest, t);
      TakeWordCounts(limit, st, prev, rest[0]);
      TakeWordEdges(limit, st, prev, rest[0], a, b);
      NonEmptyTail(rest);
      FillRestEdges(limit, t.state, t.node, rest[1..], a, b);
      EdgesStep(st, t.state, r, st.db[prev].word, rest, a, b);
    }
  }

  /** With `c` the number of words the loop took, the chain gains exactly those words. */
  lemma {:induction false} FillRestWords(limit: int, st: FillState, prev: nat, rest: seq<string>, x: string)
    requires ChainValid(st.db) && prev < |st.db| && NonEmptyWords(rest)
    requires FillRest(limit, st, prev, rest).Filled?
    ensures WordsGrow(st, FillRest(limit, st, prev, rest).state, rest, x)
    decreases |rest|
  {
    var r := FillRest(limit, st, prev, rest).state;
    if |rest| == 0 || !st.flag {
      assert rest[..r.written - st.written] == [];
    } else {
      var t := TakeWord(limit, st, prev, rest[0]).value;
      FillRestUnfold(limit, st, prev, rest, t);
      TakeWordCounts(limit, st, prev, rest[0]);
      TakeWordWords(limit, st, prev, rest[0], x);
      NonEmptyTail(rest);
      FillRestWords(limit, t.state, t.node, rest[1..], x);
      WordsStep(st, t.state, r, rest, x);
    }
  }

  /**
    With the flag up and the count below a limit other than
    `READ_ALL_WORDS`, the loop stops exactly at the limit: it takes every
    word when they run out first, and otherwise stops with the flag down
    and the count equal to the limit.
  */
  lemma {:induction false} FillRestCapped(limit: int, st: FillState, prev: nat, rest: seq<string>)
    requires ChainValid(st.db) && prev < |st.db| && NonEmptyWords(rest)
    requires FillRest(limit, st, prev, rest).Filled?
    requires st.flag && limit != ReadAllWords && st.written < limit
    ensures var r := FillRest(limit, st, prev, rest).state;
            && (st.written + |rest| < limit ==> r.flag && r.written == st.written + |rest|)
            && (st.written + |rest| >= limit ==> !r.flag && r.written == limit)
    decreases |rest|
  {
    if |rest| > 0 {
      TakeWordCounts(limit, st, prev, rest[0]);
      var t := TakeWord(limit, st, prev, rest[0]).value;
      FillRestUnfold(limit, st, prev, rest, t);
      NonEmptyTail(rest);
      if t.state.flag {
        FillRestCapped(limit, t.state, t.node, rest[1..]);
      }
    }
  }
}
