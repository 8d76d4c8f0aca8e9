/**
  The walk that produces tweets: `generate_tweet` and `print_tweets`
  (tweets_generator_ex3a.c). Printing is left out; a tweet is the sequence
  of node positions, and so of words, it would print.
*/
module Tweets {
  import opened Wrappers
  import opened MarkovChain
  import opened Walker

  /** `MAX_WORDS`, the length bound `print_tweets` passes to `generate_tweet`. */
  const MaxWords: int := 20

  /** Why a walk ended. */
  datatype Stop =
    | ReachedMaxLength  // `i < max_length` became false
    | ReachedPeriod     // the last word emitted ends in a period
    | ZeroTotal         // the next step would compute `rand() % 0`, which C leaves undefined
    | DrawsExhausted    // the model ran out of the draws it was given

  /** The successors a walk emitted after its current node, and why it ended. */
  datatype Walk = Walk(successors: seq<nat>, stop: Stop)

  /** Every entry of `path` is a position in the chain. */
  predicate InChain(db: Database, path: seq<nat>)
  {
    forall k :: 0 <= k < |path| ==> path[k] < |db|
  }

  /** `path[k + 1]` is a recorded successor of `path[k]`, for every `k`. */
  predicate FollowsEdges(db: Database, path: seq<nat>)
    requires InChain(db, path)
  {
    forall k :: 0 <= k < |path| - 1 ==> HasEdge(db[path[k]].edges, path[k + 1])
  }

  function Max(a: int, b: int): int
  {
    if a < b then b else a
  }

  /** The draw `raw` taken at node `from` selects node `to`. */
  predicate Selects(db: Database, from: nat, raw: nat, to: nat)
  {
    from < |db| && db[from].total > 0 && GetNextRandomNode(db[from], raw) == Some(to)
  }

  /**
    Draw `k` selects successor `k` among the recorded successors of the
    node before it: `cur` for the first, successor `k - 1` after that.
  */
  predicate DrawnSteps(db: Database, cur: nat, draws: seq<nat>, succ: seq<nat>)
    requires cur < |db| && InChain(db, succ) && |succ| <= |draws|
  {
    forall k :: 0 <= k < |succ| ==> Selects(db, if k == 0 then cur else succ[k - 1], draws[k], succ[k])
  }

  /** No successor but the last ends in a period. */
  predicate OpenInterior(db: Database, succ: seq<nat>)
    requires InChain(db, succ)
  {
    forall k :: 0 <= k < |succ| - 1 ==> !IsTerminal(db[succ[k]].word)
  }

  /** The reason a walk gives for ending holds. */
  predicate StopHolds(db: Database, cur: nat, emitted: int, maxLength: int, draws: seq<nat>, w: Walk)
    requires cur < |db| && InChain(db, w.successors)
  {
    var succ := w.successors;
    && (w.stop == ReachedPeriod <==> |succ| > 0 && IsTerminal(db[succ[|succ| - 1]].word))
    && (w.stop == ReachedMaxLength <==>
          emitted + |succ| >= maxLength && !(|succ| > 0 && IsTerminal(db[succ[|succ| - 1]].word)))
    && (w.stop == ZeroTotal ==>
          emitted + |succ| < maxLength && db[if |succ| == 0 then cur else succ[|succ| - 1]].total == 0)
    && (w.stop == DrawsExhausted ==>
          emitted + |succ| < maxLength && db[if |succ| == 0 then cur else succ[|succ| - 1]].total > 0
          && |succ| == |draws|)
  }

  /**
    What the loop of `generate_tweet` guarantees about the successors `w`
    it emits from node `cur` after `emitted` words: at most one per draw,
    never past `maxLength` words in all, each one the node the next draw
    selects among the recorded successors of the previous one, none but
    the last ending in a period, and an end reason that holds.
  */
  predicate IsWalk(db: Database, cur: nat, emitted: int, maxLength: int, draws: seq<nat>, w: Walk)
    requires cur < |db|
  {
    && |w.successors| <= |draws|
    && emitted + |w.successors| <= Max(emitted, maxLength)
    && InChain(db, w.successors)
    && DrawnSteps(db, cur, draws, w.successors)
    && OpenInterior(db, w.successors)
    && StopHolds(db, cur, emitted, maxLength, draws, w)
  }

  /** A step selected by the first draw, in front of steps drawn from the rest. */
  lemma ConsDrawnSteps(db: Database, cur: nat, draws: seq<nat>, next: nat, rest: seq<nat>)
    requires cur < |db| && next < |db| && InChain(db, rest)
    requires 0 < |draws| && |rest| <= |draws| - 1
    requires Selects(db, cur, draws[0], next)
    requires DrawnSteps(db, next, draws[1..], rest)
    ensures InChain(db, [next] + rest)
    ensures DrawnSteps(db, cur, draws, [next] + rest)
  {
    var succ := [next] + rest;
    forall k | 0 <= k < |succ|
      ensures succ[k] < |db|
    {
      if k > 0 { assert succ[k] == rest[k - 1]; }
    }
    forall k | 0 <= k < |succ|
      ensures Selects(db, if k == 0 then cur else succ[k - 1], draws[k], succ[k])
    {
      if k > 0 {
        var j := k - 1;
        assert succ[k] == rest[j] && draws[k] == draws[1..][j];
        var from := if j == 0 then next else rest[j - 1];
        assert Selects(db, from, draws[1..][j], rest[j]);
        assert succ[k - 1] == from;
      }
    }
  }

  /** A successor not ending in a period, in front of a run whose interior has none. */
  lemma ConsOpenInterior(db: Database, next: nat, rest: seq<nat>)
    requires next < |db| && InChain(db, rest) && InChain(db, [next] + rest)
    requires !IsTerminal(db[next].word)
    requires OpenInterior(db, rest)
    ensures OpenInterior(db, [next] + rest)
  {
    var succ := [next] + rest;
    forall k | 0 < k < |succ| - 1
      ensures !IsTerminal(db[succ[k]].word)
    {
      assert succ[k] == rest[k - 1];
    }
  }

  /** One more step in front of a walk gives a walk. */
  lemma ConsIsWalk(db: Database, cur: nat, emitted: int, maxLength: int, draws: seq<nat>, next: nat, rest: Walk)
    requires cur < |db| && next < |db|
    requires emitted < maxLength
    requires |draws| > 0
    requires Selects(db, cur, draws[0], next)
    requires !IsTerminal(db[next].word)
    requires IsWalk(db, next, emitted + 1, maxLength, draws[1..], rest)
    ensures IsWalk(db, cur, emitted, maxLength, draws, Walk([next] + rest.successors, rest.stop))
  {
    var succ := [next] + rest.successors;
    ConsDrawnSteps(db, cur, draws, next, rest.successors);
    ConsOpenInterior(db, next, rest.successors);
    assert |succ| > 0 && succ[|succ| - 1] == if |rest.successors| == 0 then next else rest.successors[|rest.successors| - 1];
  }

  /**
    The loop of `generate_tweet` from node `cur` after `emitted` words:
    while fewer than `maxLength` words are out and the last one does not
    end in a period, one draw picks the next node, which is emitted.
  */
  function WalkFrom(db: Database, cur: nat, emitted: int, maxLength: int, draws: seq<nat>): (w: Walk)
    requires ChainValid(db)
    requires cur < |db|
    ensures IsWalk(db, cur, emitted, maxLength, draws, w)
    decreases |draws|
  {
    if emitted >= maxLength then Walk([], ReachedMaxLength)
    else if db[cur].total == 0 then Walk([], ZeroTotal)
    else
      SumOfPositiveIsAtLeastLength(db[cur].edges);
      if |draws| == 0 then Walk([], DrawsExhausted)
      else
        GetNextRandomNodeInChain(db[cur], |db|, draws[0]);
        var next := GetNextRandomNode(db[cur], draws[0]).value;
        assert Selects(db, cur, draws[0], next);
        if IsTerminal(db[next].word) then Walk([next], ReachedPeriod)
        else
          var rest := WalkFrom(db, next, emitted + 1, maxLength, draws[1..]);
          ConsIsWalk(db, cur, emitted, maxLength, draws, next, rest);
          Walk([next] + rest.successors, rest.stop)
  }

  /**
    Along the positions a walk visits, draw `k` selects position `k + 1`
    from position `k`, so consecutive positions are linked by recorded edges.
  */
  lemma WalkFollowsEdges(db: Database, cur: nat, emitted: int, maxLength: int, draws: seq<nat>, w: Walk, path: seq<nat>)
    requires cur < |db|
    requires IsWalk(db, cur, emitted, maxLength, draws, w)
    requires path == [cur] + w.successors
    ensures InChain(db, path)
    ensures forall k :: 0 <= k < |path| - 1 ==> Selects(db, path[k], draws[k], path[k + 1])
    ensures FollowsEdges(db, path)
  {
    forall k | 0 <= k < |path|
      ensures path[k] < |db|
    {
      if k > 0 { assert path[k] == w.successors[k - 1]; }
    }
    forall k | 0 <= k < |path| - 1
      ensures Selects(db, path[k], draws[k], path[k + 1])
      ensures HasEdge(db[path[k]].edges, path[k + 1])
    {
      var from := if k == 0 then cur else w.successors[k - 1];
      assert path[k] == from && path[k + 1] == w.successors[k];
    }
  }

  /** A generated tweet: the positions of its words, and why it ended. */
  datatype Tweet = Tweet(path: seq<nat>, stop: Stop)

  /**
    What `generate_tweet` guarantees about the tweet `t` it emits from
    `first`: between 1 and `max_length` words (exactly one when
    `max_length` is below 2), starting at `first`, one draw per word after
    the first, each word the one its draw selects among the recorded
    successors of the word before, none past the start and before the end
    ending in a period, and an end reason that holds.
  */
  predicate IsTweet(db: Database, first: nat, maxLength: int, draws: seq<nat>, t: Tweet)
  {
    var path := t.path;
    && 1 <= |path| <= Max(1, maxLength)
    && path[0] == first
    && InChain(db, path)
    && |path| - 1 <= |draws|
    && FollowsEdges(db, path)
    && (forall k :: 0 <= k < |path| - 1 ==> Selects(db, path[k], draws[k], path[k + 1]))
    && (forall k :: 0 < k < |path| - 1 ==> !IsTerminal(db[path[k]].word))
    && (t.stop == ReachedPeriod <==> |path| >= 2 && IsTerminal(db[path[|path| - 1]].word))
    && (t.stop == ReachedMaxLength <==>
          |path| == Max(1, maxLength) && !(|path| >= 2 && IsTerminal(db[path[|path| - 1]].word)))
    && (t.stop == ZeroTotal ==> |path| < Max(1, maxLength) && db[path[|path| - 1]].total == 0)
    && (t.stop == DrawsExhausted ==>
          |path| < Max(1, maxLength) && db[path[|path| - 1]].total > 0 && |path| - 1 == |draws|)
  }

  /** The words of a tweet determine why it ended: two end reasons for the same path are the same. */
  lemma IsTweetStopUnique(db: Database, first: nat, maxLength: int, draws: seq<nat>, path: seq<nat>, s1: Stop, s2: Stop)
    requires IsTweet(db, first, maxLength, draws, Tweet(path, s1))
    requires IsTweet(db, first, maxLength, draws, Tweet(path, s2))
    ensures s1 == s2
  {
  }

  /** A walk from `first` after one emitted word, with `first` in front, is a tweet. */
  lemma WalkIsTweet(db: Database, first: nat, maxLength: int, draws: seq<nat>, w: Walk)
    requires first < |db|
    requires IsWalk(db, first, 1, maxLength, draws, w)
    ensures IsTweet(db, first, maxLength, draws, Tweet([first] + w.successors, w.stop))
  {
    var path := [first] + w.successors;
    WalkFollowsEdges(db, first, 1, maxLength, draws, w, path);
    forall k | 0 < k < |path| - 1
      ensures !IsTerminal(db[path[k]].word)
    {
      assert path[k] == w.successors[k - 1];
    }
    assert path[|path| - 1] == if |w.successors| == 0 then first else w.successors[|w.successors| - 1];
  }

  /** `generate_tweet`: emits `first`, then walks from it with the emitted count starting at 1. */
  function GenerateTweet(db: Database, first: nat, maxLength: int, draws: seq<nat>): (t: Tweet)
    requires ChainValid(db)
    requires first < |db|
    ensures IsTweet(db, first, maxLength, draws, t)
  {
    var w := WalkFrom(db, first, 1, maxLength, draws);
    WalkIsTweet(db, first, maxLength, draws, w);
    Tweet([first] + w.successors, w.stop)
  }

  /**
    The header's promise of at least two words holds whenever `max_length`
    is at least 2, the start word has a successor and a draw is available.
  */
  lemma {:induction false} GenerateTweetHasTwoWords(db: Database, first: nat, maxLength: int, draws: seq<nat>)
    requires ChainValid(db)
    requires first < |db|
    requires maxLength >= 2
    requires db[first].total > 0
    requires |draws| >= 1
    ensures |GenerateTweet(db, first, maxLength, draws).path| >= 2
    ensures GetNextRandomNode(db[first], draws[0]) == Some(GenerateTweet(db, first, maxLength, draws).path[1])
  {
    GetNextRandomNodeInChain(db[first], |db|, draws[0]);
  }

  /** The words of the nodes on `path`. */
  function WordsOf(db: Database, path: seq<nat>): (ws: seq<string>)
    requires InChain(db, path)
    ensures |ws| == |path|
    ensures forall k :: 0 <= k < |path| ==> ws[k] == db[path[k]].word
  {
    if |path| == 0 then [] else [db[path[0]].word] + WordsOf(db, path[1..])
  }

  /** The words of a tweet from `first`, a word that does not end in a period. */
  lemma TweetWords(db: Database, first: nat, draws: seq<nat>, t: Tweet)
    requires first < |db| && !IsTerminal(db[first].word)
    requires IsTweet(db, first, MaxWords, draws, t)
    ensures 1 <= |WordsOf(db, t.path)| <= MaxWords
    ensures !IsTerminal(WordsOf(db, t.path)[0])
    ensures |t.path| - 1 <= |draws|
  {
  }

  /** One tweet of `print_tweets`: the positions of its words, the words, the draws it used, and why it ended. */
  datatype Drawn = Drawn(path: seq<nat>, words: seq<string>, used: nat, stop: Stop)

  /**
    One pass of the loop of `print_tweets`: a start word from
    `get_first_random_node`, then `generate_tweet` with `MAX_WORDS` on the
    draws that follow. None when every draw names a word ending in a period.
  */
  function NextTweet(db: Database, draws: seq<nat>): (r: Option<Drawn>)
    requires ChainValid(db)
    requires |db| > 0
    ensures r.None? <==> GetFirstRandomNode(db, draws).None?
    ensures r.Some? ==> var s := GetFirstRandomNode(db, draws).value;
                        && r.value.used == s.used + |r.value.path| - 1
                        && IsTweet(db, s.index, MaxWords, draws[s.used..], Tweet(r.value.path, r.value.stop))
                        && r.value.words == WordsOf(db, r.value.path)
    ensures r.Some? ==> 1 <= |r.value.words| <= MaxWords && !IsTerminal(r.value.words[0])
    ensures r.Some? ==> r.value.used <= |draws|
  {
    match GetFirstRandomNode(db, draws)
    case None => None
    case Some(s) =>
      var t := GenerateTweet(db, s.index, MaxWords, draws[s.used..]);
      TweetWords(db, s.index, draws[s.used..], t);
      Some(Drawn(t.path, WordsOf(db, t.path), s.used + |t.path| - 1, t.stop))
  }

  /** The end reasons after which `print_tweets` goes on to the next tweet. */
  predicate Continues(stop: Stop)
  {
    stop == ReachedMaxLength || stop == ReachedPeriod
  }

  /** The draws left after the tweets of `ts`, each using its `used` draws from the front. */
  function DrawsLeft(draws: seq<nat>, ts: seq<Drawn>): seq<nat>
    decreases |ts|
  {
    if |ts| == 0 then draws
    else if ts[0].used <= |draws| then DrawsLeft(draws[ts[0].used..], ts[1..])
    else []
  }

  /** The tweets `print_tweets` printed, and whether all of them were produced. */
  datatype Printed = Printed(tweets: seq<Drawn>, complete: bool)

  /** Each tweet of `ts` is `NextTweet` on the draws the earlier ones left. */
  predicate Chained(db: Database, draws: seq<nat>, ts: seq<Drawn>)
    requires ChainValid(db)
    requires |ts| > 0 ==> |db| > 0
  {
    forall k :: 0 <= k < |ts| ==> NextTweet(db, DrawsLeft(draws, ts[..k])) == Some(ts[k])
  }

  /** Every tweet of `ts` but the last ended normally. */
  predicate StopsOnlyAtEnd(ts: seq<Drawn>)
  {
    forall k :: 0 <= k < |ts| - 1 ==> Continues(ts[k].stop)
  }

  /** `ts` is empty or its last tweet ended normally. */
  predicate LastContinues(ts: seq<Drawn>)
  {
    |ts| == 0 || Continues(ts[|ts| - 1].stop)
  }

  /**
    What the loop of `print_tweets` with `remaining` tweets to go produces
    from one stream of draws: at most `remaining` tweets, each one
    `NextTweet` on the draws the earlier tweets left, every one but the
    last ending normally; complete exactly when all `remaining` were
    produced and the last ended normally; and when it stops early after a
    normal end, it is because no draw left names a start word.
  */
  predicate IsPrinting(db: Database, remaining: nat, draws: seq<nat>, p: Printed)
    requires ChainValid(db)
    requires remaining > 0 ==> |db| > 0
  {
    && |p.tweets| <= remaining
    && Chained(db, draws, p.tweets)
    && StopsOnlyAtEnd(p.tweets)
    && (p.complete <==> |p.tweets| == remaining && LastContinues(p.tweets))
    && (!p.complete && LastContinues(p.tweets) ==> NextTweet(db, DrawsLeft(draws, p.tweets)).None?)
  }

  /** The draws left after `[d] + ts` are those left after `ts` on the draws `d` left. */
  lemma DrawsLeftCons(draws: seq<nat>, d: Drawn, ts: seq<Drawn>)
    requires d.used <= |draws|
    ensures DrawsLeft(draws, [d] + ts) == DrawsLeft(draws[d.used..], ts)
  {
    assert ([d] + ts)[1..] == ts;
  }

  /** The draws left after the first `k` tweets of `[d] + ts` are those left after `k - 1` tweets of `ts` on the draws `d` left. */
  lemma DrawsLeftConsTake(draws: seq<nat>, d: Drawn, ts: seq<Drawn>, k: nat)
    requires 0 < k <= |ts| + 1
    requires d.used <= |draws|
    ensures DrawsLeft(draws, ([d] + ts)[..k]) == DrawsLeft(draws[d.used..], ts[..k - 1])
  {
    assert ([d] + ts)[..k] == [d] + ts[..k - 1];
    DrawsLeftCons(draws, d, ts[..k - 1]);
  }

  /** A first tweet followed by tweets chained on the draws it left are chained. */
  lemma ConsChained(db: Database, draws: seq<nat>, d: Drawn, ts: seq<Drawn>)
    requires ChainValid(db)
    requires |db| > 0
    requires NextTweet(db, draws) == Some(d)
    requires Chained(db, draws[d.used..], ts)
    ensures Chained(db, draws, [d] + ts)
  {
    var ts' := [d] + ts;
    assert ts'[..0] == [];
    forall k | 0 < k < |ts'|
      ensures NextTweet(db, DrawsLeft(draws, ts'[..k])) == Some(ts'[k])
    {
      DrawsLeftConsTake(draws, d, ts, k);
      assert ts'[k] == ts[k - 1];
    }
  }

  /** A first tweet that ended normally keeps every later tweet but the last ending normally. */
  lemma ConsStopsOnlyAtEnd(d: Drawn, ts: seq<Drawn>)
    requires Continues(d.stop)
    requires StopsOnlyAtEnd(ts)
    ensures StopsOnlyAtEnd([d] + ts)
    ensures LastContinues([d] + ts) == LastContinues(ts)
  {
    var ts' := [d] + ts;
    forall k | 0 < k < |ts'| - 1
      ensures Continues(ts'[k].stop)
    {
      assert ts'[k] == ts[k - 1];
    }
    assert |ts| > 0 ==> ts'[|ts'| - 1] == ts[|ts| - 1];
  }

  /** A normally ended first tweet followed by a printing run on the draws it left is a printing run. */
  lemma ConsIsPrinting(db: Database, remaining: nat, draws: seq<nat>, d: Drawn, rest: Printed)
    requires ChainValid(db)
    requires |db| > 0
    requires remaining > 0
    requires NextTweet(db, draws) == Some(d)
    requires Continues(d.stop)
    requires IsPrinting(db, remaining - 1, draws[d.used..], rest)
    ensures IsPrinting(db, remaining, draws, Printed([d] + rest.tweets, rest.complete))
  {
    ConsChained(db, draws, d, rest.tweets);
    ConsStopsOnlyAtEnd(d, rest.tweets);
    DrawsLeftCons(draws, d, rest.tweets);
  }

  /** A tweet that ends the loop early is a printing run of its own. */
  lemma LastIsPrinting(db: Database, remaining: nat, draws: seq<nat>, d: Drawn)
    requires ChainValid(db)
    requires |db| > 0
    requires remaining > 0
    requires NextTweet(db, draws) == Some(d)
    requires !Continues(d.stop)
    ensures IsPrinting(db, remaining, draws, Printed([d], false))
  {
    assert [d][..0] == [];
  }

  /** Every tweet of a printing run has between 1 and `MAX_WORDS` words and starts with a word not ending in a period. */
  lemma PrintingWords(db: Database, remaining: nat, draws: seq<nat>, p: Printed)
    requires ChainValid(db)
    requires remaining > 0 ==> |db| > 0
    requires IsPrinting(db, remaining, draws, p)
    ensures forall k :: 0 <= k < |p.tweets| ==> 1 <= |p.tweets[k].words| <= MaxWords
    ensures forall k :: 0 <= k < |p.tweets| ==> !IsTerminal(p.tweets[k].words[0])
  {
    forall k | 0 <= k < |p.tweets|
      ensures 1 <= |p.tweets[k].words| <= MaxWords && !IsTerminal(p.tweets[k].words[0])
    {
      assert NextTweet(db, DrawsLeft(draws, p.tweets[..k])) == Some(p.tweets[k]);
    }
  }

  /** Two chained runs on the same draws agree on every tweet both have. */
  lemma {:induction false} ChainedAgree(db: Database, draws: seq<nat>, ts: seq<Drawn>, us: seq<Drawn>, k: nat)
    requires ChainValid(db)
    requires |db| > 0
    requires Chained(db, draws, ts) && Chained(db, draws, us)
    requires k <= |ts| && k <= |us|
    ensures ts[..k] == us[..k]
  {
    if k > 0 {
      ChainedAgree(db, draws, ts, us, k - 1);
      assert NextTweet(db, DrawsLeft(draws, ts[..k - 1])) == Some(ts[k - 1]);
      assert NextTweet(db, DrawsLeft(draws, us[..k - 1])) == Some(us[k - 1]);
      PrefixesExtend(ts, us, k);
    }
  }

  /** The prefix of a sequence as long as the sequence is the sequence. */
  lemma WholePrefix<T>(s: seq<T>)
    ensures s[..|s|] == s
  {
  }

  /** Prefixes that agree, followed by equal elements, agree one further. */
  lemma PrefixesExtend<T>(s: seq<T>, t: seq<T>, k: nat)
    requires 0 < k <= |s| && k <= |t|
    requires s[..k - 1] == t[..k - 1] && s[k - 1] == t[k - 1]
    ensures s[..k] == t[..k]
  {
    assert s[..k] == s[..k - 1] + [s[k - 1]];
    assert t[..k] == t[..k - 1] + [t[k - 1]];
  }

  /** A printing run cannot stop before another printing run on the same draws. */
  lemma NoShorterPrinting(db: Database, remaining: nat, draws: seq<nat>, p: Printed, q: Printed)
    requires ChainValid(db)
    requires remaining > 0 ==> |db| > 0
    requires IsPrinting(db, remaining, draws, p) && IsPrinting(db, remaining, draws, q)
    ensures |p.tweets| >= |q.tweets|
  {
    if |db| > 0 {
      var n := if |p.tweets| < |q.tweets| then |p.tweets| else |q.tweets|;
      ChainedAgree(db, draws, p.tweets, q.tweets, n);
      WholePrefix(p.tweets);
      StopsOnlyAtEndPrefix(q.tweets, n);
      ChainedNextAfterPrefix(db, draws, q.tweets, n);
    }
  }

  /** Every proper prefix of a run whose tweets all but the last ended normally ends normally. */
  lemma StopsOnlyAtEndPrefix(ts: seq<Drawn>, n: nat)
    requires StopsOnlyAtEnd(ts)
    requires n <= |ts|
    ensures n < |ts| ==> LastContinues(ts[..n])
  {
    if 0 < n < |ts| {
      assert ts[..n][n - 1] == ts[n - 1];
    }
  }

  /** After any proper prefix of a chained run, a start word is still found. */
  lemma ChainedNextAfterPrefix(db: Database, draws: seq<nat>, ts: seq<Drawn>, n: nat)
    requires ChainValid(db)
    requires |db| > 0
    requires Chained(db, draws, ts)
    requires n <= |ts|
    ensures n < |ts| ==> NextTweet(db, DrawsLeft(draws, ts[..n])).Some?
  {
    if n < |ts| {
      assert NextTweet(db, DrawsLeft(draws, ts[..n])) == Some(ts[n]);
    }
  }

  /**
    At most one result is a printing run for given draws: the description
    of `print_tweets` by `IsPrinting` leaves no freedom.
  */
  lemma IsPrintingUnique(db: Database, remaining: nat, draws: seq<nat>, p: Printed, q: Printed)
    requires ChainValid(db)
    requires remaining > 0 ==> |db| > 0
    requires IsPrinting(db, remaining, draws, p) && IsPrinting(db, remaining, draws, q)
    ensures p == q
  {
    NoShorterPrinting(db, remaining, draws, p, q);
    NoShorterPrinting(db, remaining, draws, q, p);
    if |db| > 0 {
      ChainedAgree(db, draws, p.tweets, q.tweets, |p.tweets|);
      WholePrefix(p.tweets);
      WholePrefix(q.tweets);
    }
  }

  /**
    The loop of `print_tweets` with `remaining` tweets to go, all drawing
    from one stream. It stops early, with `complete` false, where the C
    program would go on drawing beyond the given draws or would divide by
    a zero total.
  */
  function PrintFrom(db: Database, remaining: nat, draws: seq<nat>): (p: Printed)
    requires ChainValid(db)
    requires remaining > 0 ==> |db| > 0
    ensures IsPrinting(db, remaining, draws, p)
    ensures forall k :: 0 <= k < |p.tweets| ==> 1 <= |p.tweets[k].words| <= MaxWords
    ensures forall k :: 0 <= k < |p.tweets| ==> !IsTerminal(p.tweets[k].words[0])
    decreases remaining
  {
    if remaining == 0 then Printed([], true)
    else
      match NextTweet(db, draws)
      case None => Printed([], false)
      case Some(d) =>
        if d.stop == ZeroTotal || d.stop == DrawsExhausted then
          LastIsPrinting(db, remaining, draws, d);
          PrintingWords(db, remaining, draws, Printed([d], false));
          Printed([d], false)
        else
          var rest := PrintFrom(db, remaining - 1, draws[d.used..]);
          ConsIsPrinting(db, remaining, draws, d, rest);
          PrintingWords(db, remaining, draws, Printed([d] + rest.tweets, rest.complete));
          Printed([d] + rest.tweets, rest.complete)
  }

  /**
    `print_tweets`: `num_of_tweets` tweets; a count below 1 prints none and
    never touches the chain, which may then be empty.
  */
  function PrintTweets(db: Database, numTweets: int, draws: seq<nat>): (p: Printed)
    requires ChainValid(db)
    requires numTweets >= 1 ==> |db| > 0
    ensures IsPrinting(db, Max(0, numTweets), draws, p)
    ensures forall k :: 0 <= k < |p.tweets| ==> 1 <= |p.tweets[k].words| <= MaxWords
    ensures forall k :: 0 <= k < |p.tweets| ==> !IsTerminal(p.tweets[k].words[0])
    ensures numTweets < 1 ==> p == Printed([], true)
  {
    PrintFrom(db, if numTweets < 0 then 0 else numTweets, draws)
  }
}
