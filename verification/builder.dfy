/**
  Building the chain from lines of text: `fill_database_one_line` and the
  line loop of `fill_database` (tweets_generator_ex3a.c).
*/
module Builder {
  import opened Wrappers
  import opened MarkovChain
  import opened WordStore
  import opened FrequencyList
  import opened Tokenizer

  /** `READ_ALL_WORDS`, the word limit that means "no limit". */
  const ReadAllWords: int := -1

  /**
    What the loop of `fill_database` threads through its calls: the chain,
    the stop `flag` (true while words are still to be read), the
    `written_words` counter, and the state of the allocator.
  */
  datatype FillState = FillState(db: Database, flag: bool, written: int, mem: Memory)

  /** The return code of `fill_database_one_line`: 0 with the new state, or 1. */
  datatype FillResult = Filled(state: FillState) | AllocationError

  /**
    When the word limit is compared with `written_words`. The source
    compares only after a word that is not the first of its line
    (`AfterSuccessor`); `AfterEveryWord` also compares after the first word.
  */
  datatype LimitCheck = AfterSuccessor | AfterEveryWord

  /** The state a build starts from: an empty chain, the flag up, no word written. */
  function InitialState(mem: Memory): FillState
  {
    FillState([], true, 0, mem)
  }

  /** Every word of `ws` has at least one character, as every `strtok` token does. */
  predicate NonEmptyWords(ws: seq<string>)
  {
    forall k :: 0 <= k < |ws| ==> |ws[k]| > 0
  }

  /**
    `++written_words` after a word is stored in `db` with allocator `mem`,
    then, when `compare` holds, the comparison that lowers the flag once
    the count equals a limit other than `READ_ALL_WORDS`.
  */
  function CountWord(limit: int, compare: bool, st: FillState, db: Database, mem: Memory): FillState
  {
    var written := st.written + 1;
    FillState(db, if compare && limit != ReadAllWords && written == limit then false else st.flag, written, mem)
  }

  /** A result of `InternWord`: the chain and allocator afterwards and the word's node. */
  datatype InternedWord = InternedWord(db: Database, mem: Memory, node: nat)

  /**
    `add_to_database` with the allocator: only a word not yet in the chain
    asks for memory, and `None` stands for the NULL it returns on failure.
  */
  function InternWord(db: Database, mem: Memory, w: string): (r: Option<InternedWord>)
    requires ChainValid(db)
    requires |w| > 0
    ensures r.Some? ==> ChainValid(r.value.db) && r.value.node < |r.value.db| && r.value.db[r.value.node].word == w
    ensures r.Some? ==> |r.value.db| >= |db| && r.value.db[..|db|] == db
    ensures r.None? <==> !mem.CanAllocate() && GetNodeFromDatabase(db, w).None?
  {
    var added := AddToDatabase(db, w, mem.CanAllocate());
    AddToDatabasePreservesChain(db, w, mem.CanAllocate());
    match added.node
    case None => None
    case Some(n) => Some(InternedWord(added.db, if |added.db| > |db| then mem.Consume() else mem, n))
  }

  /** A result of `RecordTransition`: the chain and allocator afterwards. */
  datatype Transitioned = Transitioned(db: Database, mem: Memory)

  /**
    `add_node_to_frequency_list(prev, cur)` with the allocator: only a new
    successor asks for memory, and `None` stands for the return code 1.
  */
  function RecordTransition(db: Database, mem: Memory, from: nat, to: nat): (r: Option<Transitioned>)
    requires ChainValid(db)
    requires from < |db| && to < |db|
    ensures r.Some? ==> ChainValid(r.value.db) && |r.value.db| == |db|
    ensures r.Some? ==> forall i :: 0 <= i < |db| ==> r.value.db[i].word == db[i].word
    ensures r.Some? ==> forall i :: 0 <= i < |db| && i != from ==> r.value.db[i] == db[i]
    ensures r.None? <==> !mem.CanAllocate() && !HasEdgeToWord(db, db[from].edges, db[to].word)
  {
    var rec := AddNodeToFrequencyList(db, db[from], to, mem.CanAllocate());
    AddNodeToFrequencyListPreservesNode(db, db[from], to, mem.CanAllocate());
    if rec.status == 1 then None
    else
      var db' := db[from := rec.node];
      assert forall i :: 0 <= i < |db'| ==> db'[i].word == db[i].word;
      assert forall i :: 0 <= i < |db'| ==> NodeValid(db'[i], |db'|);
      Some(Transitioned(db', if |rec.node.edges| > |db[from].edges| then mem.Consume() else mem))
  }

  /** The state after one word of the loop, and the word's node. */
  datatype Taken = Taken(state: FillState, node: nat)

  /**
    One pass of the `while` loop of `fill_database_one_line`: intern `w`,
    record the transition from the previous word `prev`, count the word,
    and lower the flag when the count reaches a limit other than
    `READ_ALL_WORDS`. `None` is the early `return 1`.
  */
  function TakeWord(limit: int, st: FillState, prev: nat, w: string): (r: Option<Taken>)
    requires ChainValid(st.db)
    requires prev < |st.db|
    requires |w| > 0
    ensures r.Some? ==> ChainValid(r.value.state.db)
    ensures r.Some? ==> r.value.node < |r.value.state.db| && r.value.state.db[r.value.node].word == w
  {
    match InternWord(st.db, st.mem, w)
    case None => None
    case Some(added) =>
      match RecordTransition(added.db, added.mem, prev, added.node)
      case None => None
      case Some(rec) =>
        Some(Taken(CountWord(limit, true, st, rec.db, rec.mem), added.node))
  }

  /**
    The `while` loop of `fill_database_one_line`: words are taken while
    any remain and the flag is up.
  */
  function FillRest(limit: int, st: FillState, prev: nat, rest: seq<string>): (r: FillResult)
    requires ChainValid(st.db)
    requires prev < |st.db|
    requires NonEmptyWords(rest)
    ensures r.Filled? ==> ChainValid(r.state.db)
    decreases |rest|
  {
    if |rest| == 0 || !st.flag then Filled(st)
    else
      match TakeWord(limit, st, prev, rest[0])
      case None => AllocationError
      case Some(t) => FillRest(limit, t.state, t.node, rest[1..])
  }

  /**
    `fill_database_one_line`: a line without words changes nothing;
    otherwise its first word is interned and counted with no transition,
    and the rest of the line is handled by the loop. Under
    `AfterEveryWord` the limit is also compared after the first word.
  */
  function FillDatabaseOneLine(check: LimitCheck, limit: int, st: FillState, line: string): (r: FillResult)
    requires ChainValid(st.db)
    ensures r.Filled? ==> ChainValid(r.state.db)
  {
    var tokens := Tokens(line);
    if |tokens| == 0 then Filled(st)
    else
      match InternWord(st.db, st.mem, tokens[0])
      case None => AllocationError
      case Some(added) =>
        FillRest(limit, CountWord(limit, check == AfterEveryWord, st, added.db, added.mem), added.node, tokens[1..])
  }

  /**
    The line loop of `fill_database`: lines are handled while the flag is
    up, and the first allocation error ends the build.
  */
  function FillDatabase(check: LimitCheck, limit: int, st: FillState, lines: seq<string>): (r: FillResult)
    requires ChainValid(st.db)
    ensures r.Filled? ==> ChainValid(r.state.db)
    decreases |lines|
  {
    if |lines| == 0 || !st.flag then Filled(st)
    else
      match FillDatabaseOneLine(check, limit, st, lines[0])
      case AllocationError => AllocationError
      case Filled(st') => FillDatabase(check, limit, st', lines[1..])
  }

  /** `fill_database` on a fresh chain, as the source checks the limit. */
  function BuildChain(lines: seq<string>, limit: int, mem: Memory): (r: FillResult)
    ensures r.Filled? ==> ChainValid(r.state.db)
  {
    FillDatabase(AfterSuccessor, limit, InitialState(mem), lines)
  }

  /** `fill_database` on a fresh chain, with the limit checked after every word. */
  function BuildChainCapped(lines: seq<string>, limit: int, mem: Memory): (r: FillResult)
    ensures r.Filled? ==> ChainValid(r.state.db)
  {
    FillDatabase(AfterEveryWord, limit, InitialState(mem), lines)
  }
}
