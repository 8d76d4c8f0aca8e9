# Markov-chain tweet generator, modelled in Dafny

The program reads a text file line by line and builds a Markov chain over
its words. Each distinct word gets one node, kept in insertion order. Each
node has a frequency list: one entry per successor word that directly
followed it within a line, holding the count of how often it did, plus
the node's running total. The program then prints tweets. A tweet starts
at a random word that does not end in a period and then walks the chain,
choosing each next word by `rand() % total`, so each successor is picked
by as many of the `total` remainders as its count (a choice in proportion
to the count when `rand()` is uniform over a range whose size is a
multiple of the total). It stops after `MAX_WORDS` (20) words or after a word that ends in a period.

The model is functional:

- The database is a `seq<WordNode>`, and a node is identified by its
  position, which stands for the C pointer.
- A frequency list is a `seq<Edge>` of (target position, count).
- Each call to `rand()` is a `raw: nat` draw that the caller passes in.
- Each allocation is decided by a `Memory` value: either every allocation
  succeeds, or the first `n` do and the next one fails.

Modules:

- `MarkovChain` (chain.dfy): the data model and the chain invariant. The
  invariant says:
  - words are distinct and non-empty;
  - successors exist and are distinct;
  - counts are positive;
  - `total_of_frequency` is the sum of the counts.
- `WordStore` (word_store.dfy): `get_node_from_database` and `add_to_database`.
- `FrequencyList` (frequency_list.dfy): `is_node_in_frequency_list` and
  `add_node_to_frequency_list`.
- `Walker` (walker.dfy): `get_random_number`, `get_node_by_index`,
  `get_first_random_node` and `get_next_random_node`.
- `Tokenizer` (tokenizer.dfy): the words `strtok` yields for the
  delimiters `" \n\t\r"`.
- `Builder` (builder.dfy): `fill_database_one_line` and the line loop of
  `fill_database`.
  - `BuildChain` compares the word limit as the source does.
  - `BuildChainCapped` compares it after every word (see Findings).
- `BuildProperties` and `CorpusProperties` (build_properties.dfy,
  corpus_properties.dfy) state what a build records against the text it
  read:
  - the chain holds exactly the first `written_words` words;
  - the count of `a -> b` is the number of times `b` directly follows `a`
    within a line among those words;
  - where the build stops;
  - when it fails.
- `Tweets` (tweets.dfy): `generate_tweet` and `print_tweets` as sequences
  of words.

The doc comment of `fill_database_one_line` (tweets_generator_ex3a.c:22)
calls the limit "the number of word to read". The code counts words, the
first word of each line included, and compares the count with the limit
only after a word that follows another in its line.

## Model

| member | source | states |
|---|---|---|
| `WordStore.GetNodeFromDatabase` | markov_chain_ex3a.c:16-34 | The result is the position of the first node whose word equals the query, and it is absent exactly when no node holds the word. |
| `WordStore.AddToDatabase` | markov_chain_ex3a.c:44-94 | A word already present yields its node and leaves the database unchanged. NULL is returned only for a new word whose allocation fails, and then nothing changes. Otherwise exactly one node (the word, an empty list, total 0) is appended at the end and returned. The database is either unchanged or extended by that one node. Words stay distinct. |
| `WordStore.AddToDatabaseIdempotent` | markov_chain_ex3a.c:44-51 | Interning a word a second time returns the same node and changes nothing, whatever the allocator does. |
| `WordStore.AddToDatabasePreservesChain` | markov_chain_ex3a.c:54-93 | Adding a word leaves every earlier node as it was and keeps the chain invariant. |
| `FrequencyList.IsNodeInFrequencyList` | markov_chain_ex3a.c:97-109 | The result is the first index whose successor's word equals the query, and -1 exactly when no entry has that word. |
| `FrequencyList.AddNodeToFrequencyList` | markov_chain_ex3a.c:120-171 | Return code 1 occurs exactly when the successor is new and `realloc` fails, and the node is then unchanged. On 0, the total grows by one. For a known successor, the first entry for its word gains one occurrence and every other entry keeps its target and count. When words and targets are distinct, that entry is the one whose word is the successor's. A new successor is appended as `(target, 1)`. |
| `FrequencyList.AddNodeToFrequencyListPreservesNode` | markov_chain_ex3a.c:128-170 | Both branches keep the total equal to the sum of the counts, keep the successors distinct and keep every count positive. |
| `FrequencyList.AddNodeToFrequencyListCounts` | markov_chain_ex3a.c:128-170 | On success the count of exactly the recorded successor grows by one; every other successor's count is unchanged; a failure changes no count. |
| `MarkovChain.SumOfPositiveIsAtLeastLength` | markov_chain_ex3a.h:32-39 | With positive counts, `total_of_frequency` is at least `frequency_list_size`, so a node with a successor has a positive total. |
| `Walker.GetRandomNumber` | markov_chain_ex3a.c:298-301 | For a positive bound the number lies in `[0, max_number)`. |
| `Walker.GetRandomNumberCoversRange` | markov_chain_ex3a.h:117-122 | Every number in `[0, max_number)` is produced by some draw. Draws wrap around: `k` and `k + max_number` give the same number, so each number is produced by more than one draw. |
| `Walker.GetNodeByIndex` | markov_chain_ex3a.c:233-244 | Following `next` `index` times from the first node reaches the `index`-th node in insertion order. |
| `Walker.GetFirstRandomNode` | markov_chain_ex3a.c:246-266 | The chosen word does not end in a period, and it is the one named by the last draw used. Every earlier draw named a word ending in a period. There is no result exactly when every given draw names such a word. |
| `Walker.EveryNonTerminalCanStart` | markov_chain_ex3a.c:253-264 | Every word that does not end in a period is accepted as a start when a draw names it. |
| `Walker.GetNextRandomNode` | markov_chain_ex3a.c:268-291 | Any node returned is a recorded successor of the current node. |
| `Walker.GetNextRandomNodeIsWeighted` | markov_chain_ex3a.c:274-289 | On a node whose total is the sum of its positive counts, the draw selects the one entry whose interval `[prefix, prefix + frequency)` holds it. That entry exists and is unique, so the result is never NULL. |
| `Walker.EveryEntryReachable` | markov_chain_ex3a.c:278-289 | Each entry's interval lies inside `[0, total)`, and every number in it selects that entry, so entry `k` is chosen by exactly `frequency(k)` of the `total` numbers. |
| `Walker.GetNextRandomNodeInChain` | markov_chain_ex3a.c:268-291 | On a valid node with a positive total, a step always yields a node of the chain. |
| `Tokenizer.Tokens` | tweets_generator_ex3a.c:38-76 | Each word is non-empty and holds no delimiter. |
| `Tokenizer.NoTokensIffOnlyDelimiters` | tweets_generator_ex3a.c:38-43 | A line yields no word exactly when it holds delimiters only. That such a line leaves the state unchanged is stated by `CorpusProperties.FillLineAccounting`. |
| `Tokenizer.TokensSplit` | tweets_generator_ex3a.c:17 | A delimiter separates the words on its two sides, so no word spans a delimiter. |
| `Tokenizer.TokensOfWord` | tweets_generator_ex3a.c:38-52 | A run of non-delimiters with nothing around it is a single word. |
| `Builder.InternWord` | tweets_generator_ex3a.c:44-48 | Interning keeps the chain invariant and the earlier nodes, and yields a node holding the word. It fails exactly when the word is not yet in the chain and the allocator refuses. |
| `Builder.RecordTransition` | tweets_generator_ex3a.c:62-66 | Recording a transition keeps the chain invariant and every word, and changes no node but the one it leaves from. It fails exactly when that node has no successor with the target's word and the allocator refuses. |
| `Builder.TakeWord` | tweets_generator_ex3a.c:57-76 | One pass of the loop keeps the chain invariant and yields a node holding the word. What it counts and records is stated by `BuildProperties.TakeWordCounts`, `TakeWordEdges` and `TakeWordWords`. |
| `Builder.FillRest` | tweets_generator_ex3a.c:55-77 | The loop keeps the chain invariant. What it counts and records is stated by the `BuildProperties.FillRest` lemmas. |
| `Builder.FillDatabaseOneLine` | tweets_generator_ex3a.c:31-79 | A line keeps the chain invariant. Which words it takes, and that a line without words changes nothing, is stated by `CorpusProperties.FillLineAccounting`; what it records by `FillLineEdges` and `FillLineWords`. |
| `Builder.FillDatabase` | tweets_generator_ex3a.c:89-110 | The line loop keeps the chain invariant. What it records is stated by `CorpusProperties.FillDatabaseWords` and `FillDatabaseEdges`. |
| `Builder.BuildChain` | tweets_generator_ex3a.c:89-110 | A build from an empty chain, comparing the limit as the source does, yields a valid chain. Its contents are stated by `CorpusProperties.BuildChainContents`. |
| `Builder.BuildChainCapped` | tweets_generator_ex3a.c:89-110 | A build comparing the limit after every word yields a valid chain. Its contents are stated by `CorpusProperties.BuildChainCappedContents`. |
| `BuildProperties.InternWordEdges` | tweets_generator_ex3a.c:44-54 | Interning a word, as done for the first word of a line, changes no transition count. |
| `BuildProperties.InternWordWords` | tweets_generator_ex3a.c:44-54 | Interning adds exactly that word to the chain's words. |
| `BuildProperties.RecordTransitionEdges` | tweets_generator_ex3a.c:62-66 | Recording `prev -> cur` adds one to that transition's count and changes no other count. |
| `BuildProperties.RecordTransitionWords` | tweets_generator_ex3a.c:62-66 | Recording a transition leaves the chain's words as they were. |
| `BuildProperties.TakeWordCounts` | tweets_generator_ex3a.c:57-75 | One pass of the loop counts one word and lowers the flag only when the count equals a limit other than `READ_ALL_WORDS`. It fails only when memory is limited. |
| `BuildProperties.TakeWordEdges` | tweets_generator_ex3a.c:57-68 | One pass adds one to the count of the previous word followed by this word, and to nothing else. |
| `BuildProperties.TakeWordWords` | tweets_generator_ex3a.c:57-68 | One pass adds this word to the chain's words. |
| `BuildProperties.FillRestAccounting` | tweets_generator_ex3a.c:55-77 | The count grows by one per word taken. Every word is taken unless the flag drops, which happens only at a limit other than `READ_ALL_WORDS` and exactly when the count equals it. A lowered flag stops the loop at once. |
| `BuildProperties.FillRestUnlimited` | tweets_generator_ex3a.c:55-77 | With unlimited memory the loop never fails. |
| `BuildProperties.FillRestEdges` | tweets_generator_ex3a.c:55-77 | The count of every transition grows by the adjacent pairs of the previous word followed by the words taken. |
| `BuildProperties.FillRestWords` | tweets_generator_ex3a.c:55-77 | The chain's words grow by exactly the words taken. |
| `BuildProperties.FillRestCapped` | tweets_generator_ex3a.c:69-75 | Below the limit, the loop takes every word if they run out first; otherwise it stops with the flag down and the count equal to the limit. |
| `CorpusProperties.FillLineAccounting` | tweets_generator_ex3a.c:31-79 | A line takes a prefix of its words: one at least when it has any, and all unless the flag drops. A line without words changes nothing. Under `READ_ALL_WORDS` the flag never drops, and as the source compares it never drops at the first word. |
| `CorpusProperties.FillLineUnlimited` | tweets_generator_ex3a.c:31-79 | With unlimited memory a line never fails. |
| `CorpusProperties.FillLineEdges` | tweets_generator_ex3a.c:44-77 | A line adds exactly the adjacent pairs among the words it takes. Transitions never cross into the line before. |
| `CorpusProperties.FillLineWords` | tweets_generator_ex3a.c:44-77 | A line adds exactly the words it takes to the chain's words. |
| `CorpusProperties.FillLineCapped` | tweets_generator_ex3a.c:44-75 | Comparing after every word, a line started below the limit stops exactly at the limit. |
| `CorpusProperties.FillDatabaseWords` | tweets_generator_ex3a.c:89-110 | With `n` the words counted, the chain gains exactly the first `n` words of the text. |
| `CorpusProperties.FillDatabaseEdges` | tweets_generator_ex3a.c:89-110 | With `n` the words counted, each transition count grows by its occurrences within a line among the first `n` words of the text. |
| `CorpusProperties.FillDatabaseReadsAll` | tweets_generator_ex3a.c:97-106 | With unlimited memory, a limit that is `READ_ALL_WORDS`, or that the count can no longer meet, is never noticed: the whole text is read. |
| `CorpusProperties.FillDatabaseCapped` | tweets_generator_ex3a.c:97-106 | Comparing after every word, the build reads exactly the smaller of the limit and the words left, and the flag drops exactly when the limit is reached. |
| `CorpusProperties.FillDatabaseWithoutMemory` | tweets_generator_ex3a.c:102-106 | On an empty chain with no allocation possible, the build fails exactly when the text holds a word. |
| `CorpusProperties.BuildChainContents` | tweets_generator_ex3a.c:89-110 | After any successful build, the chain holds exactly the first `written_words` words of the text. Each count of `a -> b` is the number of times `b` follows `a` within a line among them. |
| `CorpusProperties.BuildChainCappedContents` | tweets_generator_ex3a.c:31-110 | The same contents hold when the limit is compared after every word. |
| `CorpusProperties.BuildChainReadsAll` | tweets_generator_ex3a.c:44-75 | As the source compares, any limit of at most one (`READ_ALL_WORDS` included) reads the whole text. |
| `CorpusProperties.BuildChainOverrunsLimit` | tweets_generator_ex3a.c:51-75 | As the source compares, a limit of 3 on the lines "a b" and "c d" reads all 4 words. |
| `CorpusProperties.BuildChainCappedReads` | tweets_generator_ex3a.c:69-75 | Comparing after every word, a positive limit reads exactly the smaller of the limit and the text's length, and any other limit reads the whole text. |
| `CorpusProperties.BuildChainCappedStopsAtLimit` | tweets_generator_ex3a.c:69-75 | Comparing after every word, a limit of 3 on "a b" and "c d" reads exactly 3 words. |
| `CorpusProperties.BuildChainWithoutMemory` | tweets_generator_ex3a.c:89-110 | When no allocation succeeds, `fill_database` fails exactly on a text that holds a word. |
| `Tweets.WalkFrom` | tweets_generator_ex3a.c:134-151 | The loop emits at most `max_length` words in all, one draw per word. Each word is the one its draw selects among the recorded successors of the word before. Only the last word may end in a period. The walk ends at a period exactly when its last word ends in one, and at `max_length` exactly when it reached `max_length` words otherwise. A zero total or a lack of draws is given as the reason only below `max_length`. |
| `Tweets.WalkFollowsEdges` | tweets_generator_ex3a.c:134-151 | Along a walk, draw `k` selects position `k + 1` from position `k`, so consecutive words are linked by recorded transitions. |
| `Tweets.GenerateTweet` | tweets_generator_ex3a.c:117-152 | A tweet starts at the given word and has between 1 and `max_length` words. Adjacent words follow recorded transitions. It ends exactly after the first word after the start that ends in a period, or at `max_length`, and its end reason says which. A zero total or a lack of draws is given only for a tweet shorter than `max_length`. |
| `Tweets.IsTweetStopUnique` | tweets_generator_ex3a.c:134-151 | The words of a tweet determine its end reason: two reasons that both fit the same path are equal. |
| `Tweets.GenerateTweetHasTwoWords` | markov_chain_ex3a.h:109-115 | With `max_length` at least 2 and a start word that has a successor, the tweet has at least two words, and the second is the one the first draw selects. |
| `Tweets.TweetWords` | tweets_generator_ex3a.c:164-171 | A tweet of `print_tweets` has 1 to `MAX_WORDS` words, and its first word does not end in a period. |
| `Tweets.NextTweet` | tweets_generator_ex3a.c:164-173 | One pass fails exactly when no draw names a start word. Otherwise its positions form a tweet of at most `MAX_WORDS` words from the start word `get_first_random_node` drew, on the draws after it. Its words are the words at those positions, and it uses the start word's draws plus one draw per later word. The tweet has at least one word, and its first word does not end in a period. |
| `Tweets.PrintFrom` | tweets_generator_ex3a.c:164-173 | With `remaining` passes to go, tweet `k` is one pass on the draws the earlier tweets left. At most `remaining` tweets are produced. Every tweet but the last ended at a period or at `MAX_WORDS`. The run is complete exactly when all `remaining` tweets were produced and the last ended normally. A run that stops early after a normal end does so because no draw left names a start word. |
| `Tweets.PrintTweets` | tweets_generator_ex3a.c:159-175 | The same holds with `num_of_tweets` passes. A count below 1 prints nothing, completes, and does not touch the chain, which may then be empty. Each tweet has 1 to `MAX_WORDS` words and starts with a word not ending in a period. |
| `Tweets.IsPrintingUnique` | tweets_generator_ex3a.c:159-175 | For given draws, at most one output fits that description, so it fixes the tweets `print_tweets` prints. |

## Left out

- `main` and `check_arguments` are not modelled. They parse the command line, seed the generator, open the file and print messages; a build takes a `seq<string>` of lines instead.
- Reading the file with `fgets` is not modelled. Lines longer than `MAX_LINE - 1` characters reach `fill_database_one_line` in pieces; the model takes each line whole. The newline stripping is not needed, because the newline is a delimiter.
- `printf` output and the spacing between words are not modelled: a tweet is the sequence of its words.
- `free_database` is not modelled, because Dafny values need no deallocation.
- `rand` and `srand` are not modelled: every draw is a parameter, so the generator's determinism under a seed is not modelled.
- Draws are unbounded `nat`s, not bounded by `RAND_MAX`, and no distribution is attached to them. The modulo bias of `rand() % total` when `RAND_MAX + 1` is not a multiple of the total is therefore not modelled; the model states only how many remainders select each entry.
- `get_first_random_node` keeps drawing forever in the source when every word ends in a period. With finitely many draws the model reports that no start was found.
- `get_next_random_node` on a node without successors computes `rand() % 0`, which C leaves undefined. The walk stops there with the reason `ZeroTotal`, and `print_tweets` stops with it.
- `get_random_number` requires a positive bound, so `get_first_random_node` requires a non-empty chain, since the source divides by its size.
- `written_words`, the counts and the totals are C `int`s in the source; they are unbounded here, and overflow is not modelled.
- `add_to_database` allocates up to three times: the node, the copy of the word, and the list cell inside `add`. The model counts these as one allocation attempt. The body of `add` in linked_list._ex3a.h is not part of this model; it is taken to append at the end.
- After an allocation error the source returns 1 and leaves a partly built chain for the caller to free. The model returns `AllocationError` without that chain.
- `Walker.GetNextRandomNode` states only that its result is a recorded successor. The weighted choice is stated by `Walker.GetNextRandomNodeIsWeighted` and `Walker.EveryEntryReachable`.

## Findings

| source | as written | input that shows it | evidently intended | confidence | as-written member | corrected member |
|---|---|---|---|---|---|---|
| tweets_generator_ex3a.c:51-75 | `written_words` is incremented after the first word of a line (line 51) but compared with `words_to_read` only after later words (lines 69-75). A limit first reached at the first word of a line is never noticed, and the count only grows past it. | Lines "a b" and "c d" with `words_to_read` 3 read all 4 words. `words_to_read` 1 reads the whole text. | Stop after exactly `words_to_read` words, or at the end of a shorter text. | not executed | `CorpusProperties.BuildChainOverrunsLimit` | `CorpusProperties.BuildChainCappedReads` |
