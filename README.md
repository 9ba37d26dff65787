# Weighted word graph and TrustRank, modelled in Dafny

This project models the ranking core of a tweet-analysis tool. Texts are
preprocessed into words, and the words are paired into overlapping bigrams
("a b", "b c"). The bigrams are counted into weighted triples, and the
triples become the arcs of a weighted word digraph. The graph is ranked by
PageRank, inverse PageRank and TrustRank, all three computed by one
damped random walk (`markov_chain`).

The model has these parts:

- **`GraphModel`** (`graph_model.dfy`): the four pieces of graph state as a value:
  - the node set;
  - the total out-weight of each source;
  - the per-node neighbour lists;
  - the list of distinct edge triples.

  It defines `add_edge` on that value, the graph invariant `add_edge` keeps, and reversal.
- **`CustomGraph`** (`graph.dfy`): the `WeightedWordDiGraph` class. Its fields are the four pieces of state, and its methods update them in place. Each method is proved against `GraphModel`. `markov_chain` is a loop whose result is proved equal to the `Markov` specification.
- **`Markov`** (`markov.dfy`): the walk over exact `real` scores:
  - the start scores, one round (`Step`) and the bounded iteration (`Chain`, `Rank`);
  - mass conservation and non-negativity;
  - the ranking by score and the TrustRank seeds;
  - the mean squared difference.
- **`Iteration`** (`iteration.dfy`): a bounded fixed-point iteration whose early stop returns the state *before* the converged one.
- **`ProcessText`** (`process_text.dfy`): the bigram builders.
- **`PreprocessText`** (`preprocess_text.dfy`): the word filters, with `str.lower`, `str.split` and `" ".join` written out.
- **`JsonHelper`** (`json_helper.dfy`): the nested-key lookup over a JSON value.
- **Shared modules:**
  - `Sums` (`sums.dfy`): finite sums over sets;
  - `SeqUtil` (`seq_util.dfy`): de-duplication, counting, flattening;
  - `Sorting` (`sorting.dfy`): Python's stable `sorted`, and its order on strings;
  - `Outcome` (`outcome.dfy`): Python's exceptions as a `Result`.

Where the code and its documentation disagree, the model follows the code.
The `markov_chain` docstring says scores are updated until they converge.
The loop actually `break`s before `scores = new_scores`
(modules_script/m_graph_custom.py:117-121). So on convergence it returns
the scores of the round *before* the converged one. `Markov.Chain` and
`Markov.ConvergedRoundIsDiscarded` state this.

## Model

| member | source | states |
|---|---|---|
| GraphModel.AddEdgeEffect | modules_script/m_graph_custom.py:22-42 | add_edge puts both endpoints in the node set; appends (target, weight) to the source's neighbour list; gives the target an empty list only if it had none; leaves every other list and total unchanged; adds the weight to the source's total; appends the triple to `edges` only when it is not already there |
| GraphModel.AddEdgeKeepsInv | modules_script/m_graph_custom.py:22-42 | add_edge preserves the graph invariant: every node has a neighbour list, arcs lead to nodes, a node has a total exactly when it has arcs and the total is the sum of their weights, `edges` has no repeats and holds exactly the arcs' triples, the node set is the edges' endpoints |
| GraphModel.AddEdgesKeepsInv | modules_script/m_graph_custom.py:44-46 | adding a list of edges one by one preserves the invariant |
| GraphModel.FromEdgesInv | modules_script/m_graph_custom.py:8-15 | a graph built from any edge list satisfies the invariant |
| GraphModel.FromEdgesSpec | modules_script/m_graph_custom.py:8-15 | `GraphModel.FromEdges`, the model of `__init__` with add_edge_from_list, is the graph built from an edge list has the endpoints as nodes, each source's arcs in input order including repeats, each total the sum of those arcs' weights, and `edges` the de-duplicated input in first-occurrence order |
| GraphModel.AddEdgeKeepsNoDup | modules_script/m_graph_custom.py:32-34 | `edges` never holds the same triple twice |
| GraphModel.RepeatedEdgeCountsTwiceForwardOnceReversed | modules_script/m_graph_custom.py:32-39 | an identical edge added twice gives two arcs in the graph but one in its reversal |
| GraphModel.DifferentWeightsBothKept | modules_script/m_graph_custom.py:32-39 | triples that differ only in weight are both kept, in `edges` and among the arcs |
| GraphModel.ReverseTwice | modules_script/m_graph_custom.py:17-19 | reversed_edges has the length of `edges`, and reversing twice gives back `edges` |
| GraphModel.ReverseEdgesNoDup | modules_script/m_graph_custom.py:17-19 | reversing distinct triples gives distinct triples |
| GraphModel.EndpointsReversed | modules_script/m_graph_custom.py:17-19 | reversal keeps the set of endpoints |
| GraphModel.ReversedGraph | modules_script/m_graph_custom.py:48-51 | the reversed graph satisfies the invariant, has the same node set and has exactly the reversed triples; reversing it again gives back the original triples |
| CustomGraph.WeightedWordDiGraph.constructor | modules_script/m_graph_custom.py:8-15 | a new graph is the edge list added to the empty graph, and satisfies the invariant |
| CustomGraph.WeightedWordDiGraph.AddEdge | modules_script/m_graph_custom.py:22-42 | the new state of the four fields is GraphModel.AddEdge of the old one, and the invariant is kept |
| CustomGraph.WeightedWordDiGraph.AddEdgeFromList | modules_script/m_graph_custom.py:44-46 | the new state is the old one with the edges added in order, and the invariant is kept |
| CustomGraph.WeightedWordDiGraph.GetReversedDigraph | modules_script/m_graph_custom.py:48-51 | a fresh graph built from the reversed triples, with the same node set; the receiver is unchanged |
| CustomGraph.WeightedWordDiGraph.MarkovChain | modules_script/m_graph_custom.py:53-124 | the result is ZeroDivisionError when the effective bias set is empty, or when at least one round runs and a node with arcs has total weight 0; otherwise it is Markov.Rank, at most `maxIter` rounds from the start scores, returning the previous scores on convergence |
| CustomGraph.WeightedWordDiGraph.GetPagerank | modules_script/m_graph_custom.py:126-127 | markov_chain with no bias set |
| CustomGraph.WeightedWordDiGraph.GetInversePagerank | modules_script/m_graph_custom.py:129-131 | PageRank of the graph built from the reversed triples |
| CustomGraph.WeightedWordDiGraph.GetTrustRank | modules_script/m_graph_custom.py:133-147 | `bias_amount <= 0` raises ValueError; otherwise markov_chain seeded with the labels of the first `bias_amount` entries of the ranking, with `bias_amount` clamped to the node count; a score dict is sorted first, and with no ranking the sorted inverse PageRank is used and its failure is passed on |
| CustomGraph.Round | modules_script/m_graph_custom.py:93-114 | one round fails with ZeroDivisionError exactly when some node has arcs but a zero total; otherwise it yields Markov.Step, whatever order the nodes are visited in |
| CustomGraph.Iterate | modules_script/m_graph_custom.py:92-121 | the round loop fails exactly when it runs at least once on a graph with a zero total; otherwise it returns Markov.Chain |
| CustomGraph.Distribute | modules_script/m_graph_custom.py:98-107 | visiting every node adds each node's flow to its targets and collects the score of the dangling nodes; it fails exactly when a node with arcs has a zero total |
| CustomGraph.Visit | modules_script/m_graph_custom.py:99-107 | a dangling node adds its score to the dangling sum; any other node passes `alpha * score * weight / total` along each arc, and fails when its total is 0 |
| CustomGraph.PassAlong | modules_script/m_graph_custom.py:105-107 | after the loop over a neighbour list, each target has gained the base share times the total weight of its arcs in the list |
| CustomGraph.ShareOut | modules_script/m_graph_custom.py:109-114 | the dangling share is added to every bias node and to no other node |
| CustomGraph.AllClose | modules_script/m_graph_custom.py:117 | the convergence test holds exactly when every node moved by less than epsilon |
| CustomGraph.SpreadSpec | modules_script/m_graph_custom.py:98-107 | the scores after visiting nodes in any order, each once, are the start scores plus the inflow from the visited nodes |
| CustomGraph.CollectedSpec | modules_script/m_graph_custom.py:98-101 | the dangling sum after visiting nodes in any order is the sum of the visited dangling nodes' scores |
| CustomGraph.ChainStep | modules_script/m_graph_custom.py:117-121 | a converged round leaves the current scores as the result; otherwise the result is the chain continued from the new scores with one round fewer |
| CustomGraph.ItemsOf | modules_script/m_graph_custom.py:153-154 | the items of a score dict: one (label, score) pair per key, with distinct labels |
| CustomGraph.ComparePagerank | modules_script/m_graph_custom.py:156-164 | an empty first map divides by zero; a key of the first map missing from the second raises KeyError naming it; otherwise the result is the mean of the squared differences |
| Markov.InitialScoresSumToOne | modules_script/m_graph_custom.py:81-87 | the start scores are keyed by exactly the nodes and sum to 1 when the bias set is a non-empty subset of the nodes |
| Markov.TeleportTotal | modules_script/m_graph_custom.py:90-94 | the teleport shares (1-alpha)/n of the bias nodes sum to 1-alpha |
| Markov.DanglingShareTotal | modules_script/m_graph_custom.py:109-114 | the redistributed dangling shares sum to alpha times the dangling sum |
| Markov.OutflowLive | modules_script/m_graph_custom.py:103-107 | a node with arcs passes on exactly alpha times its score |
| Markov.StepMass | modules_script/m_graph_custom.py:90-114 | one round maps total mass m to (1-alpha) + alpha*m |
| Markov.StepConservesMass | modules_script/m_graph_custom.py:90-114 | on a graph with nonzero totals and a bias set within the nodes, one round keeps the key set and maps mass m to (1-alpha) + alpha*m |
| Markov.ChainConservesMass | modules_script/m_graph_custom.py:92-121 | starting from mass 1, every number of rounds keeps the key set and mass 1 |
| Markov.RankSumsToOne | modules_script/m_graph_custom.py:53-124 | the markov_chain result is keyed by the nodes and sums to 1 |
| Markov.RankStopsAtConvergenceOrBudget | modules_script/m_graph_custom.py:92-121 | the result is the state after some k rounds with k at most max_iter; when k is below max_iter, the next round passed the convergence test |
| Markov.NoRoundsReturnsInitialScores | modules_script/m_graph_custom.py:86-92 | with max_iter <= 0 the start scores are returned |
| Markov.ConvergedRoundIsDiscarded | modules_script/m_graph_custom.py:117-121 | when the first round converges, the scores before it are returned, not the new ones |
| Markov.PositiveWeightsNoZeroTotals | modules_script/m_graph_custom.py:103 | with positive weights no total out-weight is zero, so the division cannot fail |
| Markov.StepNonnegative | modules_script/m_graph_custom.py:94-114 | with positive weights and 0 <= alpha <= 1, a round maps non-negative scores to non-negative scores |
| Markov.ChainNonnegative | modules_script/m_graph_custom.py:92-121 | the iteration keeps scores non-negative |
| Markov.RankNonnegative | modules_script/m_graph_custom.py:53-124 | every score markov_chain returns is non-negative |
| Markov.SelfLoopRanksOne | modules_script/m_graph_custom.py:53-124 | a single node with a self-loop of nonzero weight ranks 1 for any alpha and max_iter when epsilon > 0 |
| Markov.SortedRankScoreSpec | modules_script/m_graph_custom.py:153-154 | `Markov.SortedRankScore`, the model of get_sorted_rank_score, returns a permutation of the items in non-increasing score order, with tied items in their input order |
| Markov.RankingLabels | modules_script/m_graph_custom.py:153-154 | sorting keeps the length and the set of labels |
| Markov.DistinctLabelsCount | modules_script/m_graph_custom.py:146 | distinct labels give a seed set as large as the number of entries taken |
| Markov.TrustSeedsAreNodes | modules_script/m_graph_custom.py:140-146 | the seeds taken from a ranked score dict over the nodes are nodes, and there is at least one when the graph has nodes, so the TrustRank result sums to 1 |
| Markov.TrustRankWithAllNodesIsPageRank | modules_script/m_graph_custom.py:133-147 | when `bias_amount` is at least the node count, the TrustRank seeds are all the nodes, so TrustRank equals PageRank |
| Markov.MeanSquareDiffSpec | modules_script/m_graph_custom.py:156-164 | the mean squared difference is non-negative, and zero exactly when the two maps agree on every node of the first |
| Iteration.RunStops | modules_script/m_graph_custom.py:92-121 | a bounded iteration with early stop returns the state after k applications, for some k within the budget; stopping early means the next state passed the test |
| Iteration.RunKeeps | modules_script/m_graph_custom.py:92-121 | a property every round preserves holds for the result |
| Sorting.SortByPermutes | modules_script/m_process_text.py:88 | `sorted` returns a permutation of its input |
| Sorting.SortBySorted | modules_script/m_process_text.py:88 | with a total, transitive order the result of `sorted` is ordered |
| Sorting.SortByStable | modules_script/m_graph_custom.py:154 | `sorted` keeps tied elements in their input order |
| Sorting.StrLeTotal | modules_script/m_process_text.py:88 | Python's string order is total |
| Sorting.StrLeTransitive | modules_script/m_process_text.py:88 | Python's string order is transitive |
| Sorting.StrLeAntisymmetric | modules_script/m_process_text.py:88 | strings that are each `<=` the other are equal |
| SeqUtil.DedupSpec | modules_script/m_process_text.py:81-84 | keeping first occurrences leaves no repeats and exactly the elements of the input |
| SeqUtil.DedupOfNoDup | modules_script/m_process_text.py:81-84 | a list without repeats is left unchanged |
| SeqUtil.DedupKeepsFirstOccurrenceOrder | modules_script/m_process_text.py:81-84 | two first occurrences keep their relative order |
| SeqUtil.CountAppend | modules_script/m_process_text.py:92 | `list.count` of a concatenation is the sum of the counts |
| SeqUtil.FlattenMembership | modules_script/m_process_text.py:86 | an element of the concatenated lists is an element of one of them, and conversely |
| SeqUtil.FlattenLength | modules_script/m_process_text.py:86 | the concatenation's length is the sum of the lengths |
| ProcessText.PairWordToBigram | modules_script/m_process_text.py:8-19 | fewer than 3 words give []; n >= 3 words give n-2 bigrams; the first component of bigram i pairs words i and i+1; each bigram's second component is the next one's first; the last second component pairs the last two words |
| ProcessText.PairLeOrder | modules_script/m_process_text.py:88 | Python's order on pairs of strings is total and transitive |
| ProcessText.MergeMultipleBigramsList | modules_script/m_process_text.py:64-88 | the loop's result equals Merged: the concatenation, or its first occurrences when removing duplicates, sorted when asked |
| ProcessText.AppendUnseen | modules_script/m_process_text.py:81-84 | appending a list's bigrams that are not yet merged gives the first occurrences of everything seen so far |
| ProcessText.MergedConcatenates | modules_script/m_process_text.py:78-88 | without de-duplication the result is the in-order concatenation (or, sorted, a permutation of it), and its length is the sum of the lengths |
| ProcessText.MergedDeduplicates | modules_script/m_process_text.py:81-84 | with de-duplication the result has no repeats and holds exactly the bigrams of the input lists |
| ProcessText.MergedSorted | modules_script/m_process_text.py:88 | with `sort` the result is in Python's tuple order |
| ProcessText.HeavierFirstOrder | modules_script/m_process_text.py:94 | descending order by (count, first, second) is total and transitive |
| ProcessText.CountedSpec | modules_script/m_process_text.py:92-93 | the triples are one per distinct bigram, each with its number of occurrences |
| ProcessText.SortKeeps | modules_script/m_process_text.py:94 | sorting the triples keeps that property |
| ProcessText.WeightedBigramsCount | modules_script/m_process_text.py:91-94 | `ProcessText.BigramsToWeightedBigrams`, the model of bigrams_to_weighted_bigrams, yields exactly one triple per distinct bigram, with a positive count equal to its occurrences |
| ProcessText.CountedTotal | modules_script/m_process_text.py:92-93 | the counts of the triples sum to the number of bigrams |
| ProcessText.WeightedBigramsTotal | modules_script/m_process_text.py:91-94 | the counts sum to the input length, sorted or not |
| ProcessText.WeightedBigramsSorted | modules_script/m_process_text.py:94 | with `sort` the triples are in descending (count, first, second) order |
| ProcessText.GetAllWords | modules_script/m_process_text.py:97-102 | every word of any bigram appears exactly once, and nothing else appears |
| PreprocessText.Lower | modules_script/m_preprocess_text.py:59 | lower-casing keeps the length, turns each upper-case ASCII letter into the lower-case letter 32 code points up, keeps every other character, and leaves no upper-case ASCII letter |
| PreprocessText.LowerIdempotent | modules_script/m_preprocess_text.py:59 | lower-casing twice is lower-casing once |
| PreprocessText.LeadingWord | modules_script/m_preprocess_text.py:82-83 | the leading word is the prefix up to the first whitespace character |
| PreprocessText.TokenizeSplit | modules_script/m_preprocess_text.py:82-83 | every token is non-empty and contains no whitespace |
| PreprocessText.SplitWord | modules_script/m_preprocess_text.py:82-83 | a non-empty, whitespace-free text splits into itself |
| PreprocessText.SplitBlank | modules_script/m_preprocess_text.py:82-83 | a text of whitespace only splits into no tokens |
| PreprocessText.SplitAtSpace | modules_script/m_preprocess_text.py:82-83 | the tokens of `a + c + b`, for a whitespace character `c`, are the tokens of `a` followed by those of `b`; with SplitWord and SplitBlank this makes every maximal non-whitespace run one token, in order |
| PreprocessText.SplitJoin | modules_script/m_preprocess_text.py:57-60 | splitting the `" ".join` of non-empty, space-free words gives the words back |
| PreprocessText.SplitJoinSplit | modules_script/m_preprocess_text.py:57-60 | split, join, split is the same as split |
| PreprocessText.ReplaceAbbreviationsList | modules_script/m_preprocess_text.py:63-64 | length is kept; position i becomes the replacement of its lower-case form when there is one and is unchanged otherwise |
| PreprocessText.ReplaceNothing | modules_script/m_preprocess_text.py:63-64 | an empty replacement map changes nothing |
| PreprocessText.ReplaceStrWords | modules_script/m_preprocess_text.py:57-60 | `PreprocessText.ReplaceAbbreviationsStr` models replace_abbreviations_str; when every replacement is a single word, the words of its result are replace_abbreviations_list applied to `text.split()` |
| PreprocessText.RemovePunctuations | modules_script/m_preprocess_text.py:66-67 | the result has no punctuation character and is no longer than the input |
| PreprocessText.RemovePunctuationsAppend | modules_script/m_preprocess_text.py:66-67 | removal distributes over concatenation, so the kept characters stay in order |
| PreprocessText.RemovePunctuationsKeeps | modules_script/m_preprocess_text.py:66-67 | every other character is kept as often as it occurs |
| PreprocessText.RemovePunctuationsIdempotent | modules_script/m_preprocess_text.py:66-67 | removing punctuation twice is removing it once |
| PreprocessText.RemoveStopwords | modules_script/m_preprocess_text.py:76-79 | the result is no longer than the input and holds exactly the input words whose lower-case form is neither a stopword nor "amp" (ADDITIONAL_STOPWORDS, lines 46-48) |
| PreprocessText.RemoveStopwordsAppend | modules_script/m_preprocess_text.py:76-79 | removal distributes over concatenation, so kept words stay in order |
| PreprocessText.RemoveStopwordsIdempotent | modules_script/m_preprocess_text.py:76-79 | removing stopwords twice is removing them once |
| JsonHelper.GetFromNestedKey | helper_script/json_helper.py:33-58 | the loop's result equals NestedGet: the value reached, the default (or KeyError naming the key) at the first missing or null key, AttributeError when `.get` meets a non-object |
| JsonHelper.NestedGetEmpty | helper_script/json_helper.py:48-49 | an empty key list returns the data itself |
| JsonHelper.DescendAppend | helper_script/json_helper.py:51-58 | following `p + q` is following `p`, then `q` from where `p` arrived |
| JsonHelper.LaterKeysIgnored | helper_script/json_helper.py:53-56 | once the walk stops at a key, keys after it are never examined |
| JsonHelper.MissingIsFirst | helper_script/json_helper.py:53-56 | the key a KeyError names is absent or null at its step, and every key before it was present and non-null |
| JsonHelper.DefaultOnMissing | helper_script/json_helper.py:53-57 | without `throw_key_error` the lookup fails only on a non-object, and a missing key returns the default |
| JsonHelper.PresentPathReaches | helper_script/json_helper.py:51-58 | a present, non-null first key continues the lookup from its value |

## Left out

- Scores are exact `real`s, not IEEE floats, so rounding, summation order and the `** 0.5` square root of compare_pagerank (modules_script/m_graph_custom.py:164) are not modelled. CustomGraph.ComparePagerank returns the mean of squared differences.
- Edge weights are unbounded `int`s. Python integers are unbounded too.
- Set and dict iteration order is left unspecified. `markov_chain` picks nodes in an arbitrary order, and its result is proved independent of it. `compare_pagerank` also picks keys in an arbitrary order; its sum is independent of it, but when several keys of the first map are missing from the second, the model promises only that the KeyError names one of them, not which. The entries of `bigrams_to_weighted_bigrams` come from a set, and they are modelled in first-occurrence order.
- ProcessText.GetAllWords: lists the set's words in an unspecified order, as `list(set)` does; the model promises each word exactly once, not their order.
- CustomGraph.WeightedWordDiGraph.GetTrustRank takes a score dict as its items in insertion order (`SeedScores.ScoreDict`), because the ranking's tie order depends on it.
- The constructor's `None` edge list is the empty list.
- The default arguments of `markov_chain`, `get_pagerank`, `get_inverse_pagerank` and `get_trust_rank` (alpha=0.85, epsilon=1e-5, max_iter=200; modules_script/m_graph_custom.py:53, 126, 129, 133) are not modelled as defaults: the model takes them as required parameters, and a call with the defaults is the call passing those values.
- `markov_chain`'s loop is split into methods over the graph state as a value (`Iterate`, `Round`, `Distribute`, `Visit`, `PassAlong`, `ShareOut`, `AllClose`), which the class method calls.
- `__repr__` and the `__main__` demo blocks are not part of this model.
- PreprocessText.Lower: lower-cases ASCII letters only. Python's `str.lower` also maps other Unicode letters.
- PreprocessText.RemoveStopwords takes the stopword list as a parameter. The NLTK English corpus is read from disk at import time and is not part of this model.
- PreprocessText.ReplaceStrWords covers only replacements that are single words. A replacement containing a space (as in "crore worth") makes the word count grow.
- The NLTK tokenizer, the regex-based `expand_contractions_custom`, `remove_url` and `preprocess_text` are not part of this model. Neither are the file-reading `json_to_bigrams` and `tweet_json_file_to_bigrams`.
- JsonHelper.GetFromNestedKey takes already-parsed data. The branch that parses a string with orjson (helper_script/json_helper.py:45-46), and the rest of json_helper.py, are not part of this model. The KeyError's message is abstracted to the key it names. JSON numbers are integers. An AttributeError is named only by the attribute `get`.
- The command-line driver, the networkx backend, the settings loader, timers and file helpers are I/O and foreign-library glue, and are not part of this model.
