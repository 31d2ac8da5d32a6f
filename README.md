# TextRank keyword engine — a Dafny model

This project models the keyword engine of `txtrank.py`, the class `txtrank`.
The engine filters the tokens of a parsed document by part-of-speech tag and
stop-word status. From the filtered sentences it builds a vocabulary (an
insertion-ordered dictionary from word to index). It then lists the ordered
word pairs that fall within a sliding window, without repeats. From the pairs
it builds a 0/1 adjacency matrix, symmetrizes it as `a + a.T - diag(a)` and
divides every column by its sum. Next it runs a damped power iteration
`pr = (1 - d) + d * (g . pr)`, which starts from all ones and stops early
when the sum of the scores moves by less than `min_diff`. Last, it records
the score of every vocabulary word and shows the best-ranked words.

One module per stage:

| file | module | models |
|---|---|---|
| `dedup.dfy` | `FirstOccurrence` | keeping the first occurrence of each element of a stream, shared by the vocabulary and the pair list |
| `segment.dfy` | `Filtering` | `sentence_segment` |
| `vocab.dfy` | `Vocabulary` | `get_vocab` |
| `pairs.dfy` | `TokenPairs` | `get_token_pairs` |
| `graph.dfy` | `Graph` | `symmetrize`, `get_matrix` |
| `scores.dfy` | `Scores` | the iteration loop of `analyze` |
| `ranking.dfy` | `Ranking` | the score table of `analyze`, and the sort and cut-off of `get_keywords` |
| `engine.dfy` | `Engine` | the class: its fields, constructor, `analyze` and `get_keywords` |

Loops in the source are methods with loops here. Each is proved equal to a
specification function, and the properties the engine relies on are proved
as lemmas about those functions. The object is the class
`Engine.TextRank`. Its fields are `d`, `minDiff`, `steps` and `nodeWeight`.
`Analyze` updates `nodeWeight` in place.

The main results:

- The vocabulary holds exactly the words of the filtered sentences. Their
  indices are dense, from 0, in order of first occurrence.
- The pair list is sound, complete and free of repeats. A window of size 1
  or less yields no pairs.
- The matrix is square, has every entry in [0, 1], and is positive exactly
  where two words were paired in either order. It is column-stochastic:
  every column sums to 1, except the column of a word without neighbours,
  whose column and row are both all zero.
- No score is below `1 - d`, and an isolated word scores exactly `1 - d`.
- On such a matrix the scores of the linked words always add up to the
  number of those words. The total after every update is therefore the same
  value, `c + (n - c)(1 - d)`, where `c` of the `n` words have a neighbour.
- The sum-based stop test is therefore always met after the second update.
  With a positive threshold and `steps >= 2`, the loop performs one or two
  updates, never more (`Scores.ExitAtSecondUpdate`).
- The ranking is sorted, is a permutation of the table, and is stable.
  Sorting an already sorted table changes nothing. `get_keywords` shows the
  top `min(n, max(1, number + 2))` entries of that ranking.

Three behaviours of the code are worth knowing; the model keeps each as
written:

- The code keeps self-loops. A word that appears twice within one window
  yields the pair `(w, w)`, and `symmetrize` keeps that 1 on the diagonal
  (`Graph.SelfLoopKept`).
- `get_keywords(number)` prints an entry and only then tests `i > number`.
  It therefore shows `number + 2` entries, and one entry when `number` is
  negative.
- No parameter is validated. A negative `number` is not rejected, and a
  window size below 2 simply gives an empty pair list.

The source's default arguments are kept. Unless told otherwise, `Analyze`
uses the candidate tags `["NOUN", "PROPN"]`, a window of 4 and no case
folding, and `GetKeywords` uses `number = 10`.

## Model

| member | source | states |
|---|---|---|
| FirstOccurrence.DedupElements | txtrank.py:43-47 | first-occurrence deduplication keeps exactly the elements of the stream and is never longer than it |
| FirstOccurrence.DedupDistinct | txtrank.py:45-46 | no element is kept twice (a dictionary key, or a pair guarded by `pair not in token_pairs`) |
| FirstOccurrence.DedupFirstOccurrenceOrder | txtrank.py:43-47 | of two kept elements, the earlier one in the result first occurs earlier in the stream |
| FirstOccurrence.DedupIgnoresRepeats | txtrank.py:45 | appending only elements already seen leaves the deduplicated stream unchanged |
| FirstOccurrence.Dedup | txtrank.py:43-47 | the stream read from the start, each element kept when it is not yet among those kept, skipped otherwise — the `if word not in vocab` and `if pair not in token_pairs` guards |
| FirstOccurrence.DedupPrefix | txtrank.py:45-47 | reading more of the stream only appends: what was kept so far stays, at the same positions |
| Filtering.Selected | txtrank.py:29-35 | the words of one sentence: the text of each token with a candidate tag that is not a stop word, folded when `lower` is set, in token order |
| Filtering.Segment | txtrank.py:27-36 | one such list per sentence of the document, in sentence order |
| Filtering.SentenceSegment | txtrank.py:24-37 | the loop builds one list per sentence, holding the surface texts of its qualifying tokens in order |
| Filtering.SelectedMembership | txtrank.py:29-35 | a word is kept from a sentence iff some token has a candidate tag, is not a stop word and has that (optionally folded) text; never more words than tokens |
| Filtering.SelectedConcat | txtrank.py:29-35 | filtering two consecutive stretches of a sentence gives the words of the first followed by those of the second |
| Vocabulary.GetVocab | txtrank.py:39-48 | the dictionary is well formed, its keys are exactly the words of the sentences in first-occurrence order, its values are exactly 0 .. size - 1, and index order is first-occurrence order |
| Vocabulary.AddSentence | txtrank.py:44-47 | the inner loop turns the vocabulary of a stream into the vocabulary of the stream followed by one more sentence; every word already present keeps its index and the words already listed keep their places |
| Vocabulary.InsertFresh | txtrank.py:45-47 | inserting an unseen word under the next index keeps the word list and the index table in agreement |
| Vocabulary.VocabSize | txtrank.py:69 | `len(vocab)` equals the number of distinct words |
| Vocabulary.Length | txtrank.py:69 | `len(vocab)`, the number of dictionary entries, is the number of distinct words, which sizes the matrix |
| Vocabulary.DenseIndices | txtrank.py:46-47 | the indices of a well-formed vocabulary are exactly 0 .. size - 1 |
| Vocabulary.FlattenMembership | txtrank.py:43-44 | a word occurs in the reading stream iff it occurs in some sentence |
| Vocabulary.VocabKeys | txtrank.py:43-47 | the keys are the words of the stream, and the words of the sentences |
| Vocabulary.VocabOrder | txtrank.py:42-47 | a smaller index means an earlier first occurrence |
| TokenPairs.PairsAt | txtrank.py:55-58 | the pairs of position i: the word at i with the word at each j of `range(i + 1, i + window)` up to the sentence end, in increasing j |
| TokenPairs.AllPairs | txtrank.py:53-58 | every candidate pair, duplicates included, sentence by sentence and position by position, in the order the loops visit them |
| TokenPairs.GetTokenPairs | txtrank.py:50-61 | the list is the candidate stream without repeats; a pair is in it iff its two words lie within one window of one sentence, the first before the second; no pair twice; no pairs for a window of 1 or less |
| TokenPairs.AddSentencePairs | txtrank.py:54-60 | the loop over one sentence's positions extends the deduplicated stream by that sentence's candidates |
| TokenPairs.AddWindowPairs | txtrank.py:55-60 | the window loop, with its `break` at the sentence end, extends the deduplicated stream by the pairs of position i |
| TokenPairs.AllPairsMembership | txtrank.py:53-58 | a pair is a candidate iff it is formed by two words of one sentence at positions i < j < i + window |
| TokenPairs.PairsAtMembership | txtrank.py:55-58 | the pairs of position i are the pairs with the words at j, for every j in `range(i + 1, i + window)` inside the sentence |
| TokenPairs.SentencePairsMembership | txtrank.py:54-58 | the pairs of the first n positions of a sentence are those with a first position below n |
| TokenPairs.NarrowWindowNoPairs | txtrank.py:55 | `range(i + 1, i + window)` is empty for a window of 1 or less, so no pairs are produced |
| TokenPairs.DedupedPairs | txtrank.py:59-60 | dropping repeated pairs keeps soundness and completeness and leaves no pair twice |
| Graph.Adjacency | txtrank.py:70-73 | the square matrix over the vocabulary with 1 at [i][j] when (word i, word j) is a pair and 0 elsewhere |
| Graph.FillAdjacency | txtrank.py:69-73 | the fill loop yields the square 0/1 matrix with a 1 exactly at (index w1, index w2) for every pair |
| Graph.PairCell | txtrank.py:72 | the cell found through the index table belongs to the pair's two words |
| Graph.Symmetrize | txtrank.py:63-64 | the result is symmetric and keeps the diagonal; off the diagonal of a 0/1 input it is 0 iff neither direction is recorded and 2 iff both are |
| Graph.Normalise | txtrank.py:79-80 | every entry divided by the sum of its column, as a real; an entry of a column summing to 0 is 0 |
| Graph.NormaliseStochastic | txtrank.py:79-80 | after division by the column sums every entry lies in [0, 1] and is positive exactly where the input is; a column with a nonzero sum sums to 1; a zero-sum column stays zero |
| Graph.CooccurrenceShape | txtrank.py:66-82 | the normalised symmetric adjacency is square, column-stochastic, has entries in [0, 1], and is positive at [i][j] iff words i and j were paired in either order |
| Graph.GetMatrix | txtrank.py:66-82 | the method returns that matrix, with the same properties |
| Graph.SelfLoopKept | txtrank.py:55-64 | a word repeated within one window yields the pair (w, w), and the symmetric matrix keeps 1 on its diagonal |
| Scores.Step | txtrank.py:121 | one update: (1 - d) + d times the product of the matrix with the scores, entry by entry |
| Scores.Power | txtrank.py:116-121 | the scores after k updates from all ones |
| Scores.ExitStep | txtrank.py:119-125 | the number of updates made: the first k whose total differs from the previous total (0 before the first update) by less than the threshold, or `steps` |
| Scores.Propagate | txtrank.py:116-125 | the loop returns the scores after exactly the number of updates the stop rule dictates |
| Scores.ExitStepCharacterised | txtrank.py:120-125 | the number of updates is at most `steps`, the test did not fire after any earlier update, and if fewer than `steps` were made it fired after the last one |
| Scores.ExitStepBounds | txtrank.py:120-123 | no update is made when `steps` is 0; otherwise at least one and at most `steps` |
| Scores.ScoreFloor | txtrank.py:121 | on a non-negative matrix with d in [0, 1] scores are never negative, and after an update none is below 1 - d |
| Scores.IsolatedScore | txtrank.py:121 | a word whose row is all zero scores exactly 1 - d after any update |
| Scores.MassConserved | txtrank.py:116-121 | on a column-stochastic matrix the scores of the words with a neighbour always add up to the number of those words |
| Scores.TotalAfterUpdate | txtrank.py:121-122 | after every update `sum(pr)` is c + (n - c)(1 - d) for the c linked words among n |
| Scores.ExitAtSecondUpdate | txtrank.py:119-125 | with a positive threshold and at least two steps the test always fires after the second update, so one or two updates are made |
| Scores.IterationOutcome | txtrank.py:116-125 | the final scores have the floor 1 - d, isolated words score 1 - d, the total is c + (n - c)(1 - d), and at most two updates are made |
| Ranking.Weights | txtrank.py:128-130 | the table pairing the k-th vocabulary word with the k-th score, in vocabulary order |
| Ranking.BuildWeights | txtrank.py:128-130 | the table pairs every vocabulary word with the score at its index, once each, in vocabulary order |
| Ranking.SortDesc | txtrank.py:86 | the table sorted by score, highest first, entries with equal scores in table order |
| Ranking.SortDescSorted | txtrank.py:86 | the ranking is in non-increasing order of score |
| Ranking.SortDescPermutes | txtrank.py:86 | the ranking is a permutation of the table |
| Ranking.SortDescStable | txtrank.py:86 | entries with the same score keep their table order |
| Ranking.SortDescIdempotent | txtrank.py:86 | ranking an already ranked table changes nothing |
| Ranking.ShownCount | txtrank.py:87-90 | the number of entries the print loop shows: number + 2, at least 1, at most the table size |
| Ranking.TopEntries | txtrank.py:86-90 | the entries shown are sorted, the shown and the hidden entries together are exactly the table, and no hidden entry scores more than a shown one |
| Engine.KeywordTable | txtrank.py:104-132 | the table `analyze` records: the scores of the converged iteration on the co-occurrence matrix of the filtered sentences, for the words in first-occurrence order |
| Engine.KeywordTableWords | txtrank.py:104-132 | the recorded table lists every word of the filtered sentences exactly once, in first-occurrence order |
| Engine.CooccurrenceStochastic | txtrank.py:107-113 | the matrix `analyze` builds is non-negative and column-stochastic |
| Engine.KeywordTableScores | txtrank.py:113-132 | with at least one step and d in [0, 1] no recorded score is below 1 - d, and an isolated word's score is 1 - d |
| Engine.PairWordsInVocabulary | txtrank.py:71-72 | both words of every pair are dictionary keys, so the lookups in `get_matrix` succeed |
| Engine.TextRank.constructor | txtrank.py:12-16 | damping 0.85, threshold 1e-5, 10 steps, and no table yet |
| Engine.TextRank.Analyze | txtrank.py:92-132 | the parameters are unchanged and the table is the keyword table of the filtered document |
| Engine.TextRank.GetKeywords | txtrank.py:84-90 | without a table there is no result; otherwise the result is the first min(n, max(1, number + 2)) entries of the stable descending ranking, which are sorted |

## Left out

- Parsing the text (`nlp(text)`, txtrank.py:6 and 101) is not modelled. The document is given as sentences of tokens, each with its text, part-of-speech tag and stop-word flag.
- `set_stopwords` (txtrank.py:18-22) and the `stopwords` parameter of `analyze` are not modelled. They mark words as stop words in the parser's shared vocabulary, and the model receives each token's stop-word flag already set.
- `str.lower` is the parameter `fold`, and nothing is assumed about it.
- Engine.TextRank.GetKeywords: the entries are returned instead of printed, and the `key - value` line format is not modelled.
- Engine.TextRank.GetKeywords: calling it before any analysis makes Python raise, because `None` has no `items`. The model returns `None` instead.
- Scores.Propagate: floating-point arithmetic is modelled as exact real arithmetic. Rounding is therefore not captured, and the total-conservation results hold exactly only for reals.
- Graph.Normalise: `np.divide(..., where=norm != 0)` without `out=` leaves the entries of a zero-sum column unspecified. The model takes them as 0.
- Engine.TextRank.Analyze: the field `steps` is a natural number. A negative step count, which Python treats as zero iterations, is not representable.
- The example text and the script lines at txtrank.py:134-207 are not part of this model.
- RAKE.py, topicRank.py and textRank.py are not part of this model.
