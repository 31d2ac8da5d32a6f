/**
 The keyword engine (class `txtrank`): its tunable parameters, the keyword
 table the last analysis left behind, the analysis pipeline, and the display
 of the top keywords.

 The document arrives already split into sentences of tagged tokens; the
 linguistic parser that produces them is not part of this model.
 */
module Engine {
  import opened FirstOccurrence
  import opened Filtering
  import opened Vocabulary
  import opened TokenPairs
  import opened Graph
  import opened Scores
  import opened Ranking

  datatype Option<T> = None | Some(value: T)

  /** The normalised co-occurrence matrix of the filtered sentences. */
  function Cooccurrence(sentences: seq<seq<string>>, windowSize: int): (g: seq<seq<real>>)
    ensures IsSquare(g, |Dedup(Flatten(sentences))|)
  {
    Normalise(Symmetrize(Adjacency(Dedup(Flatten(sentences)), Dedup(AllPairs(sentences, windowSize)))))
  }

  /** The keyword table an analysis of the filtered sentences produces. */
  function KeywordTable(sentences: seq<seq<string>>, windowSize: int, d: real, minDiff: real, steps: nat): seq<Entry>
  {
    var g := Cooccurrence(sentences, windowSize);
    Weights(Dedup(Flatten(sentences)), Power(g, d, ExitStep(g, d, minDiff, steps)))
  }

  /** The words of a keyword table, in table order. */
  function WordsOf(table: seq<Entry>): (words: seq<string>)
    ensures |words| == |table|
  {
    seq(|table|, k requires 0 <= k < |table| => table[k].word)
  }

  lemma WeightsParts(words: seq<string>, pr: seq<real>)
    requires |pr| == |words|
    ensures WordsOf(Weights(words, pr)) == words
    ensures forall k :: 0 <= k < |words| ==> Weights(words, pr)[k].score == pr[k]
  {
  }

  /**
   The table lists every word of the filtered sentences exactly once, in
   order of first occurrence.
   */
  lemma KeywordTableWords(sentences: seq<seq<string>>, windowSize: int, d: real, minDiff: real, steps: nat)
    ensures WordsOf(KeywordTable(sentences, windowSize, d, minDiff, steps)) == Dedup(Flatten(sentences))
    ensures forall w :: w in WordsOf(KeywordTable(sentences, windowSize, d, minDiff, steps)) <==>
      exists s :: 0 <= s < |sentences| && w in sentences[s]
    ensures Distinct(WordsOf(KeywordTable(sentences, windowSize, d, minDiff, steps)))
  {
    var words := Dedup(Flatten(sentences));
    var g := Cooccurrence(sentences, windowSize);
    var pr := Power(g, d, ExitStep(g, d, minDiff, steps));
    assert KeywordTable(sentences, windowSize, d, minDiff, steps) == Weights(words, pr);
    WeightsParts(words, pr);
    FlattenMembership(sentences);
    DedupElements(Flatten(sentences));
    DedupDistinct(Flatten(sentences));
  }

  /** The co-occurrence matrix is non-negative and column-stochastic. */
  lemma CooccurrenceStochastic(sentences: seq<seq<string>>, windowSize: int)
    ensures ColumnStochastic(Cooccurrence(sentences, windowSize))
    ensures NonNegativeEntries(Cooccurrence(sentences, windowSize))
  {
    CooccurrenceShape(Dedup(Flatten(sentences)), Dedup(AllPairs(sentences, windowSize)));
  }

  /**
   The scores of the table, with at least one step: with a damping factor
   in [0, 1] none is below 1 - d, and a word without neighbours scores
   exactly 1 - d.
   */
  lemma KeywordTableScores(sentences: seq<seq<string>>, windowSize: int, d: real, minDiff: real, steps: nat)
    requires steps >= 1
    ensures var table := KeywordTable(sentences, windowSize, d, minDiff, steps);
      0.0 <= d <= 1.0 ==> forall k :: 0 <= k < |table| ==> 1.0 - d <= table[k].score
    ensures var table := KeywordTable(sentences, windowSize, d, minDiff, steps);
      forall k :: 0 <= k < |table| && ZeroRow(Cooccurrence(sentences, windowSize), k) ==> table[k].score == 1.0 - d
  {
    var g := Cooccurrence(sentences, windowSize);
    var pr := Power(g, d, ExitStep(g, d, minDiff, steps));
    WeightsParts(Dedup(Flatten(sentences)), pr);
    CooccurrenceStochastic(sentences, windowSize);
    IterationOutcome(g, d, minDiff, steps);
  }

  /** Every word of a window pair is a vocabulary word. */
  lemma PairWordsInVocabulary(v: Vocab, sentences: seq<seq<string>>, windowSize: int, tokenPairs: seq<Pair>)
    requires forall w :: w in v.index <==> exists k :: 0 <= k < |sentences| && w in sentences[k]
    requires forall p :: p in tokenPairs <==> WindowPair(sentences, windowSize, p)
    ensures forall p :: p in tokenPairs ==> p.0 in v.index && p.1 in v.index
  {
    forall p | p in tokenPairs
      ensures p.0 in v.index && p.1 in v.index
    {
      var k, i, j :| 0 <= k < |sentences| && InWindow(|sentences[k]|, windowSize, i, j)
        && p == (sentences[k][i], sentences[k][j]);
      assert p.0 in sentences[k] && p.1 in sentences[k];
    }
  }

  /** The keyword engine: damping factor, convergence threshold, step bound and the last keyword table. */
  class TextRank {
    var d: real
    var minDiff: real
    var steps: nat
    var nodeWeight: Option<seq<Entry>>

    /** Damping 0.85, threshold 1e-5, at most 10 updates, and no table before the first analysis. */
    constructor ()
      ensures d == 0.85 && minDiff == 0.00001 && steps == 10 && nodeWeight == None
    {
      d := 0.85;
      minDiff := 0.00001;
      steps := 10;
      nodeWeight := None;
    }

    /**
     The model of `analyze`: filter the sentences, build the vocabulary and
     the pairs, build the matrix, iterate the scores, and record the table.
     The parameters are left as they were. As in the source, the candidate
     tags default to nouns and proper nouns, the window to 4 words, and case
     folding to off; `fold` is the case folding applied when `lower` is set.
     */
    method Analyze(doc: seq<seq<Token>>, fold: string -> string,
                   candidatePos: seq<string> := ["NOUN", "PROPN"], windowSize: int := 4, lower: bool := false)
      modifies this
      ensures d == old(d) && minDiff == old(minDiff) && steps == old(steps)
      ensures nodeWeight == Some(KeywordTable(Segment(doc, candidatePos, lower, fold), windowSize, d, minDiff, steps))
    {
      var sentences := SentenceSegment(doc, candidatePos, lower, fold);
      var vocab := GetVocab(sentences);
      var tokenPairs := GetTokenPairs(windowSize, sentences);
      PairWordsInVocabulary(vocab, sentences, windowSize, tokenPairs);
      var g := GetMatrix(vocab, tokenPairs);
      var pr := Propagate(g, d, minDiff, steps);
      var weights := BuildWeights(vocab, pr);
      nodeWeight := Some(weights);
    }

    /**
     The model of `get_keywords`: rank the table by score, highest first,
     and show entries from the top, stopping right after the entry at
     position i once i > number (10 by default). Without a table there is
     nothing to rank.
     */
    method GetKeywords(number: int := 10) returns (shown: Option<seq<Entry>>)
      ensures nodeWeight.None? ==> shown.None?
      ensures nodeWeight.Some? ==>
        shown == Some(SortDesc(nodeWeight.value)[..ShownCount(number, |nodeWeight.value|)])
      ensures shown.Some? ==> Sorted(shown.value)
    {
      if nodeWeight.None? {
        return None;
      }
      var ranked := SortDesc(nodeWeight.value);
      var printed := [];
      var i := 0;
      while i < |ranked|
        invariant 0 <= i <= |ranked|
        invariant printed == ranked[..i]
        invariant i == 0 || i <= number + 1
      {
        printed := printed + [ranked[i]];
        if i > number {
          break;
        }
        i := i + 1;
      }
      assert printed == ranked[..ShownCount(number, |ranked|)];
      shown := Some(printed);
      TopEntries(nodeWeight.value, number);
    }
  }
}
