/**
 Vocabulary builder (`txtrank.get_vocab`).

 The vocabulary is an insertion-ordered dictionary from word to index. It is
 represented by its two views: the words in insertion order, and the lookup
 table from word to index.
 */
module Vocabulary {
  import opened FirstOccurrence

  /** An insertion-ordered dictionary: its keys in insertion order and the word-to-index table. */
  datatype Vocab = Vocab(words: seq<string>, index: map<string, nat>)

  /** The two views agree: the table maps the k-th inserted word to k and holds nothing else. */
  ghost predicate WellFormed(v: Vocab) {
    && Distinct(v.words)
    && (forall w :: w in v.index <==> w in v.words)
    && (forall k :: 0 <= k < |v.words| ==> v.index[v.words[k]] == k)
    && (forall w :: w in v.index ==> v.index[w] < |v.words| && v.words[v.index[w]] == w)
  }

  /** All the words of all sentences, in reading order. */
  function Flatten(sentences: seq<seq<string>>): seq<string>
  {
    if sentences == [] then []
    else Flatten(sentences[..|sentences| - 1]) + sentences[|sentences| - 1]
  }

  /** A word occurs in the reading stream exactly when it occurs in some sentence. */
  lemma {:induction false} FlattenMembership(sentences: seq<seq<string>>)
    ensures forall w :: w in Flatten(sentences) <==> exists k :: 0 <= k < |sentences| && w in sentences[k]
  {
    if sentences != [] {
      var n := |sentences|;
      var p := sentences[..n - 1];
      FlattenMembership(p);
      forall w | w in Flatten(sentences)
        ensures exists k :: 0 <= k < n && w in sentences[k]
      {
        if w in Flatten(p) {
          var k :| 0 <= k < |p| && w in p[k];
          assert sentences[k] == p[k];
        } else {
          assert w in sentences[n - 1];
        }
      }
      forall w, k | 0 <= k < n && w in sentences[k]
        ensures w in Flatten(sentences)
      {
        if k < n - 1 {
          assert p[k] == sentences[k];
        }
      }
    }
  }

  /** In a well-formed vocabulary the indices are exactly 0 .. |words| - 1. */
  lemma DenseIndices(v: Vocab)
    requires WellFormed(v)
    ensures forall x :: x in v.index.Values <==> 0 <= x < |v.words|
  {
    forall x | x in v.index.Values
      ensures 0 <= x < |v.words|
    {
      var w :| w in v.index && v.index[w] == x;
      var k :| 0 <= k < |v.words| && v.words[k] == w;
    }
    forall k | 0 <= k < |v.words|
      ensures k in v.index.Values
    {
      assert v.index[v.words[k]] == k;
    }
  }

  /** The dictionary has as many entries as there are distinct words: `len(vocab)` is |words|. */
  lemma VocabSize(v: Vocab)
    requires WellFormed(v)
    ensures |v.index| == |v.words|
  {
    DistinctCardinality(v.words);
    assert v.index.Keys == (set w | w in v.words);
  }

  /** `len(vocab)`: the number of entries of the dictionary, which is the number of its words. */
  method Length(v: Vocab) returns (n: nat)
    requires WellFormed(v)
    ensures n == |v.words|
  {
    VocabSize(v);
    n := |v.index|;
  }

  /** Appending a new word at the next index keeps the two views in agreement. */
  lemma InsertFresh(v: Vocab, word: string)
    requires WellFormed(v) && word !in v.index
    ensures WellFormed(Vocab(v.words + [word], v.index[word := |v.words|]))
  {
    var v' := Vocab(v.words + [word], v.index[word := |v.words|]);
    forall k | 0 <= k < |v'.words|
      ensures v'.index[v'.words[k]] == k
    {
      if k < |v.words| {
        assert v'.words[k] == v.words[k] != word;
      }
    }
  }

  /** The keys of a well-formed vocabulary over the first-occurrence stream are the words of the sentences. */
  lemma VocabKeys(v: Vocab, sentences: seq<seq<string>>)
    requires WellFormed(v) && v.words == Dedup(Flatten(sentences))
    ensures forall w :: w in v.index <==> w in Flatten(sentences)
    ensures forall w :: w in v.index <==> exists k :: 0 <= k < |sentences| && w in sentences[k]
  {
    FlattenMembership(sentences);
    DedupElements(Flatten(sentences));
  }

  /** The indices of a well-formed vocabulary over the stream follow first occurrence. */
  lemma VocabOrder(v: Vocab, sentences: seq<seq<string>>)
    requires WellFormed(v) && v.words == Dedup(Flatten(sentences))
    requires forall w :: w in v.index <==> w in Flatten(sentences)
    ensures forall w1, w2 :: w1 in v.index && w2 in v.index && v.index[w1] < v.index[w2] ==>
      FirstIndex(Flatten(sentences), w1) < FirstIndex(Flatten(sentences), w2)
  {
    var stream := Flatten(sentences);
    DedupFirstOccurrenceOrder(stream);
    forall w1, w2 | w1 in v.index && w2 in v.index && v.index[w1] < v.index[w2]
      ensures FirstIndex(stream, w1) < FirstIndex(stream, w2)
    {
      var k1 :| 0 <= k1 < |v.words| && v.words[k1] == w1;
      var k2 :| 0 <= k2 < |v.words| && v.words[k2] == w2;
    }
  }

  /**
   The inner loop of `get_vocab` for one sentence: every word not yet in the
   dictionary is added under the next index i; a word already present keeps
   its index, and the words already listed keep their places.
   */
  method AddSentence(v: Vocab, i: nat, sentence: seq<string>, ghost before: seq<string>) returns (v': Vocab, i': nat)
    requires WellFormed(v) && i == |v.words| && v.words == Dedup(before)
    ensures WellFormed(v') && i' == |v'.words| && v'.words == Dedup(before + sentence)
    ensures v.words <= v'.words
    ensures forall w :: w in v.index ==> w in v'.index && v'.index[w] == v.index[w]
  {
    v', i' := v, i;
    assert before + sentence[..0] == before;
    for t := 0 to |sentence|
      invariant WellFormed(v') && i' == |v'.words|
      invariant v'.words == Dedup(before + sentence[..t])
      invariant v.words <= v'.words
      invariant forall w :: w in v.index ==> w in v'.index && v'.index[w] == v.index[w]
    {
      var word := sentence[t];
      assert before + sentence[..t + 1] == (before + sentence[..t]) + [word];
      if word !in v'.index {
        InsertFresh(v', word);
        v' := Vocab(v'.words + [word], v'.index[word := i']);
        i' := i' + 1;
      }
    }
    assert sentence[..|sentence|] == sentence;
  }

  /**
   The model of `get_vocab`: the keys are exactly the distinct words of all
   sentences, indexed densely from 0 in order of first occurrence; a word seen
   again changes nothing.
   */
  method GetVocab(sentences: seq<seq<string>>) returns (v: Vocab)
    ensures WellFormed(v)
    ensures v.words == Dedup(Flatten(sentences))
    ensures forall w :: w in v.index <==> w in Flatten(sentences)
    ensures forall w :: w in v.index <==> exists k :: 0 <= k < |sentences| && w in sentences[k]
    ensures forall x :: x in v.index.Values <==> 0 <= x < |v.words|
    ensures forall w1, w2 :: w1 in v.index && w2 in v.index && v.index[w1] < v.index[w2] ==>
      FirstIndex(Flatten(sentences), w1) < FirstIndex(Flatten(sentences), w2)
  {
    v := Vocab([], map[]);
    var i := 0;
    for s := 0 to |sentences|
      invariant WellFormed(v) && i == |v.words|
      invariant v.words == Dedup(Flatten(sentences[..s]))
    {
      assert sentences[..s + 1][..s] == sentences[..s];
      v, i := AddSentence(v, i, sentences[s], Flatten(sentences[..s]));
    }
    assert sentences[..|sentences|] == sentences;
    assert forall w :: w in v.index <==> w in Flatten(sentences) by {
      VocabKeys(v, sentences);
    }
    assert forall w :: w in v.index <==> exists k :: 0 <= k < |sentences| && w in sentences[k] by {
      VocabKeys(v, sentences);
    }
    assert forall x :: x in v.index.Values <==> 0 <= x < |v.words| by {
      DenseIndices(v);
    }
    VocabOrder(v, sentences);
  }
}
