/**
 Co-occurrence pair extractor (`txtrank.get_token_pairs`).

 For every sentence and every position i, the partners of i are the
 positions j with i < j < i + window that lie inside the sentence. Each
 ordered pair (word at i, word at j) is appended to a list unless the very
 same ordered pair is already there.
 */
module TokenPairs {
  import opened FirstOccurrence

  /** An ordered pair of words, as the tuples of the source. */
  type Pair = (string, string)

  /** Positions i and j of a sentence of length `len` lie within one window, j after i. */
  predicate InWindow(len: nat, window: int, i: int, j: int) {
    0 <= i < j < len && j < i + window
  }

  /** The number of partners of position i: `range(i + 1, i + window)` cut at the sentence end. */
  function PartnerCount(len: nat, i: nat, window: int): nat {
    var hi := if i + window < len then i + window else len;
    if hi > i + 1 then hi - i - 1 else 0
  }

  /** The pairs position i of sentence s produces, in the order of the innermost loop. */
  function PairsAt(s: seq<string>, i: nat, window: int): seq<Pair>
    requires i < |s|
  {
    seq(PartnerCount(|s|, i, window), k requires 0 <= k < PartnerCount(|s|, i, window) => (s[i], s[i + 1 + k]))
  }

  /** The pairs positions 0 .. n - 1 of sentence s produce, in loop order. */
  function SentencePairs(s: seq<string>, window: int, n: nat): seq<Pair>
    requires n <= |s|
  {
    if n == 0 then [] else SentencePairs(s, window, n - 1) + PairsAt(s, n - 1, window)
  }

  /** Every candidate pair of every sentence, duplicates included, in loop order. */
  function AllPairs(sentences: seq<seq<string>>, window: int): seq<Pair>
  {
    if sentences == [] then []
    else
      var last := sentences[|sentences| - 1];
      AllPairs(sentences[..|sentences| - 1], window) + SentencePairs(last, window, |last|)
  }

  /** p is the pair of two words of one sentence that lie within one window. */
  ghost predicate WindowPair(sentences: seq<seq<string>>, window: int, p: Pair) {
    exists k, i, j :: 0 <= k < |sentences| && InWindow(|sentences[k]|, window, i, j)
      && p == (sentences[k][i], sentences[k][j])
  }

  lemma PairsAtMembership(s: seq<string>, i: nat, window: int)
    requires i < |s|
    ensures forall p :: p in PairsAt(s, i, window) <==>
      exists j :: InWindow(|s|, window, i, j) && p == (s[i], s[j])
  {
    var ps := PairsAt(s, i, window);
    forall p | p in ps
      ensures exists j :: InWindow(|s|, window, i, j) && p == (s[i], s[j])
    {
      var k :| 0 <= k < |ps| && ps[k] == p;
      assert InWindow(|s|, window, i, i + 1 + k);
    }
    forall j | InWindow(|s|, window, i, j)
      ensures (s[i], s[j]) in ps
    {
      assert ps[j - i - 1] == (s[i], s[j]);
    }
  }

  lemma {:induction false} SentencePairsMembership(s: seq<string>, window: int, n: nat)
    requires n <= |s|
    ensures forall p :: p in SentencePairs(s, window, n) <==>
      exists i, j :: i < n && InWindow(|s|, window, i, j) && p == (s[i], s[j])
  {
    if n > 0 {
      SentencePairsMembership(s, window, n - 1);
      PairsAtMembership(s, n - 1, window);
    }
  }

  /**
   Soundness and completeness of the candidate stream: a pair occurs in it
   exactly when it is formed by two words of one sentence within one window,
   the first before the second.
   */
  lemma {:induction false} AllPairsMembership(sentences: seq<seq<string>>, window: int)
    ensures forall p :: p in AllPairs(sentences, window) <==> WindowPair(sentences, window, p)
  {
    if sentences != [] {
      var n := |sentences|;
      var prefix := sentences[..n - 1];
      var last := sentences[n - 1];
      AllPairsMembership(prefix, window);
      SentencePairsMembership(last, window, |last|);
      forall p | p in AllPairs(sentences, window)
        ensures WindowPair(sentences, window, p)
      {
        if p in AllPairs(prefix, window) {
          var k, i, j :| 0 <= k < |prefix| && InWindow(|prefix[k]|, window, i, j)
            && p == (prefix[k][i], prefix[k][j]);
          assert prefix[k] == sentences[k];
        } else {
          var i, j :| i < |last| && InWindow(|last|, window, i, j) && p == (last[i], last[j]);
          assert InWindow(|sentences[n - 1]|, window, i, j);
        }
      }
      forall p | WindowPair(sentences, window, p)
        ensures p in AllPairs(sentences, window)
      {
        var k, i, j :| 0 <= k < n && InWindow(|sentences[k]|, window, i, j)
          && p == (sentences[k][i], sentences[k][j]);
        if k < n - 1 {
          assert prefix[k] == sentences[k];
          assert WindowPair(prefix, window, p);
        } else {
          assert i < |last|;
        }
      }
    }
  }

  lemma {:induction false} NarrowWindowSentence(s: seq<string>, window: int, n: nat)
    requires window <= 1 && n <= |s|
    ensures SentencePairs(s, window, n) == []
  {
    if n > 0 {
      NarrowWindowSentence(s, window, n - 1);
      assert PartnerCount(|s|, n - 1, window) == 0;
    }
  }

  /** A window of size 1 or less gives no position a partner. */
  lemma {:induction false} NarrowWindowNoPairs(sentences: seq<seq<string>>, window: int)
    requires window <= 1
    ensures AllPairs(sentences, window) == []
  {
    if sentences != [] {
      NarrowWindowNoPairs(sentences[..|sentences| - 1], window);
      var last := sentences[|sentences| - 1];
      NarrowWindowSentence(last, window, |last|);
    }
  }

  /** What the deduplicated candidate stream is: sound, complete and free of repeats. */
  lemma DedupedPairs(all: seq<Pair>, sentences: seq<seq<string>>, window: int)
    requires forall p :: p in all <==> WindowPair(sentences, window, p)
    ensures forall p :: p in Dedup(all) <==> WindowPair(sentences, window, p)
    ensures Distinct(Dedup(all))
  {
    DedupDistinct(all);
    DedupElements(all);
  }

  /**
   The innermost loop of `get_token_pairs` for position i: walks the partners
   j = i + 1, i + 2, ... until the window or the sentence ends, appending each
   pair not yet in the list.
   */
  method AddWindowPairs(windowSize: int, sentence: seq<string>, i: nat, tokenPairs: seq<Pair>, ghost done: seq<Pair>)
    returns (r: seq<Pair>)
    requires i < |sentence| && tokenPairs == Dedup(done)
    ensures r == Dedup(done + PairsAt(sentence, i, windowSize))
  {
    r := tokenPairs;
    ghost var here := PairsAt(sentence, i, windowSize);
    assert done + here[..0] == done;
    var j := i + 1;
    while j < i + windowSize
      invariant i + 1 <= j && j - i - 1 <= |here|
      invariant r == Dedup(done + here[..j - i - 1])
    {
      if j >= |sentence| {
        break;
      }
      var pair := (sentence[i], sentence[j]);
      assert done + here[..j - i] == (done + here[..j - i - 1]) + [pair] by {
        assert here[j - i - 1] == pair;
        assert here[..j - i] == here[..j - i - 1] + [pair];
      }
      DedupSnoc(done + here[..j - i - 1], pair);
      if pair !in r {
        r := r + [pair];
      }
      j := j + 1;
    }
    assert here[..j - i - 1] == here;
  }

  lemma SentencePairsNext(before: seq<Pair>, s: seq<string>, window: int, i: nat)
    requires i < |s|
    ensures before + SentencePairs(s, window, i) + PairsAt(s, i, window) == before + SentencePairs(s, window, i + 1)
  {
    assert SentencePairs(s, window, i + 1) == SentencePairs(s, window, i) + PairsAt(s, i, window);
  }

  /**
   The middle loop of `get_token_pairs` for one sentence: the innermost loop
   for every position, in order.
   */
  method AddSentencePairs(windowSize: int, sentence: seq<string>, tokenPairs: seq<Pair>, ghost before: seq<Pair>)
    returns (r: seq<Pair>)
    requires tokenPairs == Dedup(before)
    ensures r == Dedup(before + SentencePairs(sentence, windowSize, |sentence|))
  {
    r := tokenPairs;
    assert before + SentencePairs(sentence, windowSize, 0) == before;
    for i := 0 to |sentence|
      invariant r == Dedup(before + SentencePairs(sentence, windowSize, i))
    {
      r := AddWindowPairs(windowSize, sentence, i, r, before + SentencePairs(sentence, windowSize, i));
      SentencePairsNext(before, sentence, windowSize, i);
    }
  }

  /**
   The model of `get_token_pairs`: the candidate stream with every repeated
   ordered pair dropped. Every pair is formed within one window of one
   sentence, every such pair is present, none twice; (a, b) and (b, a) may
   both be present.
   */
  method GetTokenPairs(windowSize: int, sentences: seq<seq<string>>) returns (tokenPairs: seq<Pair>)
    ensures tokenPairs == Dedup(AllPairs(sentences, windowSize))
    ensures forall p :: p in tokenPairs <==> WindowPair(sentences, windowSize, p)
    ensures Distinct(tokenPairs)
    ensures windowSize <= 1 ==> tokenPairs == []
  {
    tokenPairs := [];
    for s := 0 to |sentences|
      invariant tokenPairs == Dedup(AllPairs(sentences[..s], windowSize))
    {
      assert sentences[..s + 1][..s] == sentences[..s];
      tokenPairs := AddSentencePairs(windowSize, sentences[s], tokenPairs, AllPairs(sentences[..s], windowSize));
    }
    assert sentences[..|sentences|] == sentences;
    assert forall p :: p in tokenPairs <==> WindowPair(sentences, windowSize, p) by {
      AllPairsMembership(sentences, windowSize);
      DedupedPairs(AllPairs(sentences, windowSize), sentences, windowSize);
    }
    assert Distinct(tokenPairs) by {
      DedupDistinct(AllPairs(sentences, windowSize));
    }
    if windowSize <= 1 {
      NarrowWindowNoPairs(sentences, windowSize);
    }
  }
}
