/**
 Keyword table and ranking (the end of `txtrank.analyze` and
 `txtrank.get_keywords`).

 The table maps every vocabulary word to its score, in vocabulary order. The
 ranking sorts the entries by score, highest first; the sort is stable, so
 entries with equal scores stay in table order. The display loop shows
 entries from the top and stops right after showing the entry at position
 i with i > number.
 */
module Ranking {
  import opened FirstOccurrence
  import opened Vocabulary

  /** One entry of the keyword table. */
  datatype Entry = Entry(word: string, score: real)

  /** The table the scores define: the k-th vocabulary word with the k-th score. */
  function Weights(words: seq<string>, pr: seq<real>): (w: seq<Entry>)
    requires |pr| == |words|
  {
    seq(|words|, k requires 0 <= k < |words| => Entry(words[k], pr[k]))
  }

  /**
   The table-building loop of `analyze`: for every (word, index) of the
   vocabulary, in order, the word gets the score at its index.
   */
  method BuildWeights(v: Vocab, pr: seq<real>) returns (weights: seq<Entry>)
    requires WellFormed(v) && |pr| == |v.words|
    ensures weights == Weights(v.words, pr)
    ensures forall w :: w in v.index ==> exists k :: 0 <= k < |weights| && weights[k] == Entry(w, pr[v.index[w]])
    ensures forall k, l :: 0 <= k < l < |weights| ==> weights[k].word != weights[l].word
  {
    weights := [];
    for k := 0 to |v.words|
      invariant weights == Weights(v.words[..k], pr[..k])
    {
      var word := v.words[k];
      var index := v.index[word];
      weights := weights + [Entry(word, pr[index])];
    }
    assert v.words[..|v.words|] == v.words && pr[..|pr|] == pr;
    forall w | w in v.index
      ensures exists k :: 0 <= k < |weights| && weights[k] == Entry(w, pr[v.index[w]])
    {
      assert weights[v.index[w]] == Entry(w, pr[v.index[w]]);
    }
  }

  /** Scores never increase from one entry to the next. */
  predicate Sorted(s: seq<Entry>) {
    forall i, j :: 0 <= i < j < |s| ==> s[i].score >= s[j].score
  }

  /** Insert e into a descending sequence after every entry scoring at least as much. */
  function InsertDesc(e: Entry, s: seq<Entry>): (r: seq<Entry>)
    ensures |r| == |s| + 1
  {
    if s == [] then [e]
    else if s[0].score >= e.score then [s[0]] + InsertDesc(e, s[1..])
    else [e] + s
  }

  /** The table sorted by score, highest first, ties in table order (`sorted(..., reverse=True)`). */
  function SortDesc(s: seq<Entry>): (r: seq<Entry>)
    ensures |r| == |s|
  {
    if s == [] then [] else InsertDesc(s[|s| - 1], SortDesc(s[..|s| - 1]))
  }

  /** The entries of s scoring exactly x, in their order. */
  function WithScore(s: seq<Entry>, x: real): seq<Entry>
  {
    if s == [] then [] else (if s[0].score == x then [s[0]] else []) + WithScore(s[1..], x)
  }

  lemma {:induction false} InsertDescElements(e: Entry, s: seq<Entry>)
    ensures multiset(InsertDesc(e, s)) == multiset(s) + multiset{e}
    ensures forall x :: x in InsertDesc(e, s) <==> x in s || x == e
  {
    if s != [] && s[0].score >= e.score {
      InsertDescElements(e, s[1..]);
      assert s == [s[0]] + s[1..];
    }
  }

  lemma {:induction false} InsertDescSorted(e: Entry, s: seq<Entry>)
    requires Sorted(s)
    ensures Sorted(InsertDesc(e, s))
  {
    if s != [] && s[0].score >= e.score {
      var t := s[1..];
      assert Sorted(t);
      InsertDescSorted(e, t);
      InsertDescElements(e, t);
      var r := InsertDesc(e, t);
      forall j | 0 <= j < |r|
        ensures s[0].score >= r[j].score
      {
        assert r[j] in t || r[j] == e;
      }
    }
  }

  lemma {:induction false} WithScoreConcat(a: seq<Entry>, b: seq<Entry>, x: real)
    ensures WithScore(a + b, x) == WithScore(a, x) + WithScore(b, x)
  {
    if a != [] {
      WithScoreConcat(a[1..], b, x);
      assert (a + b)[1..] == a[1..] + b;
    } else {
      assert a + b == b;
    }
  }

  lemma {:induction false} WithScoreBelow(s: seq<Entry>, x: real)
    requires forall i :: 0 <= i < |s| ==> s[i].score < x
    ensures WithScore(s, x) == []
  {
    if s != [] {
      WithScoreBelow(s[1..], x);
    }
  }

  /** Filtering a sequence with a known first entry. */
  lemma WithScoreCons(h: Entry, t: seq<Entry>, x: real)
    ensures WithScore([h] + t, x) == (if h.score == x then [h] else []) + WithScore(t, x)
  {
    assert ([h] + t)[1..] == t;
  }

  /** Inserting keeps the entries of each score in order, the new one after the old. */
  lemma {:induction false} InsertDescStable(e: Entry, s: seq<Entry>, x: real)
    requires Sorted(s)
    ensures WithScore(InsertDesc(e, s), x) == WithScore(s, x) + (if e.score == x then [e] else [])
  {
    var tail := if e.score == x then [e] else [];
    if s == [] {
    } else if s[0].score >= e.score {
      var h, t := s[0], s[1..];
      var head := if h.score == x then [h] else [];
      assert Sorted(t);
      calc {
        WithScore(InsertDesc(e, s), x);
        { WithScoreCons(h, InsertDesc(e, t), x); }
        head + WithScore(InsertDesc(e, t), x);
        { InsertDescStable(e, t, x); }
        head + (WithScore(t, x) + tail);
        { assert s == [h] + t; WithScoreCons(h, t, x); }
        WithScore(s, x) + tail;
      }
    } else {
      WithScoreCons(e, s, x);
      if e.score == x {
        forall i | 0 <= i < |s|
          ensures s[i].score < x
        {
          assert s[0].score >= s[i].score;
        }
        WithScoreBelow(s, x);
      }
    }
  }

  /** The ranking is in descending order of score. */
  lemma {:induction false} SortDescSorted(s: seq<Entry>)
    ensures Sorted(SortDesc(s))
  {
    if s != [] {
      SortDescSorted(s[..|s| - 1]);
      InsertDescSorted(s[|s| - 1], SortDesc(s[..|s| - 1]));
    }
  }

  /** The ranking is a permutation of the table. */
  lemma {:induction false} SortDescPermutes(s: seq<Entry>)
    ensures multiset(SortDesc(s)) == multiset(s)
  {
    if s != [] {
      var p := s[..|s| - 1];
      SortDescPermutes(p);
      InsertDescElements(s[|s| - 1], SortDesc(p));
      assert s == p + [s[|s| - 1]];
    }
  }

  /** The ranking is stable: entries with equal scores keep their table order. */
  lemma {:induction false} SortDescStable(s: seq<Entry>, x: real)
    ensures WithScore(SortDesc(s), x) == WithScore(s, x)
  {
    if s != [] {
      var p := s[..|s| - 1];
      var e := s[|s| - 1];
      SortDescStable(p, x);
      SortDescSorted(p);
      InsertDescStable(e, SortDesc(p), x);
      assert s == p + [e];
      WithScoreConcat(p, [e], x);
      assert WithScore([e], x) == if e.score == x then [e] else [];
    }
  }

  lemma {:induction false} InsertDescLast(e: Entry, s: seq<Entry>)
    requires forall i :: 0 <= i < |s| ==> s[i].score >= e.score
    ensures InsertDesc(e, s) == s + [e]
  {
    if s != [] {
      InsertDescLast(e, s[1..]);
    }
  }

  /** Ranking an already ranked table changes nothing. */
  lemma {:induction false} SortDescIdempotent(s: seq<Entry>)
    requires Sorted(s)
    ensures SortDesc(s) == s
  {
    if s != [] {
      var p := s[..|s| - 1];
      SortDescIdempotent(p);
      InsertDescLast(s[|s| - 1], p);
    }
  }

  /**
   The number of entries the display loop shows for a table of n entries:
   the loop stops after position i once i > number, so it shows number + 2
   entries, at least one, and never more than there are.
   */
  function ShownCount(number: int, n: nat): (c: nat)
    ensures c <= n
  {
    var wanted := if number + 2 < 1 then 1 else number + 2;
    if wanted < n then wanted else n
  }

  /** Cutting a descending sequence in two: both parts together, the first part descending and on top. */
  lemma RankedSplit(t: seq<Entry>, c: nat)
    requires Sorted(t) && c <= |t|
    ensures Sorted(t[..c])
    ensures multiset(t[..c]) + multiset(t[c..]) == multiset(t)
    ensures forall i, j :: 0 <= i < c <= j < |t| ==> t[j].score <= t[i].score
  {
    assert t == t[..c] + t[c..];
  }

  /**
   What the display shows is the top of the ranking: it is in descending
   order, the shown and the hidden entries together are exactly the table,
   and no hidden entry scores more than any shown one.
   */
  lemma TopEntries(s: seq<Entry>, number: int)
    ensures Sorted(SortDesc(s)[..ShownCount(number, |s|)])
    ensures multiset(SortDesc(s)[..ShownCount(number, |s|)]) + multiset(SortDesc(s)[ShownCount(number, |s|)..])
      == multiset(s)
    ensures forall i, j :: 0 <= i < ShownCount(number, |s|) <= j < |s| ==> SortDesc(s)[j].score <= SortDesc(s)[i].score
  {
    SortDescSorted(s);
    SortDescPermutes(s);
    RankedSplit(SortDesc(s), ShownCount(number, |s|));
  }
}
