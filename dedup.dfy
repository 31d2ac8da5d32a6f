/**
 First-occurrence deduplication.

 Both the vocabulary builder (an insertion-ordered dictionary that ignores a
 word it has already seen) and the pair extractor (a list that skips a pair
 already present) keep the first occurrence of every element of a stream, in
 the order of first occurrence. `Dedup` is that common specification.
 */
module FirstOccurrence {

  /** No element occurs twice. */
  predicate Distinct<T(==)>(s: seq<T>) {
    forall i, j :: 0 <= i < j < |s| ==> s[i] != s[j]
  }

  /** The stream `s` with every repeated element dropped, first occurrences kept in order. */
  function Dedup<T(==)>(s: seq<T>): seq<T>
  {
    if s == [] then []
    else
      var d := Dedup(s[..|s| - 1]);
      if s[|s| - 1] in d then d else d + [s[|s| - 1]]
  }

  /** A stream without repeats has as many distinct elements as it has elements. */
  lemma {:induction false} DistinctCardinality<T>(s: seq<T>)
    requires Distinct(s)
    ensures |(set x | x in s)| == |s|
  {
    if s != [] {
      var p := s[..|s| - 1];
      DistinctCardinality(p);
      assert (set x | x in s) == (set x | x in p) + {s[|s| - 1]};
    }
  }

  /** One more element of the stream: appended when new, ignored when seen. */
  lemma DedupSnoc<T>(s: seq<T>, x: T)
    ensures Dedup(s + [x]) == if x in Dedup(s) then Dedup(s) else Dedup(s) + [x]
  {
    assert (s + [x])[..|s|] == s;
  }

  /** Reading more of the stream only appends: what was kept so far stays, in place. */
  lemma {:induction false} DedupPrefix<T>(s: seq<T>, t: seq<T>)
    ensures Dedup(s) <= Dedup(s + t)
  {
    if t != [] {
      var t' := t[..|t| - 1];
      DedupPrefix(s, t');
      assert (s + t)[..|s + t| - 1] == s + t';
    } else {
      assert s + t == s;
    }
  }

  /** The position of the first occurrence of `x` in `s`. */
  function FirstIndex<T(==)>(s: seq<T>, x: T): (k: nat)
    requires x in s
    ensures k < |s| && s[k] == x && x !in s[..k]
  {
    if s[0] == x then 0 else 1 + FirstIndex(s[1..], x)
  }

  /** Deduplication neither loses nor invents elements. */
  lemma {:induction false} DedupElements<T>(s: seq<T>)
    ensures forall x :: x in Dedup(s) <==> x in s
    ensures |Dedup(s)| <= |s|
  {
    if s != [] {
      var p := s[..|s| - 1];
      DedupElements(p);
      assert s == p + [s[|s| - 1]];
    }
  }

  /** Deduplication leaves no element twice. */
  lemma {:induction false} DedupDistinct<T>(s: seq<T>)
    ensures Distinct(Dedup(s))
  {
    if s != [] {
      DedupDistinct(s[..|s| - 1]);
    }
  }

  /** A first occurrence inside a prefix is the first occurrence in the whole stream. */
  lemma FirstIndexOfPrefix<T>(s: seq<T>, m: nat, x: T)
    requires m <= |s| && x in s[..m]
    ensures FirstIndex(s, x) == FirstIndex(s[..m], x)
  {
    var k' := FirstIndex(s[..m], x);
    assert s[..m][..k'] == s[..k'];
  }

  /** An element first seen at the end of the stream first occurs there. */
  lemma FirstIndexLast<T>(s: seq<T>, x: T)
    requires s != [] && s[|s| - 1] == x && x !in s[..|s| - 1]
    ensures FirstIndex(s, x) == |s| - 1
  {
  }

  /** Two elements of a prefix keep the order of their first occurrences in the whole stream. */
  lemma FirstIndexOrderOfPrefix<T>(s: seq<T>, m: nat, x: T, y: T)
    requires m <= |s| && x in s[..m] && y in s[..m]
    requires FirstIndex(s[..m], x) < FirstIndex(s[..m], y)
    ensures FirstIndex(s, x) < FirstIndex(s, y)
  {
    FirstIndexOfPrefix(s, m, x);
    FirstIndexOfPrefix(s, m, y);
  }

  /**
   Deduplication lists the elements in the order of their first occurrence:
   an earlier element of the result first occurs earlier in the stream.
   */
  lemma {:induction false} DedupFirstOccurrenceOrder<T>(s: seq<T>)
    ensures forall x :: x in Dedup(s) ==> x in s
    ensures forall i, j :: 0 <= i < j < |Dedup(s)| ==>
      FirstIndex(s, Dedup(s)[i]) < FirstIndex(s, Dedup(s)[j])
  {
    DedupElements(s);
    if s != [] {
      var n := |s|;
      var p := s[..n - 1];
      var d := Dedup(p);
      var r := Dedup(s);
      DedupFirstOccurrenceOrder(p);
      DedupElements(p);
      forall i, j | 0 <= i < j < |r|
        ensures FirstIndex(s, r[i]) < FirstIndex(s, r[j])
      {
        if j < |d| {
          assert r[i] == d[i] && r[j] == d[j];
          FirstIndexOrderOfPrefix(s, n - 1, d[i], d[j]);
        } else {
          assert r[i] == d[i] && r[j] == s[n - 1] && s[n - 1] !in p;
          FirstIndexOfPrefix(s, n - 1, d[i]);
          FirstIndexLast(s, s[n - 1]);
        }
      }
    }
  }

  /** Seeing elements again that have all been seen before changes nothing. */
  lemma {:induction false} DedupIgnoresRepeats<T>(s: seq<T>, t: seq<T>)
    requires forall x :: x in t ==> x in s
    ensures Dedup(s + t) == Dedup(s)
  {
    if t != [] {
      var t' := t[..|t| - 1];
      DedupIgnoresRepeats(s, t');
      assert (s + t)[..|s + t| - 1] == s + t';
      DedupElements(s);
      assert t[|t| - 1] in Dedup(s + t');
    } else {
      assert s + t == s;
    }
  }
}
