/**
 Graph builder (`txtrank.symmetrize` and `txtrank.get_matrix`).

 A |V| x |V| matrix of zeros gets a 1 at [index(w1)][index(w2)] for every
 extracted pair (w1, w2); it is then made symmetric as a + aT - diag(a) and
 every column is divided by its sum. Before normalisation the entries are
 integers; afterwards they are exact reals standing in for floats. A column
 whose sum is zero is left all zero.
 */
module Graph {
  import opened FirstOccurrence
  import opened Vocabulary
  import opened TokenPairs

  /** n rows of n entries each. */
  predicate IsSquare<T>(g: seq<seq<T>>, n: nat) {
    |g| == n && forall i :: 0 <= i < n ==> |g[i]| == n
  }

  predicate Symmetric<T(==)>(g: seq<seq<T>>)
    requires IsSquare(g, |g|)
  {
    forall i, j :: 0 <= i < |g| && 0 <= j < |g| ==> g[i][j] == g[j][i]
  }

  predicate ZeroOne(a: seq<seq<int>>)
    requires IsSquare(a, |a|)
  {
    forall i, j :: 0 <= i < |a| && 0 <= j < |a| ==> a[i][j] == 0 || a[i][j] == 1
  }

  predicate NonNegative(a: seq<seq<int>>)
    requires IsSquare(a, |a|)
  {
    forall i, j :: 0 <= i < |a| && 0 <= j < |a| ==> 0 <= a[i][j]
  }

  /** The n x n matrix of zeros. */
  function Zeros(n: nat): (z: seq<seq<int>>)
    ensures IsSquare(z, n)
  {
    seq(n, i => seq(n, j => 0))
  }

  /** The 0/1 adjacency of the extracted pairs: [i][j] is 1 exactly when (word i, word j) is a pair. */
  function Adjacency(words: seq<string>, pairs: seq<Pair>): (a: seq<seq<int>>)
    ensures IsSquare(a, |words|) && ZeroOne(a)
  {
    var n := |words|;
    seq(n, i requires 0 <= i < n => seq(n, j requires 0 <= j < n => if (words[i], words[j]) in pairs then 1 else 0))
  }

  /** The matrix holds 1 exactly at the cells of the pairs seen so far, 0 elsewhere. */
  ghost predicate FilledWith(g: seq<seq<int>>, words: seq<string>, seen: seq<Pair>)
    requires IsSquare(g, |words|)
  {
    forall i, j :: 0 <= i < |words| && 0 <= j < |words| ==>
      g[i][j] == if (words[i], words[j]) in seen then 1 else 0
  }

  /** Setting the cell of one more pair to 1 records that pair. */
  lemma SetCell(g: seq<seq<int>>, words: seq<string>, seen: seq<Pair>, a: nat, b: nat)
    requires IsSquare(g, |words|) && Distinct(words) && FilledWith(g, words, seen)
    requires a < |words| && b < |words|
    ensures IsSquare(g[a := g[a][b := 1]], |words|)
    ensures FilledWith(g[a := g[a][b := 1]], words, seen + [(words[a], words[b])])
  {
    var g' := g[a := g[a][b := 1]];
    forall i, j | 0 <= i < |words| && 0 <= j < |words|
      ensures g'[i][j] == if (words[i], words[j]) in seen + [(words[a], words[b])] then 1 else 0
    {
      if i != a || j != b {
        assert (words[i], words[j]) != (words[a], words[b]);
      }
    }
  }

  /** A matrix filled with exactly the pairs is their adjacency matrix. */
  lemma FilledIsAdjacency(g: seq<seq<int>>, words: seq<string>, pairs: seq<Pair>)
    requires IsSquare(g, |words|) && FilledWith(g, words, pairs)
    ensures g == Adjacency(words, pairs)
  {
    var adj := Adjacency(words, pairs);
    forall i | 0 <= i < |words|
      ensures g[i] == adj[i]
    {
      assert forall j :: 0 <= j < |words| ==> g[i][j] == adj[i][j];
    }
  }

  /** The cell of a pair of vocabulary words is found through the index table. */
  lemma PairCell(v: Vocab, p: Pair)
    requires WellFormed(v) && p.0 in v.index && p.1 in v.index
    ensures v.index[p.0] < |v.words| && v.index[p.1] < |v.words|
    ensures (v.words[v.index[p.0]], v.words[v.index[p.1]]) == p
  {
  }

  /**
   The fill loop of `get_matrix`: starting from zeros, set the cell of every
   pair to 1, locating the cell through the vocabulary's index table.
   */
  method FillAdjacency(v: Vocab, tokenPairs: seq<Pair>) returns (g: seq<seq<int>>)
    requires WellFormed(v)
    requires forall p :: p in tokenPairs ==> p.0 in v.index && p.1 in v.index
    ensures IsSquare(g, |v.words|)
    ensures forall i, j :: 0 <= i < |v.words| && 0 <= j < |v.words| ==>
      (g[i][j] == 1 <==> (v.words[i], v.words[j]) in tokenPairs) && (g[i][j] == 0 || g[i][j] == 1)
    ensures g == Adjacency(v.words, tokenPairs)
  {
    var vocabSize := Length(v);
    g := Zeros(vocabSize);
    ghost var words := v.words;
    for k := 0 to |tokenPairs|
      invariant IsSquare(g, vocabSize)
      invariant FilledWith(g, words, tokenPairs[..k])
    {
      var (word1, word2) := tokenPairs[k];
      assert tokenPairs[..k + 1] == tokenPairs[..k] + [(word1, word2)];
      PairCell(v, (word1, word2));
      var i, j := v.index[word1], v.index[word2];
      SetCell(g, words, tokenPairs[..k], i, j);
      g := g[i := g[i][j := 1]];
    }
    assert tokenPairs[..|tokenPairs|] == tokenPairs;
    FilledIsAdjacency(g, words, tokenPairs);
  }

  /**
   The model of `symmetrize`: a + aT - diag(a). The result is symmetric and
   keeps the diagonal of its input; an edge recorded in either direction
   becomes mutual, with weight 2 when both directions were recorded.
   */
  function Symmetrize(a: seq<seq<int>>): (r: seq<seq<int>>)
    requires IsSquare(a, |a|)
    ensures IsSquare(r, |a|) && Symmetric(r)
    ensures forall i :: 0 <= i < |a| ==> r[i][i] == a[i][i]
    ensures ZeroOne(a) ==> forall i, j :: 0 <= i < |a| && 0 <= j < |a| && i != j ==>
      (r[i][j] == 0 <==> a[i][j] == 0 && a[j][i] == 0) && (r[i][j] == 2 <==> a[i][j] == 1 && a[j][i] == 1)
      && 0 <= r[i][j] <= 2
  {
    var n := |a|;
    seq(n, i requires 0 <= i < n => seq(n, j requires 0 <= j < n => a[i][j] + a[j][i] - if i == j then a[i][i] else 0))
  }

  /** The sum of column j over rows 0 .. m - 1. */
  function ColSum(g: seq<seq<int>>, j: nat, m: nat): int
    requires IsSquare(g, |g|) && j < |g| && m <= |g|
  {
    if m == 0 then 0 else ColSum(g, j, m - 1) + g[m - 1][j]
  }

  /** The same for a matrix of reals. */
  function RealColSum(g: seq<seq<real>>, j: nat, m: nat): real
    requires IsSquare(g, |g|) && j < |g| && m <= |g|
  {
    if m == 0 then 0.0 else RealColSum(g, j, m - 1) + g[m - 1][j]
  }

  /**
   The column normalisation of `get_matrix`: every entry divided by its
   column's sum; an entry of a column whose sum is zero is 0.
   */
  function Normalise(g: seq<seq<int>>): (r: seq<seq<real>>)
    requires IsSquare(g, |g|)
    ensures IsSquare(r, |g|)
  {
    var n := |g|;
    seq(n, i requires 0 <= i < n => seq(n, j requires 0 <= j < n =>
      var norm := ColSum(g, j, n);
      if norm != 0 then g[i][j] as real / norm as real else 0.0))
  }

  /** In a column of non-negative entries, every entry lies between 0 and the column's sum. */
  lemma {:induction false} EntryWithinColSum(g: seq<seq<int>>, j: nat, m: nat)
    requires IsSquare(g, |g|) && NonNegative(g) && j < |g| && m <= |g|
    ensures 0 <= ColSum(g, j, m)
    ensures forall i :: 0 <= i < m ==> g[i][j] <= ColSum(g, j, m)
  {
    if m > 0 {
      EntryWithinColSum(g, j, m - 1);
    }
  }

  /** Dividing every entry of a column by the same nonzero number divides its sum by it. */
  lemma {:induction false} ScaledColSum(g: seq<seq<int>>, j: nat, m: nat)
    requires IsSquare(g, |g|) && j < |g| && m <= |g| && ColSum(g, j, |g|) != 0
    ensures RealColSum(Normalise(g), j, m) == ColSum(g, j, m) as real / ColSum(g, j, |g|) as real
  {
    if m > 0 {
      ScaledColSum(g, j, m - 1);
      var norm := ColSum(g, j, |g|) as real;
      var x, y := ColSum(g, j, m - 1) as real, g[m - 1][j] as real;
      assert x / norm + y / norm == (x + y) / norm;
    }
  }

  /** One entry of a column with a nonzero sum, divided by that sum, lies in [0, 1]. */
  lemma NormalisedEntry(g: seq<seq<int>>, i: nat, j: nat)
    requires IsSquare(g, |g|) && NonNegative(g) && i < |g| && j < |g| && ColSum(g, j, |g|) != 0
    ensures 0.0 <= Normalise(g)[i][j] <= 1.0 && (Normalise(g)[i][j] > 0.0 <==> g[i][j] > 0)
  {
    EntryWithinColSum(g, j, |g|);
    var norm := ColSum(g, j, |g|) as real;
    var x := g[i][j] as real;
    assert Normalise(g)[i][j] == x / norm;
    assert 0.0 <= x <= norm;
  }

  /** Column j of a normalised non-negative matrix. */
  lemma NormaliseColumn(g: seq<seq<int>>, j: nat)
    requires IsSquare(g, |g|) && NonNegative(g) && j < |g|
    ensures forall i :: 0 <= i < |g| ==>
      0.0 <= Normalise(g)[i][j] <= 1.0 && (Normalise(g)[i][j] > 0.0 <==> g[i][j] > 0)
    ensures ColSum(g, j, |g|) != 0 ==> RealColSum(Normalise(g), j, |g|) == 1.0
    ensures ColSum(g, j, |g|) == 0 ==> forall i :: 0 <= i < |g| ==> g[i][j] == 0 && Normalise(g)[i][j] == 0.0
  {
    var n := |g|;
    var norm := ColSum(g, j, n);
    EntryWithinColSum(g, j, n);
    if norm != 0 {
      ScaledColSum(g, j, n);
      var r := norm as real;
      assert r != 0.0;
      assert r / r == 1.0;
      forall i | 0 <= i < n
        ensures 0.0 <= Normalise(g)[i][j] <= 1.0 && (Normalise(g)[i][j] > 0.0 <==> g[i][j] > 0)
      {
        NormalisedEntry(g, i, j);
      }
    }
  }

  /**
   Column normalisation of a non-negative matrix: every entry lies in [0, 1]
   and is positive exactly where the input is; a column with a nonzero sum
   adds up to exactly 1; a column with a zero sum was all zero and stays so.
   */
  lemma NormaliseStochastic(g: seq<seq<int>>)
    requires IsSquare(g, |g|) && NonNegative(g)
    ensures forall i, j :: 0 <= i < |g| && 0 <= j < |g| ==>
      0.0 <= Normalise(g)[i][j] <= 1.0 && (Normalise(g)[i][j] > 0.0 <==> g[i][j] > 0)
    ensures forall j :: 0 <= j < |g| && ColSum(g, j, |g|) != 0 ==> RealColSum(Normalise(g), j, |g|) == 1.0
    ensures forall j :: 0 <= j < |g| && ColSum(g, j, |g|) == 0 ==>
      forall i :: 0 <= i < |g| ==> g[i][j] == 0 && Normalise(g)[i][j] == 0.0
  {
    forall j | 0 <= j < |g|
      ensures forall i :: 0 <= i < |g| ==>
        0.0 <= Normalise(g)[i][j] <= 1.0 && (Normalise(g)[i][j] > 0.0 <==> g[i][j] > 0)
      ensures ColSum(g, j, |g|) != 0 ==> RealColSum(Normalise(g), j, |g|) == 1.0
      ensures ColSum(g, j, |g|) == 0 ==> forall i :: 0 <= i < |g| ==> g[i][j] == 0 && Normalise(g)[i][j] == 0.0
    {
      NormaliseColumn(g, j);
    }
  }

  /** Column j of a real matrix is entirely zero: word j has no neighbour. */
  predicate ZeroColumn(g: seq<seq<real>>, j: nat)
    requires IsSquare(g, |g|) && j < |g|
  {
    forall i :: 0 <= i < |g| ==> g[i][j] == 0.0
  }

  /** Row i of a real matrix is entirely zero. */
  predicate ZeroRow(g: seq<seq<real>>, i: nat)
    requires IsSquare(g, |g|) && i < |g|
  {
    forall j :: 0 <= j < |g| ==> g[i][j] == 0.0
  }

  /**
   The shape of a normalised co-occurrence matrix: every column sums to 1,
   except the all-zero column of a word without neighbours, whose row is
   all zero as well.
   */
  predicate ColumnStochastic(g: seq<seq<real>>) {
    && IsSquare(g, |g|)
    && forall j :: 0 <= j < |g| ==>
      if ZeroColumn(g, j) then ZeroRow(g, j) else RealColSum(g, j, |g|) == 1.0
  }

  /**
   The normalised symmetric adjacency of any pairs: entry [i][j] is positive
   exactly when word i and word j were paired in either order, every entry
   lies in [0, 1], and the matrix is column-stochastic.
   */
  lemma CooccurrenceShape(words: seq<string>, pairs: seq<Pair>)
    ensures IsSquare(Normalise(Symmetrize(Adjacency(words, pairs))), |words|)
    ensures ColumnStochastic(Normalise(Symmetrize(Adjacency(words, pairs))))
    ensures forall i, j :: 0 <= i < |words| && 0 <= j < |words| ==>
      0.0 <= Normalise(Symmetrize(Adjacency(words, pairs)))[i][j] <= 1.0
    ensures forall i, j :: 0 <= i < |words| && 0 <= j < |words| ==>
      (Normalise(Symmetrize(Adjacency(words, pairs)))[i][j] > 0.0 <==>
        (words[i], words[j]) in pairs || (words[j], words[i]) in pairs)
  {
    var a := Adjacency(words, pairs);
    var s := Symmetrize(a);
    var g := Normalise(s);
    NormaliseStochastic(s);
    forall i, j | 0 <= i < |words| && 0 <= j < |words|
      ensures g[i][j] > 0.0 <==> (words[i], words[j]) in pairs || (words[j], words[i]) in pairs
    {
      assert a[i][j] == 1 <==> (words[i], words[j]) in pairs;
      assert a[j][i] == 1 <==> (words[j], words[i]) in pairs;
    }
    forall j | 0 <= j < |g| && ZeroColumn(g, j)
      ensures ZeroRow(g, j)
    {
      forall i | 0 <= i < |g|
        ensures g[j][i] == 0.0
      {
        assert g[i][j] == 0.0;
        assert s[i][j] == s[j][i];
      }
    }
  }

  /**
   The model of `get_matrix`: the normalised symmetric adjacency of the
   pairs. Entry [i][j] is positive exactly when word i and word j were paired
   in either order; every entry lies in [0, 1]; every column sums to 1 or is,
   together with its row, entirely zero.
   */
  method GetMatrix(v: Vocab, tokenPairs: seq<Pair>) returns (g: seq<seq<real>>)
    requires WellFormed(v)
    requires forall p :: p in tokenPairs ==> p.0 in v.index && p.1 in v.index
    ensures g == Normalise(Symmetrize(Adjacency(v.words, tokenPairs)))
    ensures IsSquare(g, |v.words|)
    ensures forall i, j :: 0 <= i < |v.words| && 0 <= j < |v.words| ==> 0.0 <= g[i][j] <= 1.0
    ensures forall i, j :: 0 <= i < |v.words| && 0 <= j < |v.words| ==>
      (g[i][j] > 0.0 <==> (v.words[i], v.words[j]) in tokenPairs || (v.words[j], v.words[i]) in tokenPairs)
    ensures ColumnStochastic(g)
  {
    var a := FillAdjacency(v, tokenPairs);
    var s := Symmetrize(a);
    g := Normalise(s);
    CooccurrenceShape(v.words, tokenPairs);
  }

  /**
   A self-loop survives: one sentence holding the same word twice, with a
   window of 2, yields the pair (w, w), and the symmetric matrix keeps a 1 on
   the diagonal.
   */
  lemma SelfLoopKept()
    ensures Dedup(AllPairs([["w", "w"]], 2)) == [("w", "w")]
    ensures Symmetrize(Adjacency(["w"], [("w", "w")]))[0][0] == 1
  {
    var s := ["w", "w"];
    assert [["w", "w"]][..0] == [];
    assert PairsAt(s, 0, 2) == [("w", "w")];
    assert PairsAt(s, 1, 2) == [];
    assert AllPairs([["w", "w"]], 2) == [("w", "w")];
    assert [("w", "w")][..0] == [];
  }
}
