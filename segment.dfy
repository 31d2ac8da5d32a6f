/**
 Token filtering (`txtrank.sentence_segment`).

 The linguistic preprocessor hands over a document as a sequence of
 sentences, each a sequence of tokens. A token is kept when its
 part-of-speech tag is one of the candidate tags and it is not a stop word;
 its surface text is then case-folded or not, as configured. Case folding is
 a parameter, `fold`, about which nothing is assumed.
 */
module Filtering {

  /** A token: its surface text, its part-of-speech tag, and whether it is a stop word. */
  datatype Token = Token(text: string, pos: string, isStop: bool)

  /** The filter of the inner loop: a candidate tag and not a stop word. */
  predicate Qualifies(t: Token, candidatePos: seq<string>) {
    t.pos in candidatePos && !t.isStop
  }

  /** The word a kept token contributes. */
  function Surface(t: Token, lower: bool, fold: string -> string): string {
    if lower then fold(t.text) else t.text
  }

  /** The words one sentence contributes, in sentence order. */
  function Selected(sent: seq<Token>, candidatePos: seq<string>, lower: bool, fold: string -> string): seq<string>
  {
    if sent == [] then []
    else
      var rest := Selected(sent[..|sent| - 1], candidatePos, lower, fold);
      var t := sent[|sent| - 1];
      if Qualifies(t, candidatePos) then rest + [Surface(t, lower, fold)] else rest
  }

  /** The words of every sentence, one list per sentence. */
  function Segment(doc: seq<seq<Token>>, candidatePos: seq<string>, lower: bool, fold: string -> string): seq<seq<string>>
  {
    seq(|doc|, k requires 0 <= k < |doc| => Selected(doc[k], candidatePos, lower, fold))
  }

  /**
   Filtering keeps the order of the input: the words of two consecutive
   stretches of a sentence are the words of the first followed by those of
   the second.
   */
  lemma {:induction false} SelectedConcat(a: seq<Token>, b: seq<Token>, candidatePos: seq<string>, lower: bool, fold: string -> string)
    ensures Selected(a + b, candidatePos, lower, fold)
         == Selected(a, candidatePos, lower, fold) + Selected(b, candidatePos, lower, fold)
  {
    if b == [] {
      assert a + b == a;
    } else {
      var b' := b[..|b| - 1];
      SelectedConcat(a, b', candidatePos, lower, fold);
      assert (a + b)[..|a + b| - 1] == a + b';
    }
  }

  /**
   A word is selected from a sentence exactly when some token of it qualifies
   and has that word as its (possibly folded) surface text.
   */
  lemma {:induction false} SelectedMembership(sent: seq<Token>, candidatePos: seq<string>, lower: bool, fold: string -> string)
    ensures forall w :: w in Selected(sent, candidatePos, lower, fold) <==>
      exists i :: 0 <= i < |sent| && Qualifies(sent[i], candidatePos) && Surface(sent[i], lower, fold) == w
    ensures |Selected(sent, candidatePos, lower, fold)| <= |sent|
  {
    if sent != [] {
      var p := sent[..|sent| - 1];
      SelectedMembership(p, candidatePos, lower, fold);
      forall w | w in Selected(sent, candidatePos, lower, fold)
        ensures exists i :: 0 <= i < |sent| && Qualifies(sent[i], candidatePos) && Surface(sent[i], lower, fold) == w
      {
        if w in Selected(p, candidatePos, lower, fold) {
          var i :| 0 <= i < |p| && Qualifies(p[i], candidatePos) && Surface(p[i], lower, fold) == w;
          assert sent[i] == p[i];
        }
      }
      forall w, i | 0 <= i < |sent| && Qualifies(sent[i], candidatePos) && Surface(sent[i], lower, fold) == w
        ensures w in Selected(sent, candidatePos, lower, fold)
      {
        if i < |p| {
          assert p[i] == sent[i];
        }
      }
    }
  }

  /**
   The model of `sentence_segment`: one list per sentence, holding the
   surface texts of the qualifying tokens of that sentence in their order.
   */
  method SentenceSegment(doc: seq<seq<Token>>, candidatePos: seq<string>, lower: bool, fold: string -> string)
    returns (sentences: seq<seq<string>>)
    ensures sentences == Segment(doc, candidatePos, lower, fold)
  {
    sentences := [];
    for k := 0 to |doc|
      invariant |sentences| == k
      invariant forall m :: 0 <= m < k ==> sentences[m] == Selected(doc[m], candidatePos, lower, fold)
    {
      var sent := doc[k];
      var selectedWords := [];
      for i := 0 to |sent|
        invariant selectedWords == Selected(sent[..i], candidatePos, lower, fold)
      {
        var token := sent[i];
        assert sent[..i + 1][..i] == sent[..i];
        if token.pos in candidatePos && !token.isStop {
          if lower {
            selectedWords := selectedWords + [fold(token.text)];
          } else {
            selectedWords := selectedWords + [token.text];
          }
        }
      }
      assert sent[..|sent|] == sent;
      sentences := sentences + [selectedWords];
    }
  }
}
