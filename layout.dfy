/**
 * The layout part of displayWords: every word of either document is drawn
 * once, in one of three styles, with a font size and an x position computed
 * from its normalised weights. The y position is a fresh random number per
 * word and is not part of this model.
 */
module Layout {
  import opened Weights
  import opened Filters

  /** The three branches of displayWords (drawn black, red and blue). */
  datatype Category = Shared | OnlyDoc2 | OnlyDoc1

  /** One word as drawn: font size, x position and branch. */
  datatype Drawable = Drawable(word: string, fontSize: int, x: real, category: Category)

  /** The `(int)` cast of a double: rounds toward zero. */
  function Truncate(r: real): (n: int)
    ensures 0.0 <= r ==> n as real <= r < n as real + 1.0
    ensures r < 0.0 ==> n as real - 1.0 < r <= n as real
  {
    if r >= 0.0 then r.Floor else -((-r).Floor)
  }

  /** findAllWords: the words of either document. */
  function FindAllWords(c1: Histogram, c2: Histogram): (all: set<string>)
    ensures forall w :: w in all <==> w in c1 || w in c2
  {
    c1.Keys + c2.Keys
  }

  /** The words of either document are the shared words plus the words of exactly one document, and no word is both. */
  lemma AllWordsPartition(c1: Histogram, c2: Histogram)
    ensures FindAllWords(c1, c2) == (c1.Keys * c2.Keys) + Exclusive(c1, c2)
    ensures (c1.Keys * c2.Keys) !! Exclusive(c1, c2)
  {
  }

  /** For every shared word the two weights do not add up to zero, so its x position is defined. */
  predicate SharedSumsNonZero(c1: Histogram, c2: Histogram)
  {
    forall w :: w in c1 && w in c2 ==> c1[w] + c2[w] != 0.0
  }

  /**
   * How displayWords draws one word: a shared word by its combined weight,
   * placed along x by its share of that weight; a doc2-only word just past
   * x = 500; a doc1-only word at 500 times its weight.
   */
  function Place(w: string, c1: Histogram, c2: Histogram): (d: Drawable)
    requires w in c1 || w in c2
    requires w in c1 && w in c2 ==> c1[w] + c2[w] != 0.0
    ensures d.word == w
    ensures d.category == Shared <==> w in c1 && w in c2
    ensures d.category == OnlyDoc2 <==> w !in c1
    ensures d.category == OnlyDoc1 <==> w !in c2
    ensures (w in c1 ==> c1[w] >= 0.0) && (w in c2 ==> c2[w] >= 0.0) ==> d.fontSize >= 10
    ensures d.category == Shared && c1[w] >= 0.0 && c2[w] >= 0.0 ==> 0.0 <= d.x <= 500.0
  {
    if w in c1 && w in c2 then
      var v1, v2 := c1[w], c2[w];
      assert v1 >= 0.0 && v2 >= 0.0 ==> 0.0 <= v1 / (v1 + v2) <= 1.0 by {
        if v1 >= 0.0 && v2 >= 0.0 {
          ShareBounds(v1, v2);
        }
      }
      Drawable(w, Truncate(10.0 + 1000.0 * (v1 + v2)), 500.0 * (v1 / (v1 + v2)), Shared)
    else if w !in c1 && w in c2 then
      Drawable(w, Truncate(10.0 + 1000.0 * c2[w]), 500.0 + c2[w], OnlyDoc2)
    else
      Drawable(w, Truncate(10.0 + 1000.0 * c1[w]), 500.0 * c1[w], OnlyDoc1)
  }

  lemma ShareBounds(v1: real, v2: real)
    requires v1 >= 0.0 && v2 >= 0.0 && v1 + v2 != 0.0
    ensures 0.0 <= v1 / (v1 + v2) <= 1.0
  {
  }

  /**
   * Where the branches put a word: a shared word with equal weights sits at
   * the middle (x = 250) and leans right when its first-document weight is
   * larger; a doc2-only word sits at x >= 500; a doc1-only word with a weight
   * of at most one sits in [0, 500].
   */
  lemma PlacementSides(w: string, c1: Histogram, c2: Histogram)
    requires w in c1 || w in c2
    requires w in c1 && w in c2 ==> c1[w] + c2[w] != 0.0
    requires (w in c1 ==> c1[w] >= 0.0) && (w in c2 ==> c2[w] >= 0.0)
    ensures w in c1 && w in c2 && c1[w] == c2[w] ==> Place(w, c1, c2).x == 250.0
    ensures w in c1 && w in c2 && c1[w] > c2[w] ==> Place(w, c1, c2).x > 250.0
    ensures w !in c1 ==> Place(w, c1, c2).x >= 500.0
    ensures w !in c2 && c1[w] <= 1.0 ==> 0.0 <= Place(w, c1, c2).x <= 500.0
  {
    if w in c1 && w in c2 {
      var v1, v2 := c1[w], c2[w];
      HalfShare(v1, v2);
    }
  }

  /** A share of a positive sum is one half for equal parts and more than one half for the larger part. */
  lemma HalfShare(v1: real, v2: real)
    requires v1 >= 0.0 && v2 >= 0.0 && v1 + v2 != 0.0
    ensures v1 == v2 ==> v1 / (v1 + v2) == 0.5
    ensures v1 > v2 ==> v1 / (v1 + v2) > 0.5
  {
    var s := v1 + v2;
    if v1 == v2 {
      assert s == 2.0 * v1;
    } else if v1 > v2 {
      QuotientAbove(v1, s, 0.5);
    }
  }

  lemma QuotientAbove(a: real, s: real, c: real)
    requires s > 0.0 && a > c * s
    ensures a / s > c
  {
    var q := a / s;
    assert q * s == a;
  }

  /** A word with weight 0.5 in both documents is drawn at size 1010 in the middle. */
  lemma SharedExample()
    ensures Place("cat", map["cat" := 0.5], map["cat" := 0.5]) == Drawable("cat", 1010, 250.0, Shared)
  {
  }

  /**
   * A drawing of two histograms: every drawn word is a word of either
   * document, drawn as Place says, every such word is drawn, and none twice.
   */
  predicate DrawsEachWordOnce(drawn: seq<Drawable>, c1: Histogram, c2: Histogram)
  {
    && SharedSumsNonZero(c1, c2)
    && (forall i :: 0 <= i < |drawn| ==>
         drawn[i].word in FindAllWords(c1, c2) && drawn[i] == Place(drawn[i].word, c1, c2))
    && (forall w :: w in FindAllWords(c1, c2) ==> exists i :: 0 <= i < |drawn| && drawn[i].word == w)
    && (forall i, j :: 0 <= i < j < |drawn| ==> drawn[i].word != drawn[j].word)
  }

  /** The loop of displayWords over findAllWords: one drawn word per word of either document. */
  method LayoutWords(c1: Histogram, c2: Histogram) returns (drawn: seq<Drawable>)
    requires SharedSumsNonZero(c1, c2)
    ensures DrawsEachWordOnce(drawn, c1, c2)
  {
    var all := FindAllWords(c1, c2);
    drawn := [];
    var rest := all;
    while rest != {}
      invariant rest <= all
      invariant forall i :: 0 <= i < |drawn| ==>
        drawn[i].word in all - rest && drawn[i] == Place(drawn[i].word, c1, c2)
      invariant forall w :: w in all - rest ==> exists i :: 0 <= i < |drawn| && drawn[i].word == w
      invariant forall i, j :: 0 <= i < j < |drawn| ==> drawn[i].word != drawn[j].word
      decreases rest
    {
      var wd :| wd in rest;
      ghost var before := drawn;
      drawn := drawn + [Place(wd, c1, c2)];
      forall w | w in all - (rest - {wd})
        ensures exists i :: 0 <= i < |drawn| && drawn[i].word == w
      {
        if w == wd {
          assert drawn[|before|].word == w;
        } else {
          assert w in all - rest;
          var i :| 0 <= i < |before| && before[i].word == w;
          assert drawn[i].word == w;
        }
      }
      rest := rest - {wd};
    }
    assert all - rest == all;
  }

  /** Positive weights on both sides make every shared word's x position defined. */
  lemma PositiveSharedSums(c1: Histogram, c2: Histogram)
    requires Positive(c1) && Positive(c2)
    ensures SharedSumsNonZero(c1, c2)
  {
  }
}
