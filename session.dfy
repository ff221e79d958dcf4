/**
 * The word-cloud session: the two document histograms and the limit of the
 * "remove infrequent words" action, held as the state of one object. Each
 * button press filters both histograms and redraws; every redraw normalises
 * the live histograms first, so after the first display the histograms hold
 * fractions, not raw counts.
 */
module Session {
  import opened Weights
  import opened Counting
  import opened Normalise
  import opened Filters
  import opened Infrequent
  import opened Layout

  /** A histogram that may be absent: a document that could not be read, or was never chosen, has none. */
  datatype Option<T> = None | Some(value: T)

  const RemoveCommonLabel := "remove standard common words"
  const RemoveInfrequentLabel := "remove infrequent words"
  const RemoveUnsharedLabel := "remove un-shared words"

  /** The limit of the first "remove infrequent words" press. */
  const InitialLimit := 100

  /** A loaded histogram has positive weights. */
  predicate PositiveIfLoaded(c: Option<Histogram>)
  {
    c.Some? ==> Positive(c.value)
  }

  /**
   * The two histograms after the filter step of one button press, before the
   * redraw normalises them. `stopwords` is the token list of the stopword
   * file, or None when that file cannot be read.
   */
  ghost function Filtered(button: string, stopwords: Option<seq<string>>,
                          c1: Histogram, c2: Histogram, limit: int): (f: (Histogram, Histogram))
    ensures f.0.Keys <= c1.Keys && f.1.Keys <= c2.Keys
    ensures Positive(c1) && Positive(c2) ==> Positive(f.0) && Positive(f.1)
  {
    InfrequentOnlyDeletes(c1, limit);
    InfrequentOnlyDeletes(c2, limit);
    if button == RemoveCommonLabel then
      if stopwords.None? then (c1, c2)
      else (c1 - StopwordSet(stopwords.value), c2 - StopwordSet(stopwords.value))
    else if button == RemoveInfrequentLabel then
      (InfrequentRemoved(c1, limit), InfrequentRemoved(c2, limit))
    else if button == RemoveUnsharedLabel then
      (c1 - Exclusive(c1, c2), c2 - Exclusive(c1, c2))
    else
      (c1, c2)
  }

  /**
   * The limit after one button press: halved by the infrequent action only.
   * Java's `int` division truncates toward zero, so a negative limit is
   * halved by its magnitude rather than by Dafny's Euclidean `/`.
   */
  function NextLimit(button: string, limit: int): (next: int)
    ensures 0 <= limit ==> 0 <= next <= limit
    ensures limit <= 0 ==> limit <= next <= 0
    ensures limit == 0 ==> next == 0
    ensures button != RemoveInfrequentLabel ==> next == limit
    ensures button == RemoveInfrequentLabel && 0 <= limit ==> limit - 1 <= 2 * next <= limit
    ensures button == RemoveInfrequentLabel && limit < 0 ==> limit <= 2 * next <= limit + 1
    ensures 0 < limit && button == RemoveInfrequentLabel ==> next < limit
  {
    if button != RemoveInfrequentLabel then limit
    else if limit < 0 then -((-limit) / 2)
    else limit / 2
  }

  /**
   * No action adds a word or changes a surviving weight, so positive weights
   * stay positive; an unrecognised button filters nothing.
   */
  lemma FilterOnlyDeletes(button: string, stopwords: Option<seq<string>>,
                          c1: Histogram, c2: Histogram, limit: int)
    ensures Filtered(button, stopwords, c1, c2, limit).0.Keys <= c1.Keys
    ensures Filtered(button, stopwords, c1, c2, limit).1.Keys <= c2.Keys
    ensures forall w :: w in Filtered(button, stopwords, c1, c2, limit).0 ==>
      Filtered(button, stopwords, c1, c2, limit).0[w] == c1[w]
    ensures forall w :: w in Filtered(button, stopwords, c1, c2, limit).1 ==>
      Filtered(button, stopwords, c1, c2, limit).1[w] == c2[w]
    ensures Positive(c1) && Positive(c2) ==>
      Positive(Filtered(button, stopwords, c1, c2, limit).0) && Positive(Filtered(button, stopwords, c1, c2, limit).1)
    ensures button !in {RemoveCommonLabel, RemoveInfrequentLabel, RemoveUnsharedLabel} ==>
      Filtered(button, stopwords, c1, c2, limit) == (c1, c2)
  {
    if button == RemoveInfrequentLabel {
      InfrequentOnlyDeletes(c1, limit);
      InfrequentOnlyDeletes(c2, limit);
    }
  }

  /**
   * The stopword action removes from each histogram exactly the words equal
   * to some lower-cased, trimmed stopword token.
   */
  lemma StopwordActionRemoves(tokens: seq<string>, c1: Histogram, c2: Histogram, limit: int, w: string)
    ensures var f := Filtered(RemoveCommonLabel, Some(tokens), c1, c2, limit);
      (w in f.0 <==> w in c1 && w !in StopwordSet(tokens))
      && (w in f.1 <==> w in c2 && w !in StopwordSet(tokens))
  {
  }

  /**
   * After an un-shared press and its redraw, a second un-shared press and
   * redraw leaves both histograms exactly as they are.
   */
  lemma UnsharedPressTwice(stopwords: Option<seq<string>>, c1: Histogram, c2: Histogram, limit: int)
    requires Positive(c1) && Positive(c2)
    ensures var f := Filtered(RemoveUnsharedLabel, stopwords, c1, c2, limit);
      var n1, n2 := Normalised(f.0), Normalised(f.1);
      var g := Filtered(RemoveUnsharedLabel, stopwords, n1, n2, limit);
      Normalised(g.0) == n1 && Normalised(g.1) == n2
  {
    var f := Filtered(RemoveUnsharedLabel, stopwords, c1, c2, limit);
    RetainSharedOnly(c1, c2);
    var n1, n2 := Normalised(f.0), Normalised(f.1);
    assert Exclusive(n1, n2) == {};
    assert n1 - {} == n1 && n2 - {} == n2;
    NormalisedIdempotent(f.0);
    NormalisedIdempotent(f.1);
  }

  /**
   * Every display normalises the live histograms in place, so a button
   * press filters fractions, not raw counts. This makes no difference to
   * what is displayed next: for every button, normalising the filtered
   * fractions gives what normalising the filtered raw counts gives. (The
   * infrequent filter compares weights, and dividing all weights by the same
   * positive total keeps their order and equalities.)
   */
  lemma PressAfterNormalise(button: string, stopwords: Option<seq<string>>,
                            c1: Histogram, c2: Histogram, limit: int)
    requires Positive(c1) && Positive(c2)
    ensures var f := Filtered(button, stopwords, Normalised(c1), Normalised(c2), limit);
      var g := Filtered(button, stopwords, c1, c2, limit);
      Normalised(f.0) == Normalised(g.0) && Normalised(f.1) == Normalised(g.1)
  {
    FilterAfterNormalise(button, stopwords, c1, c2, limit, c1, true);
    FilterAfterNormalise(button, stopwords, c1, c2, limit, c2, false);
  }

  /** One side of PressAfterNormalise: `c` is `c1` when `first` holds, `c2` otherwise. */
  lemma FilterAfterNormalise(button: string, stopwords: Option<seq<string>>,
                             c1: Histogram, c2: Histogram, limit: int, c: Histogram, first: bool)
    requires Positive(c1) && Positive(c2) && c == if first then c1 else c2
    ensures var f := Filtered(button, stopwords, Normalised(c1), Normalised(c2), limit);
      var g := Filtered(button, stopwords, c1, c2, limit);
      Normalised(if first then f.0 else f.1) == Normalised(if first then g.0 else g.1)
  {
    var n := Normalised(c);
    if button == RemoveCommonLabel {
      if stopwords.Some? {
        RenormaliseAfterRemoval(c, StopwordSet(stopwords.value));
      } else {
        NormalisedIdempotent(c);
      }
    } else if button == RemoveInfrequentLabel {
      InfrequentOnlyDeletes(c, limit);
      if c != map[] {
        var t := Total(c);
        assert n == Scale(c, t);
        InfrequentScaled(c, limit, t);
        NormalisedIgnoresScale(InfrequentRemoved(c, limit), t);
      } else {
        assert n == c;
      }
    } else if button == RemoveUnsharedLabel {
      assert Exclusive(Normalised(c1), Normalised(c2)) == Exclusive(c1, c2);
      RenormaliseAfterRemoval(c, Exclusive(c1, c2));
    } else {
      NormalisedIdempotent(c);
    }
  }

  /**
   * The filter step of buttonPerformed: the removal each button performs on
   * both histograms, with the removal set of the un-shared action computed
   * before either histogram changes.
   */
  method ApplyFilter(button: string, stopwords: Option<seq<string>>,
                     c1: Histogram, c2: Histogram, limit: int) returns (f1: Histogram, f2: Histogram)
    ensures (f1, f2) == Filtered(button, stopwords, c1, c2, limit)
  {
    f1, f2 := c1, c2;
    if button == RemoveCommonLabel {
      if stopwords.Some? {
        var toRemove := ReadStopwords(stopwords.value);
        f1 := RemoveWords(f1, toRemove);
        f2 := RemoveWords(f2, toRemove);
        assert f1 == c1 - toRemove && f2 == c2 - toRemove;
      }
    } else if button == RemoveInfrequentLabel {
      f1 := RemoveInfrequentWords(f1, limit);
      f2 := RemoveInfrequentWords(f2, limit);
    } else if button == RemoveUnsharedLabel {
      var toRemove := UnsharedWords(f1, f2);
      f1 := RemoveWords(f1, toRemove);
      f2 := RemoveWords(f2, toRemove);
      assert f1 == c1 - toRemove && f2 == c2 - toRemove;
    }
  }

  /** The session object: the two histograms (absent if unread) and the current infrequent-word limit. */
  class WordCloud {
    var numWordsToRemove: int
    var counts1: Option<Histogram>
    var counts2: Option<Histogram>

    ghost predicate Valid()
      reads this
    {
      numWordsToRemove >= 0 && PositiveIfLoaded(counts1) && PositiveIfLoaded(counts2)
    }

    /**
     * Builds both histograms from the documents' token streams (None: the
     * document could not be read) and displays them, which normalises them
     * when both are present.
     */
    constructor (doc1: Option<seq<string>>, doc2: Option<seq<string>>)
      ensures Valid()
      ensures numWordsToRemove == InitialLimit
      ensures counts1.Some? == doc1.Some? && counts2.Some? == doc2.Some?
      ensures doc1.Some? && doc2.Some? ==>
        counts1.value == Normalised(HistogramOf(doc1.value)) && counts2.value == Normalised(HistogramOf(doc2.value))
      ensures doc1.Some? && doc2.None? ==> counts1.value == HistogramOf(doc1.value)
      ensures doc1.None? && doc2.Some? ==> counts2.value == HistogramOf(doc2.value)
    {
      numWordsToRemove := InitialLimit;
      var h1: Option<Histogram> := None;
      var h2: Option<Histogram> := None;
      if doc1.Some? {
        var h := BuildHistogram(doc1.value);
        HistogramKeys(doc1.value);
        h1 := Some(h);
      }
      if doc2.Some? {
        var h := BuildHistogram(doc2.value);
        HistogramKeys(doc2.value);
        h2 := Some(h);
      }
      counts1 := h1;
      counts2 := h2;
      new;
      var drawn := DisplayWords();
    }

    /**
     * displayWords: with both histograms present, normalises both in place
     * and draws every word of either; otherwise draws nothing and changes nothing.
     */
    method DisplayWords() returns (drawn: seq<Drawable>)
      requires Valid()
      modifies this
      ensures Valid()
      ensures numWordsToRemove == old(numWordsToRemove)
      ensures counts1.Some? == old(counts1).Some? && counts2.Some? == old(counts2).Some?
      ensures old(counts1).None? || old(counts2).None? ==>
        counts1 == old(counts1) && counts2 == old(counts2) && drawn == []
      ensures old(counts1).Some? && old(counts2).Some? ==>
        && counts1.value == Normalised(old(counts1).value)
        && counts2.value == Normalised(old(counts2).value)
        && DrawsEachWordOnce(drawn, counts1.value, counts2.value)
    {
      if counts1.None? || counts2.None? {
        return [];
      }
      var c1 := NormaliseCounts(counts1.value);
      counts1 := Some(c1);
      var c2 := NormaliseCounts(counts2.value);
      counts2 := Some(c2);
      PositiveSharedSums(c1, c2);
      drawn := LayoutWords(c1, c2);
    }

    /**
     * buttonPerformed: applies the pressed button's filter to both histograms
     * (halving the limit after the infrequent action), then redraws.
     * `stopwords` is the token list of the stopword file, None if unreadable.
     */
    method ButtonPerformed(button: string, stopwords: Option<seq<string>>) returns (drawn: seq<Drawable>)
      requires Valid() && counts1.Some? && counts2.Some?
      modifies this
      ensures Valid() && counts1.Some? && counts2.Some?
      ensures numWordsToRemove == NextLimit(button, old(numWordsToRemove))
      ensures counts1.value.Keys <= old(counts1).value.Keys && counts2.value.Keys <= old(counts2).value.Keys
      ensures var f := Filtered(button, stopwords, old(counts1).value, old(counts2).value, old(numWordsToRemove));
        && counts1.value == Normalised(f.0)
        && counts2.value == Normalised(f.1)
        && DrawsEachWordOnce(drawn, counts1.value, counts2.value)
    {
      var c1, c2 := ApplyFilter(button, stopwords, counts1.value, counts2.value, numWordsToRemove);
      numWordsToRemove := NextLimit(button, numWordsToRemove);
      FilterOnlyDeletes(button, stopwords, old(counts1).value, old(counts2).value, old(numWordsToRemove));
      counts1, counts2 := Some(c1), Some(c2);
      drawn := DisplayWords();
    }
  }
}
