/**
 * Normalisation: normaliseCounts rewrites every weight as a fraction of the
 * histogram's total, in place, so that the weights sum to one.
 */
module Normalise {
  import opened Weights

  /** Every weight divided by the total; an empty histogram is left as it is. */
  ghost function Normalised(m: Histogram): (r: Histogram)
    requires Positive(m)
    ensures r.Keys == m.Keys
    ensures Positive(r)
  {
    if m == map[] then m
    else
      var r := Scale(m, Total(m));
      assert forall w :: w in r ==> r[w] == m[w] / Total(m);
      r
  }

  /**
   * The two loops of normaliseCounts: first add up the weights, then divide
   * each weight by that total. The weights are positive wherever the session
   * calls it (see Session.WordCloud.Valid), so the division is defined.
   */
  method NormaliseCounts(counts: Histogram) returns (r: Histogram)
    requires Positive(counts)
    ensures r == Normalised(counts)
  {
    var total := 0.0;
    var rest := counts.Keys;
    assert Restrict(counts, rest) == counts;
    while rest != {}
      invariant rest <= counts.Keys
      invariant total + Total(Restrict(counts, rest)) == Total(counts)
      decreases rest
    {
      var w :| w in rest;
      TotalRestrictStep(counts, rest, w);
      total := total + counts[w];
      rest := rest - {w};
    }
    assert Restrict(counts, rest) == map[];

    r := counts;
    rest := counts.Keys;
    while rest != {}
      invariant rest <= counts.Keys
      invariant total == Total(counts)
      invariant r.Keys == counts.Keys
      invariant forall w :: w in r ==> r[w] == if w in rest then counts[w] else counts[w] / total
      decreases rest
    {
      var w :| w in rest;
      r := r[w := r[w] / total];
      rest := rest - {w};
    }
    if counts != map[] {
      assert r == Scale(counts, total);
    }
  }

  /** A non-empty normalised histogram sums to one. */
  lemma NormalisedSumsToOne(m: Histogram)
    requires Positive(m) && m != map[]
    ensures Total(Normalised(m)) == 1.0
  {
    var t := Total(m);
    assert t > 0.0;
    assert Normalised(m) == Scale(m, t);
    TotalScale(m, t);
    SelfQuotient(t);
  }

  /** Normalising a second time changes nothing. */
  lemma NormalisedIdempotent(m: Histogram)
    requires Positive(m)
    ensures Normalised(Normalised(m)) == Normalised(m)
  {
    if m != map[] {
      var r := Normalised(m);
      NormalisedSumsToOne(m);
      assert Scale(r, 1.0) == r;
    }
  }

  /** Normalisation keeps the relative frequency of any two words. */
  lemma NormalisedKeepsRatios(m: Histogram, a: string, b: string)
    requires Positive(m) && a in m && b in m
    ensures Normalised(m)[a] / Normalised(m)[b] == m[a] / m[b]
  {
    var t := Total(m);
    assert Normalised(m)[a] == m[a] / t && Normalised(m)[b] == m[b] / t;
    QuotientOfScaled(m[a], m[b], t);
  }

  /**
   * Removing words from a normalised histogram and normalising again gives
   * what normalising the raw counts after the same removal would give: the
   * destructive normalisation before every display does not change the
   * fractions displayed after later filters.
   */
  lemma RenormaliseAfterRemoval(m: Histogram, gone: set<string>)
    requires Positive(m)
    ensures Normalised(Normalised(m) - gone) == Normalised(m - gone)
  {
    if m != map[] {
      var t := Total(m);
      assert Normalised(m) - gone == Scale(m - gone, t);
      NormalisedIgnoresScale(m - gone, t);
    }
  }

  /** Dividing every weight by the same positive number does not change the normalised histogram. */
  lemma NormalisedIgnoresScale(m: Histogram, t: real)
    requires Positive(m) && t > 0.0
    ensures Positive(Scale(m, t))
    ensures Normalised(Scale(m, t)) == Normalised(m)
  {
    var s := Scale(m, t);
    forall w | w in s ensures s[w] > 0.0 {
      PositiveQuotient(m[w], t);
    }
    if m != map[] {
      TotalScale(m, t);
      var k := Total(m);
      forall w | w in m
        ensures Normalised(s)[w] == Normalised(m)[w]
      {
        QuotientOfScaled(m[w], k, t);
      }
    } else {
      assert s == map[];
    }
  }

  lemma PositiveQuotient(a: real, t: real)
    requires a > 0.0 && t > 0.0
    ensures a / t > 0.0
  {
  }

  lemma SelfQuotient(t: real)
    requires t != 0.0
    ensures t / t == 1.0
  {
  }

  lemma QuotientOfScaled(a: real, b: real, t: real)
    requires b != 0.0 && t != 0.0
    ensures (a / t) / (b / t) == a / b
  {
  }
}
