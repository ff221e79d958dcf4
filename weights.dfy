/**
 * Word-weight maps (the `Map<String,Double>` histograms of the word cloud)
 * and the two aggregates the filters and the normaliser need: the sum of all
 * weights and the multiset of all weights. Both are defined by removing one
 * word at a time; the lemmas show that the word removed first does not matter.
 */
module Weights {

  /** A histogram: word -> weight (a raw count, or a fraction once normalised). */
  type Histogram = map<string, real>

  /** Every weight is strictly positive (counts start at 1, fractions of a positive total stay positive). */
  predicate Positive(m: Histogram)
  {
    forall w :: w in m ==> m[w] > 0.0
  }

  /** Some word of a non-empty histogram; a fixed choice, so that Total and ValueBag unfold predictably. */
  ghost function PickWord(m: Histogram): (w: string)
    requires m != map[]
    ensures w in m
  {
    assert m.Keys != {};
    var w :| w in m.Keys; w
  }

  /** The histogram restricted to the words in `keys`. */
  function Restrict(m: Histogram, keys: set<string>): (r: Histogram)
    ensures r.Keys == m.Keys * keys
    ensures forall w :: w in r ==> r[w] == m[w]
  {
    map w | w in m && w in keys :: m[w]
  }

  /** Every weight divided by `t`. */
  function Scale(m: Histogram, t: real): (r: Histogram)
    requires t != 0.0
    ensures r.Keys == m.Keys
  {
    map w | w in m :: m[w] / t
  }

  /** The sum of all weights (the `total` that normaliseCounts accumulates). */
  ghost function Total(m: Histogram): (t: real)
    ensures Positive(m) ==> t >= 0.0
    ensures Positive(m) && m != map[] ==> t > 0.0
    decreases |m|
  {
    if m == map[] then 0.0
    else
      var w := PickWord(m);
      assert |m - {w}| < |m| by { assert (m - {w}).Keys == m.Keys - {w}; }
      m[w] + Total(m - {w})
  }

  /** The multiset of all weights, one occurrence per word (what `c.values()` holds). */
  ghost function ValueBag(m: Histogram): (b: multiset<real>)
    decreases |m|
  {
    if m == map[] then multiset{}
    else
      var w := PickWord(m);
      assert |m - {w}| < |m| by { assert (m - {w}).Keys == m.Keys - {w}; }
      ValueBag(m - {w}) + multiset{m[w]}
  }

  /** The total may be computed by taking out any word first. */
  lemma {:induction false} TotalRemove(m: Histogram, w: string)
    requires w in m
    ensures Total(m) == m[w] + Total(m - {w})
    decreases |m|
  {
    var v := PickWord(m);
    if v != w {
      assert |m - {v}| < |m| by { assert (m - {v}).Keys == m.Keys - {v}; }
      assert |m - {w}| < |m| by { assert (m - {w}).Keys == m.Keys - {w}; }
      TotalRemove(m - {v}, w);
      TotalRemove(m - {w}, v);
      assert m - {v} - {w} == m - {w} - {v};
    }
  }

  /** The multiset of weights may be computed by taking out any word first. */
  lemma {:induction false} ValueBagRemove(m: Histogram, w: string)
    requires w in m
    ensures ValueBag(m) == ValueBag(m - {w}) + multiset{m[w]}
    decreases |m|
  {
    var v := PickWord(m);
    if v != w {
      assert |m - {v}| < |m| by { assert (m - {v}).Keys == m.Keys - {v}; }
      assert |m - {w}| < |m| by { assert (m - {w}).Keys == m.Keys - {w}; }
      var rest := m - {v} - {w};
      assert m - {w} - {v} == rest;
      assert (m - {v})[w] == m[w] && (m - {w})[v] == m[v];
      ValueBagRemove(m - {v}, w);
      ValueBagRemove(m - {w}, v);
      calc {
        ValueBag(m);
        ValueBag(m - {v}) + multiset{m[v]};
        ValueBag(rest) + multiset{m[w]} + multiset{m[v]};
        ValueBag(rest) + multiset{m[v]} + multiset{m[w]};
        ValueBag(m - {w}) + multiset{m[w]};
      }
    }
  }

  /** The multiset of weights has one element per word, and holds every word's weight. */
  lemma {:induction false} ValueBagSize(m: Histogram)
    ensures |ValueBag(m)| == |m|
    ensures forall w :: w in m ==> m[w] in ValueBag(m)
    decreases |m|
  {
    if m != map[] {
      var v := PickWord(m);
      assert (m - {v}).Keys == m.Keys - {v};
      ValueBagSize(m - {v});
      forall w | w in m ensures m[w] in ValueBag(m) {
        if w != v {
          assert (m - {v})[w] == m[w];
        }
      }
    }
  }

  /** Dividing every weight by `t` divides the total by `t`. */
  lemma {:induction false} TotalScale(m: Histogram, t: real)
    requires t != 0.0
    ensures Total(Scale(m, t)) == Total(m) / t
    decreases |m|
  {
    if m != map[] {
      var w := PickWord(m);
      var s := Scale(m, t);
      var rest := m - {w};
      ScaleRemove(m, t, w);
      TotalRemove(s, w);
      TotalScale(rest, t);
      SumOverDivisor(m[w], Total(rest), t);
    }
  }

  lemma ScaleRemove(m: Histogram, t: real, w: string)
    requires t != 0.0 && w in m
    ensures |m - {w}| < |m|
    ensures Scale(m, t) - {w} == Scale(m - {w}, t)
    ensures Scale(m, t)[w] == m[w] / t
  {
    assert (m - {w}).Keys == m.Keys - {w};
  }

  lemma SumOverDivisor(a: real, b: real, t: real)
    requires t != 0.0
    ensures a / t + b / t == (a + b) / t
  {
  }

  /** Taking one more word out of a restriction takes its weight out of the total. */
  lemma TotalRestrictStep(m: Histogram, keys: set<string>, w: string)
    requires w in keys && w in m
    ensures Total(Restrict(m, keys)) == m[w] + Total(Restrict(m, keys - {w}))
  {
    TotalRemove(Restrict(m, keys), w);
    assert Restrict(m, keys) - {w} == Restrict(m, keys - {w});
  }

  /** Taking one more word out of a restriction takes its weight out of the multiset of weights. */
  lemma ValueBagRestrictStep(m: Histogram, keys: set<string>, w: string)
    requires w in keys && w in m
    ensures ValueBag(Restrict(m, keys)) == ValueBag(Restrict(m, keys - {w})) + multiset{m[w]}
  {
    ValueBagRemove(Restrict(m, keys), w);
    assert Restrict(m, keys) - {w} == Restrict(m, keys - {w});
  }
}
