/**
 * Counting: how buildHistogram turns the token stream of one document into
 * a word -> count histogram. Counts are held as reals, as the source holds
 * them as Doubles.
 */
module Counting {
  import opened Weights

  /**
   * The histogram of a token stream: every token read is a key; a non-empty
   * word maps to its number of occurrences; the empty token maps to 1 however
   * often it occurs (it is never incremented, only reset).
   */
  ghost function HistogramOf(tokens: seq<string>): (h: Histogram)
  {
    map w | w in tokens :: if w == "" then 1.0 else multiset(tokens)[w] as real
  }

  /** The counting loop of buildHistogram, over tokens already split off the text. */
  method BuildHistogram(tokens: seq<string>) returns (counts: Histogram)
    ensures counts == HistogramOf(tokens)
  {
    counts := map[];
    var i := 0;
    while i < |tokens|
      invariant 0 <= i <= |tokens|
      invariant counts == HistogramOf(tokens[..i])
    {
      var word := tokens[i];
      HistogramStep(tokens, i);
      if word in counts && |word| > 0 {
        counts := counts[word := counts[word] + 1.0];
      } else {
        counts := counts[word := 1.0];
      }
      i := i + 1;
    }
    assert tokens[..i] == tokens;
  }

  /** One pass of the counting loop: increment a known non-empty word, otherwise (re)set the entry to 1. */
  lemma HistogramStep(tokens: seq<string>, i: nat)
    requires i < |tokens|
    ensures var h, t := HistogramOf(tokens[..i]), tokens[i];
      HistogramOf(tokens[..i + 1])
      == if t in h && |t| > 0 then h[t := h[t] + 1.0] else h[t := 1.0]
  {
    var prefix, t := tokens[..i], tokens[i];
    assert tokens[..i + 1] == prefix + [t];
    HistogramAppend(prefix, t);
    var h, g := HistogramOf(prefix), HistogramOf(prefix + [t]);
    var e := if t in h && |t| > 0 then h[t := h[t] + 1.0] else h[t := 1.0];
    assert g.Keys == e.Keys by {
      assert g - {t} == h - {t};
      assert t in g;
    }
    forall w | w in g ensures g[w] == e[w] {
      if w != t {
        assert (g - {t})[w] == (h - {t})[w];
      }
    }
  }

  /** A histogram has exactly the tokens as keys, and every weight is at least 1. */
  lemma HistogramKeys(tokens: seq<string>)
    ensures HistogramOf(tokens).Keys == set t | t in tokens
    ensures forall w :: w in HistogramOf(tokens) ==> HistogramOf(tokens)[w] >= 1.0
    ensures Positive(HistogramOf(tokens))
    ensures tokens == [] ==> HistogramOf(tokens) == map[]
  {
  }

  /**
   * The counts add up to the number of tokens, except that all empty tokens
   * together contribute 1 (when there is at least one) instead of their number.
   */
  lemma {:induction false} HistogramTotal(tokens: seq<string>)
    ensures Total(HistogramOf(tokens))
         == (|tokens| - multiset(tokens)[""]) as real + (if "" in tokens then 1.0 else 0.0)
  {
    if tokens == [] {
      assert HistogramOf(tokens) == map[];
    } else {
      var n := |tokens| - 1;
      var prefix, t := tokens[..n], tokens[n];
      assert tokens == prefix + [t];
      var h, hp := HistogramOf(tokens), HistogramOf(prefix);
      HistogramTotal(prefix);
      HistogramAppend(prefix, t);
      TotalRemove(h, t);
      var rest := Total(hp - {t});
      if t in prefix {
        TotalRemove(hp, t);
        assert Total(hp) == hp[t] + rest;
      } else {
        assert hp - {t} == hp;
      }
    }
  }

  /** Reading one more token changes the histogram at that token only. */
  lemma HistogramAppend(prefix: seq<string>, t: string)
    ensures HistogramOf(prefix + [t]) - {t} == HistogramOf(prefix) - {t}
    ensures HistogramOf(prefix + [t])[t]
         == if t == "" then 1.0 else multiset(prefix)[t] as real + 1.0
    ensures t in prefix && t != "" ==> HistogramOf(prefix)[t] == multiset(prefix)[t] as real
    ensures t in prefix && t == "" ==> HistogramOf(prefix)[t] == 1.0
    ensures multiset(prefix + [t])[""] == multiset(prefix)[""] + (if t == "" then 1 else 0)
  {
    var tokens := prefix + [t];
    assert multiset(tokens) == multiset(prefix) + multiset{t};
    assert t in tokens;
    forall w | w != t && w in tokens ensures w in prefix {
      var i :| 0 <= i < |tokens| && tokens[i] == w;
      assert i < |prefix|;
      assert prefix[i] == w;
    }
    assert HistogramOf(tokens) - {t} == HistogramOf(prefix) - {t};
  }

  /** With no empty token, the counts add up to the number of tokens. */
  lemma HistogramTotalNoEmpty(tokens: seq<string>)
    requires "" !in tokens
    ensures Total(HistogramOf(tokens)) == |tokens| as real
  {
    HistogramTotal(tokens);
  }
}
