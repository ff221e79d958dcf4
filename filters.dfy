/**
 * The word-removal filters: removeWords, the stopword list of the "remove
 * standard common words" action, and the removal set of the "remove
 * un-shared words" action.
 */
module Filters {
  import opened Weights

  /** removeWords: deletes every listed word that is present; listed words that are absent are ignored. */
  method RemoveWords(wc: Histogram, words: set<string>) returns (r: Histogram)
    ensures r.Keys == wc.Keys - words
    ensures forall w :: w in r ==> r[w] == wc[w]
  {
    r := wc;
    var rest := words;
    while rest != {}
      invariant rest <= words
      invariant r.Keys == wc.Keys - (words - rest)
      invariant forall w :: w in r ==> r[w] == wc[w]
      decreases rest
    {
      var w :| w in rest;
      if w in r {
        r := r - {w};
      }
      rest := rest - {w};
    }
  }

  /** Removing words keeps every remaining weight, so positive weights stay positive. */
  lemma RemovePreservesPositive(wc: Histogram, words: set<string>)
    requires Positive(wc)
    ensures Positive(wc - words)
    ensures (wc - words).Keys <= wc.Keys
  {
  }

  /** Lower-casing of one character, ASCII letters only. */
  function LowerChar(c: char): (l: char)
  {
    if 'A' <= c <= 'Z' then (c as int + 32) as char else c
  }

  /** toLowerCase, over ASCII: upper-case letters become lower-case, everything else stays. */
  function ToLower(s: string): (r: string)
    ensures |r| == |s|
    ensures forall i :: 0 <= i < |r| ==> !('A' <= r[i] <= 'Z')
    ensures forall i :: 0 <= i < |s| && !('A' <= s[i] <= 'Z') ==> r[i] == s[i]
    ensures forall i :: 0 <= i < |s| && 'A' <= s[i] <= 'Z' ==> r[i] as int == s[i] as int + 32
  {
    seq(|s|, i requires 0 <= i < |s| => LowerChar(s[i]))
  }

  /** The number of leading characters at or below the space character. */
  function LeadingBlanks(s: string): (n: nat)
    ensures n <= |s|
    ensures forall i :: 0 <= i < n ==> s[i] <= ' '
    ensures n < |s| ==> s[n] > ' '
  {
    if s != [] && s[0] <= ' ' then 1 + LeadingBlanks(s[1..]) else 0
  }

  /** The number of trailing characters at or below the space character. */
  function TrailingBlanks(s: string): (n: nat)
    ensures n <= |s|
    ensures forall i :: |s| - n <= i < |s| ==> s[i] <= ' '
    ensures n < |s| ==> s[|s| - 1 - n] > ' '
  {
    if s != [] && s[|s| - 1] <= ' ' then 1 + TrailingBlanks(s[..|s| - 1]) else 0
  }

  /**
   * trim: removes the characters at or below the space character from both
   * ends, and nothing else.
   */
  function Trim(s: string): (r: string)
    ensures LeadingBlanks(s) + |r| <= |s| && r == s[LeadingBlanks(s)..LeadingBlanks(s) + |r|]
    ensures forall i :: 0 <= i < |s| && (i < LeadingBlanks(s) || LeadingBlanks(s) + |r| <= i) ==> s[i] <= ' '
    ensures r == [] || (r[0] > ' ' && r[|r| - 1] > ' ')
  {
    var start, end := LeadingBlanks(s), |s| - TrailingBlanks(s);
    if start < end then s[start..end] else []
  }

  /**
   * One stopword token as the stopword action stores it: lower-cased, then
   * trimmed. The result has no upper-case letter and no blank at either end.
   */
  function Canonical(t: string): (s: string)
    ensures forall i :: 0 <= i < |s| ==> !('A' <= s[i] <= 'Z')
    ensures s == [] || (s[0] > ' ' && s[|s| - 1] > ' ')
  {
    var low := ToLower(t);
    TrimSlice(low);
    Trim(low)
  }

  lemma TrimSlice(s: string)
    ensures forall i :: 0 <= i < |Trim(s)| ==> Trim(s)[i] == s[LeadingBlanks(s) + i]
  {
    var r, k := Trim(s), LeadingBlanks(s);
    assert r == s[k..k + |r|];
    forall i | 0 <= i < |r| ensures r[i] == s[k + i] {
    }
  }

  /** The words the stopword action removes: each token of the list in its canonical form. */
  function StopwordSet(tokens: seq<string>): (stopwords: set<string>)
  {
    set t | t in tokens :: Canonical(t)
  }

  /** The loop that fills the removal set from the stopword list. */
  method ReadStopwords(tokens: seq<string>) returns (toRemove: set<string>)
    ensures toRemove == StopwordSet(tokens)
  {
    toRemove := {};
    var i := 0;
    while i < |tokens|
      invariant 0 <= i <= |tokens|
      invariant toRemove == StopwordSet(tokens[..i])
    {
      var word := Trim(ToLower(tokens[i]));
      StopwordSetStep(tokens, i);
      toRemove := toRemove + {word};
      i := i + 1;
    }
    assert tokens[..i] == tokens;
  }

  lemma StopwordSetStep(tokens: seq<string>, n: nat)
    requires n < |tokens|
    ensures StopwordSet(tokens[..n + 1]) == StopwordSet(tokens[..n]) + {Canonical(tokens[n])}
  {
    assert tokens[..n + 1] == tokens[..n] + [tokens[n]];
    StopwordSetAppend(tokens[..n], tokens[n]);
  }

  lemma StopwordSetAppend(prefix: seq<string>, t: string)
    ensures StopwordSet(prefix + [t]) == StopwordSet(prefix) + {Canonical(t)}
  {
    ImageAppend(Canonical, prefix, t);
  }

  /** The image of a list with one more element gains that element's image. */
  lemma ImageAppend(f: string -> string, prefix: seq<string>, t: string)
    ensures (set u | u in prefix + [t] :: f(u)) == (set u | u in prefix :: f(u)) + {f(t)}
  {
    var tokens := prefix + [t];
    var before, after := set u | u in prefix :: f(u), set u | u in tokens :: f(u);
    forall s | s in after ensures s in before + {f(t)} {
      var u :| u in tokens && s == f(u);
      assert u in prefix || u == t;
    }
    forall s | s in before ensures s in after {
      var u :| u in prefix && s == f(u);
      assert u in tokens;
    }
    assert t in tokens;
  }

  /** Every stopword is free of upper-case letters and of blanks at either end. */
  lemma StopwordsNormalised(tokens: seq<string>, s: string)
    requires s in StopwordSet(tokens)
    ensures forall i :: 0 <= i < |s| ==> !('A' <= s[i] <= 'Z')
    ensures s == [] || (s[0] > ' ' && s[|s| - 1] > ' ')
  {
    var t :| t in tokens && s == Canonical(t);
  }

  /** The words in exactly one of the two histograms. */
  function Exclusive(c1: Histogram, c2: Histogram): (x: set<string>)
    ensures forall w :: w in x <==> (w in c1 <==> w !in c2)
  {
    (c1.Keys - c2.Keys) + (c2.Keys - c1.Keys)
  }

  /** The two loops that collect the removal set of the un-shared action. */
  method UnsharedWords(c1: Histogram, c2: Histogram) returns (toRemove: set<string>)
    ensures toRemove == Exclusive(c1, c2)
  {
    toRemove := {};
    var rest := c1.Keys;
    while rest != {}
      invariant rest <= c1.Keys
      invariant toRemove == (c1.Keys - rest) - c2.Keys
      decreases rest
    {
      var w :| w in rest;
      if w !in c2 {
        toRemove := toRemove + {w};
      }
      rest := rest - {w};
    }
    rest := c2.Keys;
    while rest != {}
      invariant rest <= c2.Keys
      invariant toRemove == (c1.Keys - c2.Keys) + ((c2.Keys - rest) - c1.Keys)
      decreases rest
    {
      var w :| w in rest;
      if w !in c1 {
        toRemove := toRemove + {w};
      }
      rest := rest - {w};
    }
  }

  /**
   * Removing the un-shared words from both histograms leaves both with the
   * shared words only, at their old weights; applying it again removes nothing.
   */
  lemma {:induction false} RetainSharedOnly(c1: Histogram, c2: Histogram)
    ensures (c1 - Exclusive(c1, c2)).Keys == c1.Keys * c2.Keys
    ensures (c2 - Exclusive(c1, c2)).Keys == c1.Keys * c2.Keys
    ensures Exclusive(c1 - Exclusive(c1, c2), c2 - Exclusive(c1, c2)) == {}
  {
    var x := Exclusive(c1, c2);
    assert (c1 - x).Keys == c1.Keys * c2.Keys;
    assert (c2 - x).Keys == c1.Keys * c2.Keys;
  }
}
