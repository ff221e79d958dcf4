/**
 * removeInfrequentWords: the weights are sorted from largest to smallest, the
 * sorted list is pruned by a loop that removes list elements while it walks
 * forward, and every word whose weight is no longer in the list is deleted.
 *
 * The pruning loop removes the element at index i and then still advances i,
 * so past the cutoff it removes every other element only: the list keeps its
 * first `limit` weights followed by the 2nd, 4th, 6th, ... of the remaining
 * ones. The model keeps that behaviour and proves what follows from it.
 */
module Infrequent {
  import opened Weights

  /** Sorted from largest to smallest. */
  predicate SortedDesc(s: seq<real>)
  {
    forall i, j :: 0 <= i < j < |s| ==> s[i] >= s[j]
  }

  /** Inserts `x` into a descending list, keeping it descending. */
  function InsertDesc(s: seq<real>, x: real): (r: seq<real>)
    requires SortedDesc(s)
    ensures |r| == |s| + 1
    ensures r[0] == x || (s != [] && r[0] == s[0])
    ensures SortedDesc(r)
    ensures multiset(r) == multiset(s) + multiset{x}
  {
    if s == [] || x >= s[0] then
      ConsSorted(x, s);
      [x] + s
    else
      SortedTail(s);
      var rest := InsertDesc(s[1..], x);
      InsertBehindHead(s, x, rest);
      [s[0]] + rest
  }

  /** The recursive case of InsertDesc: x goes behind a larger head. */
  lemma InsertBehindHead(s: seq<real>, x: real, rest: seq<real>)
    requires SortedDesc(s) && s != [] && x < s[0]
    requires SortedDesc(rest) && |rest| == |s|
    requires rest[0] == x || (|s| > 1 && rest[0] == s[1])
    requires multiset(rest) == multiset(s[1..]) + multiset{x}
    ensures SortedDesc([s[0]] + rest)
    ensures multiset([s[0]] + rest) == multiset(s) + multiset{x}
  {
    SortedTail(s);
    ConsSorted(s[0], rest);
  }

  lemma SortedTail(s: seq<real>)
    requires SortedDesc(s) && s != []
    ensures SortedDesc(s[1..]) && (|s| > 1 ==> s[1] <= s[0])
    ensures multiset(s) == multiset{s[0]} + multiset(s[1..])
  {
    assert s == [s[0]] + s[1..];
  }

  /** A descending list stays descending under a new first element at least as large as its head. */
  lemma ConsSorted(h: real, t: seq<real>)
    requires SortedDesc(t) && (t == [] || h >= t[0])
    ensures SortedDesc([h] + t)
  {
    var r := [h] + t;
    forall i, j | 0 <= i < j < |r| ensures r[i] >= r[j] {
      if i == 0 {
        assert r[j] == t[j - 1] <= t[0];
      } else {
        assert r[i] == t[i - 1] && r[j] == t[j - 1];
      }
    }
  }

  /** The weights of a histogram, largest first (what `Collections.sort(list, reverseOrder())` yields). */
  ghost function SortedValuesOf(m: Histogram): (l: seq<real>)
    ensures |l| == |m|
    ensures SortedDesc(l)
    ensures multiset(l) == ValueBag(m)
    decreases |m|
  {
    if m == map[] then []
    else
      var w := PickWord(m);
      assert |m - {w}| < |m| by { assert (m - {w}).Keys == m.Keys - {w}; }
      InsertDesc(SortedValuesOf(m - {w}), m[w])
  }

  /** A descending list is determined by its multiset of elements. */
  lemma {:induction false} SortedUnique(a: seq<real>, b: seq<real>)
    requires SortedDesc(a) && SortedDesc(b)
    requires multiset(a) == multiset(b)
    ensures a == b
    decreases |a|
  {
    if a != [] {
      assert a[0] in multiset(b);
      SortedHeadIsLargest(b, a[0]);
      assert b[0] in multiset(a);
      SortedHeadIsLargest(a, b[0]);
      assert a[0] == b[0];
      TailBag(a);
      TailBag(b);
      assert SortedDesc(a[1..]) && SortedDesc(b[1..]);
      SortedUnique(a[1..], b[1..]);
      assert a == [a[0]] + a[1..] && b == [b[0]] + b[1..];
    }
  }

  /** Every element of a descending list is at most its first element. */
  lemma SortedHeadIsLargest(a: seq<real>, x: real)
    requires SortedDesc(a) && x in multiset(a)
    ensures a != [] && x <= a[0]
  {
    var i :| 0 <= i < |a| && a[i] == x;
  }

  lemma TailBag(a: seq<real>)
    requires a != []
    ensures multiset(a[1..]) == multiset(a) - multiset{a[0]}
  {
    assert a == [a[0]] + a[1..];
  }

  /** The first two lines of removeInfrequentWords: all weights, sorted largest first. */
  method SortedValues(c: Histogram) returns (list: seq<real>)
    ensures list == SortedValuesOf(c)
  {
    list := [];
    var rest := c.Keys;
    assert Restrict(c, rest) == c;
    while rest != {}
      invariant rest <= c.Keys
      invariant SortedDesc(list)
      invariant multiset(list) + ValueBag(Restrict(c, rest)) == ValueBag(c)
      decreases rest
    {
      var w :| w in rest;
      SortedValuesStep(c, rest, w, list);
      list := InsertDesc(list, c[w]);
      rest := rest - {w};
    }
    SortedValuesDone(c, rest, list);
  }

  lemma SortedValuesStep(c: Histogram, rest: set<string>, w: string, list: seq<real>)
    requires w in rest && rest <= c.Keys && SortedDesc(list)
    requires multiset(list) + ValueBag(Restrict(c, rest)) == ValueBag(c)
    ensures multiset(InsertDesc(list, c[w])) + ValueBag(Restrict(c, rest - {w})) == ValueBag(c)
  {
    ValueBagRestrictStep(c, rest, w);
  }

  lemma SortedValuesDone(c: Histogram, rest: set<string>, list: seq<real>)
    requires rest == {} && SortedDesc(list)
    requires multiset(list) + ValueBag(Restrict(c, rest)) == ValueBag(c)
    ensures list == SortedValuesOf(c)
  {
    assert Restrict(c, rest) == map[];
    SortedUnique(list, SortedValuesOf(c));
  }

  /** The elements at odd positions: t[1], t[3], t[5], ... */
  function KeepOdd(t: seq<real>): (r: seq<real>)
    ensures |r| == |t| / 2
    ensures forall i :: 0 <= i < |r| ==> r[i] == t[2 * i + 1]
  {
    if |t| < 2 then [] else [t[1]] + KeepOdd(t[2..])
  }

  /** The index from which the pruning loop starts removing: the limit, within 0 and the list length. */
  function Cutoff(l: seq<real>, limit: int): (k: nat)
    ensures k <= |l|
    ensures k == |l| || k == 0 || k == limit
  {
    if limit <= 0 then 0 else if limit >= |l| then |l| else limit
  }

  /**
   * What the pruning loop leaves of a list: its first `limit` elements, then
   * every second element of the rest, starting with the second.
   */
  function Pruned(l: seq<real>, limit: int): (p: seq<real>)
    ensures |p| == Cutoff(l, limit) + (|l| - Cutoff(l, limit)) / 2
    ensures p[..Cutoff(l, limit)] == l[..Cutoff(l, limit)]
  {
    var k := Cutoff(l, limit);
    l[..k] + KeepOdd(l[k..])
  }

  /** Every element of the pruned list comes from the list, at a position below the cutoff or an odd distance past it. */
  lemma PrunedFrom(l: seq<real>, limit: int, i: nat)
    requires i < |Pruned(l, limit)|
    ensures var k := Cutoff(l, limit);
      Pruned(l, limit)[i] == if i < k then l[i] else l[k + 2 * (i - k) + 1]
  {
  }

  /** An even-length prefix followed by two more elements keeps the second of them. */
  lemma KeepOddPair(t: seq<real>, a: real, b: real)
    requires |t| % 2 == 0
    ensures KeepOdd(t + [a, b]) == KeepOdd(t) + [b]
  {
    var u := t + [a, b];
    var r, s := KeepOdd(u), KeepOdd(t) + [b];
    var h := |t| / 2;
    assert |t| == 2 * h;
    assert |r| == h + 1 == |s|;
    forall i | 0 <= i < |r| ensures r[i] == s[i] {
      if i < h {
        assert u[2 * i + 1] == t[2 * i + 1];
      } else {
        assert 2 * i + 1 == |t| + 1;
        assert u[2 * i + 1] == b;
      }
    }
  }

  /** An even-length prefix followed by one more element keeps none of it. */
  lemma KeepOddSingle(t: seq<real>, a: real)
    requires |t| % 2 == 0
    ensures KeepOdd(t + [a]) == KeepOdd(t)
  {
    var r, s := KeepOdd(t + [a]), KeepOdd(t);
    assert |r| == |s|;
    forall i | 0 <= i < |r| ensures r[i] == s[i] {
      assert (t + [a])[2 * i + 1] == t[2 * i + 1];
    }
  }

  /**
   * One removal of the pruning loop: with p elements of l consumed, the
   * element at the loop index is l[p], and removing it consumes l[p] and, if
   * there is one, keeps l[p + 1].
   */
  lemma PruneStep(l: seq<real>, k: nat, p: nat)
    requires k <= p < |l| && (p - k) % 2 == 0
    ensures var list := l[..k] + KeepOdd(l[k..p]) + l[p..];
      var i := k + (p - k) / 2;
      var next := if p + 2 <= |l| then p + 2 else p + 1;
      && i < |list| && list[i] == l[p]
      && list[..i] + list[i + 1..] == l[..k] + KeepOdd(l[k..next]) + l[next..]
  {
    var front := l[..k] + KeepOdd(l[k..p]);
    var list := front + l[p..];
    var i := k + (p - k) / 2;
    assert |front| == i;
    assert list[..i] == front;
    assert list[i + 1..] == l[p + 1..];
    if p + 2 <= |l| {
      PruneStepPair(l, k, p);
    } else {
      PruneStepLast(l, k, p);
    }
  }

  lemma PruneStepPair(l: seq<real>, k: nat, p: nat)
    requires k <= p && p + 2 <= |l| && (p - k) % 2 == 0
    ensures l[..k] + KeepOdd(l[k..p]) + l[p + 1..] == l[..k] + KeepOdd(l[k..p + 2]) + l[p + 2..]
  {
    KeepOddPair(l[k..p], l[p], l[p + 1]);
    assert l[k..p + 2] == l[k..p] + [l[p], l[p + 1]];
    assert l[p + 1..] == [l[p + 1]] + l[p + 2..];
  }

  lemma PruneStepLast(l: seq<real>, k: nat, p: nat)
    requires k <= p && p + 1 == |l| && (p - k) % 2 == 0
    ensures l[..k] + KeepOdd(l[k..p]) + l[p + 1..] == l[..k] + KeepOdd(l[k..p + 1]) + l[p + 1..]
  {
    KeepOddSingle(l[k..p], l[p]);
    assert l[k..p + 1] == l[k..p] + [l[p]];
  }

  /**
   * The state of the pruning loop after its index reached i: k is the
   * cutoff, and the first p elements of l are consumed, the kept ones among
   * them making up list[..i].
   */
  ghost predicate Pruning(l: seq<real>, limit: int, k: nat, p: nat, i: nat, list: seq<real>)
  {
    && k == Cutoff(l, limit) && k <= p <= |l|
    && (i < k ==> list == l && p == k)
    && (i >= k ==> i == k + (p - k + 1) / 2)
    && list == l[..k] + KeepOdd(l[k..p]) + l[p..]
    && ((p - k) % 2 == 0 || p == |l|)
  }

  lemma PruningStart(l: seq<real>, limit: int)
    ensures Pruning(l, limit, Cutoff(l, limit), Cutoff(l, limit), 0, l)
  {
    var k := Cutoff(l, limit);
    assert l == l[..k] + KeepOdd(l[k..k]) + l[k..];
  }

  /** An index past limit - 1: the element there is removed. */
  lemma PruningRemove(l: seq<real>, limit: int, k: nat, p: nat, i: nat, list: seq<real>)
    requires Pruning(l, limit, k, p, i, list) && i < |list| && i > limit - 1
    ensures var next := if p + 2 <= |l| then p + 2 else p + 1;
      Pruning(l, limit, k, next, i + 1, list[..i] + list[i + 1..])
  {
    assert i >= k && p < |l| && (p - k) % 2 == 0;
    var next := if p + 2 <= |l| then p + 2 else p + 1;
    PruneStep(l, k, p);
    assert list[..i] + list[i + 1..] == l[..k] + KeepOdd(l[k..next]) + l[next..];
    PruneCount(k, p, next, |l|);
  }

  /** The index arithmetic of one removal: two more elements consumed, or the last one. */
  lemma PruneCount(k: nat, p: nat, next: nat, n: nat)
    requires k <= p < n && (p - k) % 2 == 0
    requires next == if p + 2 <= n then p + 2 else p + 1
    ensures k + (p - k) / 2 + 1 == k + (next - k + 1) / 2
    ensures (next - k) % 2 == 0 || next == n
  {
  }

  /** An index up to limit - 1: nothing is removed. */
  lemma PruningKeep(l: seq<real>, limit: int, k: nat, p: nat, i: nat, list: seq<real>)
    requires Pruning(l, limit, k, p, i, list) && i < |list| && i <= limit - 1
    ensures Pruning(l, limit, k, p, i + 1, list)
  {
    assert i < k;
  }

  /** The loop index reaches the end of the list only once all of l is consumed. */
  lemma PruningDone(l: seq<real>, limit: int, k: nat, p: nat, i: nat, list: seq<real>)
    requires Pruning(l, limit, k, p, i, list) && i >= |list|
    ensures list == Pruned(l, limit)
  {
    if i < k {
      assert false;
    }
    assert p == |l|;
  }

  /**
   * The pruning loop of removeInfrequentWords: `list.remove(i)` for every
   * index past `limit - 1`, inside a loop that still increments i.
   */
  method PruneList(l: seq<real>, limit: int) returns (list: seq<real>)
    ensures list == Pruned(l, limit)
  {
    list := l;
    var i := 0;
    ghost var k: nat := Cutoff(l, limit);
    ghost var p: nat := k;   // how much of l the loop has consumed
    PruningStart(l, limit);
    while i < |list|
      invariant 0 <= i && Pruning(l, limit, k, p, i, list)
      decreases |list| - i
    {
      if i > limit - 1 {
        PruningRemove(l, limit, k, p, i, list);
        list := list[..i] + list[i + 1..];
        p := if p + 2 <= |l| then p + 2 else p + 1;
      } else {
        PruningKeep(l, limit, k, p, i, list);
      }
      i := i + 1;
    }
    PruningDone(l, limit, k, p, i, list);
  }

  /** The words whose weight occurs in `kept`, at their weights. */
  function KeepWeights(c: Histogram, kept: seq<real>): (r: Histogram)
    ensures forall w :: w in r <==> w in c && c[w] in kept
    ensures forall w :: w in r ==> r[w] == c[w]
  {
    map w | w in c && c[w] in kept :: c[w]
  }

  /** The histogram left by removeInfrequentWords: the words whose weight is still in the pruned list. */
  ghost function InfrequentRemoved(c: Histogram, limit: int): (r: Histogram)
  {
    KeepWeights(c, Pruned(SortedValuesOf(c), limit))
  }

  /** removeInfrequentWords: sort, prune, then delete every entry whose weight is not in the pruned list. */
  method RemoveInfrequentWords(c: Histogram, limitNumWords: int) returns (r: Histogram)
    ensures r == InfrequentRemoved(c, limitNumWords)
  {
    var sorted := SortedValues(c);
    var list := PruneList(sorted, limitNumWords);
    r := c;
    var rest := c.Keys;
    while rest != {}
      invariant rest <= c.Keys
      invariant forall w :: w in r <==> w in c && (w in rest || c[w] in list)
      invariant forall w :: w in r ==> r[w] == c[w]
      decreases rest
    {
      var w :| w in rest;
      if c[w] !in list {
        r := r - {w};
      }
      rest := rest - {w};
    }
  }

  /** The filter only deletes words: no word is added and no weight changes. */
  lemma InfrequentOnlyDeletes(c: Histogram, limit: int)
    ensures InfrequentRemoved(c, limit).Keys <= c.Keys
    ensures forall w :: w in InfrequentRemoved(c, limit) ==> InfrequentRemoved(c, limit)[w] == c[w]
    ensures Positive(c) ==> Positive(InfrequentRemoved(c, limit))
  {
  }

  /**
   * Every word at least as heavy as the limit-th largest weight survives,
   * so all words tied at the cutoff survive, possibly more than `limit` of them.
   */
  lemma TopWordsSurvive(c: Histogram, limit: int, w: string)
    requires w in c && 0 < limit <= |c|
    requires c[w] >= SortedValuesOf(c)[limit - 1]
    ensures w in InfrequentRemoved(c, limit)
  {
    WeightInSorted(c, w);
    HeavyValueKept(SortedValuesOf(c), limit, c[w]);
  }

  /** In a descending list, a value at least as large as the limit-th element survives pruning. */
  lemma HeavyValueKept(l: seq<real>, limit: int, v: real)
    requires SortedDesc(l) && 0 < limit <= |l|
    requires v in l && v >= l[limit - 1]
    ensures v in Pruned(l, limit)
  {
    var j :| 0 <= j < |l| && l[j] == v;
    var p := Pruned(l, limit);
    assert Cutoff(l, limit) == limit;
    var i := if j < limit then j else limit - 1;
    assert l[i] == v;
    assert p[..limit][i] == l[..limit][i];
  }

  /** A histogram with at most `limit` words is left unchanged. */
  lemma SmallHistogramUnchanged(c: Histogram, limit: int)
    requires |c| <= limit
    ensures InfrequentRemoved(c, limit) == c
  {
    var l := SortedValuesOf(c);
    PrunedWhole(l, limit);
    forall w | w in c ensures c[w] in l {
      WeightInSorted(c, w);
    }
  }

  /** Every word's weight appears in the sorted weights. */
  lemma WeightInSorted(c: Histogram, w: string)
    requires w in c
    ensures c[w] in SortedValuesOf(c)
  {
    ValueBagSize(c);
    assert c[w] in multiset(SortedValuesOf(c));
  }

  /** A list no longer than the limit is not pruned at all. */
  lemma PrunedWhole(l: seq<real>, limit: int)
    requires |l| <= limit
    ensures Pruned(l, limit) == l
  {
    assert Cutoff(l, limit) == |l|;
    assert l[..|l|] == l && l[|l|..] == [];
  }

  /** Strictly descending: no two equal weights. */
  predicate StrictlyDesc(s: seq<real>)
  {
    forall i, j :: 0 <= i < j < |s| ==> s[i] > s[j]
  }

  /**
   * With distinct weights the pruning loop removes the weight ranked just
   * past the cutoff and keeps the smaller one after it.
   */
  lemma PruneSkipsRank(l: seq<real>, limit: int)
    requires StrictlyDesc(l) && 0 <= limit && limit + 2 <= |l|
    ensures l[limit] !in Pruned(l, limit)
    ensures l[limit + 1] in Pruned(l, limit)
  {
    var p := Pruned(l, limit);
    var k := Cutoff(l, limit);
    assert k == limit;
    PrunedFrom(l, limit, k);
    forall i | 0 <= i < |p| ensures p[i] != l[limit] {
      PrunedFrom(l, limit, i);
    }
  }

  /** No two words have the same weight. */
  predicate DistinctWeights(c: Histogram)
  {
    forall a, b :: a in c && b in c && a != b ==> c[a] != c[b]
  }

  /** Every element of the multiset of weights is the weight of some word. */
  lemma {:induction false} ValueBagMember(m: Histogram, v: real)
    requires v in ValueBag(m)
    ensures exists w :: w in m && m[w] == v
    decreases |m|
  {
    var u := PickWord(m);
    assert (m - {u}).Keys == m.Keys - {u};
    if m[u] != v {
      ValueBagMember(m - {u}, v);
      var w :| w in m - {u} && (m - {u})[w] == v;
      assert w in m && m[w] == v;
    }
  }

  /** With distinct weights, every weight occurs once in the multiset of weights. */
  lemma {:induction false} DistinctValueBag(m: Histogram, v: real)
    requires DistinctWeights(m)
    ensures ValueBag(m)[v] <= 1
    decreases |m|
  {
    if m != map[] {
      var u := PickWord(m);
      var rest := m - {u};
      assert rest.Keys == m.Keys - {u};
      DistinctValueBag(rest, v);
      if v == m[u] && ValueBag(rest)[v] > 0 {
        ValueBagMember(rest, v);
        assert false;
      }
    }
  }

  /** With distinct weights, the sorted weights are strictly descending. */
  lemma SortedDistinctStrict(c: Histogram)
    requires DistinctWeights(c)
    ensures StrictlyDesc(SortedValuesOf(c))
  {
    var l := SortedValuesOf(c);
    forall i, j | 0 <= i < j < |l| ensures l[i] > l[j] {
      DistinctValueBag(c, l[i]);
      assert multiset(l)[l[i]] <= 1;
      if l[i] == l[j] {
        RepeatedTwice(l, i, j);
        assert false;
      }
    }
  }

  /** A value found at two positions occurs at least twice in the multiset. */
  lemma RepeatedTwice(l: seq<real>, i: nat, j: nat)
    requires i < j < |l| && l[i] == l[j]
    ensures multiset(l)[l[i]] >= 2
  {
    assert l == l[..j] + l[j..];
    assert l[..j][i] == l[i];
    assert l[j..][0] == l[j];
    assert multiset(l) == multiset(l[..j]) + multiset(l[j..]);
  }

  /**
   * The filter does not keep "the limit most common words": with distinct
   * weights and at least limit + 2 words, some word is deleted while a word
   * of smaller weight is kept.
   */
  lemma InfrequentDropsHeavierWord(c: Histogram, limit: int)
    requires DistinctWeights(c) && 0 <= limit && limit + 2 <= |c|
    ensures exists a, b :: (a in c && b in c && c[a] > c[b]
                            && a !in InfrequentRemoved(c, limit) && b in InfrequentRemoved(c, limit))
  {
    var l := SortedValuesOf(c);
    ValueBagSize(c);
    assert |l| == |c|;
    SortedDistinctStrict(c);
    PruneSkipsRank(l, limit);
    assert l[limit] in multiset(l) && l[limit + 1] in multiset(l);
    ValueBagMember(c, l[limit]);
    ValueBagMember(c, l[limit + 1]);
    var a :| a in c && c[a] == l[limit];
    var b :| b in c && c[b] == l[limit + 1];
    assert a !in InfrequentRemoved(c, limit) && b in InfrequentRemoved(c, limit);
  }

  /** Every element divided by t. */
  function DivideAll(l: seq<real>, t: real): (d: seq<real>)
    requires t != 0.0
    ensures |d| == |l|
    ensures forall i :: 0 <= i < |l| ==> d[i] == l[i] / t
  {
    seq(|l|, i requires 0 <= i < |l| => l[i] / t)
  }

  /** Division by a positive number keeps order and equality. */
  lemma DivideMonotone(a: real, b: real, t: real)
    requires t > 0.0
    ensures a >= b <==> a / t >= b / t
    ensures a == b <==> a / t == b / t
  {
    assert (a / t) * t == a && (b / t) * t == b;
    if a / t >= b / t {
      MultiplyMonotone(a / t, b / t, t);
    }
  }

  lemma MultiplyMonotone(x: real, y: real, t: real)
    requires t > 0.0 && x >= y
    ensures x * t >= y * t
  {
  }

  lemma DivideAllSorted(l: seq<real>, t: real)
    requires t > 0.0 && SortedDesc(l)
    ensures SortedDesc(DivideAll(l, t))
  {
    var d := DivideAll(l, t);
    forall i, j | 0 <= i < j < |d| ensures d[i] >= d[j] {
      DivideMonotone(l[i], l[j], t);
    }
  }

  /** Dividing a list of a histogram's weights gives a list of the scaled histogram's weights. */
  lemma {:induction false} DivideAllBag(m: Histogram, l: seq<real>, t: real)
    requires t != 0.0 && multiset(l) == ValueBag(m)
    ensures multiset(DivideAll(l, t)) == ValueBag(Scale(m, t))
    decreases |m|
  {
    if m == map[] {
      assert |multiset(l)| == 0;
      assert Scale(m, t) == map[];
    } else {
      var w := PickWord(m);
      ScaleRemove(m, t, w);
      var j := FindWeight(m, l, w);
      DivideAllBag(m - {w}, l[..j] + l[j + 1..], t);
      DivideAllBagStep(m, l, t, w, j);
    }
  }

  /** Where a word's weight sits in a list of the weights; the rest of the list holds the other weights. */
  lemma FindWeight(m: Histogram, l: seq<real>, w: string) returns (j: nat)
    requires w in m && multiset(l) == ValueBag(m)
    ensures j < |l| && l[j] == m[w]
    ensures multiset(l[..j] + l[j + 1..]) == ValueBag(m - {w})
  {
    ValueBagRemove(m, w);
    assert m[w] in multiset(l);
    j :| 0 <= j < |l| && l[j] == m[w];
    SplitAt(l, j);
    assert multiset(l[..j] + l[j + 1..]) == multiset(l) - multiset{m[w]};
    assert ValueBag(m - {w}) == ValueBag(m) - multiset{m[w]};
  }

  lemma DivideAllBagStep(m: Histogram, l: seq<real>, t: real, w: string, j: nat)
    requires t != 0.0 && w in m && j < |l| && l[j] == m[w]
    requires multiset(DivideAll(l[..j] + l[j + 1..], t)) == ValueBag(Scale(m - {w}, t))
    ensures multiset(DivideAll(l, t)) == ValueBag(Scale(m, t))
  {
    var d := DivideAll(l, t);
    ScaleRemove(m, t, w);
    DivideAllRemove(l, j, t);
    SplitAt(d, j);
    ValueBagRemove(Scale(m, t), w);
  }

  lemma DivideAllRemove(l: seq<real>, j: nat, t: real)
    requires t != 0.0 && j < |l|
    ensures DivideAll(l[..j] + l[j + 1..], t) == DivideAll(l, t)[..j] + DivideAll(l, t)[j + 1..]
  {
    var a, b := DivideAll(l[..j] + l[j + 1..], t), DivideAll(l, t)[..j] + DivideAll(l, t)[j + 1..];
    assert |a| == |b|;
    forall i | 0 <= i < |a| ensures a[i] == b[i] {
      if i < j {
        assert (l[..j] + l[j + 1..])[i] == l[i];
      } else {
        assert (l[..j] + l[j + 1..])[i] == l[i + 1];
      }
    }
  }

  lemma SplitAt(l: seq<real>, j: nat)
    requires j < |l|
    ensures multiset(l) == multiset(l[..j] + l[j + 1..]) + multiset{l[j]}
  {
    assert l == l[..j] + [l[j]] + l[j + 1..];
  }

  /** The sorted weights of a scaled histogram are the sorted weights, scaled. */
  lemma SortedValuesScaled(m: Histogram, t: real)
    requires t > 0.0
    ensures SortedValuesOf(Scale(m, t)) == DivideAll(SortedValuesOf(m), t)
  {
    var l := SortedValuesOf(m);
    DivideAllSorted(l, t);
    DivideAllBag(m, l, t);
    SortedUnique(SortedValuesOf(Scale(m, t)), DivideAll(l, t));
  }

  /** Pruning commutes with dividing every element: pruning only looks at positions. */
  lemma PrunedScaled(l: seq<real>, limit: int, t: real)
    requires t != 0.0
    ensures Pruned(DivideAll(l, t), limit) == DivideAll(Pruned(l, limit), t)
  {
    var d := DivideAll(l, t);
    var a, b := Pruned(d, limit), DivideAll(Pruned(l, limit), t);
    assert Cutoff(d, limit) == Cutoff(l, limit);
    forall i | 0 <= i < |a| ensures a[i] == b[i] {
      PrunedFrom(d, limit, i);
      PrunedFrom(l, limit, i);
    }
  }

  /**
   * The filter keeps the same words, at the same (scaled) weights, whether
   * the weights are raw counts or the counts divided by a positive total:
   * the words it removes do not depend on the scale of the weights.
   */
  lemma InfrequentScaled(m: Histogram, limit: int, t: real)
    requires t > 0.0
    ensures InfrequentRemoved(Scale(m, t), limit) == Scale(InfrequentRemoved(m, limit), t)
  {
    var l := SortedValuesOf(m);
    SortedValuesScaled(m, t);
    PrunedScaled(l, limit, t);
    KeepScaled(m, Pruned(l, limit), t);
  }

  /** Keeping the words whose scaled weight is in the scaled list is scaling the words kept. */
  lemma KeepScaled(m: Histogram, p: seq<real>, t: real)
    requires t > 0.0
    ensures KeepWeights(Scale(m, t), DivideAll(p, t)) == Scale(KeepWeights(m, p), t)
  {
    var a, b := KeepWeights(Scale(m, t), DivideAll(p, t)), Scale(KeepWeights(m, p), t);
    forall w | w in m ensures w in a <==> w in b {
      KeptIffScaled(p, m[w], t);
    }
    assert a.Keys == b.Keys;
  }

  /** A weight is in the divided list exactly when the undivided weight is in the list. */
  lemma KeptIffScaled(p: seq<real>, v: real, t: real)
    requires t > 0.0
    ensures v / t in DivideAll(p, t) <==> v in p
  {
    var d := DivideAll(p, t);
    if v / t in d {
      var i :| 0 <= i < |p| && d[i] == v / t;
      DivideMonotone(p[i], v, t);
    }
    if v in p {
      var i :| 0 <= i < |p| && p[i] == v;
      assert d[i] == v / t;
    }
  }
}
