# WordCloud in Dafny

A model of the word-cloud program in `WordCloud.java`. The program reads two
documents and counts each document's words into a histogram (word -> count,
held as doubles). It then lets the user shrink both histograms with three
buttons:

- remove standard common words (a stopword list);
- remove infrequent words (a limit that halves after every press);
- remove un-shared words (words found in only one document).

Every display normalises both histograms in place, so each non-empty one sums
to 1 (an empty one stays empty). It then draws every word of either document.
A shared word is drawn black, its x position given by its share of the
combined weight. A word found only in the second document is drawn red, just
right of x = 500. A word found only in the first document is drawn blue, at
500 times its weight.

Modules, each in its own file:

- `Weights` (`weights.dfy`): the `Histogram` type, the sum of its weights (`Total`) and the multiset of its weights (`ValueBag`). Both are order-independent, so the result does not depend on the order a HashMap is iterated in.
- `Counting` (`counting.dfy`): the counting loop of `buildHistogram`.
- `Normalise` (`normalise.dfy`): `normaliseCounts`.
- `Filters` (`filters.dfy`): `removeWords`, the stopword set, the un-shared word set.
- `Infrequent` (`infrequent.dfy`): `removeInfrequentWords`, its sort and its pruning loop.
- `Layout` (`layout.dfy`): `findAllWords` and the per-word branches of `displayWords`.
- `Session` (`session.dfy`): the `WordCloud` class, with fields `numWordsToRemove`, `counts1` and `counts2`, its constructor, `displayWords` and `buttonPerformed`.

Java `Map`s are Dafny `map` values. A Java method that mutates a map parameter
becomes a method with the same loop that returns the new map. The one step
without a loop of its own is the library sort of `removeInfrequentWords`
(`WordCloud.java:150-152`): `Infrequent.SortedValues` stands in for it with an
insertion loop, and `Infrequent.SortedUnique` shows that any descending sort of
the same values gives the same list. The `WordCloud`
object then assigns the result to its field, as the Java method changed the
field's map in place. A `null` map (a document that could not be read) is
`None`.

Behaviours of the code worth knowing:

- Every display normalises the live histograms in place (`WordCloud.java:108-110`), so each filter works on fractions rather than raw counts. `Session.PressAfterNormalise` shows that this changes nothing in what is displayed. For every button, normalising the filtered fractions gives the same histograms as normalising the filtered raw counts. The infrequent filter needs `Infrequent.InfrequentScaled`, because the words it deletes depend on the weights: dividing every weight by the same positive number does not change them.
- `removeInfrequentWords` keeps the `limit` heaviest words plus ties (`TopWordsSurvive`), and, when the weights are distinct and there are at least `limit` + 2 words, also some lighter word while deleting the next-heaviest (`InfrequentDropsHeavierWord`). With tied weights the next-heaviest words can survive too. It keeps the first `limit` sorted weights, then every second weight of the rest, because `list.remove(i)` sits inside a loop that still increments `i` (`WordCloud.java:154-158`). Its doc comment (`WordCloud.java:144-146`) says it keeps only the `limit` most common words.
- The font size is computed with the `(int)` cast, which truncates toward zero (`WordCloud.java:115`).
- The limit is halved by integer division and reaches 0 after enough presses (`WordCloud.java:231`). From then on a press keeps only the words whose weight is among every second weight of the sorted list, starting with the second.
- `normaliseCounts` divides by the total without checking it for zero (`WordCloud.java:174-182`). The model requires positive weights instead; see "Left out".
- The doc comment on `displayWords` (`WordCloud.java:91-96`) says x is essentially random and y reflects the balance between the documents. The code puts the share in x and makes y random (`WordCloud.java:117`).

## Model

| member | source | states |
|---|---|---|
| Counting.BuildHistogram | WordCloud.java:56-65 | the counting loop yields `HistogramOf(tokens)`: every token is a key; a non-empty word maps to its number of occurrences; the empty token maps to 1 |
| Counting.HistogramKeys | WordCloud.java:58-64 | the keys are exactly the tokens read, every count is at least 1 (so all weights are positive), and no tokens give an empty histogram |
| Counting.HistogramTotal | WordCloud.java:58-64 | the counts add up to the number of tokens, except that all empty tokens together count 1 (if there is one) |
| Counting.HistogramTotalNoEmpty | WordCloud.java:58-64 | with no empty token the counts add up to the number of tokens |
| Counting.HistogramStep | WordCloud.java:59-64 | one pass of the loop: a known non-empty word is incremented, anything else is set to 1, nothing else changes |
| Weights.TotalRemove | WordCloud.java:175-176 | the total of the weights can be accumulated starting from any word: iteration order does not matter |
| Weights.ValueBagSize | WordCloud.java:150-151 | the list of values has one entry per word and contains every word's weight |
| Weights.TotalScale | WordCloud.java:179-182 | dividing every weight by t divides the total by t |
| Normalise.Normalised | WordCloud.java:171-183 | normalisation keeps the same words and keeps weights positive |
| Normalise.NormaliseCounts | WordCloud.java:171-183 | the two loops (sum, then divide each weight by the sum) yield `Normalised(counts)` |
| Normalise.NormalisedSumsToOne | WordCloud.java:168-183 | a non-empty normalised histogram sums to 1 |
| Normalise.NormalisedIdempotent | WordCloud.java:108-110 | normalising an already normalised histogram changes nothing, so a redisplay without filtering leaves it as it is |
| Normalise.NormalisedKeepsRatios | WordCloud.java:179-182 | the ratio of any two words' weights is unchanged |
| Normalise.RenormaliseAfterRemoval | WordCloud.java:108-110 | removing words from a normalised histogram and normalising again equals normalising the raw counts after the same removal |
| Normalise.NormalisedIgnoresScale | WordCloud.java:179-182 | dividing every weight by the same positive number keeps weights positive and does not change the normalised histogram |
| Filters.RemoveWords | WordCloud.java:136-142 | the result holds exactly the words not listed, each at its old weight; listed words that are absent are ignored |
| Filters.RemovePreservesPositive | WordCloud.java:136-142 | removal keeps only old weights, so positive weights stay positive and no word is added |
| Filters.ToLower | WordCloud.java:212 | same length; no upper-case letter is left; upper-case letters map to their lower-case partners; everything else is unchanged |
| Filters.Trim | WordCloud.java:212 | the result is a contiguous slice of the input; every character cut off is at or below the space character; the result is empty or starts and ends above it |
| Filters.Canonical | WordCloud.java:212 | a stopword token as stored has no upper-case letter and no blank at either end |
| Filters.ReadStopwords | WordCloud.java:209-214 | the loop over the stopword tokens yields the set of their lower-cased, trimmed forms |
| Filters.StopwordSetStep | WordCloud.java:211-213 | reading one more stopword token adds exactly its canonical form to the set |
| Filters.StopwordsNormalised | WordCloud.java:212-213 | every member of the stopword set is lower-case and trimmed |
| Filters.Exclusive | WordCloud.java:236-240 | a word is in the un-shared set if and only if it is in exactly one of the two histograms |
| Filters.UnsharedWords | WordCloud.java:236-240 | the two loops collect exactly `Exclusive(c1, c2)` |
| Filters.RetainSharedOnly | WordCloud.java:234-245 | after removing the un-shared words both histograms have exactly the shared words, and a second un-shared set is empty |
| Infrequent.InsertDesc | WordCloud.java:152 | insertion into a descending list gives a descending list with the same elements plus the new one |
| Infrequent.SortedValuesOf | WordCloud.java:150-152 | the values of a histogram, one per word, sorted largest first, as a permutation of the values |
| Infrequent.SortedUnique | WordCloud.java:152 | two descending lists with the same elements are equal, so the sorted list is uniquely determined |
| Infrequent.SortedValues | WordCloud.java:150-152 | copying the values and sorting them in reverse order yields `SortedValuesOf(c)` |
| Infrequent.Pruned | WordCloud.java:154-158 | the pruned list keeps the first `limit` elements unchanged, and half (rounded down) of the rest |
| Infrequent.PrunedFrom | WordCloud.java:154-158 | every element of the pruned list is an element before the cutoff, or one an odd distance after it |
| Infrequent.PruneList | WordCloud.java:154-158 | the loop that calls `list.remove(i)` and still increments `i` yields `Pruned(l, limit)` |
| Infrequent.PrunedWhole | WordCloud.java:154-158 | a list no longer than the limit is left unchanged |
| Infrequent.PruneSkipsRank | WordCloud.java:154-158 | with distinct values, the value ranked just after the cutoff is removed and the one after it is kept |
| Infrequent.RemoveInfrequentWords | WordCloud.java:149-166 | the method yields `InfrequentRemoved(c, limit)`: the words whose weight is still in the pruned list, at their old weights |
| Infrequent.KeepWeights | WordCloud.java:160-165 | a word survives if and only if its weight is in the kept list, and survivors keep their weights |
| Infrequent.SortedValuesScaled | WordCloud.java:150-152 | dividing every weight by a positive number divides every element of the sorted value list by it |
| Infrequent.PrunedScaled | WordCloud.java:154-158 | the pruning loop commutes with dividing every element by the same number |
| Infrequent.InfrequentScaled | WordCloud.java:149-166 | filtering after every weight is divided by a positive number gives the filtered raw histogram, divided by the same number: the same words are deleted |
| Infrequent.InfrequentOnlyDeletes | WordCloud.java:160-165 | no word is added, no weight changes, positive weights stay positive |
| Infrequent.TopWordsSurvive | WordCloud.java:149-166 | every word at least as heavy as the limit-th largest weight survives, including every word tied at the cutoff |
| Infrequent.SmallHistogramUnchanged | WordCloud.java:149-166 | a histogram with at most `limit` words is left unchanged |
| Infrequent.SortedDistinctStrict | WordCloud.java:150-152 | with distinct weights the sorted values are strictly descending |
| Infrequent.InfrequentDropsHeavierWord | WordCloud.java:144-166 | the method does not keep "the limit most common words": with distinct weights and at least limit + 2 words, some word is deleted while a lighter word is kept |
| Layout.Truncate | WordCloud.java:115 | the `(int)` cast rounds toward zero: the result lies within 1 of the input, on the zero side |
| Layout.FindAllWords | WordCloud.java:80-87 | a word is in the result if and only if it is in either histogram |
| Layout.AllWordsPartition | WordCloud.java:113-126 | the words of either document are the shared words plus the un-shared words, and no word is both, so each word takes exactly one branch |
| Layout.Place | WordCloud.java:114-125 | the branch taken matches membership in each histogram; with non-negative weights the font size is at least 10 and a shared word's x lies in [0, 500] |
| Layout.PlacementSides | WordCloud.java:114-125 | a shared word with equal weights is at x = 250, and right of it when heavier in the first document; a second-document-only word is at x ≥ 500; a first-document-only word of weight ≤ 1 is in [0, 500] |
| Layout.SharedExample | WordCloud.java:115-117 | "cat" at weight 0.5 in both documents is drawn black at font size 1010, x = 250 |
| Layout.PositiveSharedSums | WordCloud.java:117 | with positive weights every shared word's x-position division is defined |
| Layout.LayoutWords | WordCloud.java:113-127 | every word of either histogram is drawn exactly once, as `Place` describes, and nothing else is drawn |
| Session.NextLimit | WordCloud.java:231 | only the infrequent-word press changes the limit, halving it with Java's truncation toward zero; from a non-negative limit it never goes negative or grows, stays 0 once it is 0, and strictly shrinks while positive |
| Session.FilterOnlyDeletes | WordCloud.java:200-245 | no button adds a word or changes a surviving weight, positive weights stay positive, and an unknown button changes nothing |
| Session.StopwordActionRemoves | WordCloud.java:209-219 | the common-words button removes from each histogram exactly the words equal to some canonical stopword |
| Session.UnsharedPressTwice | WordCloud.java:234-251 | a second un-shared press with its redisplay leaves both normalised histograms exactly as they were |
| Session.ApplyFilter | WordCloud.java:202-245 | the filter step of each button yields `Filtered(...)` on both histograms; the un-shared set is computed before either histogram changes |
| Session.Filtered | WordCloud.java:200-245 | no button adds a word to either histogram, and positive weights stay positive |
| Session.PressAfterNormalise | WordCloud.java:108-110 | for every button, filtering the normalised histograms and normalising again gives the same result as filtering the raw counts and normalising |
| Session.WordCloud.constructor | WordCloud.java:15-39 | the limit starts at 100; each readable document gets its histogram; when both are present both are normalised |
| Session.WordCloud.DisplayWords | WordCloud.java:104-130 | with a histogram missing nothing changes and nothing is drawn; otherwise both are replaced by their normalised forms and every word is drawn once |
| Session.WordCloud.ButtonPerformed | WordCloud.java:200-252 | both histograms become the normalised result of the pressed button's filter; the limit is halved after the infrequent action only; no word is added; every remaining word is drawn once |

## Left out

- File and console I/O are not modelled. Reading a document, the Scanner's splitting on `[^-a-zA-Z']` and `UIFileChooser` are outside the model. A document arrives as its token sequence, or `None` when it could not be read.
- The stopword resource `some-common-words.txt` and its whitespace Scanner are not modelled. It arrives as its token sequence, or `None` when unreadable; in that case the button only redraws.
- Graphics are not modelled: buttons, `println`, colours (a colour is `Layout.Category`), `clearGraphics` and `repaintGraphics`. A drawing is the list of `Layout.Drawable` values.
- The y position (`new Random().nextInt(500)`) is random and not modelled.
- The order in which words are drawn depends on HashSet iteration order and is not fixed by the model. `LayoutWords` states which words are drawn and how, not their order.
- Doubles are modelled as exact reals. IEEE rounding, NaN and infinities are not modelled.
- Infrequent.PruneList: does not model the `int` wrap-around of `limitNumWords-1` at `WordCloud.java:155`. For `limitNumWords` equal to -2^31 the Java loop removes nothing, while `Pruned` keeps every second element. The session's limit starts at 100 and never goes negative (`Session.WordCloud.Valid`), so this case does not arise in the program.
- Layout.Truncate: models truncation toward zero only, not the saturation of a `(int)` cast above 2^31 - 1. Normalised weights keep font sizes at most 2010, so this does not arise.
- Normalise.NormaliseCounts: requires positive weights. The Java code would divide by a zero total and produce NaN. Every histogram the session holds has positive weights (`Session.WordCloud.Valid`), so this case does not arise in the program.
- Layout.LayoutWords: requires that no shared word's weights sum to zero (a zero sum would make Java's x a NaN). Positive weights guarantee this (`Layout.PositiveSharedSums`).
- Session.WordCloud.ButtonPerformed: requires both histograms to be present, so it leaves out every press made while a document is missing. The infrequent action throws a NullPointerException at `WordCloud.java:151`. The un-shared action throws one at `WordCloud.java:237` when the first document is missing. When only the second is missing, it throws at `WordCloud.java:238`, or at `WordCloud.java:239` when the first histogram is empty. The common-words action throws one at `WordCloud.java:138` when the stopword file is readable and not empty. With only the second document missing, the infrequent and common-words actions have already filtered the first histogram (`WordCloud.java:229`, `WordCloud.java:218`) before the exception, and that histogram stays filtered but not normalised. The other presses do nothing: an unrecognised button, an unreadable stopword file (the IOException is caught at `WordCloud.java:221`) and an empty stopword file. Each of these falls through to `displayWords`, which clears the screen and returns at `WordCloud.java:106` with both fields unchanged and nothing drawn (`Session.WordCloud.DisplayWords` models that case).
- Filters.ToLower: lower-cases ASCII letters only. Java's `toLowerCase` is Unicode-aware and locale-sensitive.
- `printcounts` (debug output) and `main` (start-up) are not modelled.
