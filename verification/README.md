# Bayesian search and rescue, and the stylometry helpers, in Dafny

This project models two parts of the RealWorldPython repository.

**The search-and-rescue game** (project-1). A sailor is lost in one of three 50 x 50 search areas of
the Cape Python map. The `Search` object holds:

- the beliefs `p1..p3` that the sailor is in each area;
- this round's search effectiveness values `sep1..sep3`;
- the sailor's true area and cell.

A search covers the first floor(C * e) cells of a shuffled list of the area's C cells. After the
round's two searches, Bayes' rule revises the beliefs: p_i := p_i (1 - sep_i) / sum_j p_j (1 - sep_j).
The interactive game lets the player pick one of six search options per round. The Monte Carlo
driver `main_twice` always searches the first most probable area twice and returns the round in
which the sailor was found.

**The text statistics of chapter 2.** They cover:

- the word filter (`[token.lower() for token in tokens if token.isalpha()]`) and the per-author dictionaries;
- `find_shortest_corpus`;
- the word-length and stop-word lists;
- the percentage rescale of a frequency distribution;
- the chi-square vocabulary test and the Jaccard similarity test;
- the semicolon heat map.

Layout:

- `collections.dfy` (module `Collections`): optional values, duplicate-free sequences, counting,
  `s[:n]`, and Python dictionaries as insertion-ordered association lists.
- `areas.dfy` (module `Areas`): the corner constants, the three slices, cells, map coordinates, and
  the `it.product` cell list.
- `belief.dfy` (module `Belief`): belief and effectiveness triples over `real`, the revision, and its properties.
- `search.dfy` (module `SearchAndRescue`): the `Search` class, with fields updated in place by its
  methods, and one round of the game's menu loop. Each method is proved against a specification
  function on the value `State`, and the properties are proved about those functions.
- `monte_carlo.dfy` (module `MonteCarloTwice`): the arg-max policy, one round of it, and
  `main_twice` as a loop proved against the recursive specification `Trial`.
- `stylometry.dfy` (module `Stylometry`): the word filter, `make_word_dict`, `find_shortest_corpus`,
  and the word-length and stop-word lists.
- `authorship.dfy` (module `Authorship`): `plot_fd_freq`'s rescale, `vocab_test` and `jaccard_test`.
- `heatmap.dfy` (module `Heatmap`): `make_punct_dict`, `convert_punct_to_number` and the reshape in `main`.

Every random draw is a parameter, constrained to its range by a precondition:

- the triangular placement draw is a real in [1, 4);
- the local cell has both coordinates in 0..49;
- each effectiveness value is in [0.2, 0.9];
- each shuffle is a permutation of the area's cell list.

`nltk` tokenisation is an input token list, and `most_common(1000)` is an input list constrained by
`Authorship.IsMostCommon`.

A Python exception is an explicit error outcome (`None`, `Crash`, `DivisionByZero`). Examples are
`ZeroDivisionError` in `revise_target_probs` and in the tests, `KeyError` for a missing "unknown"
corpus, and `ValueError` from `min`, `max` or `reshape`.

Two consequences of the code:

- The combined effectiveness of a double search divides by `len(sa) ** 2`. `len` of a numpy slice
  is its number of rows, 50, so the divisor is 2500, the number of cells of the area.
- Priors (0.2, 0.5, 0.3) revised with effectiveness (0, 0.5, 0) give exactly (4/15, 1/3, 2/5)
  (`Belief.WorkedExample`), so area 2 ends at 1/3.

## Model

| member | source | states |
|---|---|---|
| Areas.SearchAreasLayout | project-1/search_and_rescue.py:9-11 | the three corner rectangles are pairwise disjoint as half-open pixel rectangles, and each slice is 50 columns by 50 rows |
| Areas.ToMap | project-1/search_and_rescue.py:88-99 | map coordinates are the local cell plus the area's upper-left corner, and an in-grid cell lands inside the area's rectangle |
| Areas.MapPixelIdentifiesArea | project-1/search_and_rescue.py:33-38 | the map pixel of an in-grid cell of area n lies in area m exactly when m == n |
| Areas.CellList | project-1/search_and_rescue.py:116 | `list(it.product(range(w), range(h)))`: w*h cells, entry i being (i / h, i % h); its contents are stated by CellListFacts |
| Areas.CellsOf | project-1/search_and_rescue.py:114-116 | specification function: the product list of an area's width and height; its contents are stated by CellsOfFacts |
| Areas.CellListFacts | project-1/search_and_rescue.py:114-116 | `list(it.product(range(w), range(h)))` has w*h entries, holds exactly the cells with 0 <= x < w and 0 <= y < h, and has no duplicates |
| Areas.CellsOfFacts | project-1/search_and_rescue.py:114-116 | the cell list of an area holds each in-grid cell exactly once, so it has C = Width * Height distinct cells |
| Areas.ShuffleFacts | project-1/search_and_rescue.py:117 | any reordering of the cell list still has C entries, holds exactly the in-grid cells, and has no duplicates |
| Belief.PriorsAreDistribution | project-1/search_and_rescue.py:41-43 | the priors 0.2, 0.5, 0.3 are non-negative and sum to 1 |
| Belief.Mass | project-1/search_and_rescue.py:129-132 | specification function: the belief an area keeps after its search, p_n (1 - sep_n); bounded by SurvivingMass |
| Belief.Denom | project-1/search_and_rescue.py:129 | specification function: `denom`, the sum of the three kept masses; bounded by DenomBounds |
| Belief.Revise | project-1/search_and_rescue.py:129-132 | specification function: the three masses over `denom`, or no result when `denom` is 0; its properties are ReviseAt, ReviseFailsIff, ReviseIsDistribution and the lemmas below them |
| Belief.ReviseAt | project-1/search_and_rescue.py:129-132 | after a successful revision, area n holds p_n (1 - sep_n) / denom |
| Belief.SurvivingMass | project-1/search_and_rescue.py:129 | the belief left in an area after a search, p (1 - e), is between 0 and p, and is 0 exactly when p == 0 or e == 1 |
| Belief.DenomBounds | project-1/search_and_rescue.py:129 | for a distribution and effectiveness values in [0, 1], denom lies in [0, 1] |
| Belief.ReviseFailsIff | project-1/search_and_rescue.py:129-132 | the revision divides by zero exactly when every area has either no belief or effectiveness 1 |
| Belief.SingleSearchFailsIff | project-1/search_and_rescue.py:129-132 | with only area k searched, the revision fails exactly when p_k == 1 and sep_k == 1 |
| Belief.RevisePossibleBelowOne | project-1/search_and_rescue.py:129-132 | with every effectiveness value below 1, the revision never divides by zero |
| Belief.ReviseSumsToOne | project-1/search_and_rescue.py:130-132 | the revised beliefs sum to 1 |
| Belief.ReviseIsDistribution | project-1/search_and_rescue.py:129-132 | the revision of a distribution is again a distribution: non-negative and summing to 1 |
| Belief.UnsearchedAreasKeepRatio | project-1/search_and_rescue.py:129-132 | two areas with effectiveness 0 never lose belief, and keep their mutual ratio (r_i p_j == r_j p_i) |
| Belief.SearchedAreaLosesOthersGain | project-1/mcs/monte_carlo_twice.py:103-106 | with 0 < p_k < 1, sep_k > 0 and the other values 0, the revision succeeds, p_k strictly falls, and every other area with belief strictly gains |
| Belief.UnsearchedGains | project-1/search_and_rescue.py:129-132 | an unsearched area with belief strictly gains whenever 0 < denom < 1 |
| Belief.DenomOneSearched | project-1/search_and_rescue.py:129 | with only area k searched, denom == 1 - p_k sep_k |
| Belief.SearchedScalar | project-1/mcs/monte_carlo_twice.py:103-106 | for 0 < p < 1 and 0 < e <= 1, 1 - p e lies in (0, 1) and p (1 - e) / (1 - p e) < p |
| Belief.WorkedExample | project-1/search_and_rescue.py:129-132 | priors (0.2, 0.5, 0.3) with effectiveness (0, 0.5, 0) revise to exactly (4/15, 1/3, 2/5) |
| SearchAndRescue.CoverageSize | project-1/search_and_rescue.py:118 | `int(len(coords) * e)` is the floor k of C e: k <= C e < k + 1, and k <= C |
| SearchAndRescue.Coverage | project-1/search_and_rescue.py:114-118 | the covered cells are the first floor(C e) cells of the shuffle: distinct, all in the grid |
| SearchAndRescue.Outcome | project-1/search_and_rescue.py:119-123 | the report is "Found in area n." exactly when n is the sailor's area and the sailor's cell was covered, and "Not found." otherwise |
| SearchAndRescue.ShareBounds | project-1/search_and_rescue.py:175 | u cells out of 50 ** 2, for k <= u <= 2k, give a share in [k/2500, 2k/2500] and [0, 1], equal to 1 exactly when u == 2500 |
| SearchAndRescue.SameGrid | project-1/search_and_rescue.py:33-38 | each area's slice has 50 rows and 2500 cells |
| SearchAndRescue.CombinedEffectiveness | project-1/search_and_rescue.py:175 | specification function: `len(set(coords_1 + coords_2)) / len(sa) ** 2`, also at lines 183 and 191; bounded by CombinedBounds |
| SearchAndRescue.UnionBounds | project-1/search_and_rescue.py:175 | two duplicate-free lists of k cells of a grid have between k and 2k distinct cells, at most the whole grid, and the whole grid exactly when they cover it |
| SearchAndRescue.CombinedCount | project-1/search_and_rescue.py:173-175 | two searches of the same area cover between k and 2k distinct cells, at most 2500, and all 2500 exactly when every cell is covered |
| SearchAndRescue.CombinedBounds | project-1/search_and_rescue.py:172-191 | the combined effectiveness lies in [floor(C e)/C, min(1, 2 floor(C e)/C)], and is 1 exactly when every cell of the area was covered |
| SearchAndRescue.Search.constructor | project-1/search_and_rescue.py:27-48 | a fresh object has priors (0.2, 0.5, 0.3), a distribution, effectiveness (0, 0, 0), area 0 and local cell (0, 0) |
| SearchAndRescue.Search.SailorFinalLocation | project-1/search_and_rescue.py:81-100 | the local cell is the drawn one; area = floor of the draw, which is in 1..3 for three areas; the result is the cell plus that area's corner, inside the area; any other area assigns nothing, and the `return` fails |
| SearchAndRescue.Search.CalcSearchEffectiveness | project-1/search_and_rescue.py:106-108 | sep1..sep3 become the three drawn values, each in [0.2, 0.9], and nothing else changes |
| SearchAndRescue.Search.ConductSearch | project-1/search_and_rescue.py:110-123 | returns the first floor(C e) cells of the shuffle, which are distinct and in the grid, and reports a find exactly when the area is the sailor's and the sailor's cell is among them |
| SearchAndRescue.Search.ReviseTargetProbs | project-1/search_and_rescue.py:125-132 | the beliefs become the revised ones exactly when denom != 0; otherwise the call raises and nothing is written |
| SearchAndRescue.MenuNumber | project-1/search_and_rescue.py:169-213 | only the one-character strings "0".."7" select an option, and each selects its own digit; anything else is invalid |
| SearchAndRescue.Choice | project-1/mcs/monte_carlo_twice.py:118 | `str(k)` of an area number selects menu option k |
| SearchAndRescue.SearchedAreas | project-1/search_and_rescue.py:172-206 | options 1-3 search area n twice; options 4-6 search two distinct areas in increasing order |
| SearchAndRescue.SearchRound | project-1/search_and_rescue.py:172-206 | specification function: the two reports and the effectiveness values of a search option; its properties are DoubleSearchSeps, SplitSearchSeps and FoundOnlyInActualArea |
| SearchAndRescue.SearchStep | project-1/search_and_rescue.py:172-216 | specification function: a search round followed by the revision, raising (`Crash`) when the revision divides by zero; its properties are SearchRoundRevisesOnce, DoubleSearchCrashIff and DoubleSearchShiftsBelief |
| SearchAndRescue.MainStep | project-1/search_and_rescue.py:164-234 | specification function: one pass of the menu loop for option n: exit for 0, a search step for 1-6, restart for 7, and an invalid round otherwise; the method MainRound is proved against it |
| SearchAndRescue.NextSearchNum | project-1/search_and_rescue.py:225-234 | specification function: the approach number grows by 1 only after two failed searches; used by MainRound and InvalidChoiceSkipsRound |
| SearchAndRescue.SearchTwo | project-1/search_and_rescue.py:173-174 | the two `conduct_search` calls of a round cover the shuffle prefixes of their areas, and report through Outcome |
| SearchAndRescue.SearchChoice | project-1/search_and_rescue.py:172-206 | the branches for "1"-"6" produce the two reports and the effectiveness values that the round specification SearchRound gives |
| SearchAndRescue.SearchAndRevise | project-1/search_and_rescue.py:172-216 | a search option's two searches followed by the revision leave the object in the state, with the outcome, of the specification SearchStep |
| SearchAndRescue.MainRound | project-1/search_and_rescue.py:164-234 | one pass of the menu loop: the outcome and new state of MainStep for the typed choice; the approach number advances only after two failed searches |
| SearchAndRescue.InvalidChoiceSkipsRound | project-1/search_and_rescue.py:211-213 | an invalid choice searches nothing, keeps the beliefs and keeps the approach number |
| SearchAndRescue.SearchRoundRevisesOnce | project-1/search_and_rescue.py:216 | every search round keeps the sailor, leaves effectiveness values in [0, 1], and revises exactly once: it raises iff the revision fails, and otherwise leaves a distribution |
| SearchAndRescue.DoubleSearchSeps | project-1/search_and_rescue.py:172-191 | options 1-3 set sep_k to the combined coverage, in [floor(C e)/C, 2 floor(C e)/C] and [0.2, 1], and the other two values to exactly 0 |
| SearchAndRescue.SplitSearchSeps | project-1/search_and_rescue.py:193-206 | options 4-6 keep the drawn values of the two searched areas, zero only the third, and never raise in the revision |
| SearchAndRescue.DoubleSearchCrashIff | project-1/search_and_rescue.py:172-216 | searching area k twice raises ZeroDivisionError exactly when p_k == 1 and the two searches together covered every cell |
| SearchAndRescue.DoubleSearchShiftsBelief | project-1/search_and_rescue.py:172-216 | with 0 < p_k < 1, searching area k twice always revises, lowers p_k, and raises every other area with belief |
| SearchAndRescue.FoundOnlyInActualArea | project-1/search_and_rescue.py:120-123 | a search reports a find only for the sailor's area, and only when the sailor's cell is among the cells it covered |
| MonteCarloTwice.MaxOf | project-1/mcs/monte_carlo_twice.py:118 | `max` returns an element that is at least every element |
| MonteCarloTwice.IndexOf | project-1/mcs/monte_carlo_twice.py:118 | `index` returns the first position holding the value |
| MonteCarloTwice.ToChoice | project-1/mcs/monte_carlo_twice.py:117 | the list holds p1, p2, p3 in order |
| MonteCarloTwice.Policy | project-1/mcs/monte_carlo_twice.py:117-118 | specification function: the area number of the first largest belief; stated by PolicyPicksFirstMaximum |
| MonteCarloTwice.PolicyChoice | project-1/mcs/monte_carlo_twice.py:118 | specification function: `str(k)` of that area number; PolicyPicksFirstMaximum states that it selects menu option Policy |
| MonteCarloTwice.Placed | project-1/mcs/monte_carlo_twice.py:111-114 | specification function: the state after the constructor and the sailor's placement: priors (0.2, 0.5, 0.3), zero effectiveness, the drawn area and cell; MainTwice starts Trial from it |
| MonteCarloTwice.PolicyPicksFirstMaximum | project-1/mcs/monte_carlo_twice.py:117-157 | the choice is "1", "2" or "3", so the "0" and "4"-"6" branches are dead; it names an area of largest belief, and every lower-numbered area has strictly less |
| MonteCarloTwice.Trial | project-1/mcs/monte_carlo_twice.py:111-165 | a trial from round n ends in a round in [n, n + number of draws): found, or raising; or it runs out of draws at n + number of draws |
| MonteCarloTwice.TwiceRound | project-1/mcs/monte_carlo_twice.py:123-160 | a policy round sets sep_k to the combined coverage (>= 0.2) and the other values to 0; it revises once, leaving a distribution unless it raises; with 0 < p_k < 1 it lowers p_k and raises every other area with belief |
| MonteCarloTwice.TwiceFoundOnlyInActualArea | project-1/mcs/monte_carlo_twice.py:162-163 | a policy round succeeds only when the chosen area is the sailor's area and the sailor's cell is in one of the two coverage lists |
| MonteCarloTwice.PolicyRound | project-1/mcs/monte_carlo_twice.py:116-160 | one pass of the loop body leaves the object in MainStep's state for the policy's area; it searches and revises, or raises, and a search leaves a distribution |
| MonteCarloTwice.MainTwice | project-1/mcs/monte_carlo_twice.py:111-165 | `main_twice` returns what Trial gives from the placed state and round 1; a returned round count is between 1 and `|draws|`, the number of supplied draws |
| Stylometry.LowerChar | chapter-2/stylometry_fixing_frequency.py:39 | `lower` maps a letter to a lower-case letter and leaves lower-case letters alone |
| Stylometry.Lower | chapter-2/stylometry_fixing_frequency.py:39 | `token.lower()` keeps the length and lowers each character |
| Stylometry.Words | chapter-2/stylometry_fixing_frequency.py:39 | the filtered list is no longer than the tokens, and every entry is a non-empty lower-case word |
| Stylometry.WordsAppend | chapter-2/stylometry.py:38 | the filter keeps order: filtering a + b is filtering a, then b |
| Stylometry.WordsMembership | chapter-2/stylometry.py:38 | w is kept exactly when it is the lower-case form of an alphabetic token |
| Stylometry.WordsIdempotent | chapter-2/stylometry.py:38 | filtering the word list again changes nothing |
| Stylometry.MakeWordDict | chapter-2/stylometry_fixing_frequency.py:31-40 | the same authors in the same order, each mapped to the filtered word list of its tokens |
| Stylometry.MinOf | chapter-2/stylometry_fixing_frequency.py:51 | `min` returns an element that is at most every element |
| Stylometry.FindShortestCorpus | chapter-2/stylometry_fixing_frequency.py:43-53 | as written: the first author's word count, or None when there are no authors |
| Stylometry.FindShortestCorpusFixed | chapter-2/stylometry_fixing_frequency.py:43-53 | as documented: the smallest word count over all authors, which is some author's count; None exactly when there are no authors |
| Stylometry.ShortestCorpusCounterexample | chapter-2/stylometry.py:42-52 | for corpora of 2 and 1 words, the function as written returns 2, while the shortest corpus has 1 word |
| Stylometry.WordLengths | chapter-2/stylometry.py:64-66 | the list has min(len(words), len_shortest_corpus) entries, entry i being the length of word i |
| Stylometry.WordLengthsPositive | chapter-2/stylometry.py:64-66 | every word length from the filtered list is at least 1 |
| Stylometry.KeepStopwords | chapter-2/stylometry.py:93-97 | the result is no longer than the words, and every entry is a stop word |
| Stylometry.KeepStopwordsCount | chapter-2/stylometry.py:93-97 | a stop word occurs in the result as often as in the words; any other word does not occur |
| Stylometry.KeepStopwordsAppend | chapter-2/stylometry.py:93-97 | the stop-word list of a + b is that of a followed by that of b: a subsequence in order |
| Stylometry.StopwordsOf | chapter-2/stylometry_fixing_frequency.py:131-135 | specification function: the stop words among an author's first len_shortest_corpus words; counted by StopwordsOfCount |
| Stylometry.StopwordsOfCount | chapter-2/stylometry_fixing_frequency.py:131-135 | an author's stop-word list counts each stop word as often as the first len_shortest_corpus words do |
| Collections.Take | chapter-2/stylometry_fixing_frequency.py:209 | `s[:n]` has min(len(s), n) entries, the first ones of s |
| Collections.Put | chapter-2/stylometry_fixing_frequency.py:217 | `d[k] = v` keeps the keys when k is present, and appends k otherwise |
| Collections.PutNewKey | chapter-2/stylometry_fixing_frequency.py:217 | assigning a new key appends one entry at the end |
| Collections.PutExistingKey | chapter-2/stylometry_fixing_frequency.py:195 | assigning a present key replaces that entry in place and nothing else |
| Authorship.Total | chapter-2/stylometry_fixing_frequency.py:67 | specification function: `fd.N()`, the sum of the counts; RescaledTotal and RescaledSumsTo100 relate it to the percentages |
| Authorship.Percent | chapter-2/stylometry_fixing_frequency.py:69 | `float(count) / norm * 100` is non-negative and at most 100 when count <= norm |
| Authorship.Rescaled | chapter-2/stylometry_fixing_frequency.py:68-69 | the rescaled distribution has one entry per key |
| Authorship.RescaledTotal | chapter-2/stylometry_fixing_frequency.py:66-69 | the percentages sum to the total's percentage of norm |
| Authorship.RescaledSumsTo100 | chapter-2/stylometry_fixing_frequency.py:66-69 | with N > 0, the rescaled values are non-negative and sum to 100 |
| Authorship.RescaleToPercent | chapter-2/stylometry_fixing_frequency.py:66-69 | the loop yields the rescaled distribution with the same keys; it raises exactly when N == 0 and there is a key |
| Authorship.ArgMinIndex | chapter-2/stylometry_fixing_frequency.py:197 | `min(d, key=d.get)` picks an entry with the smallest value, and every earlier entry is strictly larger |
| Authorship.ArgMaxIndex | chapter-2/stylometry_fixing_frequency.py:220 | `max(d, key=d.get)` picks an entry with the largest value, and every earlier entry is strictly smaller |
| Authorship.MinKey | chapter-2/stylometry_fixing_frequency.py:197 | specification function: the key at ArgMinIndex, or no result for an empty table (ValueError); stated by VocabChoiceIsMinimum |
| Authorship.MaxKey | chapter-2/stylometry_fixing_frequency.py:220 | specification function: the key at ArgMaxIndex, or no result for an empty table (ValueError); stated by JaccardChoiceIsMaximum |
| Authorship.Proportion | chapter-2/stylometry_fixing_frequency.py:185 | `author_proportion` lies in [0, 1], and is 0 exactly for an empty author corpus |
| Authorship.Term | chapter-2/stylometry_fixing_frequency.py:192-194 | each summand (observed - expected) ** 2 / expected is non-negative |
| Authorship.Expected | chapter-2/stylometry_fixing_frequency.py:191 | a positive combined count and a positive proportion give a positive expected count |
| Authorship.ChiSum | chapter-2/stylometry_fixing_frequency.py:189-194 | the chi-square sum over the common words is non-negative |
| Authorship.ChiSumStep | chapter-2/stylometry_fixing_frequency.py:192-194 | one more common word adds exactly its summand |
| Authorship.ChiSquared | chapter-2/stylometry_fixing_frequency.py:184-195 | a recorded chi-square value is non-negative |
| Authorship.UnknownCorpus | chapter-2/stylometry_fixing_frequency.py:184 | specification function: `words_by_author["unknown"]`, or no result (KeyError) when that key is missing |
| Authorship.ChiUpdate | chapter-2/stylometry_fixing_frequency.py:183-195 | specification function: the table after one author of `vocab_test`; the method AuthorChiSquared is proved against it |
| Authorship.ChiTable | chapter-2/stylometry_fixing_frequency.py:181-195 | specification function: the table after all authors, or no result once one raises; stated by ChiTableExtend, ChiTablePrefixFails and ChiTableFacts |
| Authorship.VocabChoice | chapter-2/stylometry_fixing_frequency.py:181-197 | specification function: the author of least chi-square value; stated by VocabChoiceIsMinimum, and the method VocabTest is proved against it |
| Authorship.ChiTableExtend | chapter-2/stylometry_fixing_frequency.py:182-195 | one more author changes the table by that author's update |
| Authorship.ChiTablePrefixFails | chapter-2/stylometry_fixing_frequency.py:182-195 | once an author raises, the whole test raises |
| Authorship.ChiTableFacts | chapter-2/stylometry_fixing_frequency.py:181-195 | every table entry is a known author (not "unknown") of the input, listed once, with a non-negative value |
| Authorship.ChiUpdateFacts | chapter-2/stylometry_fixing_frequency.py:183-195 | one author's update keeps every entry a known author (not "unknown") of the input, listed once, with a non-negative value |
| Authorship.PutKnownAuthor | chapter-2/stylometry_fixing_frequency.py:195 | storing a non-negative value for a known author keeps the entries known authors, listed once, with non-negative values |
| Authorship.PutFacts | chapter-2/stylometry_fixing_frequency.py:195 | after `d[k] = v` the keys stay distinct, and each entry is the new one or the old one at that position |
| Authorship.VocabChoiceIsMinimum | chapter-2/stylometry_fixing_frequency.py:197 | the chosen author is a known author with the smallest chi-square value, and every author listed before it has a strictly larger one |
| Authorship.ProportionSelf | chapter-2/stylometry_fixing_frequency.py:185 | compared with a copy of its own corpus, an author has proportion 1/2 |
| Authorship.IdenticalCorpusChiZero | chapter-2/stylometry_fixing_frequency.py:189-194 | an unknown text identical to the author's corpus gives chi-square exactly 0 |
| Authorship.Jaccard | chapter-2/stylometry_fixing_frequency.py:213-216 | specification function: shared words over |A| + |B| - shared, or no result (ZeroDivisionError) when the denominator is 0; stated by JaccardIsIntersectionOverUnion and JaccardBounds |
| Authorship.AuthorChiSquared | chapter-2/stylometry_fixing_frequency.py:183-195 | the outer-loop body for one author leaves the table that ChiUpdate specifies: skipped for "unknown", raising on a missing "unknown" corpus or an empty author corpus, no entry without common words, otherwise the running sum |
| Authorship.VocabTest | chapter-2/stylometry_fixing_frequency.py:177-197 | `vocab_test` concludes the author that VocabChoice specifies, or raises when it does |
| Authorship.JaccardIsIntersectionOverUnion | chapter-2/stylometry_fixing_frequency.py:213-216 | the index is undefined exactly when both sets are empty, and is otherwise the intersection size over the union size |
| Authorship.JaccardBounds | chapter-2/stylometry_fixing_frequency.py:213-216 | the index lies in [0, 1], is symmetric, and is 1 exactly for equal sets |
| Authorship.FractionBounds | chapter-2/stylometry_fixing_frequency.py:213-216 | a count over a positive count at least as large lies in [0, 1], and is 1 exactly when the two are equal |
| Authorship.Vocabulary | chapter-2/stylometry_fixing_frequency.py:209-212 | specification function: `set(words[:len_shortest_corpus])` |
| Authorship.JaccardUpdate | chapter-2/stylometry_fixing_frequency.py:211-217 | specification function: the table after one author of `jaccard_test`; the method JaccardTest is proved against it |
| Authorship.JaccardTable | chapter-2/stylometry_fixing_frequency.py:208-217 | specification function: the table after all authors, or no result once one raises; stated by JaccardTableExtend, JaccardTablePrefixFails and JaccardTableFacts |
| Authorship.JaccardTableExtend | chapter-2/stylometry_fixing_frequency.py:211-217 | one more author changes the table by that author's update |
| Authorship.JaccardTablePrefixFails | chapter-2/stylometry_fixing_frequency.py:211-217 | once an author raises, the whole test raises |
| Authorship.JaccardTableFacts | chapter-2/stylometry_fixing_frequency.py:208-217 | every table entry is a known author (not "unknown") of the input, listed once, with an index in [0, 1] |
| Authorship.JaccardChoiceIsMaximum | chapter-2/stylometry_fixing_frequency.py:220 | the chosen author is a known author with the largest index, and every author listed before it has a strictly smaller one |
| Authorship.JaccardChoice | chapter-2/stylometry_fixing_frequency.py:208-220 | specification function: the author of largest index, or no result when the test raises; stated by JaccardChoiceIsMaximum |
| Authorship.JaccardTest | chapter-2/stylometry_fixing_frequency.py:203-220 | `jaccard_test` concludes the author that JaccardChoice specifies, using only the first len_shortest_corpus words; it raises on a missing "unknown" corpus or two empty vocabularies |
| Heatmap.PunctFilter | chapter-2/practice_heatmap_semicolon.py:39 | the kept tokens are no more than the tokens, and each is a substring of `string.punctuation` |
| Heatmap.PunctFilterCount | chapter-2/practice_heatmap_semicolon.py:39 | a token that is a substring of the punctuation string is kept as often as it occurs; any other token is dropped |
| Heatmap.PunctFilterAppend | chapter-2/practice_heatmap_semicolon.py:39 | the kept marks keep their order: filtering a + b is filtering a, then b |
| Heatmap.SingleCharSubstring | chapter-2/practice_heatmap_semicolon.py:39 | for a one-character token, the substring test is a membership test |
| Heatmap.AdjacentMarksKept | chapter-2/practice_heatmap_semicolon.py:39 | the test is on substrings: "()" counts as punctuation |
| Heatmap.MakePunctDict | chapter-2/practice_heatmap_semicolon.py:35-43 | the same authors in the same order, each mapped to the punctuation tokens of its corpus |
| Heatmap.ConvertPunctToNumber | chapter-2/practice_heatmap_semicolon.py:46-54 | one value per mark: 1 for ";" and 2 otherwise; as many 1s as semicolons, and only 1s and 2s |
| Heatmap.ISqrt | chapter-2/practice_heatmap_semicolon.py:21 | `int(math.sqrt(n))` is the r with r * r <= n < (r + 1) * (r + 1) |
| Heatmap.SquareRootUnique | chapter-2/practice_heatmap_semicolon.py:21 | a perfect square has only that integer square root |
| Heatmap.Row | chapter-2/practice_heatmap_semicolon.py:21 | row r of the reshaped grid is values[r * side .. r * side + side) |
| Heatmap.Rows | chapter-2/practice_heatmap_semicolon.py:21 | the reshape has `side` rows, each read off the values in row-major order |
| Heatmap.HeatGrid | chapter-2/practice_heatmap_semicolon.py:20-21 | the reshape succeeds exactly when the first 6561 values number a perfect square; it then gives those values row by row; with at least 6561 values it is 81 x 81 |

## Left out

- Image I/O and drawing (`cv.imread`, `draw_map`, `cv.imshow`, `cv.circle`, `cv.waitKey`) and all printing: these are side effects with no state the model keeps.
- The map image itself: an area is its corner rectangle, and `len` and `shape` of a slice are its row and column counts.
- `draw_menu`, `input()`, `sys.exit` and the recursive restart `main()`: a round is a function of the typed choice, and it ends with `Exit` or `Restart` instead of the process leaving or recursing.
- The probability distributions of `random.triangular`, `random.uniform`, `random.shuffle` and `np.random.choice`: the drawn values are parameters within their ranges, and their shape is not modelled.
- Floating-point arithmetic: beliefs, effectiveness values and percentages are exact `real`s, so rounding and the float equality `denom == 0` of the source are idealised.
- MonteCarloTwice.MainTwice: the rounds' draws are a finite parameter, so a trial that has not found the sailor when they run out ends with `OutOfDraws`. The source loop runs until a find or until the revision raises ZeroDivisionError (`Crashed`); a find happens only with probability 1.
- The second copy of the `Search` class in project-1/mcs/monte_carlo_twice.py:14-106 is modelled by the same class. Its `np.random.choice(n, 1)` returns a one-element array, which the model treats as the integer inside it.
- project-1/best_strategy_mcs.py is a driver that averages round counts. Of it, only the `succes_twice` loop (lines 11-12) is covered: every round count it collects is at least 1, which follows from MonteCarloTwice.MainTwice. The `main_split` loop (lines 16-17) calls `mcs/monte_carlo_split.py`, which is not part of this model.
- chapter-2/practice_hound_dispersion.py reads a file and draws an nltk dispersion plot.
- `text_to_string`, `nltk.word_tokenize`, `nltk.FreqDist`, `stopwords.words` and matplotlib/seaborn plotting are not modelled. A corpus is its token list, and the stop words are a set parameter.
- `parts_of_speech_test` is not modelled, because its content is `nltk.pos_tag`.
- The plots of `word_length_test` and `stopwords_test` are not modelled; only their list comprehensions are.
- Stylometry.Words: `str.isalpha` and `str.lower` are modelled on the ASCII letters only; Unicode letters are not modelled.
- Authorship.VocabTest: `most_common(1000)` is a parameter per author, constrained by Authorship.IsMostCommon. The order among equal counts is not modelled.
- Authorship.AuthorChiSquared: every combined count is positive, so the check `|words| == 0` stands for the source's `ZeroDivisionError` when the expected count is 0.

## Findings

| source | as written | input that shows it | evidently intended | confidence | as-written member | corrected member |
|---|---|---|---|---|---|---|
| chapter-2/stylometry_fixing_frequency.py:43-53 | the `return` is inside the `for` loop, so the result is the word count of the first author | authors "doyle" with 2 words and "unknown" with 1 word: the function returns 2 (Stylometry.ShortestCorpusCounterexample) | the smallest word count over all authors, as the docstring says | not executed | Stylometry.FindShortestCorpus | Stylometry.FindShortestCorpusFixed |
| chapter-2/stylometry.py:42-52 | the same `return` inside the `for` loop | the same two authors: 2 instead of 1 (Stylometry.ShortestCorpusCounterexample) | the smallest word count over all authors | not executed | Stylometry.FindShortestCorpus | Stylometry.FindShortestCorpusFixed |
