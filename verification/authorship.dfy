/** The authorship tests of the stylometry chapter: the percentage rescale of a
    frequency distribution, the chi-square vocabulary test and the Jaccard
    similarity test. Frequency distributions are insertion-ordered dictionaries
    from a sample to its count. */
module Authorship {
  import opened Collections
  import opened Stylometry
  import Belief

  // ---------------------------------------------------------------------
  // `plot_fd_freq`: counts rescaled to percentages.

  /** `fd.N()`: the total of all counts. */
  function Total<K>(fd: seq<Entry<K, nat>>): nat {
    if fd == [] then 0 else Total(fd[..|fd| - 1]) + fd[|fd| - 1].value
  }

  /** The total of a dictionary of real values. */
  function RealTotal<K>(t: seq<Entry<K, real>>): real {
    if t == [] then 0.0 else RealTotal(t[..|t| - 1]) + t[|t| - 1].value
  }

  /** `float(count) / norm * 100`. */
  function Percent(count: nat, norm: nat): (r: real)
    requires norm > 0
    ensures 0.0 <= r
    ensures count <= norm ==> r <= 100.0
  {
    assert count as real / norm as real <= 1.0 <== count <= norm;
    count as real / norm as real * 100.0
  }

  /** The rescaled distribution: every count replaced by its percentage of `norm`. */
  function Rescaled<K>(fd: seq<Entry<K, nat>>, norm: nat): (t: seq<Entry<K, real>>)
    requires norm > 0
    ensures |t| == |fd|
  {
    seq(|fd|, i requires 0 <= i < |fd| => Entry(fd[i].key, Percent(fd[i].value, norm)))
  }

  lemma PercentAdd(a: nat, b: nat, norm: nat)
    requires norm > 0
    ensures Percent(a + b, norm) == Percent(a, norm) + Percent(b, norm)
  {
    var n := norm as real;
    assert (a + b) as real / n == a as real / n + b as real / n;
  }

  /** The percentages add up to the total's share of norm. */
  lemma {:induction false} RescaledTotal<K>(fd: seq<Entry<K, nat>>, norm: nat)
    requires norm > 0
    ensures RealTotal(Rescaled(fd, norm)) == Percent(Total(fd), norm)
  {
    if fd == [] {
      assert Rescaled(fd, norm) == [];
    } else {
      var init := fd[..|fd| - 1];
      RescaledTotal(init, norm);
      assert Rescaled(fd, norm)[..|fd| - 1] == Rescaled(init, norm);
      PercentAdd(Total(init), fd[|fd| - 1].value, norm);
    }
  }

  lemma DivSelf(x: real)
    requires x > 0.0
    ensures x / x == 1.0
  {
  }

  lemma Half(x: nat)
    requires x > 0
    ensures x as real / (2 * x) as real == 0.5
  {
  }

  /** With a non-zero total, the rescaled values are percentages that sum to 100. */
  lemma RescaledSumsTo100<K>(fd: seq<Entry<K, nat>>)
    requires Total(fd) > 0
    ensures RealTotal(Rescaled(fd, Total(fd))) == 100.0
    ensures forall i | 0 <= i < |fd| :: Rescaled(fd, Total(fd))[i].value >= 0.0
  {
    var n := Total(fd);
    RescaledTotal(fd, n);
    DivSelf(n as real);
    forall i | 0 <= i < |fd| ensures Rescaled(fd, n)[i].value >= 0.0 {
      assert Rescaled(fd, n)[i].value == Percent(fd[i].value, n);
    }
  }

  /** The rescale loop of `plot_fd_freq` on a copy of the distribution. A distribution
      whose counts are all zero but which has a key raises ZeroDivisionError (None). */
  method RescaleToPercent<K(==)>(fd: seq<Entry<K, nat>>) returns (tmp: Option<seq<Entry<K, real>>>)
    requires IsDict(fd)
    ensures tmp.None? <==> Total(fd) == 0 && |fd| > 0
    ensures tmp.Some? && |fd| > 0 ==> tmp.value == Rescaled(fd, Total(fd))
    ensures tmp.Some? ==> Keys(tmp.value) == Keys(fd)
  {
    var t := seq(|fd|, i requires 0 <= i < |fd| => Entry(fd[i].key, fd[i].value as real));
    var norm := Total(fd);
    SameKeys(t, fd);
    var i := 0;
    while i < |fd|
      invariant 0 <= i <= |fd|
      invariant |t| == |fd|
      invariant forall j | 0 <= j < |fd| :: t[j].key == fd[j].key
      invariant forall j | 0 <= j < i :: norm > 0 && t[j].value == Percent(fd[j].value, norm)
    {
      if norm == 0 {
        return None;
      }
      SameKeys(t, fd);
      PutExistingKey(t, i, Percent(fd[i].value, norm));
      t := Put(t, fd[i].key, Percent(fd[i].value, norm));
      i := i + 1;
    }
    SameKeys(t, fd);
    if |fd| > 0 {
      assert t == Rescaled(fd, norm);
    }
    return Some(t);
  }

  // ---------------------------------------------------------------------
  // Choosing an author: `min(d, key=d.get)` and `max(d, key=d.get)`.

  /** The position of the first smallest value. */
  function ArgMinIndex(t: seq<Entry<string, real>>): (i: nat)
    requires |t| > 0
    ensures i < |t|
    ensures forall j | 0 <= j < |t| :: t[i].value <= t[j].value
    ensures forall j | 0 <= j < i :: t[j].value > t[i].value
  {
    if |t| == 1 then 0
    else
      var j := ArgMinIndex(t[..|t| - 1]);
      if t[|t| - 1].value < t[j].value then |t| - 1 else j
  }

  /** The position of the first largest value. */
  function ArgMaxIndex(t: seq<Entry<string, real>>): (i: nat)
    requires |t| > 0
    ensures i < |t|
    ensures forall j | 0 <= j < |t| :: t[j].value <= t[i].value
    ensures forall j | 0 <= j < i :: t[j].value < t[i].value
  {
    if |t| == 1 then 0
    else
      var j := ArgMaxIndex(t[..|t| - 1]);
      if t[|t| - 1].value > t[j].value then |t| - 1 else j
  }

  /** `min(d, key=d.get)`; an empty dictionary raises ValueError (None). */
  function MinKey(t: seq<Entry<string, real>>): Option<string> {
    if t == [] then None else Some(t[ArgMinIndex(t)].key)
  }

  /** `max(d, key=d.get)`; an empty dictionary raises ValueError (None). */
  function MaxKey(t: seq<Entry<string, real>>): Option<string> {
    if t == [] then None else Some(t[ArgMaxIndex(t)].key)
  }

  // ---------------------------------------------------------------------
  // `vocab_test`: chi-square statistic of each known author against "unknown".

  /** What `most_common(1000)` of the combined corpus's FreqDist returns: distinct
      words of the corpus with their counts, most frequent first, at most 1000 of
      them, and no word left out that is more frequent than one taken. */
  predicate IsMostCommon(common: seq<Entry<string, nat>>, corpus: seq<string>) {
    IsDict(common) && |common| <= 1000 &&
    (forall i | 0 <= i < |common| :: common[i].value == Count(corpus, common[i].key) > 0) &&
    (forall i, j | 0 <= i < j < |common| :: common[i].value >= common[j].value) &&
    (forall w | w in corpus && w !in Keys(common) ::
       |common| == 1000 && Count(corpus, w) <= common[999].value)
  }

  /** `author_proportion`: the author's share of the combined corpus. */
  function Proportion(words: seq<string>, unknown: seq<string>): (r: real)
    requires |words + unknown| > 0
    ensures 0.0 <= r <= 1.0
    ensures r == 0.0 <==> |words| == 0
  {
    assert |words| <= |words + unknown|;
    |words| as real / |words + unknown| as real
  }

  /** One summand `(observed - expected) ** 2 / expected`. */
  function Term(observed: nat, expected: real): (r: real)
    requires expected > 0.0
    ensures r >= 0.0
  {
    var diff := observed as real - expected;
    assert diff * diff >= 0.0;
    diff * diff / expected
  }

  /** `expected_count_author = combined_count * author_proportion`. */
  function Expected(combinedCount: nat, prop: real): (r: real)
    requires prop > 0.0 && combinedCount > 0
    ensures r > 0.0
  {
    Belief.MulPos(combinedCount as real, prop);
    combinedCount as real * prop
  }

  /** The chi-square sum over the first entries of `common`. */
  function ChiSum(words: seq<string>, common: seq<Entry<string, nat>>, prop: real): (r: real)
    requires prop > 0.0
    requires forall i | 0 <= i < |common| :: common[i].value > 0
    ensures r >= 0.0
  {
    if common == [] then 0.0
    else
      var last := common[|common| - 1];
      ChiSum(words, common[..|common| - 1], prop) + Term(Count(words, last.key), Expected(last.value, prop))
  }

  /** Extending the prefix of common words by one adds that word's summand. */
  lemma ChiSumStep(words: seq<string>, common: seq<Entry<string, nat>>, j: nat, prop: real)
    requires prop > 0.0 && j < |common|
    requires forall i | 0 <= i < |common| :: common[i].value > 0
    ensures ChiSum(words, common[..j + 1], prop) ==
            ChiSum(words, common[..j], prop) + Term(Count(words, common[j].key), Expected(common[j].value, prop))
  {
    assert common[..j + 1][..j] == common[..j];
  }

  /** The outcome for one author: a ZeroDivisionError, no entry written (no common
      words), or the chi-square value. */
  datatype ChiResult = DivisionByZero | NoEntry | Chi(value: real)

  function ChiSquared(words: seq<string>, unknown: seq<string>, common: seq<Entry<string, nat>>): (r: ChiResult)
    requires forall i | 0 <= i < |common| :: common[i].value > 0
    ensures r.Chi? ==> r.value >= 0.0
  {
    if |words + unknown| == 0 then DivisionByZero
    else if common == [] then NoEntry
    else if |words| == 0 then DivisionByZero
    else Chi(ChiSum(words, common, Proportion(words, unknown)))
  }

  /** The table after the inner loop for one author: "unknown" is skipped, a missing
      "unknown" corpus raises KeyError and a zero expected count ZeroDivisionError
      (None), and the author gets an entry only if some word was common. */
  function ChiUpdate(t: seq<Entry<string, real>>, author: string, words: seq<string>,
                     unknown: Option<seq<string>>, common: seq<Entry<string, nat>>): Option<seq<Entry<string, real>>>
    requires forall i | 0 <= i < |common| :: common[i].value > 0
  {
    if author == "unknown" then Some(t)
    else if unknown.None? then None
    else
      match ChiSquared(words, unknown.value, common)
      case DivisionByZero => None
      case NoEntry => Some(t)
      case Chi(v) => Some(Put(t, author, v))
  }

  /** The chi-square table over the authors, or None when the function raises. */
  function ChiTable(d: seq<Entry<string, seq<string>>>, commons: seq<seq<Entry<string, nat>>>,
                    unknown: Option<seq<string>>): Option<seq<Entry<string, real>>>
    requires |commons| == |d|
    requires forall i, j | 0 <= i < |d| && 0 <= j < |commons[i]| :: commons[i][j].value > 0
    decreases |d|
  {
    if d == [] then Some([])
    else
      var n := |d| - 1;
      match ChiTable(d[..n], commons[..n], unknown)
      case None => None
      case Some(t) => ChiUpdate(t, d[n].key, d[n].value, unknown, commons[n])
  }

  /** `words_by_author.get("unknown")`. */
  function UnknownCorpus(d: seq<Entry<string, seq<string>>>): Option<seq<string>> {
    if "unknown" in Keys(d) then Some(Lookup(d, "unknown")) else None
  }

  /** What `vocab_test` concludes: the author with the smallest chi-square value, or
      None when the function raises. */
  function VocabChoice(d: seq<Entry<string, seq<string>>>, commons: seq<seq<Entry<string, nat>>>): Option<string>
    requires |commons| == |d|
    requires forall i, j | 0 <= i < |d| && 0 <= j < |commons[i]| :: commons[i][j].value > 0
  {
    match ChiTable(d, commons, UnknownCorpus(d))
    case None => None
    case Some(t) => MinKey(t)
  }

  /** Every author in the chi-square table is a known author with a corpus, listed
      once, with a non-negative value. */
  lemma {:induction false} ChiTableFacts(d: seq<Entry<string, seq<string>>>, commons: seq<seq<Entry<string, nat>>>,
                                         unknown: Option<seq<string>>)
    requires |commons| == |d|
    requires forall i, j | 0 <= i < |d| && 0 <= j < |commons[i]| :: commons[i][j].value > 0
    ensures ChiTable(d, commons, unknown).Some? ==>
              var t := ChiTable(d, commons, unknown).value;
              IsDict(t) &&
              (forall i | 0 <= i < |t| :: t[i].key != "unknown" && t[i].key in Keys(d) && t[i].value >= 0.0)
    decreases |d|
  {
    if d != [] {
      var n := |d| - 1;
      ChiTableFacts(d[..n], commons[..n], unknown);
      KeysPrefix(d, n);
      var r := ChiTable(d[..n], commons[..n], unknown);
      if r.Some? {
        ChiUpdateFacts(r.value, d, n, unknown, commons[n]);
      }
    }
  }

  /** One author's update keeps the table a dictionary of known authors with
      non-negative values. */
  lemma ChiUpdateFacts(t: seq<Entry<string, real>>, d: seq<Entry<string, seq<string>>>, n: nat,
                       unknown: Option<seq<string>>, common: seq<Entry<string, nat>>)
    requires n < |d|
    requires forall i | 0 <= i < |common| :: common[i].value > 0
    requires IsDict(t)
    requires forall i | 0 <= i < |t| :: t[i].key != "unknown" && t[i].key in Keys(d) && t[i].value >= 0.0
    ensures ChiUpdate(t, d[n].key, d[n].value, unknown, common).Some? ==>
              var t' := ChiUpdate(t, d[n].key, d[n].value, unknown, common).value;
              IsDict(t') &&
              (forall i | 0 <= i < |t'| :: t'[i].key != "unknown" && t'[i].key in Keys(d) && t'[i].value >= 0.0)
  {
    if d[n].key != "unknown" && unknown.Some? {
      var c := ChiSquared(d[n].value, unknown.value, common);
      if c.Chi? {
        assert d[n].key in Keys(d) by {
          assert d[n].key == Keys(d)[n];
        }
        PutKnownAuthor(t, Keys(d), d[n].key, c.value);
      }
    }
  }

  /** Writing a non-negative value for a known author other than "unknown" keeps the
      table a dictionary of such authors with non-negative values. */
  lemma PutKnownAuthor(t: seq<Entry<string, real>>, keys: seq<string>, k: string, v: real)
    requires IsDict(t) && k != "unknown" && k in keys && v >= 0.0
    requires forall i | 0 <= i < |t| :: t[i].key != "unknown" && t[i].key in keys && t[i].value >= 0.0
    ensures var r := Put(t, k, v);
            IsDict(r) && forall i | 0 <= i < |r| :: r[i].key != "unknown" && r[i].key in keys && r[i].value >= 0.0
  {
    PutFacts(t, k, v);
  }

  /** After `d[k] = v` the dictionary still has distinct keys, and every entry is the
      new entry or the old entry at that position. */
  lemma PutFacts<V>(t: seq<Entry<string, V>>, k: string, v: V)
    requires IsDict(t)
    ensures var r := Put(t, k, v);
            IsDict(r) && |t| <= |r| &&
            forall i | 0 <= i < |r| :: r[i] == Entry(k, v) || (i < |t| && r[i] == t[i])
  {
    var r := Put(t, k, v);
    PutPointwise(t, k, v);
    if k !in Keys(t) {
      PutNewKey(t, k, v);
      forall i, j | 0 <= i < j < |r| ensures Keys(r)[i] != Keys(r)[j] {
        if j < |t| {
          assert Keys(t)[i] != Keys(t)[j];
        } else {
          assert Keys(t)[i] == t[i].key;
        }
      }
    } else {
      assert Keys(r) == Keys(t);
    }
  }

  /** The chosen author has the smallest chi-square value in the table, and every
      author listed before it has a strictly larger one. */
  lemma VocabChoiceIsMinimum(d: seq<Entry<string, seq<string>>>, commons: seq<seq<Entry<string, nat>>>)
    requires |commons| == |d|
    requires forall i, j | 0 <= i < |d| && 0 <= j < |commons[i]| :: commons[i][j].value > 0
    ensures VocabChoice(d, commons).Some? ==>
              var t := ChiTable(d, commons, UnknownCorpus(d)).value;
              exists i | 0 <= i < |t| :: t[i].key == VocabChoice(d, commons).value && t[i].key != "unknown" &&
                (forall j | 0 <= j < |t| :: t[i].value <= t[j].value) &&
                (forall j | 0 <= j < i :: t[j].value > t[i].value)
  {
    ChiTableFacts(d, commons, UnknownCorpus(d));
    var r := ChiTable(d, commons, UnknownCorpus(d));
    if r.Some? && r.value != [] {
      var i := ArgMinIndex(r.value);
      assert r.value[i].key == VocabChoice(d, commons).value;
    }
  }

  lemma CountDoubled(w: seq<string>, x: string)
    ensures Count(w + w, x) == 2 * Count(w, x)
  {
    CountIsMultiplicity(w + w, x);
    CountIsMultiplicity(w, x);
  }

  /** An unknown text identical to the author's own corpus gives chi-square 0: each
      word's observed count is exactly half its combined count. */
  lemma {:induction false} IdenticalCorpusChiZero(w: seq<string>, common: seq<Entry<string, nat>>)
    requires |w| > 0
    requires forall i | 0 <= i < |common| :: common[i].value == Count(w + w, common[i].key) > 0
    ensures ChiSum(w, common, Proportion(w, w)) == 0.0
  {
    ProportionSelf(w);
    if common != [] {
      var n := |common| - 1;
      IdenticalCorpusChiZero(w, common[..n]);
      var c := Count(w, common[n].key);
      CountDoubled(w, common[n].key);
      HalfOfDouble(c);
      assert Term(c, Expected(2 * c, 0.5)) == 0.0;
    }
  }

  /** An author compared with a copy of its own corpus has half the combined corpus. */
  lemma ProportionSelf(w: seq<string>)
    requires |w| > 0
    ensures Proportion(w, w) == 0.5
  {
    assert |w + w| == 2 * |w|;
    Half(|w|);
  }

  /** Half of an even combined count is its half. */
  lemma HalfOfDouble(c: nat)
    requires c > 0
    ensures Expected(2 * c, 0.5) == c as real
  {
  }

  /** The body of the outer loop of `vocab_test` for one author: the proportion, then
      the inner loop that adds one summand per common word and writes the running
      sum into the table after each. */
  method AuthorChiSquared(table: seq<Entry<string, real>>, author: string, words: seq<string>,
                          unknown: Option<seq<string>>, common: seq<Entry<string, nat>>)
    returns (r: Option<seq<Entry<string, real>>>)
    requires forall i | 0 <= i < |common| :: common[i].value > 0
    ensures r == ChiUpdate(table, author, words, unknown, common)
  {
    if author == "unknown" {
      return Some(table);
    }
    if unknown.None? {
      return None;
    }
    var combined := words + unknown.value;
    if |combined| == 0 {
      return None;
    }
    var proportion := |words| as real / |combined| as real;
    var chisquared := 0.0;
    r := Some(table);
    for j := 0 to |common|
      invariant proportion == Proportion(words, unknown.value)
      invariant j > 0 ==> |words| > 0
      invariant j == 0 ==> chisquared == 0.0
      invariant j > 0 ==> chisquared == ChiSum(words, common[..j], proportion)
      invariant r == if j == 0 then Some(table) else Some(Put(table, author, chisquared))
    {
      var observed := Count(words, common[j].key);
      // Every combined count is positive, so the expected count is zero, and the
      // division raises, exactly when the author's corpus is empty.
      if |words| == 0 {
        return None;
      }
      var expected := Expected(common[j].value, proportion);
      ChiSumStep(words, common, j, proportion);
      chisquared := chisquared + Term(observed, expected);
      r := Some(Put(table, author, chisquared));
    }
    assert common[..|common|] == common;
  }

  /** `vocab_test`: the chi-square statistic of every known author against the
      unknown corpus, and the author with the smallest one. */
  method VocabTest(d: seq<Entry<string, seq<string>>>, commons: seq<seq<Entry<string, nat>>>)
    returns (mostLikely: Option<string>)
    requires IsDict(d) && |commons| == |d|
    requires forall i | 0 <= i < |d| && d[i].key != "unknown" && "unknown" in Keys(d) ::
               IsMostCommon(commons[i], d[i].value + Lookup(d, "unknown"))
    requires forall i, j | 0 <= i < |d| && 0 <= j < |commons[i]| :: commons[i][j].value > 0
    ensures mostLikely == VocabChoice(d, commons)
  {
    var unknown := UnknownCorpus(d);
    var chisquaredByAuthor: seq<Entry<string, real>> := [];
    var i := 0;
    while i < |d|
      invariant 0 <= i <= |d|
      invariant ChiTable(d[..i], commons[..i], unknown) == Some(chisquaredByAuthor)
    {
      ChiTableExtend(d, commons, unknown, i);
      var r := AuthorChiSquared(chisquaredByAuthor, d[i].key, d[i].value, unknown, commons[i]);
      if r.None? {
        ChiTablePrefixFails(d, commons, unknown, i + 1);
        return None;
      }
      chisquaredByAuthor := r.value;
      i := i + 1;
    }
    assert d[..i] == d && commons[..i] == commons;
    mostLikely := MinKey(chisquaredByAuthor);
  }

  /** One more author extends the table by one update. */
  lemma ChiTableExtend(d: seq<Entry<string, seq<string>>>, commons: seq<seq<Entry<string, nat>>>,
                       unknown: Option<seq<string>>, i: nat)
    requires |commons| == |d| && i < |d|
    requires forall i, j | 0 <= i < |d| && 0 <= j < |commons[i]| :: commons[i][j].value > 0
    ensures ChiTable(d[..i + 1], commons[..i + 1], unknown) ==
            match ChiTable(d[..i], commons[..i], unknown)
            case None => None
            case Some(t) => ChiUpdate(t, d[i].key, d[i].value, unknown, commons[i])
  {
    assert d[..i + 1][..i] == d[..i] && commons[..i + 1][..i] == commons[..i];
  }

  /** Once a prefix of the authors raises, the whole table raises. */
  lemma {:induction false} ChiTablePrefixFails(d: seq<Entry<string, seq<string>>>, commons: seq<seq<Entry<string, nat>>>,
                                               unknown: Option<seq<string>>, k: nat)
    requires |commons| == |d| && k <= |d|
    requires forall i, j | 0 <= i < |d| && 0 <= j < |commons[i]| :: commons[i][j].value > 0
    requires ChiTable(d[..k], commons[..k], unknown).None?
    ensures ChiTable(d, commons, unknown).None?
    decreases |d| - k
  {
    if k < |d| {
      assert d[..k + 1][..k] == d[..k] && commons[..k + 1][..k] == commons[..k];
      ChiTablePrefixFails(d, commons, unknown, k + 1);
    } else {
      assert d[..k] == d && commons[..k] == commons;
    }
  }

  // ---------------------------------------------------------------------
  // `jaccard_test`: Jaccard similarity of the vocabularies.

  /** `len(shared) / (len(a) + len(b) - len(shared))`; both sets empty raises
      ZeroDivisionError (None). */
  function Jaccard(a: set<string>, b: set<string>): Option<real> {
    var shared := a * b;
    var denom := |a| + |b| - |shared|;
    if denom == 0 then None else Some(|shared| as real / denom as real)
  }

  lemma InclusionExclusion(a: set<string>, b: set<string>)
    ensures |a + b| + |a * b| == |a| + |b|
  {
    assert a + b == a + (b - a) && a * (b - a) == {};
    assert b == (b - a) + (a * b) && (b - a) * (a * b) == {};
  }

  /** The index is the size of the intersection over the size of the union; it is
      undefined exactly when both sets are empty. */
  lemma JaccardIsIntersectionOverUnion(a: set<string>, b: set<string>)
    ensures Jaccard(a, b).None? <==> a == {} && b == {}
    ensures Jaccard(a, b).Some? ==> Jaccard(a, b).value == |a * b| as real / |a + b| as real
  {
    InclusionExclusion(a, b);
    if a + b == {} {
      assert a == {} && b == {};
    } else {
      var x :| x in a + b;
    }
  }

  /** The index lies in [0, 1], is symmetric, and is 1 exactly for equal sets. */
  lemma JaccardBounds(a: set<string>, b: set<string>)
    requires Jaccard(a, b).Some?
    ensures 0.0 <= Jaccard(a, b).value <= 1.0
    ensures Jaccard(b, a) == Jaccard(a, b)
    ensures Jaccard(a, b).value == 1.0 <==> a == b
  {
    JaccardIsIntersectionOverUnion(a, b);
    SubsetCard(a * b, a + b);
    assert b * a == a * b && b + a == a + b;
    assert |a + b| > 0;
    FractionBounds(|a * b|, |a + b|);
    if |a * b| == |a + b| {
      SubsetCardEqual(a * b, a + b);
      assert a == b by {
        forall x ensures x in a <==> x in b {
          assert x in a + b ==> x in a * b;
        }
      }
    }
    if a == b {
      assert a * b == a + b;
    }
  }

  /** A count out of a positive total is a fraction in [0, 1], and is 1 exactly
      when the count is the total. */
  lemma FractionBounds(i: nat, u: nat)
    requires 0 < u && i <= u
    ensures 0.0 <= i as real / u as real <= 1.0
    ensures i as real / u as real == 1.0 <==> i == u
  {
    var x, d := i as real, u as real;
    var q := x / d;
    assert q * d == x;
    Belief.DivNonneg(x, d);
    if q > 1.0 {
      Belief.MulPos(q - 1.0, d);
      assert (q - 1.0) * d == q * d - d;
    }
    if i == u {
      DivSelf(d);
    }
  }

  /** `set(words[:len_shortest_corpus])`. */
  function Vocabulary(words: seq<string>, lenShortest: nat): set<string> {
    Elems(Take(words, lenShortest))
  }

  /** The table after one author of `jaccard_test`: "unknown" is skipped, two
      empty vocabularies raise ZeroDivisionError (None). */
  function JaccardUpdate(t: seq<Entry<string, real>>, author: string, words: seq<string>,
                         lenShortest: nat, unknownVocab: set<string>): Option<seq<Entry<string, real>>>
  {
    if author == "unknown" then Some(t)
    else
      match Jaccard(Vocabulary(words, lenShortest), unknownVocab)
      case None => None
      case Some(v) => Some(Put(t, author, v))
  }

  /** The Jaccard table over the known authors, or None when the function raises. */
  function JaccardTable(d: seq<Entry<string, seq<string>>>, lenShortest: nat, unknownVocab: set<string>)
    : Option<seq<Entry<string, real>>>
    decreases |d|
  {
    if d == [] then Some([])
    else
      var n := |d| - 1;
      match JaccardTable(d[..n], lenShortest, unknownVocab)
      case None => None
      case Some(t) => JaccardUpdate(t, d[n].key, d[n].value, lenShortest, unknownVocab)
  }

  /** What `jaccard_test` concludes: the known author with the largest index, or None
      when it raises (no "unknown" corpus, both vocabularies empty, or no known
      author). */
  function JaccardChoice(d: seq<Entry<string, seq<string>>>, lenShortest: nat): Option<string> {
    match UnknownCorpus(d)
    case None => None
    case Some(unknown) =>
      match JaccardTable(d, lenShortest, Vocabulary(unknown, lenShortest))
      case None => None
      case Some(t) => MaxKey(t)
  }

  /** Every entry of the Jaccard table belongs to a known author, holds an index in
      [0, 1], and no author is listed twice. */
  lemma {:induction false} JaccardTableFacts(d: seq<Entry<string, seq<string>>>, lenShortest: nat,
                                             unknownVocab: set<string>)
    ensures JaccardTable(d, lenShortest, unknownVocab).Some? ==>
              var t := JaccardTable(d, lenShortest, unknownVocab).value;
              IsDict(t) &&
              forall i | 0 <= i < |t| :: t[i].key != "unknown" && t[i].key in Keys(d) &&
                                         0.0 <= t[i].value <= 1.0
    decreases |d|
  {
    if d != [] {
      var n := |d| - 1;
      JaccardTableFacts(d[..n], lenShortest, unknownVocab);
      KeysPrefix(d, n);
      var r := JaccardTable(d[..n], lenShortest, unknownVocab);
      if r.Some? && d[n].key != "unknown" {
        var a := Vocabulary(d[n].value, lenShortest);
        if Jaccard(a, unknownVocab).Some? {
          JaccardBounds(a, unknownVocab);
          PutFacts(r.value, d[n].key, Jaccard(a, unknownVocab).value);
        }
      }
    }
  }

  /** The chosen author is a known author whose index is the largest in the table,
      and every author listed before it has a strictly smaller one. */
  lemma JaccardChoiceIsMaximum(d: seq<Entry<string, seq<string>>>, lenShortest: nat)
    requires IsDict(d)
    ensures JaccardChoice(d, lenShortest).Some? ==>
              var t := JaccardTable(d, lenShortest, Vocabulary(UnknownCorpus(d).value, lenShortest)).value;
              exists i | 0 <= i < |t| :: t[i].key == JaccardChoice(d, lenShortest).value && t[i].key != "unknown" &&
                (forall j | 0 <= j < |t| :: t[j].value <= t[i].value) &&
                (forall j | 0 <= j < i :: t[j].value < t[i].value)
  {
    if UnknownCorpus(d).Some? {
      var uv := Vocabulary(UnknownCorpus(d).value, lenShortest);
      JaccardTableFacts(d, lenShortest, uv);
      var r := JaccardTable(d, lenShortest, uv);
      if r.Some? && r.value != [] {
        var i := ArgMaxIndex(r.value);
        assert r.value[i].key == JaccardChoice(d, lenShortest).value;
      }
    }
  }

  /** `jaccard_test`: the vocabularies are the first `len_shortest_corpus` words of
      each corpus; "unknown" is compared against every other author. */
  method JaccardTest(d: seq<Entry<string, seq<string>>>, lenShortest: nat) returns (mostLikely: Option<string>)
    ensures mostLikely == JaccardChoice(d, lenShortest)
  {
    if "unknown" !in Keys(d) {
      return None;
    }
    var uniqueWordsUnknown := Vocabulary(Lookup(d, "unknown"), lenShortest);
    var jaccardByAuthor: seq<Entry<string, real>> := [];
    var i := 0;
    while i < |d|
      invariant 0 <= i <= |d|
      invariant JaccardTable(d[..i], lenShortest, uniqueWordsUnknown) == Some(jaccardByAuthor)
    {
      JaccardTableExtend(d, lenShortest, uniqueWordsUnknown, i);
      var author := d[i].key;
      if author != "unknown" {
        var uniqueWordsAuthor := Vocabulary(d[i].value, lenShortest);
        var sim := Jaccard(uniqueWordsAuthor, uniqueWordsUnknown);
        if sim.None? {
          JaccardTablePrefixFails(d, lenShortest, uniqueWordsUnknown, i + 1);
          return None;
        }
        jaccardByAuthor := Put(jaccardByAuthor, author, sim.value);
      }
      i := i + 1;
    }
    assert d[..i] == d;
    mostLikely := MaxKey(jaccardByAuthor);
  }

  /** One more author extends the table by one update. */
  lemma JaccardTableExtend(d: seq<Entry<string, seq<string>>>, lenShortest: nat, unknownVocab: set<string>, i: nat)
    requires i < |d|
    ensures JaccardTable(d[..i + 1], lenShortest, unknownVocab) ==
            match JaccardTable(d[..i], lenShortest, unknownVocab)
            case None => None
            case Some(t) => JaccardUpdate(t, d[i].key, d[i].value, lenShortest, unknownVocab)
  {
    assert d[..i + 1][..i] == d[..i];
  }

  /** Once a prefix of the authors raises, the whole table raises. */
  lemma {:induction false} JaccardTablePrefixFails(d: seq<Entry<string, seq<string>>>, lenShortest: nat,
                                                   unknownVocab: set<string>, k: nat)
    requires k <= |d|
    requires JaccardTable(d[..k], lenShortest, unknownVocab).None?
    ensures JaccardTable(d, lenShortest, unknownVocab).None?
    decreases |d| - k
  {
    if k < |d| {
      assert d[..k + 1][..k] == d[..k];
      JaccardTablePrefixFails(d, lenShortest, unknownVocab, k + 1);
    } else {
      assert d[..k] == d;
    }
  }
}
