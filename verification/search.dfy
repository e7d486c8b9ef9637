/** The Bayesian search-and-rescue game: the `Search` object holding the beliefs
    p1..p3, the effectiveness values sep1..sep3 of the current round and the sailor's
    true position, and one round of the game's menu loop.

    Random draws are parameters: the placement draw of `random.triangular`, the local
    cell drawn with `np.random.choice`, the three `random.uniform(0.2, 0.9)` values and
    the orders produced by `random.shuffle` (any reordering of the cell list). */
module SearchAndRescue {
  import opened Collections
  import opened Areas
  import opened Belief

  /** The string a search returns: 'Not found.' or f'Found in area {n}.'. */
  datatype Report = NotFound | FoundIn(area: int)

  /** The observable state of a `Search` object. */
  datatype State = State(p: Triple, sep: Triple, areaActual: int, sailor: Cell)

  // ---------------------------------------------------------------------
  // Specification of one search of an area.

  lemma ScaleBelow(c: real, e: real)
    requires c >= 0.0 && 0.0 <= e <= 1.0
    ensures 0.0 <= c * e <= c
  {
    assert c - c * e == c * (1.0 - e);
  }

  /** `int(len(coords) * effectiveness_prob)`: the number of cells a search covers,
      floor(C * e) for the C cells of the area. */
  function CoverageSize(a: Area, e: real): (k: nat)
    requires 0.0 <= e <= 1.0
    ensures k <= CellCount(a)
    ensures k as real <= CellCount(a) as real * e < k as real + 1.0
  {
    FloorScaled(CellCount(a), e);
    (CellCount(a) as real * e).Floor
  }

  /** floor(n * e) lies in [0, n] for e in [0, 1]. */
  lemma FloorScaled(n: nat, e: real)
    requires 0.0 <= e <= 1.0
    ensures 0 <= (n as real * e).Floor <= n
  {
    ScaleBelow(n as real, e);
  }

  /** The cells a search covers: the first floor(C * e) cells of the shuffled cell list. */
  function Coverage(a: Area, e: real, shuffled: seq<Cell>): (coords: seq<Cell>)
    requires 0.0 <= e <= 1.0
    requires IsShuffleOf(shuffled, a)
    ensures |coords| == CoverageSize(a, e)
    ensures |coords| <= |shuffled| && coords == shuffled[..|coords|]
    ensures Distinct(coords)
    ensures forall c | c in coords :: InGrid(a, c)
  {
    ShuffleFacts(shuffled, a);
    shuffled[..CoverageSize(a, e)]
  }

  /** The report of a search of area `areaNum` that covered `coords`. */
  function Outcome(areaNum: int, st: State, coords: seq<Cell>): (r: Report)
    ensures r == FoundIn(areaNum) <==> areaNum == st.areaActual && st.sailor in coords
    ensures r == NotFound || r == FoundIn(areaNum)
  {
    if areaNum == st.areaActual && st.sailor in coords then FoundIn(areaNum) else NotFound
  }

  /** `len(set(coords_1 + coords_2)) / len(area) ** 2`: the share of distinct cells
      covered by two searches of area n. `len` of the slice is its number of rows. */
  function CombinedEffectiveness(n: int, c1: seq<Cell>, c2: seq<Cell>): real
    requires 1 <= n <= 3
  {
    SameGrid(n);
    Share(|Elems(c1 + c2)|, Height(SearchArea(n)))
  }

  /** `count / rows ** 2`. */
  function Share(count: nat, rows: nat): real
    requires rows > 0
  {
    count as real / (rows * rows) as real
  }

  /** The share of k..2k cells out of a 50-row grid. */
  lemma ShareBounds(u: nat, k: nat)
    requires k <= u <= 2 * k && u <= 2500
    ensures k as real / 2500.0 <= Share(u, 50) <= 2.0 * k as real / 2500.0
    ensures 0.0 <= Share(u, 50) <= 1.0
    ensures Share(u, 50) == 1.0 <==> u == 2500
  {
  }

  /** Each search area is a grid of 50 rows and 2500 cells. */
  lemma SameGrid(n: int)
    requires 1 <= n <= 3
    ensures Height(SearchArea(n)) == 50
    ensures CellCount(SearchArea(n)) == 2500
  {
    SearchAreasLayout();
  }

  lemma UnionCard<T>(a: set<T>, b: set<T>)
    ensures |a + b| <= |a| + |b|
  {
    assert a + b == a + (b - a);
    assert a * (b - a) == {};
    SubsetCard(b - a, b);
  }

  /** The distinct cells of two duplicate-free lists of k cells from a grid: at least
      k, at most 2k, at most the whole grid, and the whole grid exactly when they
      cover it. */
  lemma UnionBounds(c1: seq<Cell>, c2: seq<Cell>, all: set<Cell>)
    requires Distinct(c1) && Distinct(c2) && |c1| == |c2|
    requires Elems(c1 + c2) <= all
    ensures |c1| <= |Elems(c1 + c2)| <= 2 * |c1|
    ensures |Elems(c1 + c2)| <= |all|
    ensures |Elems(c1 + c2)| == |all| <==> all <= Elems(c1 + c2)
  {
    var u := Elems(c1 + c2);
    DistinctCard(c1);
    DistinctCard(c2);
    assert u == Elems(c1) + Elems(c2);
    SubsetCard(Elems(c1), u);
    UnionCard(Elems(c1), Elems(c2));
    SubsetCard(u, all);
    if |u| == |all| {
      SubsetCardEqual(u, all);
    }
    if all <= u {
      assert u == all;
    }
  }

  /** A set of cells holds the whole cell list of an area iff it holds every in-grid cell. */
  lemma CoversGrid(a: Area, u: set<Cell>)
    ensures Elems(CellsOf(a)) <= u <==> forall c | InGrid(a, c) :: c in u
  {
    CellsOfFacts(a);
    if Elems(CellsOf(a)) <= u {
      forall c | InGrid(a, c) ensures c in u {
        assert c in CellsOf(a);
      }
    }
  }

  /** Two searches of k cells each of the same area cover between k and 2k distinct
      cells, at most all 2500, and all 2500 exactly when every cell was covered. */
  lemma CombinedCount(n: int, e: real, s1: seq<Cell>, s2: seq<Cell>)
    requires 1 <= n <= 3 && 0.0 <= e <= 1.0
    requires IsShuffleOf(s1, SearchArea(n)) && IsShuffleOf(s2, SearchArea(n))
    ensures var k := CoverageSize(SearchArea(n), e);
            var u := Elems(Coverage(SearchArea(n), e, s1) + Coverage(SearchArea(n), e, s2));
            k <= |u| <= 2 * k && |u| <= 2500 &&
            (|u| == 2500 <==> forall c | InGrid(SearchArea(n), c) :: c in u)
  {
    var a := SearchArea(n);
    SameGrid(n);
    var c1, c2 := Coverage(a, e, s1), Coverage(a, e, s2);
    var all := Elems(CellsOf(a));
    var u := Elems(c1 + c2);
    assert u <= all && |all| == 2500 by {
      CellsOfFacts(a);
    }
    UnionBounds(c1, c2, all);
    CoversGrid(a, u);
  }

  /** Two searches of the same area with effectiveness e cover a share of the area
      between floor(C e)/C and min(1, 2 floor(C e)/C), and the share is 1 exactly when
      every cell of the area was covered. */
  lemma CombinedBounds(n: int, e: real, s1: seq<Cell>, s2: seq<Cell>)
    requires 1 <= n <= 3 && 0.0 <= e <= 1.0
    requires IsShuffleOf(s1, SearchArea(n)) && IsShuffleOf(s2, SearchArea(n))
    ensures var k := CoverageSize(SearchArea(n), e);
            var v := CombinedEffectiveness(n, Coverage(SearchArea(n), e, s1), Coverage(SearchArea(n), e, s2));
            k as real / 2500.0 <= v <= 2.0 * k as real / 2500.0 && 0.0 <= v <= 1.0
    ensures var c1, c2 := Coverage(SearchArea(n), e, s1), Coverage(SearchArea(n), e, s2);
            CombinedEffectiveness(n, c1, c2) == 1.0 <==> forall c | InGrid(SearchArea(n), c) :: c in c1 + c2
  {
    var a := SearchArea(n);
    var c1, c2 := Coverage(a, e, s1), Coverage(a, e, s2);
    var u := Elems(c1 + c2);
    CombinedCount(n, e, s1, s2);
    assert CombinedEffectiveness(n, c1, c2) == Share(|u|, 50) by {
      SameGrid(n);
    }
    ShareBounds(|u|, CoverageSize(a, e));
    assert (forall c | InGrid(a, c) :: c in u) <==> (forall c | InGrid(a, c) :: c in c1 + c2);
  }

  // ---------------------------------------------------------------------
  // The `Search` object.

  class Search {
    var p1: real
    var p2: real
    var p3: real
    var sep1: real
    var sep2: real
    var sep3: real
    var areaActual: int
    var sailorActual: Cell

    function Beliefs(): Triple
      reads this
    {
      Triple(p1, p2, p3)
    }

    function Effectiveness(): Triple
      reads this
    {
      Triple(sep1, sep2, sep3)
    }

    function Model(): State
      reads this
    {
      State(Beliefs(), Effectiveness(), areaActual, sailorActual)
    }

    /** A fresh search: priors 0.2, 0.5, 0.3 (a distribution), no effectiveness yet,
        no area and the local cell (0, 0). */
    constructor ()
      ensures Model() == State(Priors, Triple(0.0, 0.0, 0.0), 0, Cell(0, 0))
      ensures IsDistribution(Beliefs())
    {
      areaActual := 0;
      sailorActual := Cell(0, 0);
      p1, p2, p3 := 0.2, 0.5, 0.3;
      sep1, sep2, sep3 := 0.0, 0.0, 0.0;
    }

    /** Places the sailor: the local cell is drawn from the shape of area 1, the area
        is `int` of a triangular draw in [1, numSearchAreas + 1). An area outside 1..3
        assigns no coordinates and the `return` fails (None). */
    method SailorFinalLocation(numSearchAreas: int, localX: int, localY: int, draw: real)
        returns (loc: Option<Cell>)
      requires 1.0 <= draw < (numSearchAreas + 1) as real
      requires 0 <= localX < Width(SA1) && 0 <= localY < Height(SA1)
      modifies this`sailorActual, this`areaActual
      ensures sailorActual == Cell(localX, localY)
      ensures 1 <= draw.Floor <= 3 ==>
                areaActual == draw.Floor && loc == Some(ToMap(SearchArea(draw.Floor), sailorActual))
      ensures !(1 <= draw.Floor <= 3) ==> areaActual == old(areaActual) && loc == None
      ensures numSearchAreas == 3 ==> 1 <= areaActual <= 3 && loc.Some?
      ensures loc.Some? ==> InGrid(SearchArea(areaActual), sailorActual) &&
                            InRect(SearchArea(areaActual), loc.value.x, loc.value.y)
    {
      sailorActual := Cell(localX, localY);
      var area := draw.Floor;
      SearchAreasLayout();
      if area == 1 {
        loc := Some(Cell(sailorActual.x + SA1.ulx, sailorActual.y + SA1.uly));
        areaActual := 1;
      } else if area == 2 {
        loc := Some(Cell(sailorActual.x + SA2.ulx, sailorActual.y + SA2.uly));
        areaActual := 2;
      } else if area == 3 {
        loc := Some(Cell(sailorActual.x + SA3.ulx, sailorActual.y + SA3.uly));
        areaActual := 3;
      } else {
        loc := None;
      }
    }

    /** Draws this round's effectiveness of each area from [0.2, 0.9]. */
    method CalcSearchEffectiveness(e1: real, e2: real, e3: real)
      requires 0.2 <= e1 <= 0.9 && 0.2 <= e2 <= 0.9 && 0.2 <= e3 <= 0.9
      modifies this`sep1, this`sep2, this`sep3
      ensures Effectiveness() == Triple(e1, e2, e3)
      ensures IsFractionTriple(Effectiveness())
    {
      sep1 := e1;
      sep2 := e2;
      sep3 := e3;
    }

    /** Searches area `areaNum`: lists the cells of `area` in `it.product` order, puts
        them in the shuffled order, keeps the first floor(C * e) and reports a find iff
        the sailor is in this area and in the kept cells. */
    method ConductSearch(areaNum: int, area: Area, effectivenessProb: real, shuffled: seq<Cell>)
        returns (result: Report, coords: seq<Cell>)
      requires 0.0 <= effectivenessProb <= 1.0
      requires IsShuffleOf(shuffled, area)
      ensures coords == Coverage(area, effectivenessProb, shuffled)
      ensures |coords| == CoverageSize(area, effectivenessProb)
      ensures Distinct(coords) && forall c | c in coords :: InGrid(area, c)
      ensures result == FoundIn(areaNum) <==> areaNum == areaActual && sailorActual in coords
      ensures result == NotFound || result == FoundIn(areaNum)
    {
      coords := shuffled;
      ShuffleFacts(shuffled, area);
      ScaleBelow(|coords| as real, effectivenessProb);
      coords := coords[..((|coords| as real) * effectivenessProb).Floor];
      var locActual := sailorActual;
      if areaNum == areaActual && locActual in coords {
        result := FoundIn(areaNum);
      } else {
        result := NotFound;
      }
    }

    /** Bayes' rule: p_i := p_i (1 - sep_i) / denom. A zero denominator raises before
        any belief is written (false). */
    method ReviseTargetProbs() returns (ok: bool)
      modifies this`p1, this`p2, this`p3
      ensures ok <==> Revise(old(Beliefs()), Effectiveness()).Some?
      ensures ok ==> Beliefs() == Revise(old(Beliefs()), Effectiveness()).value
      ensures !ok ==> Beliefs() == old(Beliefs())
    {
      var denom := Mass(p1, sep1) + Mass(p2, sep2) + Mass(p3, sep3);
      if denom == 0.0 {
        return false;
      }
      p1 := Mass(p1, sep1) / denom;
      p2 := Mass(p2, sep2) / denom;
      p3 := Mass(p3, sep3) / denom;
      return true;
    }
  }

  // ---------------------------------------------------------------------
  // One round of the menu loop.

  /** The menu option a typed choice selects: 0-7 for the strings "0".."7" that `main`
      compares against, -1 for anything else. */
  function MenuNumber(choice: string): (n: int)
    ensures -1 <= n <= 7
    ensures n != -1 <==> |choice| == 1 && '0' <= choice[0] <= '7'
    ensures n != -1 ==> n == choice[0] as int - '0' as int
  {
    if choice == "0" then 0
    else if choice == "1" then 1
    else if choice == "2" then 2
    else if choice == "3" then 3
    else if choice == "4" then 4
    else if choice == "5" then 5
    else if choice == "6" then 6
    else if choice == "7" then 7
    else -1
  }

  /** `str(k)` for an area number k. */
  function Choice(k: int): (choice: string)
    requires 1 <= k <= 3
    ensures MenuNumber(choice) == k
  {
    if k == 1 then "1" else if k == 2 then "2" else "3"
  }

  /** The options that search: 1-3 search one area twice, 4-6 split the search. */
  predicate IsSearchOption(n: int) {
    1 <= n <= 6
  }

  /** The two areas an option searches, in order. */
  function SearchedAreas(n: int): (ab: (int, int))
    requires IsSearchOption(n)
    ensures 1 <= ab.0 <= ab.1 <= 3
    ensures ab.0 == ab.1 <==> n <= 3
    ensures n <= 3 ==> ab.0 == n
  {
    match n
    case 1 => (1, 1)
    case 2 => (2, 2)
    case 3 => (3, 3)
    case 4 => (1, 2)
    case 5 => (1, 3)
    case _ => (2, 3)
  }

  /** What the two searches of a round report, and the effectiveness values left for
      the revision. */
  datatype Round = Round(result1: Report, result2: Report, sep: Triple)

  /** The search part of a round: two searches with the current effectiveness values;
      searching one area twice replaces the three values by the combined coverage of
      that area and zeros, a split search zeros the value of the third area. */
  function SearchRound(st: State, n: int, s1: seq<Cell>, s2: seq<Cell>): Round
    requires IsSearchOption(n) && IsFractionTriple(st.sep)
    requires IsGridShuffle(s1) && IsGridShuffle(s2)
  {
    var (a, b) := SearchedAreas(n);
    SameGrid(a);
    var c1 := Coverage(SearchArea(a), st.sep.At(a), s1);
    var c2 := Coverage(SearchArea(b), st.sep.At(b), s2);
    var sep := if a == b then Triple(0.0, 0.0, 0.0).With(a, CombinedEffectiveness(a, c1, c2))
               else st.sep.With(6 - a - b, 0.0);
    Round(Outcome(a, st, c1), Outcome(b, st, c2), sep)
  }

  /** A shuffled cell list of whichever area is searched (the three lists are equal). */
  predicate IsGridShuffle(s: seq<Cell>) {
    forall n | 1 <= n <= 3 :: IsShuffleOf(s, SearchArea(n))
  }

  /** The draws of one round: three effectiveness values and the orders of the two
      searches. */
  datatype Draws = Draws(e: Triple, shuffle1: seq<Cell>, shuffle2: seq<Cell>)

  predicate ValidDraws(d: Draws) {
    0.2 <= d.e.a1 <= 0.9 && 0.2 <= d.e.a2 <= 0.9 && 0.2 <= d.e.a3 <= 0.9 &&
    IsGridShuffle(d.shuffle1) && IsGridShuffle(d.shuffle2)
  }

  /** How a round of the menu loop ends: `sys.exit`, a restart, an invalid choice, a
      `ZeroDivisionError` in the revision, or two searches and a revision. */
  datatype Step = Exit | Restart | Invalid | Crash | Searched(result1: Report, result2: Report)

  predicate Failed(step: Step) {
    step.Searched? && step.result1 == NotFound && step.result2 == NotFound
  }

  /** A search round after the effectiveness draw: the two searches, then the
      revision with the effectiveness values they leave. */
  function SearchStep(st: State, n: int, s1: seq<Cell>, s2: seq<Cell>): (Step, State)
    requires IsSearchOption(n) && IsFractionTriple(st.sep)
    requires IsGridShuffle(s1) && IsGridShuffle(s2)
  {
    var rd := SearchRound(st, n, s1, s2);
    var st2 := st.(sep := rd.sep);
    match Revise(st.p, rd.sep)
    case None => (Crash, st2)
    case Some(q) => (Searched(rd.result1, rd.result2), st2.(p := q))
  }

  /** One round of the menu loop, for menu option n, as a function of the state
      before it. */
  function MainStep(st: State, n: int, d: Draws): (Step, State)
    requires ValidDraws(d)
  {
    var st1 := st.(sep := d.e);
    if n == 0 then (Exit, st1)
    else if IsSearchOption(n) then SearchStep(st1, n, d.shuffle1, d.shuffle2)
    else if n == 7 then (Restart, st1)
    else (Invalid, st1)
  }

  /** The approach number after a round: only a round whose two searches failed
      reaches `search_num += 1`. */
  function NextSearchNum(step: Step, searchNum: int): int {
    if Failed(step) then searchNum + 1 else searchNum
  }

  /** The two `conduct_search` calls of a round: area a with shuffle s1, then area b
      with shuffle s2, each with its area's current effectiveness value. */
  method SearchTwo(app: Search, a: int, b: int, s1: seq<Cell>, s2: seq<Cell>)
      returns (result1: Report, coords1: seq<Cell>, result2: Report, coords2: seq<Cell>)
    requires 1 <= a <= 3 && 1 <= b <= 3 && IsFractionTriple(app.Effectiveness())
    requires IsGridShuffle(s1) && IsGridShuffle(s2)
    ensures coords1 == Coverage(SearchArea(a), app.Effectiveness().At(a), s1)
    ensures coords2 == Coverage(SearchArea(b), app.Effectiveness().At(b), s2)
    ensures result1 == Outcome(a, app.Model(), coords1)
    ensures result2 == Outcome(b, app.Model(), coords2)
  {
    result1, coords1 := app.ConductSearch(a, SearchArea(a), app.Effectiveness().At(a), s1);
    result2, coords2 := app.ConductSearch(b, SearchArea(b), app.Effectiveness().At(b), s2);
  }

  /** The branches of `main` for choices "1"-"6": two searches of `app` and the new
      effectiveness values. */
  method SearchChoice(app: Search, choice: string, s1: seq<Cell>, s2: seq<Cell>)
      returns (result1: Report, result2: Report)
    requires IsSearchOption(MenuNumber(choice)) && IsFractionTriple(app.Effectiveness())
    requires IsGridShuffle(s1) && IsGridShuffle(s2)
    modifies app`sep1, app`sep2, app`sep3
    ensures Round(result1, result2, app.Effectiveness()) == SearchRound(old(app.Model()), MenuNumber(choice), s1, s2)
  {
    ghost var st := app.Model();
    var coords1, coords2;
    if choice == "1" {
      result1, coords1, result2, coords2 := SearchTwo(app, 1, 1, s1, s2);
      ghost var rd := SearchRound(st, 1, s1, s2);
      app.sep1 := CombinedEffectiveness(1, coords1, coords2);
      app.sep2 := 0.0;
      app.sep3 := 0.0;
    } else if choice == "2" {
      result1, coords1, result2, coords2 := SearchTwo(app, 2, 2, s1, s2);
      ghost var rd := SearchRound(st, 2, s1, s2);
      app.sep1 := 0.0;
      app.sep2 := CombinedEffectiveness(2, coords1, coords2);
      app.sep3 := 0.0;
    } else if choice == "3" {
      result1, coords1, result2, coords2 := SearchTwo(app, 3, 3, s1, s2);
      ghost var rd := SearchRound(st, 3, s1, s2);
      app.sep1 := 0.0;
      app.sep2 := 0.0;
      app.sep3 := CombinedEffectiveness(3, coords1, coords2);
    } else if choice == "4" {
      result1, coords1, result2, coords2 := SearchTwo(app, 1, 2, s1, s2);
      ghost var rd := SearchRound(st, 4, s1, s2);
      app.sep3 := 0.0;
    } else if choice == "5" {
      result1, coords1, result2, coords2 := SearchTwo(app, 1, 3, s1, s2);
      ghost var rd := SearchRound(st, 5, s1, s2);
      app.sep2 := 0.0;
    } else {
      result1, coords1, result2, coords2 := SearchTwo(app, 2, 3, s1, s2);
      ghost var rd := SearchRound(st, 6, s1, s2);
      app.sep1 := 0.0;
    }
  }

  /** Choices "1"-"6" of `main`: the two searches and the revision. */
  method SearchAndRevise(app: Search, choice: string, s1: seq<Cell>, s2: seq<Cell>)
      returns (step: Step)
    requires IsSearchOption(MenuNumber(choice)) && IsFractionTriple(app.Effectiveness())
    requires IsGridShuffle(s1) && IsGridShuffle(s2)
    modifies app`p1, app`p2, app`p3, app`sep1, app`sep2, app`sep3
    ensures (step, app.Model()) == SearchStep(old(app.Model()), MenuNumber(choice), s1, s2)
  {
    ghost var rd := SearchRound(app.Model(), MenuNumber(choice), s1, s2);
    var result1, result2 := SearchChoice(app, choice, s1, s2);
    var ok := app.ReviseTargetProbs();
    if !ok {
      return Crash;
    }
    return Searched(result1, result2);
  }

  /** One round of `main` on the object `app`, with the player's choice and the round's
      draws as parameters. */
  method MainRound(app: Search, searchNum: int, choice: string, d: Draws)
      returns (step: Step, next: int)
    requires ValidDraws(d)
    modifies app
    ensures (step, app.Model()) == MainStep(old(app.Model()), MenuNumber(choice), d)
    ensures next == NextSearchNum(step, searchNum)
  {
    app.CalcSearchEffectiveness(d.e.a1, d.e.a2, d.e.a3);
    if choice == "0" {
      return Exit, searchNum;
    } else if choice == "1" || choice == "2" || choice == "3" || choice == "4" || choice == "5" || choice == "6" {
      step := SearchAndRevise(app, choice, d.shuffle1, d.shuffle2);
      if step.Searched? && step.result1 == NotFound && step.result2 == NotFound {
        next := searchNum + 1;
      } else {
        next := searchNum;
      }
    } else if choice == "7" {
      return Restart, searchNum;
    } else {
      return Invalid, searchNum;
    }
  }

  // ---------------------------------------------------------------------
  // Properties of a round.

  /** A choice other than "0".."7" skips the searches, the revision and the counter. */
  lemma InvalidChoiceSkipsRound(st: State, choice: string, d: Draws, searchNum: int)
    requires ValidDraws(d)
    requires choice !in {"0", "1", "2", "3", "4", "5", "6", "7"}
    ensures MainStep(st, MenuNumber(choice), d).0 == Invalid
    ensures MainStep(st, MenuNumber(choice), d).1.p == st.p
    ensures NextSearchNum(MainStep(st, MenuNumber(choice), d).0, searchNum) == searchNum
  {
  }

  /** A search round keeps the sailor where it is, leaves effectiveness values in
      [0, 1], and revises the beliefs exactly once with them: either the revision
      raises, or the new beliefs are the revised ones and form a distribution again. */
  lemma SearchRoundRevisesOnce(st: State, n: int, d: Draws)
    requires ValidDraws(d) && IsSearchOption(n) && IsDistribution(st.p)
    ensures var (step, st2) := MainStep(st, n, d);
            IsFractionTriple(st2.sep) &&
            st2.areaActual == st.areaActual && st2.sailor == st.sailor &&
            (step.Crash? <==> Revise(st.p, st2.sep).None?) &&
            (!step.Crash? ==> step.Searched? && st2.p == Revise(st.p, st2.sep).value && IsDistribution(st2.p))
  {
    var (a, b) := SearchedAreas(n);
    var st1 := st.(sep := d.e);
    SameGrid(a);
    SameGrid(b);
    var rd := SearchRound(st1, n, d.shuffle1, d.shuffle2);
    assert IsFractionTriple(rd.sep) by {
      if a == b {
        CombinedBounds(a, d.e.At(a), d.shuffle1, d.shuffle2);
      }
    }
    if Revise(st.p, rd.sep).Some? {
      ReviseIsDistribution(st.p, rd.sep);
    }
  }

  /** Searching area k twice (options 1-3) sets sep_k to the combined coverage, which
      lies between floor(C e_k)/C >= 0.2 and min(1, 2 floor(C e_k)/C), and the other
      two values to exactly 0. */
  lemma DoubleSearchSeps(st: State, k: int, d: Draws)
    requires ValidDraws(d) && 1 <= k <= 3
    ensures var sep := MainStep(st, k, d).1.sep;
            var kc := CoverageSize(SearchArea(k), d.e.At(k));
            kc as real / 2500.0 <= sep.At(k) <= 2.0 * kc as real / 2500.0 &&
            0.2 <= sep.At(k) <= 1.0 &&
            forall m | 1 <= m <= 3 && m != k :: sep.At(m) == 0.0
  {
    SameGrid(k);
    CombinedBounds(k, d.e.At(k), d.shuffle1, d.shuffle2);
    var kc := CoverageSize(SearchArea(k), d.e.At(k));
    assert kc >= 500;
  }

  /** A split search (options 4-6) keeps the drawn values of the two searched areas,
      zeroes only the third, and its revision never raises. */
  lemma SplitSearchSeps(st: State, n: int, d: Draws)
    requires ValidDraws(d) && 4 <= n <= 6
    ensures var (a, b) := SearchedAreas(n);
            var sep := MainStep(st, n, d).1.sep;
            forall m | 1 <= m <= 3 :: sep.At(m) == if m == a || m == b then d.e.At(m) else 0.0
    ensures IsDistribution(st.p) ==> !MainStep(st, n, d).0.Crash?
  {
    var (a, b) := SearchedAreas(n);
    var sep := MainStep(st, n, d).1.sep;
    assert sep == d.e.With(6 - a - b, 0.0);
    if IsDistribution(st.p) {
      RevisePossibleBelowOne(st.p, sep);
    }
  }

  /** Searching area k twice raises ZeroDivisionError exactly when all belief is on
      area k and the two searches together covered every cell of it. */
  lemma DoubleSearchCrashIff(st: State, k: int, d: Draws)
    requires ValidDraws(d) && 1 <= k <= 3 && IsDistribution(st.p)
    ensures var a := SearchArea(k);
            MainStep(st, k, d).0.Crash? <==>
            st.p.At(k) == 1.0 &&
            forall c | InGrid(a, c) :: c in Coverage(a, d.e.At(k), d.shuffle1) + Coverage(a, d.e.At(k), d.shuffle2)
  {
    var a := SearchArea(k);
    SameGrid(k);
    var c1, c2 := Coverage(a, d.e.At(k), d.shuffle1), Coverage(a, d.e.At(k), d.shuffle2);
    var (step, st2) := MainStep(st, k, d);
    var sep := st2.sep;
    assert IsFractionTriple(sep) && (step.Crash? <==> Revise(st.p, sep).None?) by {
      SearchRoundRevisesOnce(st, k, d);
    }
    assert forall m | 1 <= m <= 3 && m != k :: sep.At(m) == 0.0 by {
      DoubleSearchSeps(st, k, d);
    }
    assert Revise(st.p, sep).None? <==> st.p.At(k) == 1.0 && sep.At(k) == 1.0 by {
      SingleSearchFailsIff(st.p, sep, k);
    }
    assert sep.At(k) == 1.0 <==> forall c | InGrid(a, c) :: c in c1 + c2 by {
      CombinedBounds(k, d.e.At(k), d.shuffle1, d.shuffle2);
      assert sep.At(k) == CombinedEffectiveness(k, c1, c2);
    }
  }

  /** Searching area k twice when 0 < p_k < 1 always revises, lowers p_k and raises
      every other area that had belief. */
  lemma DoubleSearchShiftsBelief(st: State, k: int, d: Draws)
    requires ValidDraws(d) && 1 <= k <= 3 && IsDistribution(st.p)
    requires 0.0 < st.p.At(k) < 1.0
    ensures var (step, st2) := MainStep(st, k, d);
            step.Searched? && st2.p.At(k) < st.p.At(k) &&
            forall m | 1 <= m <= 3 && m != k && st.p.At(m) > 0.0 :: st2.p.At(m) > st.p.At(m)
  {
    DoubleSearchSeps(st, k, d);
    SearchRoundRevisesOnce(st, k, d);
    var sep := MainStep(st, k, d).1.sep;
    SearchedAreaLosesOthersGain(st.p, sep, k);
  }

  /** A search reports a find only for an area that is the sailor's area, when the
      sailor's cell is among the cells that search covered. */
  lemma FoundOnlyInActualArea(st: State, n: int, d: Draws)
    requires ValidDraws(d) && IsSearchOption(n)
    ensures var (a, b) := SearchedAreas(n);
            var step := MainStep(st, n, d).0;
            step.Searched? && step.result1 != NotFound ==>
              step.result1 == FoundIn(a) && a == st.areaActual &&
              st.sailor in Coverage(SearchArea(a), d.e.At(a), d.shuffle1)
    ensures var (a, b) := SearchedAreas(n);
            var step := MainStep(st, n, d).0;
            step.Searched? && step.result2 != NotFound ==>
              step.result2 == FoundIn(b) && b == st.areaActual &&
              st.sailor in Coverage(SearchArea(b), d.e.At(b), d.shuffle2)
  {
    var (a, b) := SearchedAreas(n);
    SameGrid(a);
  }
}
