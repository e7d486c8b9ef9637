/** The Monte Carlo "search twice" driver: every round searches the first most
    probable area twice, and a trial returns the round in which the sailor was found. */
module MonteCarloTwice {
  import opened Collections
  import opened Areas
  import opened Belief
  import opened SearchAndRescue

  /** `max(s)`: scans left to right and keeps the larger value. */
  function MaxOf(s: seq<real>): (m: real)
    requires |s| > 0
    ensures m in s
    ensures forall i | 0 <= i < |s| :: s[i] <= m
  {
    if |s| == 1 then s[0]
    else
      var m := MaxOf(s[..|s| - 1]);
      if s[|s| - 1] > m then s[|s| - 1] else m
  }

  /** `s.index(v)`: the first position holding v. */
  function IndexOf(s: seq<real>, v: real): (i: nat)
    requires v in s
    ensures i < |s| && s[i] == v
    ensures forall j | 0 <= j < i :: s[j] != v
  {
    if s[0] == v then 0 else 1 + IndexOf(s[1..], v)
  }

  /** `to_choice = [app.p1, app.p2, app.p3]`. */
  function ToChoice(p: Triple): (s: seq<real>)
    ensures |s| == 3 && forall i | 0 <= i < 3 :: s[i] == p.At(i + 1)
  {
    [p.a1, p.a2, p.a3]
  }

  /** The area the policy searches: `to_choice.index(max(to_choice)) + 1`. */
  function Policy(p: Triple): int {
    var s := ToChoice(p);
    IndexOf(s, MaxOf(s)) + 1
  }

  /** `str(to_choice.index(max(to_choice)) + 1)`. */
  function PolicyChoice(p: Triple): string {
    var s := ToChoice(p);
    var k := IndexOf(s, MaxOf(s)) + 1;
    Choice(k)
  }

  /** The policy names an area 1..3, so the branches for "0" and "4"-"6" are dead; the
      area has the largest belief, and ties go to the lowest area number. */
  lemma PolicyPicksFirstMaximum(p: Triple)
    ensures var k := Policy(p);
            1 <= k <= 3 && MenuNumber(PolicyChoice(p)) == k &&
            (forall m | 1 <= m <= 3 :: p.At(m) <= p.At(k)) &&
            (forall m | 1 <= m < k :: p.At(m) < p.At(k))
  {
    var s := ToChoice(p);
    var mx := MaxOf(s);
    var i := IndexOf(s, mx);
    forall m | 1 <= m <= 3 ensures p.At(m) <= p.At(i + 1) {
      assert s[m - 1] == p.At(m);
    }
    forall m | 1 <= m < i + 1 ensures p.At(m) < p.At(i + 1) {
      assert s[m - 1] == p.At(m) && s[m - 1] != mx;
    }
  }

  /** How a trial of `main_twice` ends: the sailor is found in round n (the value
      returned), the revision raises in round n, or the supplied draws ran out before
      round n. */
  datatype TrialResult = Found(rounds: int) | Crashed(round: int) | OutOfDraws(round: int)

  predicate AllValid(draws: seq<Draws>) {
    forall i | 0 <= i < |draws| :: ValidDraws(draws[i])
  }

  /** The rounds of `main_twice` from state st with approach number searchNum, one
      element of `draws` per round. */
  function Trial(st: State, draws: seq<Draws>, searchNum: int): (t: TrialResult)
    requires AllValid(draws)
    ensures t.Found? ==> searchNum <= t.rounds < searchNum + |draws|
    ensures t.Crashed? ==> searchNum <= t.round < searchNum + |draws|
    ensures t.OutOfDraws? ==> t.round == searchNum + |draws|
    decreases |draws|
  {
    if draws == [] then OutOfDraws(searchNum)
    else
      var r := MainStep(st, Policy(st.p), draws[0]);
      if r.0.Crash? then Crashed(searchNum)
      else if Failed(r.0) then Trial(r.1, draws[1..], searchNum + 1)
      else Found(searchNum)
  }

  /** One round of the policy: it searches area k = Policy(p) twice, sets sep_k to
      the combined coverage and the other values to 0, revises once, and either
      raises or leaves a distribution; if 0 < p_k < 1 the belief in k falls and every
      other area with belief gains. */
  lemma TwiceRound(st: State, d: Draws)
    requires ValidDraws(d) && IsDistribution(st.p)
    ensures var k := Policy(st.p);
            var (step, st2) := MainStep(st, k, d);
            (step.Searched? || step.Crash?) &&
            IsFractionTriple(st2.sep) && st2.sep.At(k) >= 0.2 &&
            (forall m | 1 <= m <= 3 && m != k :: st2.sep.At(m) == 0.0) &&
            (step.Searched? ==> st2.p == Revise(st.p, st2.sep).value && IsDistribution(st2.p)) &&
            (0.0 < st.p.At(k) < 1.0 ==>
               step.Searched? && st2.p.At(k) < st.p.At(k) &&
               forall m | 1 <= m <= 3 && m != k && st.p.At(m) > 0.0 :: st2.p.At(m) > st.p.At(m))
  {
    PolicyPicksFirstMaximum(st.p);
    var k := Policy(st.p);
    SearchRoundRevisesOnce(st, k, d);
    DoubleSearchSeps(st, k, d);
    if 0.0 < st.p.At(k) < 1.0 {
      DoubleSearchShiftsBelief(st, k, d);
    }
  }

  /** A round of the policy succeeds only if the searched area is the sailor's area
      and the sailor's cell is in one of the two coverage lists. */
  lemma TwiceFoundOnlyInActualArea(st: State, d: Draws)
    requires ValidDraws(d)
    ensures var k := Policy(st.p);
            var step := MainStep(st, k, d).0;
            step.Searched? && !Failed(step) ==>
              k == st.areaActual &&
              (st.sailor in Coverage(SearchArea(k), d.e.At(k), d.shuffle1) ||
               st.sailor in Coverage(SearchArea(k), d.e.At(k), d.shuffle2))
  {
    PolicyPicksFirstMaximum(st.p);
    FoundOnlyInActualArea(st, Policy(st.p), d);
  }

  /** The state right after `sailor_final_location(num_search_areas=3)`. */
  function Placed(area: int, cell: Cell): State {
    State(Priors, Triple(0.0, 0.0, 0.0), area, cell)
  }

  /** One pass of the `main_twice` loop body up to the revision: draw the
      effectiveness values, pick the area by the policy, search it twice and revise. */
  method PolicyRound(app: Search, d: Draws) returns (step: Step)
    requires ValidDraws(d) && IsDistribution(app.Beliefs())
    modifies app`p1, app`p2, app`p3, app`sep1, app`sep2, app`sep3
    ensures (step, app.Model()) == MainStep(old(app.Model()), Policy(old(app.Beliefs())), d)
    ensures step.Searched? || step.Crash?
    ensures step.Searched? ==> IsDistribution(app.Beliefs())
  {
    ghost var st := app.Model();
    app.CalcSearchEffectiveness(d.e.a1, d.e.a2, d.e.a3);
    var toChoice := [app.p1, app.p2, app.p3];
    var choice := Choice(IndexOf(toChoice, MaxOf(toChoice)) + 1);
    assert toChoice == ToChoice(st.p);
    PolicyPicksFirstMaximum(st.p);
    if choice == "0" {
      assert false;
    }
    step := SearchAndRevise(app, choice, d.shuffle1, d.shuffle2);
    TwiceRound(st, d);
  }

  /** `main_twice`: place the sailor, then search the most probable area twice per
      round until a search finds the sailor, returning the approach number. The
      placement and the rounds' draws are parameters; the loop stops when they run
      out. */
  method MainTwice(draw: real, localX: int, localY: int, draws: seq<Draws>) returns (result: TrialResult)
    requires 1.0 <= draw < 4.0
    requires 0 <= localX < 50 && 0 <= localY < 50
    requires AllValid(draws)
    ensures result == Trial(Placed(draw.Floor, Cell(localX, localY)), draws, 1)
    ensures result.Found? ==> 1 <= result.rounds <= |draws|
  {
    var app := new Search();
    SearchAreasLayout();
    var loc := app.SailorFinalLocation(3, localX, localY, draw);
    ghost var start := app.Model();
    assert start == Placed(draw.Floor, Cell(localX, localY));
    var searchNum := 1;
    var i := 0;
    while i < |draws|
      invariant 0 <= i <= |draws|
      invariant searchNum == i + 1
      invariant IsDistribution(app.Beliefs())
      invariant Trial(app.Model(), draws[i..], searchNum) == Trial(start, draws, 1)
    {
      assert draws[i..][0] == draws[i] && draws[i..][1..] == draws[i + 1..];
      var step := PolicyRound(app, draws[i]);
      if step.Crash? {
        return Crashed(searchNum);
      }
      if step.result1 != NotFound || step.result2 != NotFound {
        return Found(searchNum);
      }
      searchNum := searchNum + 1;
      i := i + 1;
    }
    return OutOfDraws(searchNum);
  }
}
