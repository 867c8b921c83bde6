/** modules/client/CadetGeneration.js: synthetic cadets drawn by weighted
    sampling over the AFSCs' `weightedDistribution`. Every `Math.random()` call
    reads the next number of a stream `draws`, starting at position `pos`; a
    method that consumes draws reports the position after its last draw, or
    that the stream ran out before it finished. */
module CadetGeneration {
  import opened Strings
  import opened Dicts
  import opened AfscModel
  import opened CadetModel
  import opened Numbers

  /** The result of a step that consumes draws: its value and the position of
      the next unused draw, or the end of a finite stream reached first (the
      source keeps drawing forever). */
  datatype Drawn<T> = Drawn(value: T, next: nat) | OutOfDraws

  /** Every draw is a `Math.random()` value, in [0, 1). */
  predicate UnitDraws(draws: seq<real>) {
    forall i :: 0 <= i < |draws| ==> 0.0 <= draws[i] < 1.0
  }

  // ---------------------------------------------------------------------------
  // createCumulativeWeights

  /** An element of the cumulative list: `{ name, cumulativeWeight }`. */
  datatype Weighted = Weighted(name: string, cumulativeWeight: real)

  /** The sum of the AFSCs' weights. */
  function WeightSum(afscs: seq<Afsc>): real {
    if afscs == [] then 0.0 else WeightSum(afscs[..|afscs| - 1]) + afscs[|afscs| - 1].weightedDistribution
  }

  /** Entry `i` carries the name of AFSC `i` and the sum of weights `0..i`. */
  function Cumulative(afscs: seq<Afsc>): (cw: seq<Weighted>)
    ensures |cw| == |afscs|
    ensures forall i :: 0 <= i < |afscs| ==> cw[i].name == afscs[i].afsc
  {
    seq(|afscs|, i requires 0 <= i < |afscs| => Weighted(afscs[i].afsc, WeightSum(afscs[..i + 1])))
  }

  /** `createCumulativeWeights(afscs)`: a running `sum` pushed after every AFSC. */
  method CreateCumulativeWeights(afscs: seq<Afsc>) returns (cumulative: seq<Weighted>)
    ensures cumulative == Cumulative(afscs)
  {
    cumulative := [];
    var sum := 0.0;
    for i := 0 to |afscs|
      invariant |cumulative| == i
      invariant sum == WeightSum(afscs[..i])
      invariant forall k :: 0 <= k < i ==> cumulative[k] == Weighted(afscs[k].afsc, WeightSum(afscs[..k + 1]))
    {
      assert afscs[..i + 1][..i] == afscs[..i];
      sum := sum + afscs[i].weightedDistribution;
      cumulative := cumulative + [Weighted(afscs[i].afsc, sum)];
    }
  }

  predicate NonNegativeWeights(afscs: seq<Afsc>) {
    forall i :: 0 <= i < |afscs| ==> afscs[i].weightedDistribution >= 0.0
  }

  /** With non-negative weights a longer prefix never weighs less. */
  lemma {:induction false} WeightSumMonotone(afscs: seq<Afsc>, i: nat, j: nat)
    requires NonNegativeWeights(afscs) && i <= j <= |afscs|
    ensures WeightSum(afscs[..i]) <= WeightSum(afscs[..j])
    decreases j
  {
    if i < j {
      var pre := afscs[..j];
      assert pre[..j - 1] == afscs[..j - 1];
      assert WeightSum(pre) == WeightSum(afscs[..j - 1]) + afscs[j - 1].weightedDistribution;
      WeightSumMonotone(afscs, i, j - 1);
    }
  }

  /** The cumulative weights rise with the index when no weight is negative,
      and the last one is the total weight. */
  lemma {:induction false} CumulativeShape(afscs: seq<Afsc>, i: nat, j: nat)
    requires NonNegativeWeights(afscs) && i <= j < |afscs|
    ensures Cumulative(afscs)[i].cumulativeWeight <= Cumulative(afscs)[j].cumulativeWeight
    ensures Cumulative(afscs)[|afscs| - 1].cumulativeWeight == WeightSum(afscs)
  {
    WeightSumMonotone(afscs, i + 1, j + 1);
    assert afscs[..|afscs|] == afscs;
  }

  // ---------------------------------------------------------------------------
  // weightedRandomChoice

  /** Index of the first entry, from `from` on, whose cumulative weight exceeds `rand`. */
  function FirstExceeding(cw: seq<Weighted>, rand: real, from: nat): (r: Option<nat>)
    requires from <= |cw|
    ensures r.Some? ==> from <= r.value < |cw| && rand < cw[r.value].cumulativeWeight
    ensures r.Some? ==> forall j :: from <= j < r.value ==> cw[j].cumulativeWeight <= rand
    ensures r.None? ==> forall j :: from <= j < |cw| ==> cw[j].cumulativeWeight <= rand
    decreases |cw| - from
  {
    if from == |cw| then None
    else if rand < cw[from].cumulativeWeight then Some(from)
    else FirstExceeding(cw, rand, from + 1)
  }

  /** `cumulativeWeights[cumulativeWeights.length - 1].cumulativeWeight`. */
  function TotalWeight(cw: seq<Weighted>): real
    requires |cw| > 0
  {
    cw[|cw| - 1].cumulativeWeight
  }

  /** The name the scan for `rand` stops at, or `undefined` (`None`) when it finds no entry. */
  function Pick(cw: seq<Weighted>, rand: real): Option<string> {
    match FirstExceeding(cw, rand, 0)
    case Some(i) => Some(cw[i].name)
    case None => None
  }

  /** What `weightedRandomChoice` returns for the draw `draw`: `rand` is the
      draw scaled by the total weight. */
  function Choice(cw: seq<Weighted>, draw: real): Option<string>
    requires |cw| > 0
  {
    Pick(cw, draw * TotalWeight(cw))
  }

  /** `weightedRandomChoice(cumulativeWeights)` with `Math.random()` = `draw`.
      An empty list has no last element to read; the source throws there. */
  method WeightedRandomChoice(cw: seq<Weighted>, draw: real) returns (choice: Option<string>)
    requires |cw| > 0
    ensures choice == Choice(cw, draw)
  {
    var totalWeight := cw[|cw| - 1].cumulativeWeight;
    var rand := draw * totalWeight;
    for i := 0 to |cw|
      invariant FirstExceeding(cw, rand, i) == FirstExceeding(cw, rand, 0)
    {
      if rand < cw[i].cumulativeWeight {
        return Some(cw[i].name);
      }
    }
    return None;
  }

  /** With a positive total, a draw in [0, 1) always picks an entry. */
  lemma {:induction false} PositiveTotalPicks(cw: seq<Weighted>, draw: real)
    requires |cw| > 0 && TotalWeight(cw) > 0.0 && 0.0 <= draw < 1.0
    ensures Choice(cw, draw).Some?
  {
    var rand := draw * TotalWeight(cw);
    ScaledDraw(draw, TotalWeight(cw));
    assert !(cw[|cw| - 1].cumulativeWeight <= rand);
    assert FirstExceeding(cw, rand, 0).Some?;
  }

  /** With a positive total, a draw in [0, 1) is scaled to a non-negative
      `rand` whose scan finds an entry. */
  lemma {:induction false} ScaledPick(cw: seq<Weighted>, draw: real) returns (rand: real)
    requires |cw| > 0 && TotalWeight(cw) > 0.0 && 0.0 <= draw < 1.0
    ensures rand >= 0.0 && Choice(cw, draw) == Pick(cw, rand) && Pick(cw, rand).Some?
  {
    rand := draw * TotalWeight(cw);
    ScaledDraw(draw, TotalWeight(cw));
    PositiveTotalPicks(cw, draw);
  }

  /** Entry `i` of the cumulative list exceeds entry `i - 1` by the weight of AFSC `i`. */
  lemma {:induction false} CumulativeStep(afscs: seq<Afsc>, i: nat)
    requires i < |afscs|
    ensures Cumulative(afscs)[i].cumulativeWeight == WeightSum(afscs[..i]) + afscs[i].weightedDistribution
    ensures i > 0 ==> Cumulative(afscs)[i - 1].cumulativeWeight == WeightSum(afscs[..i])
  {
    assert afscs[..i + 1][..i] == afscs[..i];
  }

  /** An entry the scan stops at, for a non-negative `rand`, has a positive weight of its own. */
  lemma {:induction false} StopHasPositiveWeight(afscs: seq<Afsc>, rand: real, i: nat)
    requires NonNegativeWeights(afscs) && rand >= 0.0
    requires FirstExceeding(Cumulative(afscs), rand, 0) == Some(i)
    ensures i < |afscs| && afscs[i].weightedDistribution > 0.0
  {
    CumulativeStep(afscs, i);
  }

  /** With non-negative weights and a non-negative `rand`, the chosen AFSC is
      one of positive weight: the AFSC `i` returned. */
  lemma {:induction false} ChosenHasPositiveWeight(afscs: seq<Afsc>, rand: real) returns (i: nat)
    requires NonNegativeWeights(afscs) && rand >= 0.0
    requires Pick(Cumulative(afscs), rand).Some?
    ensures i < |afscs| && afscs[i].weightedDistribution > 0.0
    ensures Pick(Cumulative(afscs), rand) == Some(afscs[i].afsc)
  {
    i := FirstExceeding(Cumulative(afscs), rand, 0).value;
    StopHasPositiveWeight(afscs, rand, i);
  }

  lemma {:induction false} TotalNonNegative(afscs: seq<Afsc>)
    requires |afscs| > 0 && NonNegativeWeights(afscs)
    ensures TotalWeight(Cumulative(afscs)) >= 0.0
  {
    CumulativeShape(afscs, 0, |afscs| - 1);
    WeightSumMonotone(afscs, 0, |afscs|);
    assert afscs[..|afscs|] == afscs;
  }

  /** With every weight 0 nothing is ever picked: the choice is `undefined`. */
  lemma {:induction false} ZeroTotalPicksNothing(afscs: seq<Afsc>, draw: real)
    requires |afscs| > 0 && NonNegativeWeights(afscs) && WeightSum(afscs) == 0.0
    ensures Choice(Cumulative(afscs), draw) == None
  {
    var cw := Cumulative(afscs);
    CumulativeShape(afscs, 0, |afscs| - 1);
    assert TotalWeight(cw) == 0.0;
    forall j | 0 <= j < |cw| ensures cw[j].cumulativeWeight <= 0.0 {
      CumulativeShape(afscs, j, |afscs| - 1);
    }
  }

  // ---------------------------------------------------------------------------
  // generatePreferences

  predicate Distinct<T(==)>(s: seq<T>) {
    forall i, j :: 0 <= i < j < |s| ==> s[i] != s[j]
  }

  /** The distinct elements of `s` in order of first occurrence: the insertion
      order of a JavaScript `Set` that every element of `s` is offered to. */
  function Dedup<T(==,!new)>(s: seq<T>): (d: seq<T>)
    ensures |d| <= |s|
  {
    if s == [] then []
    else
      var d := Dedup(s[..|s| - 1]);
      var x := s[|s| - 1];
      assert s == s[..|s| - 1] + [x];
      if x in d then d else d + [x]
  }

  /** The distinct elements are exactly the elements. */
  lemma {:induction false} DedupMembers<T(!new)>(s: seq<T>)
    ensures forall x :: x in Dedup(s) <==> x in s
  {
    if s != [] {
      DedupMembers(s[..|s| - 1]);
      assert s == s[..|s| - 1] + [s[|s| - 1]];
    }
  }

  /** No element occurs twice among the distinct elements. */
  lemma {:induction false} DedupDistinct<T(!new)>(s: seq<T>)
    ensures Distinct(Dedup(s))
  {
    if s != [] {
      DedupDistinct(s[..|s| - 1]);
    }
  }

  lemma {:induction false} DedupPush<T(!new)>(s: seq<T>, x: T)
    ensures Dedup(s + [x]) == if x in Dedup(s) then Dedup(s) else Dedup(s) + [x]
  {
    assert (s + [x])[..|s|] == s;
  }

  /** The choices the draws `lo` up to (not including) `hi` make, one per draw. */
  function Picks(cw: seq<Weighted>, draws: seq<real>, lo: nat, hi: nat): (p: seq<Option<string>>)
    requires |cw| > 0 && lo <= hi <= |draws|
    ensures |p| == hi - lo
    decreases hi
  {
    if hi == lo then [] else Picks(cw, draws, lo, hi - 1) + [Choice(cw, draws[hi - 1])]
  }

  /** Every choice among the picks was made by one of the draws. */
  lemma {:induction false} PickIndex(cw: seq<Weighted>, draws: seq<real>, lo: nat, hi: nat, x: Option<string>)
    returns (i: nat)
    requires |cw| > 0 && lo <= hi <= |draws| && x in Picks(cw, draws, lo, hi)
    ensures lo <= i < hi && x == Choice(cw, draws[i])
    decreases hi
  {
    if x == Choice(cw, draws[hi - 1]) {
      i := hi - 1;
    } else {
      i := PickIndex(cw, draws, lo, hi - 1, x);
    }
  }

  /** The key `preferences[choice]` writes: the name, or "undefined". */
  function KeyOf(choice: Option<string>): string {
    if choice.Some? then choice.value else "undefined"
  }

  /** The `Set` of choices and the preference object of `generatePreferences`. */
  datatype Ranking = Ranking(chosen: seq<Option<string>>, preferences: Prefs)

  /** `if (!chosen.has(choice)) { chosen.add(choice); preferences[choice] = chosen.size; }` */
  function Offered(st: Ranking, choice: Option<string>): Ranking {
    if choice in st.chosen then st
    else Ranking(st.chosen + [choice], Put(st.preferences, KeyOf(choice), RankValue(|st.chosen| + 1)))
  }

  /** The `Set` and the preference object after the draws `lo` up to `hi`. */
  function RankingAfter(cw: seq<Weighted>, draws: seq<real>, lo: nat, hi: nat): Ranking
    requires |cw| > 0 && lo <= hi <= |draws|
    decreases hi
  {
    if hi == lo then Ranking([], []) else Offered(RankingAfter(cw, draws, lo, hi - 1), Choice(cw, draws[hi - 1]))
  }

  /** The `Set` holds the distinct choices of the draws in order of first occurrence. */
  lemma {:induction false} ChosenAfterIsDedup(cw: seq<Weighted>, draws: seq<real>, lo: nat, hi: nat)
    requires |cw| > 0 && lo <= hi <= |draws|
    ensures RankingAfter(cw, draws, lo, hi).chosen == Dedup(Picks(cw, draws, lo, hi))
    decreases hi
  {
    if hi > lo {
      var h: nat := hi - 1;
      var c := Choice(cw, draws[h]);
      ChosenAfterIsDedup(cw, draws, lo, h);
      assert RankingAfter(cw, draws, lo, hi) == Offered(RankingAfter(cw, draws, lo, h), c);
      assert Picks(cw, draws, lo, hi) == Picks(cw, draws, lo, h) + [c];
      OfferedDedup(RankingAfter(cw, draws, lo, h), Picks(cw, draws, lo, h), c);
    }
  }

  /** Offering one more choice to a `Set` of the distinct earlier choices. */
  lemma OfferedDedup(prev: Ranking, p: seq<Option<string>>, c: Option<string>)
    requires prev.chosen == Dedup(p)
    ensures Offered(prev, c).chosen == Dedup(p + [c])
  {
    DedupPush(p, c);
  }

  /** Further draws never take a choice out of the `Set`. */
  lemma {:induction false} ChosenGrows(cw: seq<Weighted>, draws: seq<real>, lo: nat, i: nat, hi: nat)
    requires |cw| > 0 && lo <= i <= hi <= |draws|
    ensures |RankingAfter(cw, draws, lo, i).chosen| <= |RankingAfter(cw, draws, lo, hi).chosen|
    decreases hi
  {
    if i < hi {
      ChosenGrows(cw, draws, lo, i, hi - 1);
    }
  }

  /** The draws from `pos` up to `next` fill the `Set` to `numChoices`, and the
      draws before the last of them do not. */
  predicate FirstComplete(cw: seq<Weighted>, numChoices: nat, draws: seq<real>, pos: nat, next: nat)
    requires |cw| > 0 && pos <= next <= |draws|
  {
    && |RankingAfter(cw, draws, pos, next).chosen| == numChoices
    && (next == pos || |RankingAfter(cw, draws, pos, next - 1).chosen| < numChoices)
  }

  /** `generatePreferences(cumulativeWeights, numChoices)`: draw until the `Set`
      holds `numChoices` choices. The result is the preference object after the
      draws consumed, and the loop stops at the first draw that fills the `Set`;
      it runs out of draws exactly when all of them leave the `Set` short. */
  method GeneratePreferences(cw: seq<Weighted>, numChoices: nat, draws: seq<real>, pos: nat)
    returns (r: Drawn<Prefs>)
    requires |cw| > 0 && pos <= |draws|
    ensures r.Drawn? ==> pos <= r.next <= |draws|
    ensures r.Drawn? ==> FirstComplete(cw, numChoices, draws, pos, r.next)
    ensures r.Drawn? ==> r.value == RankingAfter(cw, draws, pos, r.next).preferences
    ensures r.OutOfDraws? <==> |RankingAfter(cw, draws, pos, |draws|).chosen| < numChoices
  {
    var chosen: seq<Option<string>> := [];
    var preferences: Prefs := [];
    var i := pos;
    while |chosen| < numChoices && i < |draws|
      invariant pos <= i <= |draws|
      invariant Ranking(chosen, preferences) == RankingAfter(cw, draws, pos, i)
      invariant |chosen| <= numChoices
      invariant i == pos || |RankingAfter(cw, draws, pos, i - 1).chosen| < numChoices
      decreases |draws| - i
    {
      var choice := WeightedRandomChoice(cw, draws[i]);
      chosen, preferences := Offer(chosen, preferences, choice);
      i := i + 1;
    }
    if |chosen| < numChoices {
      r := OutOfDraws;
    } else {
      ChosenGrows(cw, draws, pos, i, |draws|);
      r := Drawn(preferences, i);
    }
  }

  /** The body of the loop after the draw: the choice is added and ranked
      when the `Set` lacks it. */
  method Offer(chosen: seq<Option<string>>, preferences: Prefs, choice: Option<string>)
    returns (chosen': seq<Option<string>>, preferences': Prefs)
    ensures Ranking(chosen', preferences') == Offered(Ranking(chosen, preferences), choice)
  {
    chosen', preferences' := chosen, preferences;
    if !(choice in chosen) {
      chosen' := chosen + [choice];
      preferences' := Put(preferences, KeyOf(choice), RankValue(|chosen'|));
    }
  }

  /** The object has one entry per choice of the `Set`, in its order, keyed by
      the AFSC's name and ranked 1, 2, … */
  predicate Ranked(st: Ranking) {
    && |st.preferences| == |st.chosen|
    && forall k :: 0 <= k < |st.chosen| ==>
         st.chosen[k].Some? && st.preferences[k] == (st.chosen[k].value, RankValue(k + 1))
  }

  /** Offering a choice that names an AFSC keeps the object ranked. */
  lemma OfferedRanked(prev: Ranking, c: Option<string>)
    requires Ranked(prev) && c.Some?
    ensures Ranked(Offered(prev, c))
  {
    if c !in prev.chosen {
      assert c.value !in Keys(prev.preferences) by {
        forall k | 0 <= k < |prev.chosen| ensures Keys(prev.preferences)[k] != c.value {
          assert prev.chosen[k] != c;
        }
      }
      PutNewKey(prev.preferences, c.value, RankValue(|prev.chosen| + 1));
    }
  }

  /** With a positive total weight and draws in [0, 1) every draw names an
      AFSC, so the object is ranked after any run of draws. */
  lemma {:induction false} PreferencesRanked(cw: seq<Weighted>, draws: seq<real>, lo: nat, hi: nat)
    requires |cw| > 0 && TotalWeight(cw) > 0.0 && UnitDraws(draws) && lo <= hi <= |draws|
    ensures Ranked(RankingAfter(cw, draws, lo, hi))
    decreases hi
  {
    if hi > lo {
      var prev := RankingAfter(cw, draws, lo, hi - 1);
      var c := Choice(cw, draws[hi - 1]);
      assert RankingAfter(cw, draws, lo, hi) == Offered(prev, c);
      PreferencesRanked(cw, draws, lo, hi - 1);
      PositiveTotalPicks(cw, draws[hi - 1]);
      OfferedRanked(prev, c);
    }
  }

  /** The preference object never lists an AFSC twice. */
  lemma PreferencesDistinct(cw: seq<Weighted>, draws: seq<real>, lo: nat, hi: nat)
    requires |cw| > 0 && TotalWeight(cw) > 0.0 && UnitDraws(draws) && lo <= hi <= |draws|
    ensures DistinctKeys(RankingAfter(cw, draws, lo, hi).preferences)
  {
    var st := RankingAfter(cw, draws, lo, hi);
    PreferencesRanked(cw, draws, lo, hi);
    ChosenAfterIsDedup(cw, draws, lo, hi);
    DedupDistinct(Picks(cw, draws, lo, hi));
    forall i, j | 0 <= i < j < |st.preferences| ensures st.preferences[i].0 != st.preferences[j].0 {
      assert st.chosen[i] != st.chosen[j];
    }
  }

  /** The names of the AFSCs with a positive weight, as choices. */
  function PositiveChoices(afscs: seq<Afsc>): seq<Option<string>> {
    if afscs == [] then []
    else
      var n := |afscs| - 1;
      PositiveChoices(afscs[..n]) + if afscs[n].weightedDistribution > 0.0 then [Some(afscs[n].afsc)] else []
  }

  /** Every AFSC of positive weight is among the positive choices. */
  lemma {:induction false} PositiveChoiceOf(afscs: seq<Afsc>, i: nat)
    requires i < |afscs| && afscs[i].weightedDistribution > 0.0
    ensures Some(afscs[i].afsc) in PositiveChoices(afscs)
  {
    var n := |afscs| - 1;
    if i < n {
      PositiveChoiceOf(afscs[..n], i);
      assert afscs[..n][i] == afscs[i];
    }
  }

  /** Every positive choice names an AFSC of positive weight. */
  lemma {:induction false} PositiveChoiceIndex(afscs: seq<Afsc>, x: Option<string>) returns (i: nat)
    requires x in PositiveChoices(afscs)
    ensures i < |afscs| && afscs[i].weightedDistribution > 0.0 && x == Some(afscs[i].afsc)
  {
    var n := |afscs| - 1;
    if afscs[n].weightedDistribution > 0.0 && x == Some(afscs[n].afsc) {
      i := n;
    } else {
      i := PositiveChoiceIndex(afscs[..n], x);
      assert afscs[..n][i] == afscs[i];
    }
  }

  function CountPositive(afscs: seq<Afsc>): (n: nat)
    ensures n == |PositiveChoices(afscs)|
  {
    if afscs == [] then 0
    else CountPositive(afscs[..|afscs| - 1]) + if afscs[|afscs| - 1].weightedDistribution > 0.0 then 1 else 0
  }

  /** A sequence of distinct elements, all taken from `xs`, is no longer than `xs`. */
  lemma {:induction false} DistinctWithin<T(!new)>(d: seq<T>, xs: seq<T>)
    requires Distinct(d) && forall x :: x in d ==> x in xs
    ensures |d| <= |xs|
    decreases |xs|
  {
    if d != [] {
      assert d[0] in xs;
      var y := xs[|xs| - 1];
      var rest := xs[..|xs| - 1];
      var d' := Without(d, y);
      assert forall x :: x in d' ==> x in rest by {
        forall x | x in d' ensures x in rest {
          assert x in xs && x != y;
          var k :| 0 <= k < |xs| && xs[k] == x;
          assert rest[k] == x;
        }
      }
      DistinctWithin(d', rest);
    }
  }

  /** `d` with `y` removed; for distinct `d` that is one element fewer when `y` occurs. */
  function Without<T(==,!new)>(d: seq<T>, y: T): (r: seq<T>)
    requires Distinct(d)
    ensures Distinct(r) && (forall x :: x in r <==> x in d && x != y)
    ensures |r| >= |d| - 1
  {
    if d == [] then []
    else
      var n := |d| - 1;
      assert forall i, j :: 0 <= i < j < n ==> d[..n][i] != d[..n][j];
      var init := Without(d[..n], y);
      assert d[n] !in d[..n];
      assert d == d[..n] + [d[n]];
      if d[n] == y then
        assert y !in d[..n];
        d[..n]
      else
        assert d[n] !in init;
        init + [d[n]]
  }

  /** With a positive total, a draw in [0, 1) picks an AFSC of positive weight. */
  lemma {:induction false} DrawPicksPositive(afscs: seq<Afsc>, draw: real)
    requires |afscs| > 0 && NonNegativeWeights(afscs) && WeightSum(afscs) > 0.0 && 0.0 <= draw < 1.0
    ensures Choice(Cumulative(afscs), draw) in PositiveChoices(afscs)
  {
    var cw := Cumulative(afscs);
    CumulativeShape(afscs, 0, |afscs| - 1);
    var rand := ScaledPick(cw, draw);
    RandPicksPositive(afscs, rand);
  }

  /** The same for the scaled value `rand` the scan compares against. */
  lemma {:induction false} RandPicksPositive(afscs: seq<Afsc>, rand: real)
    requires NonNegativeWeights(afscs) && rand >= 0.0
    requires Pick(Cumulative(afscs), rand).Some?
    ensures Pick(Cumulative(afscs), rand) in PositiveChoices(afscs)
  {
    var i := ChosenHasPositiveWeight(afscs, rand);
    PositiveChoiceOf(afscs, i);
  }

  /** With draws in [0, 1) and non-negative, not all zero weights, the distinct
      choices are never more than the AFSCs with a positive weight. So with
      fewer such AFSCs than `numChoices` no draw stream ever completes the
      preferences: the source's loop never ends, and the model runs out of draws. */
  lemma {:induction false} FewPositiveWeightsNeverFinish(afscs: seq<Afsc>, draws: seq<real>, lo: nat, hi: nat)
    requires |afscs| > 0 && NonNegativeWeights(afscs) && WeightSum(afscs) > 0.0
    requires UnitDraws(draws) && lo <= hi <= |draws|
    ensures |RankingAfter(Cumulative(afscs), draws, lo, hi).chosen| <= CountPositive(afscs)
  {
    var cw := Cumulative(afscs);
    var p := Picks(cw, draws, lo, hi);
    var xs := PositiveChoices(afscs);
    ChosenAfterIsDedup(cw, draws, lo, hi);
    DedupMembers(p);
    forall x | x in Dedup(p) ensures x in xs {
      var i := PickIndex(cw, draws, lo, hi, x);
      DrawPicksPositive(afscs, draws[i]);
    }
    DedupDistinct(p);
    DistinctWithin(Dedup(p), xs);
  }

  // ---------------------------------------------------------------------------
  // generateDegrees

  const PotentialDegrees: seq<string> := [MANDATORY, DESIRED, PERMITTED]

  /** `potentialDegrees[Math.floor(draw * 3)]`. */
  function TierOf(draw: real): (t: string)
    requires 0.0 <= draw < 1.0
    ensures IsTier(t)
  {
    var k := (draw * 3.0).Floor;
    FloorOfScaledDraw(draw, 3);
    PotentialDegrees[k]
  }

  /** An object whose keys are the index strings "0", "1", … */
  predicate IndexKeyed(d: Degrees, n: nat) {
    |d| == n && forall k :: 0 <= k < n ==> d[k].0 == NatToString(k)
  }

  lemma {:induction false} FreshIndexKey(d: Degrees, n: nat)
    requires IndexKeyed(d, n)
    ensures NatToString(n) !in Keys(d)
  {
    forall k | 0 <= k < n ensures Keys(d)[k] != NatToString(n) {
      if NatToString(k) == NatToString(n) {
        NatToStringInjective(k, n);
      }
    }
  }

  /** `degrees[preference] = tier` for the next index key: a new key, so it is appended. */
  method SetIndexKey(degrees: Degrees, k: nat, tier: string) returns (degrees': Degrees)
    requires IndexKeyed(degrees, k)
    ensures degrees' == degrees + [(NatToString(k), tier)]
  {
    FreshIndexKey(degrees, k);
    PutNewKey(degrees, NatToString(k), tier);
    degrees' := Put(degrees, NatToString(k), tier);
  }

  /** `generateDegrees(preferences)`. `for…in` over `Object.keys(preferences)`
      visits the array's indexes, so the degrees are keyed "0", "1", … rather
      than by AFSC name, one key per preference, each with a drawn tier. */
  method GenerateDegrees(preferences: Prefs, draws: seq<real>, pos: nat) returns (r: Drawn<Degrees>)
    requires pos <= |draws| && UnitDraws(draws)
    ensures r.Drawn? <==> pos + |preferences| <= |draws|
    ensures r.Drawn? ==> r.next == pos + |preferences| && IndexKeyed(r.value, |preferences|)
    ensures r.Drawn? ==> forall k :: 0 <= k < |preferences| ==> r.value[k].1 == TierOf(draws[pos + k])
  {
    var degrees: Degrees := [];
    for k := 0 to |preferences|
      invariant pos + k <= |draws|
      invariant IndexKeyed(degrees, k)
      invariant forall j :: 0 <= j < k ==> degrees[j].1 == TierOf(draws[pos + j])
    {
      if pos + k == |draws| {
        return OutOfDraws;
      }
      var randomIndex := (draws[pos + k] * 3.0).Floor;
      FloorOfScaledDraw(draws[pos + k], 3);
      degrees := SetIndexKey(degrees, k, PotentialDegrees[randomIndex]);
    }
    return Drawn(degrees, pos + |preferences|);
  }

  /** The degree keys are distinct and every value is one of the three tiers. */
  lemma {:induction false} DegreesWellFormed(d: Degrees, n: nat, draws: seq<real>, pos: nat)
    requires IndexKeyed(d, n) && pos + n <= |draws| && UnitDraws(draws)
    requires forall k :: 0 <= k < n ==> d[k].1 == TierOf(draws[pos + k])
    ensures DistinctKeys(d)
    ensures forall k :: 0 <= k < n ==> IsTier(d[k].1)
  {
    forall i, j | 0 <= i < j < n ensures d[i].0 != d[j].0 {
      if d[i].0 == d[j].0 {
        NatToStringInjective(i, j);
      }
    }
  }

  // ---------------------------------------------------------------------------
  // getCalculatedCadetCount

  /** `Math.ceil`. */
  function Ceil(x: real): int {
    -((-x).Floor)
  }

  /** Σ ⌊target · overclassFactor⌋. */
  function MinCadets(afscs: seq<Afsc>): int {
    if afscs == [] then 0
    else MinCadets(afscs[..|afscs| - 1]) + (afscs[|afscs| - 1].target * afscs[|afscs| - 1].overclassFactor).Floor
  }

  /** Σ ⌈target · overclassFactor⌉. */
  function MaxCadets(afscs: seq<Afsc>): int {
    if afscs == [] then 0
    else MaxCadets(afscs[..|afscs| - 1]) + Ceil(afscs[|afscs| - 1].target * afscs[|afscs| - 1].overclassFactor)
  }

  lemma {:induction false} MinAtMostMax(afscs: seq<Afsc>)
    ensures MinCadets(afscs) <= MaxCadets(afscs)
  {
    if afscs != [] {
      MinAtMostMax(afscs[..|afscs| - 1]);
      var x := afscs[|afscs| - 1].target * afscs[|afscs| - 1].overclassFactor;
      assert x.Floor <= Ceil(x);
    }
  }

  /** `Math.floor(draw * (max - min + 1)) + min`. */
  function CadetCount(afscs: seq<Afsc>, draw: real): int {
    (draw * (MaxCadets(afscs) - MinCadets(afscs) + 1) as real).Floor + MinCadets(afscs)
  }

  /** A draw in [0, 1) gives a count between the two sums. */
  lemma {:induction false} CadetCountInRange(afscs: seq<Afsc>, draw: real)
    requires 0.0 <= draw < 1.0
    ensures MinCadets(afscs) <= CadetCount(afscs, draw) <= MaxCadets(afscs)
  {
    MinAtMostMax(afscs);
    FloorOfScaledDraw(draw, MaxCadets(afscs) - MinCadets(afscs) + 1);
  }

  /** `getCalculatedCadetCount(afscs)` with `Math.random()` = `draw`. */
  method GetCalculatedCadetCount(afscs: seq<Afsc>, draw: real) returns (count: int)
    ensures count == CadetCount(afscs, draw)
    ensures 0.0 <= draw < 1.0 ==> MinCadets(afscs) <= count <= MaxCadets(afscs)
  {
    var minCadets, maxCadets := 0, 0;
    for k := 0 to |afscs|
      invariant minCadets == MinCadets(afscs[..k]) && maxCadets == MaxCadets(afscs[..k])
    {
      assert afscs[..k + 1][..k] == afscs[..k];
      var total := afscs[k].target * afscs[k].overclassFactor;
      minCadets := minCadets + total.Floor;
      maxCadets := maxCadets + Ceil(total);
    }
    assert afscs[..|afscs|] == afscs;
    count := (draw * (maxCadets - minCadets + 1) as real).Floor + minCadets;
    if 0.0 <= draw < 1.0 {
      CadetCountInRange(afscs, draw);
    }
  }

  // ---------------------------------------------------------------------------
  // GenerateCadets

  /** What the five-argument `new Cadet(...)` call builds: the name lands in
      `cadetPreferences`, the preferences in `cadetPercentile`, the percentile
      text in `cadetFromUSAFA`, the USAFA flag in `cadetDegrees`; the degrees
      are dropped. */
  type GeneratedCadet = Cadet<string, Prefs, string, bool>

  /** `` `Cadet ${i+1}` ``. */
  function CadetName(i: nat): string {
    "Cadet " + NatToString(i + 1)
  }

  /** `c` is the cadet built for loop index `i` from the draws starting at
      `pos`: its preferences are the first complete ranking, ending at
      `prefsEnd`; one degree draw per preference follows, then the percentile
      draw and the USAFA draw, which end at `next`. */
  predicate DrawnCadet(c: GeneratedCadet, i: nat, cw: seq<Weighted>, toFixed3: real -> string,
                       draws: seq<real>, pos: nat, prefsEnd: nat, next: nat)
    requires |cw| > 0
  {
    && pos <= prefsEnd && prefsEnd + |c.cadetPercentile| + 2 == next <= |draws|
    && c.cadetPreferences == CadetName(i)
    && FirstComplete(cw, 6, draws, pos, prefsEnd)
    && c.cadetPercentile == RankingAfter(cw, draws, pos, prefsEnd).preferences
    && c.cadetFromUSAFA == toFixed3(draws[next - 2])
    && (c.cadetDegrees <==> draws[next - 1] < 0.5)
  }

  /** One pass of the loop body of `GenerateCadets`: preferences, degrees, the
      percentile (`Math.random().toFixed(3)`, a string; `toFixed3` stands for
      the number formatting) and the USAFA flag, in this draw order. */
  method NextCadet(i: nat, cw: seq<Weighted>, toFixed3: real -> string, draws: seq<real>, pos: nat)
    returns (r: Drawn<GeneratedCadet>, prefsEnd: nat)
    requires |cw| > 0 && pos <= |draws| && UnitDraws(draws)
    ensures r.Drawn? ==> DrawnCadet(r.value, i, cw, toFixed3, draws, pos, prefsEnd, r.next)
  {
    prefsEnd := pos;
    var preferences := GeneratePreferences(cw, 6, draws, pos);
    if preferences.OutOfDraws? {
      return OutOfDraws, prefsEnd;
    }
    prefsEnd := preferences.next;
    var degrees := GenerateDegrees(preferences.value, draws, prefsEnd);
    if degrees.OutOfDraws? || degrees.next + 2 > |draws| {
      return OutOfDraws, prefsEnd;
    }
    var p := degrees.next;
    var percentile := toFixed3(draws[p]);
    var usafaCadet := draws[p + 1] < 0.5;
    var cadet := NewCadetFiveArgs(CadetName(i), preferences.value, percentile, usafaCadet, degrees.value);
    return Drawn(cadet, p + 2), prefsEnd;
  }

  /** `cadets` are the cadets built in turn from the draws: cadet `k` from
      `starts[k]` up to `starts[k + 1]`, its preferences ending at `prefsEnds[k]`. */
  predicate DrawnCadets(cadets: seq<GeneratedCadet>, cw: seq<Weighted>, toFixed3: real -> string,
                        draws: seq<real>, starts: seq<nat>, prefsEnds: seq<nat>)
    requires |cw| > 0
  {
    && |starts| == |cadets| + 1 && |prefsEnds| == |cadets|
    && forall k :: 0 <= k < |cadets| ==>
         DrawnCadet(cadets[k], k, cw, toFixed3, draws, starts[k], prefsEnds[k], starts[k + 1])
  }

  /** One more cadet, built from where the last one stopped. */
  lemma DrawnCadetsGrow(cadets: seq<GeneratedCadet>, cw: seq<Weighted>, toFixed3: real -> string, draws: seq<real>,
                        starts: seq<nat>, prefsEnds: seq<nat>, c: GeneratedCadet, prefsEnd: nat, next: nat)
    requires |cw| > 0 && DrawnCadets(cadets, cw, toFixed3, draws, starts, prefsEnds)
    requires DrawnCadet(c, |cadets|, cw, toFixed3, draws, starts[|cadets|], prefsEnd, next)
    ensures DrawnCadets(cadets + [c], cw, toFixed3, draws, starts + [next], prefsEnds + [prefsEnd])
  {
    var cs, ss, ps := cadets + [c], starts + [next], prefsEnds + [prefsEnd];
    forall k | 0 <= k < |cs| ensures DrawnCadet(cs[k], k, cw, toFixed3, draws, ss[k], ps[k], ss[k + 1]) {
      if k < |cadets| {
        assert cs[k] == cadets[k] && ss[k] == starts[k] && ps[k] == prefsEnds[k] && ss[k + 1] == starts[k + 1];
      }
    }
  }

  /** Six preferences with distinct keys, ranked 1 to 6 in order. */
  predicate SixRanked(p: Prefs) {
    |p| == 6 && DistinctKeys(p) && forall k :: 0 <= k < 6 ==> p[k].1 == RankValue(k + 1)
  }

  /** With a positive total weight, the preferences a generated cadet gets are
      six distinct AFSCs ranked 1 to 6. */
  lemma GeneratedPreferencesRanked(cw: seq<Weighted>, draws: seq<real>, pos: nat, prefsEnd: nat)
    requires |cw| > 0 && TotalWeight(cw) > 0.0 && UnitDraws(draws) && pos <= prefsEnd <= |draws|
    requires FirstComplete(cw, 6, draws, pos, prefsEnd)
    ensures SixRanked(RankingAfter(cw, draws, pos, prefsEnd).preferences)
  {
    PreferencesRanked(cw, draws, pos, prefsEnd);
    PreferencesDistinct(cw, draws, pos, prefsEnd);
  }

  /** Cadet `k` of the list is named "Cadet k+1". */
  lemma DrawnCadetsNamed(cadets: seq<GeneratedCadet>, cw: seq<Weighted>, toFixed3: real -> string,
                         draws: seq<real>, starts: seq<nat>, prefsEnds: seq<nat>)
    requires |cw| > 0 && DrawnCadets(cadets, cw, toFixed3, draws, starts, prefsEnds)
    ensures forall k :: 0 <= k < |cadets| ==> cadets[k].cadetPreferences == CadetName(k)
  {
    forall k | 0 <= k < |cadets| ensures cadets[k].cadetPreferences == CadetName(k) {
      assert DrawnCadet(cadets[k], k, cw, toFixed3, draws, starts[k], prefsEnds[k], starts[k + 1]);
    }
  }

  /** With a positive total weight every cadet of the list has six distinct
      preferences ranked 1 to 6. */
  lemma DrawnCadetsRanked(cadets: seq<GeneratedCadet>, cw: seq<Weighted>, toFixed3: real -> string,
                          draws: seq<real>, starts: seq<nat>, prefsEnds: seq<nat>)
    requires |cw| > 0 && TotalWeight(cw) > 0.0 && UnitDraws(draws)
    requires DrawnCadets(cadets, cw, toFixed3, draws, starts, prefsEnds)
    ensures forall k :: 0 <= k < |cadets| ==> SixRanked(cadets[k].cadetPercentile)
  {
    forall k | 0 <= k < |cadets| ensures SixRanked(cadets[k].cadetPercentile) {
      assert DrawnCadet(cadets[k], k, cw, toFixed3, draws, starts[k], prefsEnds[k], starts[k + 1]);
      GeneratedPreferencesRanked(cw, draws, starts[k], prefsEnds[k]);
    }
  }

  /** With non-negative, not all zero weights, every preference names an AFSC
      of positive weight. */
  lemma GeneratedPreferencesPositive(afscs: seq<Afsc>, draws: seq<real>, pos: nat, prefsEnd: nat)
    requires |afscs| > 0 && NonNegativeWeights(afscs) && WeightSum(afscs) > 0.0
    requires UnitDraws(draws) && pos <= prefsEnd <= |draws|
    ensures var p := RankingAfter(Cumulative(afscs), draws, pos, prefsEnd).preferences;
      forall k :: 0 <= k < |p| ==>
        exists j :: 0 <= j < |afscs| && afscs[j].weightedDistribution > 0.0 && p[k].0 == afscs[j].afsc
  {
    var cw := Cumulative(afscs);
    var st := RankingAfter(cw, draws, pos, prefsEnd);
    var picks := Picks(cw, draws, pos, prefsEnd);
    assert afscs[..|afscs|] == afscs;
    PreferencesRanked(cw, draws, pos, prefsEnd);
    ChosenAfterIsDedup(cw, draws, pos, prefsEnd);
    DedupMembers(picks);
    forall k | 0 <= k < |st.preferences|
      ensures exists j :: 0 <= j < |afscs| && afscs[j].weightedDistribution > 0.0 && st.preferences[k].0 == afscs[j].afsc
    {
      var d := PickIndex(cw, draws, pos, prefsEnd, st.chosen[k]);
      DrawPicksPositive(afscs, draws[d]);
      var j := PositiveChoiceIndex(afscs, st.chosen[k]);
      assert st.preferences[k].0 == afscs[j].afsc;
    }
  }

  /** The outcome of `GenerateCadets`: the cadets and the next unused draw;
      the draws running out; or the `TypeError` of `weightedRandomChoice`
      reading the last element of an empty cumulative list. */
  datatype Generation = Generated(cadets: seq<GeneratedCadet>, next: nat) | DrawsRanOut | NoAfscsToChooseFrom

  /** `GenerateCadets(afscs)`. The loop runs `i = 0 .. numCadets` inclusive, so
      it makes one cadet more than the count, named "Cadet 1" onwards. */
  method GenerateCadets(afscs: seq<Afsc>, toFixed3: real -> string, draws: seq<real>)
    returns (r: Generation, ghost starts: seq<nat>, ghost prefsEnds: seq<nat>)
    requires UnitDraws(draws)
    ensures r.NoAfscsToChooseFrom? <==> |draws| > 0 && |afscs| == 0
    ensures r.Generated? ==> |draws| > 0 && |r.cadets| == if CadetCount(afscs, draws[0]) < 0 then 0 else CadetCount(afscs, draws[0]) + 1
    ensures r.Generated? ==> forall i :: 0 <= i < |r.cadets| ==> r.cadets[i].cadetPreferences == CadetName(i)
    ensures r.Generated? ==> r.next <= |draws|
    ensures r.Generated? ==> |afscs| > 0 && DrawnCadets(r.cadets, Cumulative(afscs), toFixed3, draws, starts, prefsEnds)
    ensures r.Generated? ==> starts[0] == 1 && starts[|r.cadets|] == r.next
    ensures r.Generated? && TotalWeight(Cumulative(afscs)) > 0.0 ==>
      forall i :: 0 <= i < |r.cadets| ==> SixRanked(r.cadets[i].cadetPercentile)
  {
    starts, prefsEnds := [], [];
    if |draws| == 0 {
      return DrawsRanOut, starts, prefsEnds;
    }
    var numCadets := GetCalculatedCadetCount(afscs, draws[0]);
    var cumulativeWeights := CreateCumulativeWeights(afscs);
    if |afscs| == 0 {
      // numCadets is 0 here, so the loop body runs once and throws.
      CadetCountInRange(afscs, draws[0]);
      return NoAfscsToChooseFrom, starts, prefsEnds;
    }
    var cadetList: seq<GeneratedCadet> := [];
    var pos: nat := 1;
    starts := [pos];
    // `for (let i = 0; i <= numCadets; ++i)`
    var rounds := if numCadets < 0 then 0 else numCadets + 1;
    for i := 0 to rounds
      invariant |cadetList| == i && pos <= |draws|
      invariant DrawnCadets(cadetList, cumulativeWeights, toFixed3, draws, starts, prefsEnds)
      invariant starts[0] == 1 && starts[i] == pos
    {
      var cadet, prefsEnd := NextCadet(i, cumulativeWeights, toFixed3, draws, pos);
      if cadet.OutOfDraws? {
        return DrawsRanOut, starts, prefsEnds;
      }
      DrawnCadetsGrow(cadetList, cumulativeWeights, toFixed3, draws, starts, prefsEnds, cadet.value, prefsEnd, cadet.next);
      cadetList := cadetList + [cadet.value];
      starts, prefsEnds := starts + [cadet.next], prefsEnds + [prefsEnd];
      pos := cadet.next;
    }
    DrawnCadetsNamed(cadetList, cumulativeWeights, toFixed3, draws, starts, prefsEnds);
    if TotalWeight(cumulativeWeights) > 0.0 {
      DrawnCadetsRanked(cadetList, cumulativeWeights, toFixed3, draws, starts, prefsEnds);
    }
    return Generated(cadetList, pos), starts, prefsEnds;
  }

  /** The generated cadets' names are pairwise different. */
  lemma {:induction false} CadetNamesDistinct(i: nat, j: nat)
    requires i != j
    ensures CadetName(i) != CadetName(j)
  {
    if CadetName(i) == CadetName(j) {
      assert CadetName(i)[6..] == NatToString(i + 1);
      assert CadetName(j)[6..] == NatToString(j + 1);
      NatToStringInjective(i + 1, j + 1);
    }
  }
}
