/** modules/client/AssignmentSimulation.js: the `CadetAssignment` class, which
    scores every (cadet, AFSC) pair and builds the binary linear program handed
    to the GLPK solver.

    The class body refers to values its constructor never sets. The model
    resolves each one as follows:
    - `wc` and `rc` in `GetUtility` are undeclared; they are the `Weights` parameter.
    - `this.targets[afsc]`, `this.overclassFactor[afsc]`, `this.usaCadetLimits`
      and `this.meritBounds` are read from the AFSC record of the loop
      (`target`, `overclassFactor`, `usaCadetBounds`, `meritBounds`).
    - `afsc.mandatory["lower"]` / `["upper"]` are read as `mandatoryDegreeBounds.min` / `.max`.
    - `this.cadet` and `cadet.cadetDegrees` are read from the cadet record of the loop.
    - `this.cadetData.forEach` / `this.afscData.forEach` on the keyed objects
      visit the keys (cadet names, AFSC codes) in enumeration order, with the
      record under each key. */
module AssignmentSimulation {
  import opened Dicts
  import opened CadetModel
  import opened AfscModel
  import opened Layout

  // ---------------------------------------------------------------- LP shape

  /** `glpk.GLP_MAX` is the only direction the builder uses. */
  datatype Direction = Maximize

  /** `glpk.GLP_FX`, `glpk.GLP_LO`, `glpk.GLP_UP`. */
  datatype BoundType = FX | LO | UP

  /** A bound value: a number, `Infinity` or `-Infinity`. */
  datatype Bound = Finite(v: real) | PosInf | NegInf

  datatype Bnds = Bnds(kind: BoundType, lb: Bound, ub: Bound)

  datatype Term = Term(name: string, coef: real)

  datatype Constraint = Constraint(name: string, vars: seq<Term>, bnds: Bnds)

  datatype Objective = Objective(direction: Direction, name: string, vars: seq<Term>)

  datatype LP = LP(name: string, objective: Objective, subjectTo: seq<Constraint>, binaries: seq<string>, bounds: seq<Bnds>)

  /** The undeclared `wc` and `rc` of `GetUtility`. */
  datatype Weights = Weights(wc: real, rc: real)

  // ---------------------------------------------------------------- utility

  /** `CadetPreferenceRanking !== null`: true for a number, a string, and for
      `undefined`, the value of a key the preference object lacks. */
  predicate Ranked(c: AppCadet, afsc: string) {
    Get(c.cadetPreferences, afsc) != Some(NullValue)
  }

  /** One line of a first-match scoring table: the tier the degree must have,
      whether the preference must be ranked, and the score. */
  datatype Rule = Rule(tier: string, needsRank: bool, score: real)

  /** The scoring table of `GetUtility`, line by line, as an independent
      reference for the cascade. */
  function UtilityRules(percentile: real, w: Weights): seq<Rule> {
    [ Rule(MANDATORY, true, 10.0 * percentile * w.wc + 250.0),
      Rule(DESIRED, true, 10.0 * w.rc * w.wc + 150.0),
      Rule(PERMITTED, true, 10.0 * percentile * w.wc),
      Rule(MANDATORY, false, 100.0 * percentile),
      Rule(DESIRED, false, 50.0 * percentile),
      Rule(PERMITTED, false, 0.0) ]
  }

  /** The score of the first rule that applies, or `default` when none does. */
  function FirstMatch(rules: seq<Rule>, degree: Option<string>, ranked: bool, default: real): real {
    if rules == [] then default
    else if degree == Some(rules[0].tier) && (ranked || !rules[0].needsRank) then rules[0].score
    else FirstMatch(rules[1..], degree, ranked, default)
  }

  /** The if/else cascade of `GetUtility` for one cadet record and one AFSC
      code. A degree that is missing or not one of the three tiers falls
      through to the penalty. */
  function Utility(c: AppCadet, afsc: string, penalty: real, w: Weights): real {
    var p := c.cadetPercentile;
    var degree := Get(c.cadetDegrees, afsc);
    var ranked := Ranked(c, afsc);
    if degree == Some(MANDATORY) && ranked then 10.0 * p * w.wc + 250.0
    else if degree == Some(DESIRED) && ranked then 10.0 * w.rc * w.wc + 150.0
    else if degree == Some(PERMITTED) && ranked then 10.0 * p * w.wc
    else if degree == Some(MANDATORY) then 100.0 * p
    else if degree == Some(DESIRED) then 50.0 * p
    else if degree == Some(PERMITTED) then 0.0
    else penalty
  }

  /** The cascade agrees with the rule table on every cadet and AFSC: the tiers
      are checked in the order Mandatory, Desired, Permitted with a ranked
      preference, then Mandatory, Desired, Permitted without, then the penalty. */
  lemma UtilityMatchesRuleTable(c: AppCadet, afsc: string, penalty: real, w: Weights)
    ensures Utility(c, afsc, penalty, w)
            == FirstMatch(UtilityRules(c.cadetPercentile, w), Get(c.cadetDegrees, afsc), Ranked(c, afsc), penalty)
  {
    var p := c.cadetPercentile;
    var degree := Get(c.cadetDegrees, afsc);
    var ranked := Ranked(c, afsc);
    var r0 := UtilityRules(p, w);
    var r1 := r0[1..];
    var r2 := r1[1..];
    var r3 := r2[1..];
    var r4 := r3[1..];
    var r5 := r4[1..];
    assert r5 == [Rule(PERMITTED, false, 0.0)] && r5[1..] == [];
    assert r4[0] == Rule(DESIRED, false, 50.0 * p);
    assert r3[0] == Rule(MANDATORY, false, 100.0 * p);
    assert r2[0] == Rule(PERMITTED, true, 10.0 * p * w.wc);
    assert r1[0] == Rule(DESIRED, true, 10.0 * w.rc * w.wc + 150.0);
    assert FirstMatch(r5[1..], degree, ranked, penalty) == penalty;
    var f5 := FirstMatch(r5, degree, ranked, penalty);
    assert f5 == if degree == Some(PERMITTED) then 0.0 else penalty;
    var f4 := FirstMatch(r4, degree, ranked, penalty);
    assert f4 == if degree == Some(DESIRED) then 50.0 * p else f5;
    var f3 := FirstMatch(r3, degree, ranked, penalty);
    assert f3 == if degree == Some(MANDATORY) then 100.0 * p else f4;
    var f2 := FirstMatch(r2, degree, ranked, penalty);
    assert f2 == if degree == Some(PERMITTED) && ranked then 10.0 * p * w.wc else f3;
    var f1 := FirstMatch(r1, degree, ranked, penalty);
    assert f1 == if degree == Some(DESIRED) && ranked then 10.0 * w.rc * w.wc + 150.0 else f2;
    assert FirstMatch(r0, degree, ranked, penalty)
           == if degree == Some(MANDATORY) && ranked then 10.0 * p * w.wc + 250.0 else f1;
  }

  /** The unranked scores are reached only through an explicit `null`: an AFSC
      missing from the preference object scores as a ranked one. */
  lemma MissingPreferenceScoresAsRanked(c: AppCadet, afsc: string, penalty: real, w: Weights)
    requires afsc !in Keys(c.cadetPreferences)
    ensures Get(c.cadetDegrees, afsc) == Some(MANDATORY) ==> Utility(c, afsc, penalty, w) == 10.0 * c.cadetPercentile * w.wc + 250.0
    ensures Get(c.cadetDegrees, afsc) == Some(DESIRED) ==> Utility(c, afsc, penalty, w) == 10.0 * w.rc * w.wc + 150.0
    ensures Get(c.cadetDegrees, afsc) == Some(PERMITTED) ==> Utility(c, afsc, penalty, w) == 10.0 * c.cadetPercentile * w.wc
  {
  }

  /** A degree that is not one of the three tiers always scores the penalty. */
  lemma NonTierScoresPenalty(c: AppCadet, afsc: string, penalty: real, w: Weights)
    requires forall t :: Get(c.cadetDegrees, afsc) == Some(t) ==> !IsTier(t)
    ensures Utility(c, afsc, penalty, w) == penalty
  {
  }

  // ---------------------------------------------------------------- variables

  /** `${cadet}_${afsc}`. */
  function VarName(cadet: string, afsc: string): string {
    cadet + "_" + afsc
  }

  /** The coefficient a family of terms puts on variable (cadet, AFSC). */
  datatype CoefKind =
    | UnitCoef                                  // `coef: 1`
    | UtilityCoef(penalty: real, w: Weights)    // `coef: utility`
    | MandatoryCoef                             // `cadetDegrees[afsc] === MANDATORY ? 1 : 0`
    | UsafaCoef                                 // `cadetFromUSAFA ? 1 : 0`
    | MeritCoef                                 // `coef: cadetPercentile`

  function CoefOf(k: CoefKind, c: (string, AppCadet), a: (string, Afsc)): real {
    match k
    case UnitCoef => 1.0
    case UtilityCoef(penalty, w) => Utility(c.1, a.0, penalty, w)
    case MandatoryCoef => if Get(c.1.cadetDegrees, a.0) == Some(MANDATORY) then 1.0 else 0.0
    case UsafaCoef => if c.1.cadetFromUSAFA then 1.0 else 0.0
    case MeritCoef => c.1.cadetPercentile
  }

  function TermFor(k: CoefKind, c: (string, AppCadet), a: (string, Afsc)): (t: Term)
    ensures t.name == VarName(c.0, a.0)
  {
    Term(VarName(c.0, a.0), CoefOf(k, c, a))
  }

  /** The term a loop body pushes for one (cadet, AFSC) pair. */
  function Cell(k: CoefKind): ((string, AppCadet), (string, Afsc)) -> Term {
    (c, a) => TermFor(k, c, a)
  }

  /** The objective's terms: the cadet-major nested loop of `InitializeLP`. */
  function ObjectiveGrid(cadets: Dict<AppCadet>, afscs: Dict<Afsc>, penalty: real, w: Weights): seq<Term> {
    Grid(cadets, afscs, Cell(UtilityCoef(penalty, w)))
  }

  /** `lp.binaries`: the variable names, in order. */
  function Names(terms: seq<Term>): (names: seq<string>)
    ensures |names| == |terms|
    ensures forall k :: 0 <= k < |terms| ==> names[k] == terms[k].name
  {
    if terms == [] then [] else Names(terms[..|terms| - 1]) + [terms[|terms| - 1].name]
  }

  /** Pushing a term pushes its name. */
  lemma NamesPush(terms: seq<Term>, t: Term)
    ensures Names(terms + [t]) == Names(terms) + [t.name]
  {
    assert (terms + [t])[..|terms|] == terms;
  }

  lemma {:induction false} NamesAppend(a: seq<Term>, b: seq<Term>)
    ensures Names(a + b) == Names(a) + Names(b)
  {
    if b != [] {
      var init := b[..|b| - 1];
      var last := b[|b| - 1];
      NamesAppend(a, init);
      assert a + b == (a + init) + [last];
      NamesPush(a + init, last);
      NamesPush(init, last);
      assert init + [last] == b;
    }
  }

  lemma AppendAssoc<T>(a: seq<T>, b: seq<T>, c: seq<T>)
    ensures a + b + c == a + (b + c)
  {
  }

  // ---------------------------------------------------------------- constraints

  /** `One_AFSC_${cadet}`: the cadet's variables sum to exactly 1. */
  function OneAfscConstraint(c: (string, AppCadet), afscs: Dict<Afsc>): Constraint {
    Constraint("One_AFSC_" + c.0, RowCells(c, afscs, Cell(UnitCoef)), Bnds(FX, Finite(1.0), Finite(1.0)))
  }

  /** The first loop of `AddConstraints`: one constraint per cadet. */
  function OneAfscConstraints(cadets: Dict<AppCadet>, afscs: Dict<Afsc>): (r: seq<Constraint>)
    ensures |r| == |cadets|
    ensures forall i :: 0 <= i < |cadets| ==> r[i] == OneAfscConstraint(cadets[i], afscs)
  {
    if cadets == [] then []
    else OneAfscConstraints(cadets[..|cadets| - 1], afscs) + [OneAfscConstraint(cadets[|cadets| - 1], afscs)]
  }

  /** The four per-AFSC loops of `AddConstraints`. */
  datatype Family = TargetFamily | MandatoryFamily | UsafaFamily | MeritFamily

  function FamilyCoef(f: Family): CoefKind {
    match f
    case TargetFamily => UnitCoef
    case MandatoryFamily => MandatoryCoef
    case UsafaFamily => UsafaCoef
    case MeritFamily => MeritCoef
  }

  /** Constraints per AFSC: one for the target and mandatory-degree families,
      a lower and an upper one for the USAFA and merit families. */
  function Width(f: Family): nat {
    if f == TargetFamily || f == MandatoryFamily then 1 else 2
  }

  /** Position of AFSC `j`'s constraint `t` within its family's block. */
  function Slot(f: Family, j: nat, t: nat): nat {
    RowStart(j, Width(f)) + t
  }

  /** The constraints one AFSC contributes to a family, given the column of
      terms the inner loop over cadets builds. The lower and upper USAFA and
      merit constraints receive identical terms. */
  function FamilyFor(f: Family, a: (string, Afsc), column: seq<Term>): (r: seq<Constraint>)
    ensures |r| == Width(f)
  {
    var t := a.1.target;
    match f
    case TargetFamily =>
      [Constraint("Target_" + a.0, column, Bnds(LO, Finite(t), Finite(t * a.1.overclassFactor)))]
    case MandatoryFamily =>
      [Constraint("Mandatory_Education_" + a.0, column,
         Bnds(LO, Finite(t * a.1.mandatoryDegreeBounds.min), Finite(t * a.1.mandatoryDegreeBounds.max)))]
    case UsafaFamily =>
      [Constraint("USAFA_Min_" + a.0, column, Bnds(LO, Finite(t * a.1.usaCadetBounds.min), PosInf)),
       Constraint("USAFA_Max_" + a.0, column, Bnds(UP, NegInf, Finite(t * a.1.usaCadetBounds.max)))]
    case MeritFamily =>
      [Constraint("Merit_Min_" + a.0, column, Bnds(LO, Finite(t * a.1.meritBounds.min), PosInf)),
       Constraint("Merit_Max_" + a.0, column, Bnds(UP, NegInf, Finite(t * a.1.meritBounds.max)))]
  }

  /** The body of one per-AFSC loop: the inner loop over cadets collects the
      column, then the family's constraints for the AFSC are pushed. */
  function FamilyBlock(f: Family, cadets: Dict<AppCadet>): ((string, Afsc)) -> seq<Constraint> {
    a => FamilyFor(f, a, ColumnCells(cadets, a, Cell(FamilyCoef(f))))
  }

  /** One per-AFSC loop of `AddConstraints`: the AFSCs' constraints in AFSC
      order, one per AFSC, or two for USAFA and merit. */
  function PerAfsc(f: Family, cadets: Dict<AppCadet>, afscs: Dict<Afsc>): (r: seq<Constraint>)
    ensures |r| == if Width(f) == 1 then |afscs| else 2 * |afscs|
  {
    FamilyBlockWidth(f, cadets, afscs);
    BlocksLength(afscs, FamilyBlock(f, cadets), Width(f));
    RowStartIsProduct(|afscs|, Width(f));
    Blocks(afscs, FamilyBlock(f, cadets))
  }

  lemma FamilyBlockWidth(f: Family, cadets: Dict<AppCadet>, afscs: Dict<Afsc>)
    ensures SameWidth(afscs, FamilyBlock(f, cadets), Width(f))
  {
  }

  /** AFSC `j`'s constraints fill slots `Width * j` to `Width * j + Width - 1` of its family's block. */
  lemma PerAfscAt(f: Family, cadets: Dict<AppCadet>, afscs: Dict<Afsc>, j: nat, t: nat)
    requires j < |afscs| && t < Width(f)
    ensures Slot(f, j, t) < |PerAfsc(f, cadets, afscs)|
    ensures PerAfsc(f, cadets, afscs)[Slot(f, j, t)]
            == FamilyFor(f, afscs[j], ColumnCells(cadets, afscs[j], Cell(FamilyCoef(f))))[t]
  {
    FamilyBlockWidth(f, cadets, afscs);
    BlocksAt(afscs, FamilyBlock(f, cadets), Width(f), j, t);
  }

  /** Everything `AddConstraints` appends, in the order of its five loops. */
  function AllConstraints(cadets: Dict<AppCadet>, afscs: Dict<Afsc>): seq<Constraint> {
    OneAfscConstraints(cadets, afscs)
      + PerAfsc(TargetFamily, cadets, afscs)
      + PerAfsc(MandatoryFamily, cadets, afscs)
      + PerAfsc(UsafaFamily, cadets, afscs)
      + PerAfsc(MeritFamily, cadets, afscs)
  }

  /** The whole program `InitializeLP` returns. */
  function BuildLP(cadets: Dict<AppCadet>, afscs: Dict<Afsc>, penalty: real, w: Weights): LP {
    var terms := ObjectiveGrid(cadets, afscs, penalty, w);
    LP("Cadet Assignment", Objective(Maximize, "Total Utility", terms), AllConstraints(cadets, afscs), Names(terms), [])
  }

  // ---------------------------------------------------------------- properties of the program

  /** The objective is maximised, named "Total Utility", and has one term per (cadet, AFSC) pair. */
  lemma ObjectiveSize(cadets: Dict<AppCadet>, afscs: Dict<Afsc>, penalty: real, w: Weights)
    ensures BuildLP(cadets, afscs, penalty, w).name == "Cadet Assignment"
    ensures BuildLP(cadets, afscs, penalty, w).objective.direction == Maximize
    ensures BuildLP(cadets, afscs, penalty, w).objective.name == "Total Utility"
    ensures |BuildLP(cadets, afscs, penalty, w).objective.vars| == |cadets| * |afscs|
    ensures BuildLP(cadets, afscs, penalty, w).bounds == []
  {
    RowStartIsProduct(|cadets|, |afscs|);
  }

  /** Term number `RowStart(i, |afscs|) + j`, that is `i * |afscs| + j`
      (cadet-major order), is named `cadet_afsc` after cadet `i` and AFSC `j`
      and weighted by the pair's utility. */
  lemma ObjectiveLayout(cadets: Dict<AppCadet>, afscs: Dict<Afsc>, penalty: real, w: Weights, i: nat, j: nat)
    requires i < |cadets| && j < |afscs|
    ensures RowStart(i, |afscs|) + j < |BuildLP(cadets, afscs, penalty, w).objective.vars|
    ensures BuildLP(cadets, afscs, penalty, w).objective.vars[RowStart(i, |afscs|) + j]
            == Term(VarName(cadets[i].0, afscs[j].0), Utility(cadets[i].1, afscs[j].0, penalty, w))
  {
    var k := UtilityCoef(penalty, w);
    GridAt(cadets, afscs, Cell(k), i, j);
    assert Cell(k)(cadets[i], afscs[j]) == TermFor(k, cadets[i], afscs[j]);
  }

  /** The binaries are exactly the objective's variable names, in the same order. */
  lemma BinariesLayout(cadets: Dict<AppCadet>, afscs: Dict<Afsc>, penalty: real, w: Weights)
    ensures |BuildLP(cadets, afscs, penalty, w).binaries| == |BuildLP(cadets, afscs, penalty, w).objective.vars|
    ensures forall k :: 0 <= k < |BuildLP(cadets, afscs, penalty, w).binaries| ==>
              BuildLP(cadets, afscs, penalty, w).binaries[k] == BuildLP(cadets, afscs, penalty, w).objective.vars[k].name
  {
  }

  /** Binary number `RowStart(i, |afscs|) + j` (`i * |afscs| + j`) is the
      variable of cadet `i` and AFSC `j`. */
  lemma BinaryAt(cadets: Dict<AppCadet>, afscs: Dict<Afsc>, penalty: real, w: Weights, i: nat, j: nat)
    requires i < |cadets| && j < |afscs|
    ensures RowStart(i, |afscs|) + j < |BuildLP(cadets, afscs, penalty, w).binaries|
    ensures BuildLP(cadets, afscs, penalty, w).binaries[RowStart(i, |afscs|) + j] == VarName(cadets[i].0, afscs[j].0)
  {
    GridAt(cadets, afscs, Cell(UtilityCoef(penalty, w)), i, j);
  }

  /** `AddConstraints` appends `|cadets| + 6 * |afscs|` constraints. */
  lemma ConstraintCount(cadets: Dict<AppCadet>, afscs: Dict<Afsc>)
    ensures |AllConstraints(cadets, afscs)| == |cadets| + 6 * |afscs|
  {
  }

  /** Constraint `i` is cadet `i`'s `One_AFSC_` constraint: fixed at 1, with
      coefficient 1 on the cadet's variable for every AFSC. */
  lemma OneAfscLayout(cadets: Dict<AppCadet>, afscs: Dict<Afsc>, i: nat)
    requires i < |cadets|
    ensures AllConstraints(cadets, afscs)[i].name == "One_AFSC_" + cadets[i].0
    ensures AllConstraints(cadets, afscs)[i].bnds == Bnds(FX, Finite(1.0), Finite(1.0))
    ensures |AllConstraints(cadets, afscs)[i].vars| == |afscs|
    ensures forall j :: 0 <= j < |afscs| ==>
              AllConstraints(cadets, afscs)[i].vars[j] == Term(VarName(cadets[i].0, afscs[j].0), 1.0)
  {
  }

  /** The per-AFSC blocks follow the `One_AFSC_` block in the order target
      (from `|cadets|`), mandatory (from `|cadets| + |afscs|`), USAFA (from
      `|cadets| + 2 * |afscs|`, two per AFSC) and merit (from
      `|cadets| + 4 * |afscs|`, two per AFSC); within a block, `PerAfscAt`
      locates each AFSC's constraints. */
  lemma TargetBlock(cadets: Dict<AppCadet>, afscs: Dict<Afsc>, k: nat)
    requires k < |PerAfsc(TargetFamily, cadets, afscs)|
    ensures |cadets| + k < |AllConstraints(cadets, afscs)|
    ensures AllConstraints(cadets, afscs)[|cadets| + k] == PerAfsc(TargetFamily, cadets, afscs)[k]
  {
    ConstraintCount(cadets, afscs);
    var one := OneAfscConstraints(cadets, afscs);
    var tg := PerAfsc(TargetFamily, cadets, afscs);
    assert (one + tg)[|one| + k] == tg[k];
  }

  lemma MandatoryBlock(cadets: Dict<AppCadet>, afscs: Dict<Afsc>, k: nat)
    requires k < |PerAfsc(MandatoryFamily, cadets, afscs)|
    ensures |cadets| + |afscs| + k < |AllConstraints(cadets, afscs)|
    ensures AllConstraints(cadets, afscs)[|cadets| + |afscs| + k] == PerAfsc(MandatoryFamily, cadets, afscs)[k]
  {
    ConstraintCount(cadets, afscs);
    var pre := OneAfscConstraints(cadets, afscs) + PerAfsc(TargetFamily, cadets, afscs);
    var md := PerAfsc(MandatoryFamily, cadets, afscs);
    assert (pre + md)[|pre| + k] == md[k];
  }

  lemma UsafaBlock(cadets: Dict<AppCadet>, afscs: Dict<Afsc>, k: nat)
    requires k < |PerAfsc(UsafaFamily, cadets, afscs)|
    ensures |cadets| + 2 * |afscs| + k < |AllConstraints(cadets, afscs)|
    ensures AllConstraints(cadets, afscs)[|cadets| + 2 * |afscs| + k] == PerAfsc(UsafaFamily, cadets, afscs)[k]
  {
    ConstraintCount(cadets, afscs);
    var pre := OneAfscConstraints(cadets, afscs) + PerAfsc(TargetFamily, cadets, afscs)
               + PerAfsc(MandatoryFamily, cadets, afscs);
    var us := PerAfsc(UsafaFamily, cadets, afscs);
    assert (pre + us)[|pre| + k] == us[k];
  }

  lemma MeritBlock(cadets: Dict<AppCadet>, afscs: Dict<Afsc>, k: nat)
    requires k < |PerAfsc(MeritFamily, cadets, afscs)|
    ensures |cadets| + 4 * |afscs| + k < |AllConstraints(cadets, afscs)|
    ensures AllConstraints(cadets, afscs)[|cadets| + 4 * |afscs| + k] == PerAfsc(MeritFamily, cadets, afscs)[k]
  {
    ConstraintCount(cadets, afscs);
    var pre := OneAfscConstraints(cadets, afscs) + PerAfsc(TargetFamily, cadets, afscs)
               + PerAfsc(MandatoryFamily, cadets, afscs) + PerAfsc(UsafaFamily, cadets, afscs);
    var mr := PerAfsc(MeritFamily, cadets, afscs);
    assert (pre + mr)[|pre| + k] == mr[k];
  }

  /** A family's column for an AFSC has one term per cadet, on that cadet's
      variable for the AFSC, in cadet order. */
  lemma ColumnNames(cadets: Dict<AppCadet>, a: (string, Afsc), k: CoefKind, i: nat)
    requires i < |cadets|
    ensures |ColumnCells(cadets, a, Cell(k))| == |cadets|
    ensures ColumnCells(cadets, a, Cell(k))[i] == Term(VarName(cadets[i].0, a.0), CoefOf(k, cadets[i], a))
  {
  }

  /** Constraint `j` of the target block is AFSC `j`'s `Target_` constraint:
      at least the target, at most target times the overclass factor, with
      coefficient 1 on every cadet's variable for the AFSC. */
  lemma TargetConstraint(cadets: Dict<AppCadet>, afscs: Dict<Afsc>, j: nat)
    requires j < |afscs|
    ensures j < |PerAfsc(TargetFamily, cadets, afscs)|
    ensures var c := PerAfsc(TargetFamily, cadets, afscs)[j];
            && c.name == "Target_" + afscs[j].0
            && c.bnds == Bnds(LO, Finite(afscs[j].1.target), Finite(afscs[j].1.target * afscs[j].1.overclassFactor))
            && |c.vars| == |cadets|
            && forall i :: 0 <= i < |cadets| ==> c.vars[i] == Term(VarName(cadets[i].0, afscs[j].0), 1.0)
  {
    PerAfscAt(TargetFamily, cadets, afscs, j, 0);
    RowStartIsProduct(j, 1);
  }

  /** Constraint `j` of the mandatory block is AFSC `j`'s
      `Mandatory_Education_` constraint: its bounds are the target scaled by
      the mandatory-degree bounds, and a cadet's coefficient is 1 exactly when
      the cadet's degree for the AFSC is Mandatory. */
  lemma MandatoryConstraint(cadets: Dict<AppCadet>, afscs: Dict<Afsc>, j: nat)
    requires j < |afscs|
    ensures j < |PerAfsc(MandatoryFamily, cadets, afscs)|
    ensures var c := PerAfsc(MandatoryFamily, cadets, afscs)[j];
            var a := afscs[j].1;
            && c.name == "Mandatory_Education_" + afscs[j].0
            && c.bnds == Bnds(LO, Finite(a.target * a.mandatoryDegreeBounds.min), Finite(a.target * a.mandatoryDegreeBounds.max))
            && |c.vars| == |cadets|
            && forall i :: 0 <= i < |cadets| ==>
                 c.vars[i] == Term(VarName(cadets[i].0, afscs[j].0),
                                   if Get(cadets[i].1.cadetDegrees, afscs[j].0) == Some(MANDATORY) then 1.0 else 0.0)
  {
    PerAfscAt(MandatoryFamily, cadets, afscs, j, 0);
    RowStartIsProduct(j, 1);
  }

  /** Constraints `2 * j` and `2 * j + 1` of the USAFA block are AFSC `j`'s
      `USAFA_Min_` (lower bound only) and `USAFA_Max_` (upper bound only)
      constraints, on the same terms: a cadet's coefficient is 1 exactly when
      the cadet is from USAFA. */
  lemma UsafaPair(cadets: Dict<AppCadet>, afscs: Dict<Afsc>, j: nat)
    requires j < |afscs|
    ensures 2 * j + 1 < |PerAfsc(UsafaFamily, cadets, afscs)|
    ensures var lo := PerAfsc(UsafaFamily, cadets, afscs)[2 * j];
            var hi := PerAfsc(UsafaFamily, cadets, afscs)[2 * j + 1];
            var a := afscs[j].1;
            && lo.name == "USAFA_Min_" + afscs[j].0
            && lo.bnds == Bnds(LO, Finite(a.target * a.usaCadetBounds.min), PosInf)
            && hi.name == "USAFA_Max_" + afscs[j].0
            && hi.bnds == Bnds(UP, NegInf, Finite(a.target * a.usaCadetBounds.max))
            && lo.vars == hi.vars && |lo.vars| == |cadets|
            && forall i :: 0 <= i < |cadets| ==>
                 lo.vars[i] == Term(VarName(cadets[i].0, afscs[j].0), if cadets[i].1.cadetFromUSAFA then 1.0 else 0.0)
  {
    RowStartIsProduct(j, 2);
    PerAfscAt(UsafaFamily, cadets, afscs, j, 0);
    PerAfscAt(UsafaFamily, cadets, afscs, j, 1);
  }

  /** Constraints `2 * j` and `2 * j + 1` of the merit block are AFSC `j`'s
      `Merit_Min_` and `Merit_Max_` constraints, on the same terms: a cadet's
      coefficient is the cadet's percentile. */
  lemma MeritPair(cadets: Dict<AppCadet>, afscs: Dict<Afsc>, j: nat)
    requires j < |afscs|
    ensures 2 * j + 1 < |PerAfsc(MeritFamily, cadets, afscs)|
    ensures var lo := PerAfsc(MeritFamily, cadets, afscs)[2 * j];
            var hi := PerAfsc(MeritFamily, cadets, afscs)[2 * j + 1];
            var a := afscs[j].1;
            && lo.name == "Merit_Min_" + afscs[j].0
            && lo.bnds == Bnds(LO, Finite(a.target * a.meritBounds.min), PosInf)
            && hi.name == "Merit_Max_" + afscs[j].0
            && hi.bnds == Bnds(UP, NegInf, Finite(a.target * a.meritBounds.max))
            && lo.vars == hi.vars && |lo.vars| == |cadets|
            && forall i :: 0 <= i < |cadets| ==>
                 lo.vars[i] == Term(VarName(cadets[i].0, afscs[j].0), cadets[i].1.cadetPercentile)
  {
    RowStartIsProduct(j, 2);
    PerAfscAt(MeritFamily, cadets, afscs, j, 0);
    PerAfscAt(MeritFamily, cadets, afscs, j, 1);
  }

  // ---------------------------------------------------------------- results

  /** `vars[varName] === 1`: a missing name is `undefined`, which is not 1. */
  predicate IsOne(vars: map<string, real>, name: string) {
    name in vars && vars[name] == 1.0
  }

  /** The pairs one cadet's row reports, in AFSC order. */
  function AssignedRow(cadet: string, afscs: seq<string>, vars: map<string, real>): seq<(string, string)> {
    if afscs == [] then []
    else
      var a := afscs[|afscs| - 1];
      AssignedRow(cadet, afscs[..|afscs| - 1], vars) + (if IsOne(vars, VarName(cadet, a)) then [(cadet, a)] else [])
  }

  /** The `cadet assigned to afsc` lines of `DisplayResults`, cadet-major. */
  function Assigned(cadets: seq<string>, afscs: seq<string>, vars: map<string, real>): seq<(string, string)> {
    if cadets == [] then []
    else Assigned(cadets[..|cadets| - 1], afscs, vars) + AssignedRow(cadets[|cadets| - 1], afscs, vars)
  }

  lemma {:induction false} AssignedRowIff(cadet: string, afscs: seq<string>, vars: map<string, real>, p: (string, string))
    ensures p in AssignedRow(cadet, afscs, vars) <==> p.0 == cadet && p.1 in afscs && IsOne(vars, VarName(cadet, p.1))
  {
    if afscs != [] {
      var init := afscs[..|afscs| - 1];
      AssignedRowIff(cadet, init, vars, p);
      assert afscs == init + [afscs[|afscs| - 1]];
    }
  }

  /** A pair is reported exactly when its cadet and AFSC are keys and the
      solver gave its variable the value 1. */
  lemma {:induction false} AssignedIff(cadets: seq<string>, afscs: seq<string>, vars: map<string, real>, p: (string, string))
    ensures p in Assigned(cadets, afscs, vars) <==> p.0 in cadets && p.1 in afscs && IsOne(vars, VarName(p.0, p.1))
  {
    if cadets != [] {
      var init := cadets[..|cadets| - 1];
      AssignedIff(init, afscs, vars, p);
      AssignedRowIff(cadets[|cadets| - 1], afscs, vars, p);
      assert cadets == init + [cadets[|cadets| - 1]];
    }
  }

  /** Every reported pair's variable is one of the program's binaries: both use the same name scheme. */
  lemma AssignedAreBinaries(cadets: Dict<AppCadet>, afscs: Dict<Afsc>, penalty: real, w: Weights,
                            vars: map<string, real>, p: (string, string))
    requires p in Assigned(Keys(cadets), Keys(afscs), vars)
    ensures VarName(p.0, p.1) in BuildLP(cadets, afscs, penalty, w).binaries
  {
    AssignedIff(Keys(cadets), Keys(afscs), vars, p);
    var i :| 0 <= i < |cadets| && Keys(cadets)[i] == p.0;
    var j :| 0 <= j < |afscs| && Keys(afscs)[j] == p.1;
    BinaryAt(cadets, afscs, penalty, w, i, j);
  }

  // ---------------------------------------------------------------- loop steps

  /** The term `InitializeLP` pushes for a pair is the pair's objective cell. */
  lemma UtilityTermIs(c: (string, AppCadet), a: (string, Afsc), penalty: real, w: Weights, u: real)
    requires u == Utility(c.1, a.0, penalty, w)
    ensures Term(VarName(c.0, a.0), u) == Cell(UtilityCoef(penalty, w))(c, a)
  {
  }

  /** One more step of the `One_AFSC_` loop. */
  lemma OneAfscPush(pre: seq<Constraint>, cadets: Dict<AppCadet>, afscs: Dict<Afsc>, i: nat)
    requires i < |cadets|
    ensures pre + OneAfscConstraints(cadets[..i + 1], afscs)
            == pre + OneAfscConstraints(cadets[..i], afscs) + [OneAfscConstraint(cadets[i], afscs)]
  {
    assert cadets[..i + 1][..i] == cadets[..i];
  }

  /** One more step of a per-AFSC loop. */
  lemma PerAfscPush(f: Family, pre: seq<Constraint>, cadets: Dict<AppCadet>, afscs: Dict<Afsc>, j: nat)
    requires j < |afscs|
    ensures pre + PerAfsc(f, cadets, afscs[..j + 1])
            == pre + PerAfsc(f, cadets, afscs[..j]) + FamilyFor(f, afscs[j], ColumnCells(cadets, afscs[j], Cell(FamilyCoef(f))))
  {
    BlocksPush(afscs, FamilyBlock(f, cadets), j);
  }

  /** One more step of the outer loop of `DisplayResults`. */
  lemma AssignedPush(cadets: seq<string>, afscs: seq<string>, vars: map<string, real>, i: nat)
    requires i < |cadets|
    ensures Assigned(cadets[..i + 1], afscs, vars) == Assigned(cadets[..i], afscs, vars) + AssignedRow(cadets[i], afscs, vars)
  {
    assert cadets[..i + 1][..i] == cadets[..i];
  }

  /** One more step of the inner loop of `DisplayResults`. */
  lemma AssignedRowPush(cadet: string, afscs: seq<string>, vars: map<string, real>, j: nat)
    requires j < |afscs|
    ensures AssignedRow(cadet, afscs[..j + 1], vars)
            == AssignedRow(cadet, afscs[..j], vars) + (if IsOne(vars, VarName(cadet, afscs[j])) then [(cadet, afscs[j])] else [])
  {
    assert afscs[..j + 1][..j] == afscs[..j];
  }

  /** The inner loop of `DisplayResults` for one cadet: the AFSCs whose
      variable the solver set to 1, in AFSC order. */
  method RowResults(cadet: string, afscs: seq<string>, vars: map<string, real>) returns (row: seq<(string, string)>)
    ensures row == AssignedRow(cadet, afscs, vars)
  {
    row := [];
    var j := 0;
    while j < |afscs|
      invariant 0 <= j <= |afscs|
      invariant row == AssignedRow(cadet, afscs[..j], vars)
    {
      AssignedRowPush(cadet, afscs, vars, j);
      var varName := VarName(cadet, afscs[j]);
      if varName in vars && vars[varName] == 1.0 {
        row := row + [(cadet, afscs[j])];
      }
      j := j + 1;
    }
    assert afscs[..j] == afscs;
  }

  // ---------------------------------------------------------------- the class

  class CadetAssignment {
    var cadetData: Dict<AppCadet>
    var afscData: Dict<Afsc>
    var deviationPenalty: real
    var weights: Weights
    var lp: LP

    /** The keyed objects have distinct keys and `lp` is the program built from them. */
    predicate Valid()
      reads this
    {
      DistinctKeys(cadetData) && lp == BuildLP(cadetData, afscData, deviationPenalty, weights)
    }

    /** `new CadetAssignment(cadetHashSet, afscHashSet, deviationPenalty)`, with the weights made explicit. */
    constructor(cadetHashSet: Dict<AppCadet>, afscHashSet: Dict<Afsc>, deviationPenalty: real, weights: Weights)
      requires DistinctKeys(cadetHashSet)
      ensures cadetData == cadetHashSet && afscData == afscHashSet
      ensures this.deviationPenalty == deviationPenalty && this.weights == weights
      ensures Valid()
    {
      cadetData := cadetHashSet;
      afscData := afscHashSet;
      this.deviationPenalty := deviationPenalty;
      this.weights := weights;
      new;
      lp := InitializeLP();
    }

    /** `GetUtility(cadet, afsc)`: looks the cadet up by name and scores the pair. */
    function GetUtility(cadet: string, afsc: string): (u: real)
      reads this
      requires DistinctKeys(cadetData) && cadet in Keys(cadetData)
      ensures forall i :: 0 <= i < |cadetData| && cadetData[i].0 == cadet ==>
                u == Utility(cadetData[i].1, afsc, deviationPenalty, weights)
    {
      assert forall i :: 0 <= i < |cadetData| && cadetData[i].0 == cadet ==> Get(cadetData, cadet) == Some(cadetData[i].1) by {
        forall i | 0 <= i < |cadetData| && cadetData[i].0 == cadet ensures Get(cadetData, cadet) == Some(cadetData[i].1) {
          GetEntry(cadetData, i);
        }
      }
      Utility(Get(cadetData, cadet).value, afsc, deviationPenalty, weights)
    }

    /** `InitializeLP()`: the objective and binaries by the nested loop, then the constraints. */
    method InitializeLP() returns (lp: LP)
      requires DistinctKeys(cadetData)
      ensures lp == BuildLP(cadetData, afscData, deviationPenalty, weights)
    {
      var vars, binaries := ObjectiveTerms();
      lp := LP("Cadet Assignment", Objective(Maximize, "Total Utility", vars), [], binaries, []);
      assert [] + OneAfscConstraints(cadetData, afscData) == OneAfscConstraints(cadetData, afscData);
      lp := AddConstraints(lp);
    }

    /** The nested loop of `InitializeLP`: a utility-weighted term and a binary
        for every (cadet, AFSC) pair, cadet-major. */
    method ObjectiveTerms() returns (vars: seq<Term>, binaries: seq<string>)
      requires DistinctKeys(cadetData)
      ensures vars == ObjectiveGrid(cadetData, afscData, deviationPenalty, weights)
      ensures binaries == Names(vars)
    {
      var k := Cell(UtilityCoef(deviationPenalty, weights));
      vars, binaries := [], [];
      var i := 0;
      while i < |cadetData|
        invariant 0 <= i <= |cadetData|
        invariant vars == Grid(cadetData[..i], afscData, k)
        invariant binaries == Names(vars)
      {
        var row, names := CadetTerms(i);
        NamesAppend(vars, row);
        GridPush(cadetData, afscData, k, i);
        vars := vars + row;
        binaries := binaries + names;
        i := i + 1;
      }
      assert cadetData[..i] == cadetData;
    }

    /** The inner loop of `InitializeLP` for cadet `i`: one utility-weighted
        term and one binary per AFSC, in AFSC order. */
    method CadetTerms(i: nat) returns (row: seq<Term>, names: seq<string>)
      requires DistinctKeys(cadetData) && i < |cadetData|
      ensures row == RowCells(cadetData[i], afscData, Cell(UtilityCoef(deviationPenalty, weights)))
      ensures names == Names(row)
    {
      var k := Cell(UtilityCoef(deviationPenalty, weights));
      var cadet := cadetData[i];
      row, names := [], [];
      var j := 0;
      while j < |afscData|
        invariant 0 <= j <= |afscData|
        invariant row == RowCells(cadet, afscData[..j], k)
        invariant names == Names(row)
      {
        var term := UtilityTerm(i, j);
        RowPush(cadet, afscData, k, j);
        NamesPush(row, term);
        row := row + [term];
        names := names + [VarName(cadet.0, afscData[j].0)];
        j := j + 1;
      }
      assert afscData[..j] == afscData;
    }

    /** The body of the inner loop of `InitializeLP`: the variable of cadet `i`
        and AFSC `j`, weighted by `GetUtility`. */
    method UtilityTerm(i: nat, j: nat) returns (term: Term)
      requires DistinctKeys(cadetData) && i < |cadetData| && j < |afscData|
      ensures term == Cell(UtilityCoef(deviationPenalty, weights))(cadetData[i], afscData[j])
    {
      var cadet, afsc := cadetData[i], afscData[j];
      assert cadet.0 in Keys(cadetData) by { assert Keys(cadetData)[i] == cadet.0; }
      var varName := VarName(cadet.0, afsc.0);
      var utility := GetUtility(cadet.0, afsc.0);
      term := Term(varName, utility);
      UtilityTermIs(cadet, afsc, deviationPenalty, weights, utility);
    }

    /** `AddConstraints(lp)`: appends the five families of constraints to
        `lp.subjectTo`, leaving the rest of the program as it is. */
    method AddConstraints(lp: LP) returns (lp': LP)
      ensures lp' == lp.(subjectTo := lp.subjectTo
                                      + OneAfscConstraints(cadetData, afscData)
                                      + PerAfsc(TargetFamily, cadetData, afscData)
                                      + PerAfsc(MandatoryFamily, cadetData, afscData)
                                      + PerAfsc(UsafaFamily, cadetData, afscData)
                                      + PerAfsc(MeritFamily, cadetData, afscData))
    {
      var subjectTo := lp.subjectTo;
      var i := 0;
      while i < |cadetData|
        invariant 0 <= i <= |cadetData|
        invariant subjectTo == lp.subjectTo + OneAfscConstraints(cadetData[..i], afscData)
      {
        var cadet := cadetData[i];
        var vars := UnitRow(cadet);
        OneAfscPush(lp.subjectTo, cadetData, afscData, i);
        subjectTo := subjectTo + [Constraint("One_AFSC_" + cadet.0, vars, Bnds(FX, Finite(1.0), Finite(1.0)))];
        i := i + 1;
      }
      assert cadetData[..i] == cadetData;
      subjectTo := AppendFamily(TargetFamily, subjectTo);
      subjectTo := AppendFamily(MandatoryFamily, subjectTo);
      subjectTo := AppendFamily(UsafaFamily, subjectTo);
      subjectTo := AppendFamily(MeritFamily, subjectTo);
      lp' := lp.(subjectTo := subjectTo);
    }

    /** The inner loop of the `One_AFSC_` loop: coefficient 1 on the cadet's
        variable for every AFSC, in AFSC order. */
    method UnitRow(cadet: (string, AppCadet)) returns (vars: seq<Term>)
      ensures vars == RowCells(cadet, afscData, Cell(UnitCoef))
    {
      vars := [];
      var j := 0;
      while j < |afscData|
        invariant 0 <= j <= |afscData|
        invariant vars == RowCells(cadet, afscData[..j], Cell(UnitCoef))
      {
        RowPush(cadet, afscData, Cell(UnitCoef), j);
        vars := vars + [Term(VarName(cadet.0, afscData[j].0), 1.0)];
        j := j + 1;
      }
      assert afscData[..j] == afscData;
    }

    /** One per-AFSC loop of `AddConstraints`: for every AFSC, the inner loop
        over cadets collects the terms, then the family's constraints are pushed. */
    method AppendFamily(f: Family, subjectTo: seq<Constraint>) returns (r: seq<Constraint>)
      ensures r == subjectTo + PerAfsc(f, cadetData, afscData)
    {
      var k := FamilyCoef(f);
      r := subjectTo;
      var j := 0;
      while j < |afscData|
        invariant 0 <= j <= |afscData|
        invariant r == subjectTo + PerAfsc(f, cadetData, afscData[..j])
      {
        var afsc := afscData[j];
        var column := ColumnTerms(afsc, k);
        PerAfscPush(f, subjectTo, cadetData, afscData, j);
        r := r + FamilyFor(f, afsc, column);
        j := j + 1;
      }
      assert afscData[..j] == afscData;
    }

    /** The inner loop over cadets of a per-AFSC loop: one term per cadet, in cadet order. */
    method ColumnTerms(afsc: (string, Afsc), k: CoefKind) returns (column: seq<Term>)
      ensures column == ColumnCells(cadetData, afsc, Cell(k))
    {
      column := [];
      var i := 0;
      while i < |cadetData|
        invariant 0 <= i <= |cadetData|
        invariant column == ColumnCells(cadetData[..i], afsc, Cell(k))
      {
        ColumnPush(cadetData, afsc, Cell(k), i);
        column := column + [TermFor(k, cadetData[i], afsc)];
        i := i + 1;
      }
      assert cadetData[..i] == cadetData;
    }

    /** `DisplayResults(vars)`: the (cadet, AFSC) pairs whose variable the
        solver set to 1, in the order the source logs them. */
    method DisplayResults(vars: map<string, real>) returns (pairs: seq<(string, string)>)
      ensures pairs == Assigned(Keys(cadetData), Keys(afscData), vars)
      ensures forall p :: p in pairs <==> p.0 in Keys(cadetData) && p.1 in Keys(afscData) && IsOne(vars, VarName(p.0, p.1))
    {
      var cs, codes := Keys(cadetData), Keys(afscData);
      pairs := [];
      var i := 0;
      while i < |cs|
        invariant 0 <= i <= |cs|
        invariant pairs == Assigned(cs[..i], codes, vars)
      {
        var row := RowResults(cs[i], codes, vars);
        AssignedPush(cs, codes, vars, i);
        pairs := pairs + row;
        i := i + 1;
      }
      assert cs[..i] == cs;
      forall p ensures p in pairs <==> p.0 in cs && p.1 in codes && IsOne(vars, VarName(p.0, p.1)) {
        AssignedIff(cs, codes, vars, p);
      }
    }
  }
}
