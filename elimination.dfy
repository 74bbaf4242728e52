/** Backward elimination: the one-shot block and the while loop that refit the
    regression and drop the predictor with the largest p-value while it exceeds
    0.05. The least-squares fit itself (statsmodels) is a parameter: a
    deterministic function from the dependent vector and the predictor columns
    to the fitted parameters and p-values. */
module Elimination {
  import opened Sequences

  /** The observations of one predictor. The design `x` is held as its list of
      predictor columns, so `np.delete(x, k, 1)` drops entry `k` of that list. */
  type Column = seq<real>

  /** What the script reads from a fit: `params` (intercept first) and `pvalues`
      (intercept first; the script drops it with `[1:]`). */
  datatype Fit = Fit(params: seq<real>, pvalues: seq<real>)

  type Ols = (seq<real>, seq<Column>) -> Fit

  /** statsmodels' shapes: one parameter and one p-value per column plus the constant. */
  ghost predicate WellShaped(ols: Ols)
  {
    forall y: seq<real>, x: seq<Column> ::
      |ols(y, x).params| == |x| + 1 && |ols(y, x).pvalues| == |x| + 1
  }

  /** `fit.pvalues[1:]`, with Python's slicing of an empty list. */
  function PValues(fit: Fit): (ps: seq<real>)
    ensures |ps| == if fit.pvalues == [] then 0 else |fit.pvalues| - 1
    ensures forall i :: 0 <= i < |ps| ==> ps[i] == fit.pvalues[i + 1]
  {
    if fit.pvalues == [] then [] else fit.pvalues[1..]
  }

  /** An entry of `columns_elim`. */
  datatype Eliminated = Eliminated(title: string, pValue: real)

  /** The loop's variables: `x`, `columns_kept` and `columns_elim`. */
  datatype State = State(x: seq<Column>, kept: seq<string>, elim: seq<Eliminated>)

  /** `columns_kept` names the columns of `x`, one name per column. */
  predicate Lockstep(s: State)
  {
    |s.kept| == |s.x|
  }

  /** The state the script starts from: all predictors, `column_titles[2:]`, nothing eliminated. */
  function Init(x0: seq<Column>, titles: seq<string>): (s: State)
    requires |x0| + 2 == |titles|
    ensures Lockstep(s) && s.x == x0 && s.kept == titles[2..] && s.elim == []
  {
    State(x0, titles[2..], [])
  }

  /** Each name paired with its column. */
  function Pairing(s: State): (r: seq<(string, Column)>)
    requires Lockstep(s)
    ensures |r| == |s.kept|
  {
    seq(|s.kept|, i requires 0 <= i < |s.kept| => (s.kept[i], s.x[i]))
  }

  function Titles(es: seq<Eliminated>): (r: seq<string>)
    ensures |r| == |es|
    decreases |es|
  {
    if es == [] then [] else Titles(es[..|es| - 1]) + [es[|es| - 1].title]
  }

  /** numpy's `argmax`: the FIRST index at which the maximum is reached. */
  function ArgMax(ps: seq<real>): (k: nat)
    requires |ps| > 0
    ensures k < |ps|
    ensures forall j :: 0 <= j < |ps| ==> ps[j] <= ps[k]
    ensures forall j :: 0 <= j < k ==> ps[j] < ps[k]
    decreases |ps|
  {
    if |ps| == 1 then 0
    else
      var k := ArgMax(ps[1..]);
      if ps[0] >= ps[k + 1] then 0 else k + 1
  }

  /** numpy's `amax`: the largest entry. */
  function Max(ps: seq<real>): (m: real)
    requires |ps| > 0
    ensures m in ps
    ensures forall j :: 0 <= j < |ps| ==> ps[j] <= m
    decreases |ps|
  {
    if |ps| == 1 then ps[0]
    else
      var m := Max(ps[1..]);
      if ps[0] >= m then ps[0] else m
  }

  /** `np.amax(ps)` is the entry at `np.argmax(ps)`. */
  lemma MaxAtArgMax(ps: seq<real>)
    requires |ps| > 0
    ensures Max(ps) == ps[ArgMax(ps)]
  {
    var j :| 0 <= j < |ps| && ps[j] == Max(ps);
  }

  /** What one run of the loop body leaves behind. `maxIndex` and `maxP` are
      `max_index` and `max_p_value`. */
  datatype StepResult =
    | EmptyPValues                                    // np.argmax of an empty list raises
    | Stepped(next: State, maxIndex: nat, maxP: real)

  /** `s` evolves into `t` by the elimination: names and columns are deleted together,
      every deleted name is recorded after the earlier records, with a p-value above 0.05. */
  ghost predicate Evolved(s: State, t: State)
  {
    Lockstep(s) && Lockstep(t) &&
    IsSubsequence(Pairing(t), Pairing(s)) &&
    IsSubsequence(t.kept, s.kept) &&
    s.elim <= t.elim &&
    |t.kept| + |t.elim| == |s.kept| + |s.elim| &&
    multiset(t.kept) + multiset(Titles(t.elim)) == multiset(s.kept) + multiset(Titles(s.elim)) &&
    forall i :: |s.elim| <= i < |t.elim| ==> t.elim[i].pValue > 0.05
  }

  /** The loop body after the fit (lines 107-117); also the one-shot block (lines 73-88). */
  function Step(s: State, fit: Fit): (r: StepResult)
    requires Lockstep(s) && |PValues(fit)| == |s.x|
    ensures r.EmptyPValues? <==> s.x == []
    ensures r.Stepped? ==>
      r.maxIndex < |s.x| && r.maxP == PValues(fit)[r.maxIndex]
    ensures r.Stepped? && r.maxP <= 0.05 ==> r.next == s
    ensures r.Stepped? && r.maxP > 0.05 ==>
      r.next.kept == Delete(s.kept, r.maxIndex) && r.next.x == Delete(s.x, r.maxIndex) &&
      r.next.elim == s.elim + [Eliminated(s.kept[r.maxIndex], r.maxP)]
    ensures r.Stepped? ==> Lockstep(r.next)
  {
    var ps := PValues(fit);
    if |ps| == 0 then EmptyPValues
    else
      var maxIndex := ArgMax(ps);
      var maxP := ps[maxIndex];  // np.amax(ps), by MaxAtArgMax
      if maxP > 0.05 then
        var next := State(Delete(s.x, maxIndex), Delete(s.kept, maxIndex),
                          s.elim + [Eliminated(s.kept[maxIndex], maxP)]);
        Stepped(next, maxIndex, maxP)
      else
        Stepped(s, maxIndex, maxP)
  }

  /** The step picks the FIRST predictor with the largest p-value, and that p-value is `np.amax(ps)`. */
  lemma StepPicksFirstLargest(s: State, fit: Fit)
    requires Lockstep(s) && |PValues(fit)| == |s.x| && Step(s, fit).Stepped?
    ensures Step(s, fit).maxP == Max(PValues(fit))
    ensures forall j :: 0 <= j < |s.x| ==> PValues(fit)[j] <= Step(s, fit).maxP
    ensures forall j :: 0 <= j < Step(s, fit).maxIndex ==> PValues(fit)[j] < Step(s, fit).maxP
  {
    MaxAtArgMax(PValues(fit));
  }

  /** One step removes a name together with its column and records it, or changes nothing. */
  lemma StepEvolves(s: State, fit: Fit)
    requires Lockstep(s) && |PValues(fit)| == |s.x|
    ensures Step(s, fit).Stepped? ==> Evolved(s, Step(s, fit).next)
  {
    var r := Step(s, fit);
    if r.Stepped? {
      if r.maxP > 0.05 {
        RemovalEvolves(s, r.maxIndex, r.maxP);
      } else {
        EvolvedReflexive(s);
      }
    }
  }

  lemma EvolvedReflexive(s: State)
    requires Lockstep(s)
    ensures Evolved(s, s)
  {
    SubsequenceReflexive(Pairing(s));
    SubsequenceReflexive(s.kept);
  }

  /** Popping name `k`, deleting column `k` and recording the name is an evolution. */
  lemma RemovalEvolves(s: State, k: nat, p: real)
    requires Lockstep(s) && k < |s.kept| && p > 0.05
    ensures Evolved(s, State(Delete(s.x, k), Delete(s.kept, k), s.elim + [Eliminated(s.kept[k], p)]))
  {
    var t := State(Delete(s.x, k), Delete(s.kept, k), s.elim + [Eliminated(s.kept[k], p)]);
    PairingDelete(s, k);
    DeleteIsSubsequence(Pairing(s), k);
    assert IsSubsequence(Pairing(t), Pairing(s));
    DeleteIsSubsequence(s.kept, k);
    DeleteMultiset(s.kept, k);
    TitlesAppend(s.elim, Eliminated(s.kept[k], p));
    assert multiset(t.kept) + multiset(Titles(t.elim)) == multiset(s.kept) + multiset(Titles(s.elim));
    assert s.elim <= t.elim;
    forall i | |s.elim| <= i < |t.elim| ensures t.elim[i].pValue > 0.05 {
      assert i == |s.elim|;
    }
    assert Lockstep(t) && |t.kept| + |t.elim| == |s.kept| + |s.elim|;
  }

  /** Deleting index `k` from both containers deletes the pair at `k`. */
  lemma PairingDelete(s: State, k: nat)
    requires Lockstep(s) && k < |s.kept|
    ensures Pairing(State(Delete(s.x, k), Delete(s.kept, k), s.elim)) == Delete(Pairing(s), k)
  {
    var t := State(Delete(s.x, k), Delete(s.kept, k), s.elim);
    var d := Delete(Pairing(s), k);
    forall i | 0 <= i < |d| ensures Pairing(t)[i] == d[i] {
      if i < k {
        assert d[i] == Pairing(s)[i];
      } else {
        assert d[i] == Pairing(s)[i + 1];
      }
    }
  }

  lemma TitlesAppend(es: seq<Eliminated>, e: Eliminated)
    ensures Titles(es + [e]) == Titles(es) + [e.title]
  {
    assert (es + [e])[..|es|] == es;
  }

  lemma EvolvedTransitive(s: State, t: State, u: State)
    requires Evolved(s, t) && Evolved(t, u)
    ensures Evolved(s, u)
  {
    SubsequenceTransitive(Pairing(u), Pairing(t), Pairing(s));
    SubsequenceTransitive(u.kept, t.kept, s.kept);
    forall i | |s.elim| <= i < |u.elim| ensures u.elim[i].pValue > 0.05 {
      if i < |t.elim| {
        assert u.elim[i] == t.elim[i];
      }
    }
  }

  /** How the loop as written ends: it leaves normally with the last fit, `np.argmax`
      raises on an empty list, or (only in the model) the fuel bound is reached. */
  datatype Outcome =
    | Finished(state: State, fit: Fit)
    | ArgmaxOfEmpty(state: State)
    | FuelExhausted(state: State)

  /** The while loop of lines 96-117, run for at most `fuel + 1` iterations. The guard's first
      test always passes, since `max_p_value` starts at .05; after that the guard is
      `max_p_value >= .05` while the removal test is `> .05`. */
  function RunAsWritten(y: seq<real>, s: State, ols: Ols, fuel: nat): (r: Outcome)
    requires Lockstep(s) && WellShaped(ols)
    ensures Lockstep(r.state)
    ensures r.Finished? ==>
      r.fit == ols(y, r.state.x) &&
      forall j :: 0 <= j < |PValues(r.fit)| ==> PValues(r.fit)[j] < 0.05
    ensures r.ArgmaxOfEmpty? ==> r.state.x == [] && r.state.kept == []
    decreases fuel
  {
    var fit := ols(y, s.x);
    match Step(s, fit)
    case EmptyPValues => ArgmaxOfEmpty(s)
    case Stepped(next, _, maxP) =>
      if maxP < 0.05 then Finished(next, fit)
      else if fuel == 0 then FuelExhausted(next)
      else RunAsWritten(y, next, ols, fuel - 1)
  }

  /** The loop as written on a state without predictors: `np.argmax` raises. */
  lemma RunAsWrittenEmpty(y: seq<real>, s: State, ols: Ols, fuel: nat)
    requires Lockstep(s) && WellShaped(ols) && s.x == []
    ensures RunAsWritten(y, s, ols, fuel) == ArgmaxOfEmpty(s)
  {
  }

  /** A round of the loop as written that leaves it with every p-value below 0.05. */
  lemma RunAsWrittenFinishes(y: seq<real>, s: State, ols: Ols, fuel: nat, t: State, maxIndex: nat, maxP: real)
    requires Lockstep(s) && WellShaped(ols) && Step(s, ols(y, s.x)) == Stepped(t, maxIndex, maxP)
    requires maxP < 0.05
    ensures RunAsWritten(y, s, ols, fuel) == Finished(t, ols(y, s.x))
  {
  }

  /** A round of the loop as written after which the guard still holds. */
  lemma RunAsWrittenGoesOn(y: seq<real>, s: State, ols: Ols, fuel: nat, t: State, maxIndex: nat, maxP: real)
    requires Lockstep(s) && WellShaped(ols) && Step(s, ols(y, s.x)) == Stepped(t, maxIndex, maxP)
    requires maxP >= 0.05
    ensures fuel == 0 ==> RunAsWritten(y, s, ols, fuel) == FuelExhausted(t)
    ensures fuel > 0 ==> RunAsWritten(y, s, ols, fuel) == RunAsWritten(y, t, ols, fuel - 1)
  {
  }

  /** Once `R` relates `s0` to a state, it relates `s0` to what any step makes of that state. */
  ghost predicate StepClosed(R: (State, State) -> bool)
  {
    forall s0, a, fit {:trigger R(s0, a), Step(a, fit)} ::
      R(s0, a) && Lockstep(a) && |PValues(fit)| == |a.x| && Step(a, fit).Stepped? ==> R(s0, Step(a, fit).next)
  }

  /** A relation closed under steps relates a state to wherever the loop as written ends. */
  lemma {:induction false} RunAsWrittenClosed(y: seq<real>, s0: State, s: State, ols: Ols, fuel: nat,
                                              R: (State, State) -> bool)
    requires Lockstep(s) && WellShaped(ols) && StepClosed(R) && R(s0, s)
    ensures R(s0, RunAsWritten(y, s, ols, fuel).state)
    decreases fuel
  {
    var fit := ols(y, s.x);
    match Step(s, fit)
    case EmptyPValues =>
    case Stepped(next, _, maxP) =>
      if maxP >= 0.05 && fuel > 0 {
        RunAsWrittenClosed(y, s0, next, ols, fuel - 1, R);
      }
  }

  /** A relation closed under steps relates a state to wherever the corrected loop ends. */
  lemma {:induction false} RunCorrectedClosed(y: seq<real>, s0: State, s: State, ols: Ols,
                                              R: (State, State) -> bool)
    requires Lockstep(s) && WellShaped(ols) && StepClosed(R) && R(s0, s)
    ensures R(s0, RunCorrected(y, s, ols).state)
    decreases |s.x|
  {
    var fit := ols(y, s.x);
    match Step(s, fit)
    case EmptyPValues =>
    case Stepped(next, _, maxP) =>
      if maxP > 0.05 {
        RunCorrectedClosed(y, s0, next, ols, R);
      }
  }

  /** Evolution is closed under steps. */
  lemma EvolutionStepClosed()
    ensures StepClosed(Evolved)
  {
    forall s0, a, fit | Evolved(s0, a) && Lockstep(a) && |PValues(fit)| == |a.x| && Step(a, fit).Stepped?
      ensures Evolved(s0, Step(a, fit).next)
    {
      StepEvolves(a, fit);
      EvolvedTransitive(s0, a, Step(a, fit).next);
    }
  }

  /** Whatever way the loop as written ends, its state evolved from the start by the elimination. */
  lemma RunAsWrittenEvolves(y: seq<real>, s: State, ols: Ols, fuel: nat)
    requires Lockstep(s) && WellShaped(ols)
    ensures Evolved(s, RunAsWritten(y, s, ols, fuel).state)
  {
    EvolvedReflexive(s);
    EvolutionStepClosed();
    RunAsWrittenClosed(y, s, s, ols, fuel, Evolved);
  }

  /** The one-shot block of lines 73-88: one step from the initial state. It removes
      at most one predictor, and one exactly when `np.amax(ps) > .05`. */
  function OneShot(x0: seq<Column>, titles: seq<string>, fit: Fit): (r: StepResult)
    requires |x0| + 2 == |titles| && |PValues(fit)| == |x0|
    ensures r.EmptyPValues? <==> x0 == []
    ensures r.Stepped? ==> r.maxIndex == ArgMax(PValues(fit)) && |r.next.elim| <= 1
    ensures r.Stepped? ==> (r.next.elim != [] <==> Max(PValues(fit)) > 0.05)
    ensures r.Stepped? && r.next.elim != [] ==>
      r.next.elim == [Eliminated(titles[2 + r.maxIndex], Max(PValues(fit)))] &&
      r.next.kept == Delete(titles[2..], r.maxIndex) && r.next.x == Delete(x0, r.maxIndex)
    ensures r.Stepped? && r.next.elim == [] ==> r.next.kept == titles[2..] && r.next.x == x0
  {
    var r := Step(Init(x0, titles), fit);
    assert r.Stepped? ==> titles[2..][r.maxIndex] == titles[2 + r.maxIndex];
    r
  }

  /** The body of the loop of lines 96-117 (lines 100-117): refit, find the largest p-value,
      and pop that predictor if its p-value is above 0.05. `empty` reports that
      `np.argmax` would raise on an empty p-value list. */
  method EliminationRound(y: seq<real>, s: State, ols: Ols)
    returns (fit: Fit, empty: bool, maxIndex: nat, maxP: real, next: State)
    requires WellShaped(ols) && Lockstep(s)
    ensures fit == ols(y, s.x)
    ensures empty <==> s.x == []
    ensures empty ==> next == s
    ensures Lockstep(next)
    ensures !empty ==> Step(s, fit) == Stepped(next, maxIndex, maxP)
  {
    fit := ols(y, s.x);
    var ps := PValues(fit);
    next, maxIndex, maxP := s, 0, 0.0;
    empty := |ps| == 0;
    if empty {
      return;
    }
    maxIndex := ArgMax(ps);
    maxP := Max(ps);
    MaxAtArgMax(ps);
    if maxP > 0.05 {
      next := State(Delete(s.x, maxIndex), Delete(s.kept, maxIndex),
                    s.elim + [Eliminated(s.kept[maxIndex], maxP)]);
    }
  }

  /** The loop of lines 96-117. The fit is the oracle `ols`; everything else is as written. */
  method EliminateAsWritten(y: seq<real>, x0: seq<Column>, titles: seq<string>, ols: Ols, fuel: nat)
    returns (out: Outcome)
    requires WellShaped(ols) && |x0| + 2 == |titles|
    ensures out == RunAsWritten(y, Init(x0, titles), ols, fuel)
  {
    var s := Init(x0, titles);
    var maxP: real := 0.05;
    var fit := Fit([], []);
    var f := fuel;
    ghost var goal := RunAsWritten(y, s, ols, fuel);
    while maxP >= 0.05
      invariant Lockstep(s)
      invariant maxP >= 0.05 ==> goal == RunAsWritten(y, s, ols, f)
      invariant maxP < 0.05 ==> goal == Finished(s, fit)
      decreases f + (if maxP >= 0.05 then 1 else 0)
    {
      ghost var before := s;
      var empty, maxIndex;
      fit, empty, maxIndex, maxP, s := EliminationRound(y, s, ols);
      if empty {
        RunAsWrittenEmpty(y, before, ols, f);
        return ArgmaxOfEmpty(s);
      }
      if maxP >= 0.05 {
        RunAsWrittenGoesOn(y, before, ols, f, s, maxIndex, maxP);
        if f == 0 {
          return FuelExhausted(s);
        }
        f := f - 1;
      } else {
        RunAsWrittenFinishes(y, before, ols, f, s, maxIndex, maxP);
      }
    }
    out := Finished(s, fit);
  }

  /** At exactly 0.05 nothing is removed, the refit is the same, and the loop as
      written goes round for ever: no amount of fuel gets it out. */
  lemma {:induction false} ThresholdFixpoint(y: seq<real>, s: State, ols: Ols, fuel: nat)
    requires Lockstep(s) && WellShaped(ols)
    requires AtThreshold(y, s, ols)
    ensures RunAsWritten(y, s, ols, fuel) == FuelExhausted(s)
    decreases fuel
  {
    if fuel > 0 {
      ThresholdFixpoint(y, s, ols, fuel - 1);
    }
    assert Step(s, ols(y, s.x)).next == s;
  }

  /** The fit of the current design has a largest p-value of exactly 0.05. */
  ghost predicate AtThreshold(y: seq<real>, s: State, ols: Ols)
    requires Lockstep(s) && WellShaped(ols)
  {
    s.x != [] && Max(PValues(ols(y, s.x))) == 0.05
  }

  /** A fit whose every predictor has p-value 0.05. */
  function AtThresholdFit(y: seq<real>, x: seq<Column>): Fit
  {
    Fit(seq(|x| + 1, _ => 0.0), [0.0] + seq(|x|, _ => 0.05))
  }

  /** One predictor whose p-value is exactly 0.05: the loop as written never stops. */
  lemma ThresholdHangExample(y: seq<real>, fuel: nat)
    ensures RunAsWritten(y, State([[1.0, 2.0]], ["rate"], []), AtThresholdFit, fuel)
         == FuelExhausted(State([[1.0, 2.0]], ["rate"], []))
  {
    var s := State([[1.0, 2.0]], ["rate"], []);
    assert PValues(AtThresholdFit(y, s.x)) == [0.05];
    ThresholdFixpoint(y, s, AtThresholdFit, fuel);
  }

  /** A fit whose every predictor has p-value 0.5. */
  function InsignificantFit(y: seq<real>, x: seq<Column>): Fit
  {
    Fit(seq(|x| + 1, _ => 0.0), [0.0] + seq(|x|, _ => 0.5))
  }

  /** When every predictor is insignificant the loop drops them all, and the next
      round's `np.argmax` raises on the empty p-value list: no model is fitted. */
  lemma EveryPredictorDroppedRaises(y: seq<real>, fuel: nat)
    requires fuel >= 1
    ensures RunAsWritten(y, State([[1.0, 2.0]], ["rate"], []), InsignificantFit, fuel)
         == ArgmaxOfEmpty(State([], [], [Eliminated("rate", 0.5)]))
  {
    var s := State([[1.0, 2.0]], ["rate"], []);
    var t := State([], [], [Eliminated("rate", 0.5)]);
    assert PValues(InsignificantFit(y, s.x)) == [0.5];
    assert Step(s, InsignificantFit(y, s.x)) == Stepped(t, 0, 0.5);
    RunAsWrittenGoesOn(y, s, InsignificantFit, fuel, t, 0, 0.5);
    RunAsWrittenEmpty(y, t, InsignificantFit, fuel - 1);
  }

  /** Given more iterations than predictors, the loop as written runs out only by
      reaching a state whose largest p-value is exactly 0.05. */
  lemma {:induction false} HangOnlyAtThreshold(y: seq<real>, s: State, ols: Ols, fuel: nat)
    requires Lockstep(s) && WellShaped(ols) && fuel >= |s.x|
    ensures RunAsWritten(y, s, ols, fuel).FuelExhausted? ==>
      AtThreshold(y, RunAsWritten(y, s, ols, fuel).state, ols)
    decreases fuel
  {
    match Step(s, ols(y, s.x))
    case EmptyPValues =>
    case Stepped(next, _, maxP) =>
      if maxP > 0.05 {
        HangOnlyAtThreshold(y, next, ols, fuel - 1);
      } else if maxP == 0.05 {
        ThresholdFixpoint(y, s, ols, fuel);
      }
  }

  /** The loop with its guard made consistent with its removal test
      (`while max_p_value > .05`, the sentinel above 0.05): refit and remove until
      the largest p-value is at most 0.05. It always terminates. */
  function RunCorrected(y: seq<real>, s: State, ols: Ols): (r: Outcome)
    requires Lockstep(s) && WellShaped(ols)
    ensures !r.FuelExhausted? && Lockstep(r.state)
    ensures r.Finished? ==>
      r.fit == ols(y, r.state.x) &&
      forall j :: 0 <= j < |PValues(r.fit)| ==> PValues(r.fit)[j] <= 0.05
    ensures r.ArgmaxOfEmpty? ==> r.state.x == [] && r.state.kept == []
    decreases |s.x|
  {
    var fit := ols(y, s.x);
    match Step(s, fit)
    case EmptyPValues => ArgmaxOfEmpty(s)
    case Stepped(next, _, maxP) =>
      if maxP > 0.05 then RunCorrected(y, next, ols) else Finished(next, fit)
  }

  /** One round of the corrected loop. */
  lemma RunCorrectedOnce(y: seq<real>, s: State, ols: Ols)
    requires Lockstep(s) && WellShaped(ols)
    ensures s.x == [] ==> RunCorrected(y, s, ols) == ArgmaxOfEmpty(s)
    ensures s.x != [] ==> Step(s, ols(y, s.x)).Stepped?
    ensures s.x != [] ==>
      RunCorrected(y, s, ols) ==
      (if Step(s, ols(y, s.x)).maxP > 0.05 then RunCorrected(y, Step(s, ols(y, s.x)).next, ols)
       else Finished(Step(s, ols(y, s.x)).next, ols(y, s.x)))
  {
  }

  /** The corrected loop's final state evolved from the start by the elimination. */
  lemma RunCorrectedEvolves(y: seq<real>, s: State, ols: Ols)
    requires Lockstep(s) && WellShaped(ols)
    ensures Evolved(s, RunCorrected(y, s, ols).state)
  {
    EvolvedReflexive(s);
    EvolutionStepClosed();
    RunCorrectedClosed(y, s, s, ols, Evolved);
  }

  /** Both loops go round once more: the largest p-value is above 0.05 and fuel is left. */
  ghost predicate BothContinue(y: seq<real>, s: State, ols: Ols, fuel: nat)
    requires Lockstep(s) && WellShaped(ols)
  {
    fuel > 0 && Step(s, ols(y, s.x)).Stepped? && Step(s, ols(y, s.x)).maxP > 0.05
  }

  /** The loop as written runs out of fuel, or it ends exactly as the corrected loop does. */
  ghost predicate Agrees(y: seq<real>, s: State, ols: Ols, fuel: nat)
    requires Lockstep(s) && WellShaped(ols)
  {
    RunAsWritten(y, s, ols, fuel).FuelExhausted? || RunAsWritten(y, s, ols, fuel) == RunCorrected(y, s, ols)
  }

  /** The two loops agree on states where they stop at once, unless the one as written hangs. */
  lemma AgreeWhereBothStop(y: seq<real>, s: State, ols: Ols, fuel: nat)
    requires Lockstep(s) && WellShaped(ols) && !BothContinue(y, s, ols, fuel)
    ensures Agrees(y, s, ols, fuel)
  {
    var step := Step(s, ols(y, s.x));
    if step.Stepped? && step.maxP == 0.05 {
      ThresholdFixpoint(y, s, ols, fuel);
    }
  }

  /** Where both loops go round once more, they agree from here if they agree from the next state. */
  lemma AgreeWhereBothContinue(y: seq<real>, s: State, ols: Ols, fuel: nat)
    requires Lockstep(s) && WellShaped(ols) && BothContinue(y, s, ols, fuel)
    ensures Agrees(y, s, ols, fuel) == Agrees(y, Step(s, ols(y, s.x)).next, ols, fuel - 1)
  {
    assert RunAsWritten(y, s, ols, fuel) == RunAsWritten(y, Step(s, ols(y, s.x)).next, ols, fuel - 1);
    assert RunCorrected(y, s, ols) == RunCorrected(y, Step(s, ols(y, s.x)).next, ols);
  }

  /** Whenever the loop as written does stop, it stops where the corrected loop does. */
  lemma {:induction false} AsWrittenAgreesWithCorrected(y: seq<real>, s: State, ols: Ols, fuel: nat)
    requires Lockstep(s) && WellShaped(ols)
    ensures Agrees(y, s, ols, fuel)
    decreases fuel
  {
    if BothContinue(y, s, ols, fuel) {
      AsWrittenAgreesWithCorrected(y, Step(s, ols(y, s.x)).next, ols, fuel - 1);
      AgreeWhereBothContinue(y, s, ols, fuel);
    } else {
      AgreeWhereBothStop(y, s, ols, fuel);
    }
  }

  /** Whatever fuel the loop as written is given, it either runs out or ends as the corrected loop. */
  lemma CorrectedIsWhereAsWrittenStops(y: seq<real>, s: State, ols: Ols)
    requires Lockstep(s) && WellShaped(ols)
    ensures forall fuel: nat :: !RunAsWritten(y, s, ols, fuel).FuelExhausted? ==>
      RunAsWritten(y, s, ols, fuel) == RunCorrected(y, s, ols)
  {
    forall fuel: nat
      ensures !RunAsWritten(y, s, ols, fuel).FuelExhausted? ==>
        RunAsWritten(y, s, ols, fuel) == RunCorrected(y, s, ols)
    {
      AsWrittenAgreesWithCorrected(y, s, ols, fuel);
    }
  }

  /** The corrected loop (see RunCorrected). */
  method EliminateCorrected(y: seq<real>, x0: seq<Column>, titles: seq<string>, ols: Ols)
    returns (out: Outcome)
    requires WellShaped(ols) && |x0| + 2 == |titles|
    ensures out == RunCorrected(y, Init(x0, titles), ols)
  {
    var s := Init(x0, titles);
    var maxP: real := 1.0;
    var fit := Fit([], []);
    ghost var goal := RunCorrected(y, s, ols);
    while maxP > 0.05
      invariant Lockstep(s)
      invariant maxP > 0.05 ==> goal == RunCorrected(y, s, ols)
      invariant maxP <= 0.05 ==> goal == Finished(s, fit)
      decreases if maxP > 0.05 then |s.x| + 1 else 0
    {
      RunCorrectedOnce(y, s, ols);
      var empty, maxIndex;
      fit, empty, maxIndex, maxP, s := EliminationRound(y, s, ols);
      if empty {
        return ArgmaxOfEmpty(s);
      }
    }
    out := Finished(s, fit);
  }
}
