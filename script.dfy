/** Parts 2 and 3 of the script, end to end: the one-shot elimination on the full
    design, then the elimination loop started afresh from the full design, then the
    forecast model read off the loop's last fit. The loop run here is the one whose
    guard agrees with its removal test (RunCorrected); wherever the loop as written
    stops, it stops in the same place (AsWrittenAgreesWithCorrected). */
module Script {
  import opened Sequences
  import opened Elimination
  import opened Forecast

  /** `y` is the dependent series, `x0` the predictor columns and `titles` the CSV
      header (date, dependent, predictors...). When `np.argmax` raises, no forecast
      model is built. */
  method RegressionScript(y: seq<real>, x0: seq<Column>, titles: seq<string>, ols: Ols)
    returns (oneShot: StepResult, outcome: Outcome, model: seq<Term>)
    requires WellShaped(ols) && |x0| + 2 == |titles|
    ensures oneShot == OneShot(x0, titles, ols(y, x0))
    ensures outcome == RunCorrected(y, Init(x0, titles), ols)
    ensures forall fuel: nat :: !RunAsWritten(y, Init(x0, titles), ols, fuel).FuelExhausted? ==>
      RunAsWritten(y, Init(x0, titles), ols, fuel) == outcome
    ensures x0 == [] ==> oneShot.EmptyPValues? && outcome == ArgmaxOfEmpty(Init(x0, titles))
    ensures IsSubsequence(outcome.state.kept, titles[2..])
    ensures model != [] <==> outcome.Finished?
    ensures outcome.Finished? ==>
      Names(model) == ["constant"] + outcome.state.kept && Coefs(model) == outcome.fit.params &&
      forall i :: 0 <= i < |outcome.state.kept| ==> PValues(outcome.fit)[i] <= 0.05
  {
    RunCorrectedEvolves(y, Init(x0, titles), ols);
    CorrectedIsWhereAsWrittenStops(y, Init(x0, titles), ols);
    oneShot := OneShot(x0, titles, ols(y, x0));
    if oneShot.EmptyPValues? {
      // `np.argmax(ps)` at line 77 raises before the loop is reached.
      RunCorrectedOnce(y, Init(x0, titles), ols);
      return oneShot, ArgmaxOfEmpty(Init(x0, titles)), [];
    }
    outcome := EliminateCorrected(y, x0, titles, ols);
    model := [];
    if outcome.Finished? {
      var ps := PValues(outcome.fit);
      model := BuildForecastModel(ps, outcome.fit.params, outcome.state.kept);
      assert outcome.fit.params[..|ps| + 1] == outcome.fit.params;
      assert outcome.state.kept[..|ps|] == outcome.state.kept;
    }
  }
}
