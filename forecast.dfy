/** The forecast model: the fitted intercept under the name "constant", then one named
    coefficient per predictor that survived the elimination, in the order of the fit. */
module Forecast {

  /** One entry of the forecast model: a predictor's name and its fitted coefficient. */
  datatype Term = Term(name: string, coef: real)

  /** The name column of a model. */
  function Names(model: seq<Term>): (r: seq<string>)
    ensures |r| == |model|
    ensures forall i :: 0 <= i < |model| ==> r[i] == model[i].name
  {
    seq(|model|, i requires 0 <= i < |model| => model[i].name)
  }

  /** The coefficient column of a model. */
  function Coefs(model: seq<Term>): (r: seq<real>)
    ensures |r| == |model|
    ensures forall i :: 0 <= i < |model| ==> r[i] == model[i].coef
  {
    seq(|model|, i requires 0 <= i < |model| => model[i].coef)
  }

  /** Builds the model from the p-value list `ps` (only its length is used), the fitted
      parameters `params` (intercept first) and the names of the kept predictors. */
  method BuildForecastModel(ps: seq<real>, params: seq<real>, kept: seq<string>) returns (model: seq<Term>)
    requires |ps| <= |kept| && |ps| < |params|
    ensures |model| == |ps| + 1
    ensures model[0] == Term("constant", params[0])
    ensures forall i :: 0 <= i < |ps| ==> model[i + 1] == Term(kept[i], params[i + 1])
    ensures Names(model) == ["constant"] + kept[..|ps|]
    ensures Coefs(model) == params[..|ps| + 1]
  {
    model := [Term("constant", params[0])];
    for i := 0 to |ps|
      invariant |model| == i + 1
      invariant model[0] == Term("constant", params[0])
      invariant forall k :: 0 <= k < i ==> model[k + 1] == Term(kept[k], params[k + 1])
    {
      model := model + [Term(kept[i], params[i + 1])];
    }
    assert Names(model) == ["constant"] + kept[..|ps|];
    assert Coefs(model) == params[..|ps| + 1];
  }
}
