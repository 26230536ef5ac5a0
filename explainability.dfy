/** backend/explainability.py: correlate each feature with the sensitive
    attribute, skipping features of another length, and name the feature
    with the strongest correlation as the main bias driver.  The correlation
    itself (numpy's corrcoef) is a parameter of the model. */
module Explainability {
  import opened Common

  /** A dict in insertion order, as a list of (key, value) pairs. */
  type Dict<V> = seq<(string, V)>

  function Keys<V>(d: Dict<V>): (ks: seq<string>)
    ensures |ks| == |d| && forall i | 0 <= i < |d| :: ks[i] == d[i].0
  {
    if d == [] then [] else [d[0].0] + Keys(d[1..])
  }

  datatype Explanation = Explanation(featureCorrelations: Dict<real>, mainBiasDriver: string, explanation: string)

  /** What Python's max raises on an empty collection. */
  const EmptyMaxMessage: string := "max() arg is an empty sequence"

  function Explain(driver: string): string
  {
    "'" + driver + "' is strongly correlated with the sensitive attribute."
  }

  function Abs(x: real): real
  {
    if x < 0.0 then -x else x
  }

  /** The correlations the loop collects from the features: those whose length matches, in order. */
  function Correlations(features: Dict<seq<real>>, sensitive: seq<real>, corr: (seq<real>, seq<real>) -> real): Dict<real>
  {
    if features == [] then []
    else
      var last := features[|features| - 1];
      Correlations(features[..|features| - 1], sensitive, corr)
        + (if |last.1| == |sensitive| then [(last.0, corr(last.1, sensitive))] else [])
  }

  /** Each collected pair comes from a feature of matching length, and each such feature is collected. */
  lemma {:induction false} CorrelationsExact(features: Dict<seq<real>>, sensitive: seq<real>, corr: (seq<real>, seq<real>) -> real)
    ensures forall p | p in Correlations(features, sensitive, corr) ::
      exists f | f in features :: |f.1| == |sensitive| && p == (f.0, corr(f.1, sensitive))
    ensures forall f | f in features && |f.1| == |sensitive| :: (f.0, corr(f.1, sensitive)) in Correlations(features, sensitive, corr)
  {
    if features != [] {
      var init := features[..|features| - 1];
      CorrelationsExact(init, sensitive, corr);
      assert features == init + [features[|features| - 1]];
      forall f | f in features && |f.1| == |sensitive| ensures (f.0, corr(f.1, sensitive)) in Correlations(features, sensitive, corr) {
        if f in init {
        }
      }
      forall p | p in Correlations(features, sensitive, corr)
        ensures exists f | f in features :: |f.1| == |sensitive| && p == (f.0, corr(f.1, sensitive))
      {
        if p in Correlations(init, sensitive, corr) {
          var f :| f in init && |f.1| == |sensitive| && p == (f.0, corr(f.1, sensitive));
          assert f in features;
        }
      }
    }
  }

  /** A feature whose length differs from the sensitive column's gets no correlation. */
  lemma MismatchedFeatureSkipped(features: Dict<seq<real>>, sensitive: seq<real>, corr: (seq<real>, seq<real>) -> real, i: nat)
    requires NoDup(Keys(features))
    requires i < |features| && |features[i].1| != |sensitive|
    ensures forall p | p in Correlations(features, sensitive, corr) :: p.0 != features[i].0
  {
    CorrelationsExact(features, sensitive, corr);
    forall p | p in Correlations(features, sensitive, corr) ensures p.0 != features[i].0 {
      var f :| f in features && |f.1| == |sensitive| && p == (f.0, corr(f.1, sensitive));
      var j :| 0 <= j < |features| && features[j] == f;
      if j != i {
        assert Keys(features)[j] != Keys(features)[i];
      }
    }
  }

  /** max(d, key=lambda k: abs(d[k])): the first entry whose absolute value no other entry exceeds. */
  method ArgMaxAbs(d: Dict<real>) returns (k: nat)
    requires d != []
    ensures k < |d|
    ensures forall j | 0 <= j < |d| :: Abs(d[j].1) <= Abs(d[k].1)
    ensures forall j | 0 <= j < k :: Abs(d[j].1) < Abs(d[k].1)
  {
    k := 0;
    for i := 1 to |d|
      invariant k < i
      invariant forall j | 0 <= j < i :: Abs(d[j].1) <= Abs(d[k].1)
      invariant forall j | 0 <= j < k :: Abs(d[j].1) < Abs(d[k].1)
    {
      if Abs(d[i].1) > Abs(d[k].1) {
        k := i;
      }
    }
  }

  /** explain_bias(data), with data["sensitive"] as sensitive and data["features"] as features;
      the features come from a dict, so no name occurs twice. */
  method ExplainBias(sensitive: seq<real>, features: Dict<seq<real>>, corr: (seq<real>, seq<real>) -> real)
    returns (r: Result<Explanation, string>)
    requires NoDup(Keys(features))
    ensures r.Failure? <==> forall f | f in features :: |f.1| != |sensitive|
    ensures r.Failure? ==> r.error == EmptyMaxMessage
    ensures r.Success? ==> r.value.featureCorrelations == Correlations(features, sensitive, corr)
    ensures r.Success? ==> exists k ::
      && 0 <= k < |r.value.featureCorrelations|
      && r.value.mainBiasDriver == r.value.featureCorrelations[k].0
      && (forall j | 0 <= j < |r.value.featureCorrelations| ::
            Abs(r.value.featureCorrelations[j].1) <= Abs(r.value.featureCorrelations[k].1))
      && (forall j | 0 <= j < k ::
            Abs(r.value.featureCorrelations[j].1) < Abs(r.value.featureCorrelations[k].1))
    ensures r.Success? ==> r.value.explanation == Explain(r.value.mainBiasDriver)
  {
    var correlations: Dict<real> := [];
    for i := 0 to |features|
      invariant correlations == Correlations(features[..i], sensitive, corr)
    {
      var (feature, values) := features[i];
      assert features[..i + 1][..i] == features[..i];
      if |values| != |sensitive| {
        continue;
      }
      correlations := correlations + [(feature, corr(values, sensitive))];
    }
    assert features[..|features|] == features;
    CorrelationsExact(features, sensitive, corr);
    if correlations == [] {
      return Failure(EmptyMaxMessage);
    }
    assert correlations[0] in correlations;
    var k := ArgMaxAbs(correlations);
    var driver := correlations[k].0;
    r := Success(Explanation(correlations, driver, Explain(driver)));
  }
}
