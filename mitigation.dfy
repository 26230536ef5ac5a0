/** backend/mitigation.py: three independent rules, checked in a fixed
    order, each adding one recommendation, and a fallback when none fires. */
module Mitigation {
  import opened Common

  /** The JSON object the rules read; None is a key the object does not have. */
  datatype Findings = Findings(datasetBias: Option<bool>, accuracyGap: Option<real>, proxyFeature: Option<string>)

  const Rebalance: string := "Rebalance the dataset."
  /** Written in two pieces: the verifier does not look inside string literals this long. */
  const Retrain: string := "Adjust thresholds or retrain " + "with fairness constraints."
  const ProxyPrefix: string := "Remove proxy feature: "
  const NoMajorBias: string := "No major bias detected."
  const GapThreshold: real := 0.1

  function RemoveProxy(feature: string): string
  {
    ProxyPrefix + feature
  }

  /** data.get("dataset_bias") is truthy. */
  predicate DatasetBiased(data: Findings)
  {
    data.datasetBias == Some(true)
  }

  /** data.get("accuracy_gap", 0): a missing gap counts as zero. */
  function Gap(data: Findings): real
  {
    if data.accuracyGap.Some? then data.accuracyGap.value else 0.0
  }

  /** data.get("proxy_feature"), with a missing feature read as the falsy empty string. */
  function Proxy(data: Findings): string
  {
    if data.proxyFeature.Some? then data.proxyFeature.value else ""
  }

  /** Position of a recommendation in the fixed order rebalance, retrain, proxy, fallback. */
  function Rank(rec: string): nat
  {
    if rec == Rebalance then 0
    else if rec == Retrain then 1
    else if ProxyPrefix <= rec then 2
    else 3
  }

  /** The four kinds of recommendation are told apart by their rank, so they are distinct. */
  lemma RankOfEachRecommendation(feature: string)
    ensures Rank(Rebalance) == 0 && Rank(Retrain) == 1
    ensures Rank(RemoveProxy(feature)) == 2 && Rank(NoMajorBias) == 3
  {
    assert Rebalance[0] == 'R' && Retrain[0] == 'A' && NoMajorBias[0] == 'N';
    assert Rebalance[2] == 'b' && RemoveProxy(feature)[2] == 'm';
    assert RemoveProxy(feature)[0] == 'R';
    assert !(ProxyPrefix <= NoMajorBias) by {
      assert ProxyPrefix[0] != NoMajorBias[0];
    }
  }

  /** mitigation_suggestions(data)["recommendations"]. */
  method MitigationSuggestions(data: Findings) returns (recs: seq<string>)
    ensures 1 <= |recs| <= 3
    ensures Rebalance in recs <==> DatasetBiased(data)
    ensures Retrain in recs <==> Gap(data) > GapThreshold
    ensures RemoveProxy(Proxy(data)) in recs <==> Proxy(data) != ""
    ensures NoMajorBias in recs <==> !DatasetBiased(data) && Gap(data) <= GapThreshold && Proxy(data) == ""
    ensures NoMajorBias in recs ==> recs == [NoMajorBias]
    ensures forall r | r in recs :: r in [Rebalance, Retrain, RemoveProxy(Proxy(data)), NoMajorBias]
    ensures forall i, j | 0 <= i < j < |recs| :: Rank(recs[i]) < Rank(recs[j])
  {
    RankOfEachRecommendation(Proxy(data));
    recs := [];
    if DatasetBiased(data) {
      recs := recs + [Rebalance];
    }
    if Gap(data) > GapThreshold {
      recs := recs + [Retrain];
    }
    if Proxy(data) != "" {
      recs := recs + [RemoveProxy(Proxy(data))];
    }
    if recs == [] {
      recs := recs + [NoMajorBias];
    }
  }
}
