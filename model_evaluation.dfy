/** backend/model_evaluation.py: the accuracy of a model's predictions
    within each group of the sensitive attribute, and the gap between the
    best and the worst group. */
module ModelEvaluation {
  import opened Common

  datatype Evaluation<G> = Evaluation(groupAccuracy: map<G, real>, accuracyGap: real, biasDetected: bool)

  /** A gap above this is reported as bias. */
  const GapThreshold: real := 0.1
  /** What Python's max raises on an empty collection. */
  const EmptyMaxMessage: string := "max() arg is an empty sequence"

  /** [i for i, v in enumerate(groups) if v == g], from position `from` on. */
  function Positions<G(==)>(groups: seq<G>, g: G, from: nat): (idx: seq<nat>)
    requires from <= |groups|
    ensures forall j | 0 <= j < |idx| :: from <= idx[j] < |groups| && groups[idx[j]] == g
    decreases |groups| - from
  {
    if from == |groups| then []
    else if groups[from] == g then [from] + Positions(groups, g, from + 1)
    else Positions(groups, g, from + 1)
  }

  /** Every position from `from` on that holds g is listed. */
  lemma {:induction false} PositionsComplete<G>(groups: seq<G>, g: G, from: nat)
    requires from <= |groups|
    ensures forall i | from <= i < |groups| && groups[i] == g :: i in Positions(groups, g, from)
    decreases |groups| - from
  {
    if from < |groups| {
      PositionsComplete(groups, g, from + 1);
    }
  }

  /** A group that occurs has at least one position. */
  lemma PositionsOfMember<G>(groups: seq<G>, g: G)
    requires g in groups
    ensures Positions(groups, g, 0) != []
  {
    PositionsComplete(groups, g, 0);
    var i :| 0 <= i < |groups| && groups[i] == g;
    assert i in Positions(groups, g, 0);
  }

  /** There are as many positions as occurrences. */
  lemma {:induction false} PositionsCount<G>(groups: seq<G>, g: G, from: nat)
    requires from <= |groups|
    ensures |Positions(groups, g, from)| == Count(groups[from..], g)
    decreases |groups| - from
  {
    if from < |groups| {
      PositionsCount(groups, g, from + 1);
      assert groups[from..][0] == groups[from] && groups[from..][1..] == groups[from + 1..];
    }
  }

  /** [y[i] for i in idx]. */
  function Pick<L>(y: seq<L>, idx: seq<nat>): (r: seq<L>)
    requires forall j | 0 <= j < |idx| :: idx[j] < |y|
    ensures |r| == |idx|
    ensures forall j | 0 <= j < |idx| :: r[j] == y[idx[j]]
  {
    if idx == [] then [] else [y[idx[0]]] + Pick(y, idx[1..])
  }

  /** Number of positions at which the two sequences agree. */
  function Agreements<L(==)>(a: seq<L>, b: seq<L>): (k: nat)
    requires |a| == |b|
    ensures k <= |a|
  {
    if a == [] then 0 else (if a[0] == b[0] then 1 else 0) + Agreements(a[1..], b[1..])
  }

  /** sklearn's accuracy_score: the fraction of positions where the prediction equals the truth. */
  function AccuracyScore<L(==)>(yTrue: seq<L>, yPred: seq<L>): (a: real)
    requires |yTrue| == |yPred| > 0
    ensures 0.0 <= a <= 1.0
    ensures a == 1.0 <==> yTrue == yPred
  {
    var k := Agreements(yTrue, yPred);
    AgreementsAll(yTrue, yPred);
    assert k as real <= |yTrue| as real;
    Fraction(k as real, |yTrue| as real);
    k as real / |yTrue| as real
  }

  lemma Fraction(k: real, n: real)
    requires 0.0 <= k <= n && n > 0.0
    ensures 0.0 <= k / n <= 1.0
    ensures k / n == 1.0 <==> k == n
  {
    if k / n == 1.0 {
      assert k == (k / n) * n;
    }
  }

  /** The sequences agree everywhere exactly when they are equal. */
  lemma {:induction false} AgreementsAll<L>(a: seq<L>, b: seq<L>)
    requires |a| == |b|
    ensures Agreements(a, b) == |a| <==> a == b
  {
    if a != [] {
      AgreementsAll(a[1..], b[1..]);
      if a[0] == b[0] && a[1..] == b[1..] {
        assert a == [a[0]] + a[1..] && b == [b[0]] + b[1..];
      }
    }
  }

  /** Number of positions i >= from of group g whose prediction is right. */
  function Hits<L(==), G(==)>(yTrue: seq<L>, yPred: seq<L>, groups: seq<G>, g: G, from: nat): nat
    requires from <= |groups| <= |yTrue| && |groups| <= |yPred|
    decreases |groups| - from
  {
    if from == |groups| then 0
    else (if groups[from] == g && yTrue[from] == yPred[from] then 1 else 0) + Hits(yTrue, yPred, groups, g, from + 1)
  }

  /** Number of indices in idx at which both labels exist and the prediction is right. */
  function HitsAt<L(==)>(yTrue: seq<L>, yPred: seq<L>, idx: seq<nat>): nat
  {
    if idx == [] then 0
    else
      var i := idx[0];
      (if i < |yTrue| && i < |yPred| && yTrue[i] == yPred[i] then 1 else 0) + HitsAt(yTrue, yPred, idx[1..])
  }

  lemma HitsAtCons<L>(yTrue: seq<L>, yPred: seq<L>, i: nat, rest: seq<nat>)
    requires i < |yTrue| && i < |yPred|
    ensures HitsAt(yTrue, yPred, [i] + rest) == (if yTrue[i] == yPred[i] then 1 else 0) + HitsAt(yTrue, yPred, rest)
  {
    assert ([i] + rest)[0] == i && ([i] + rest)[1..] == rest;
  }

  /** Scoring the labels picked at idx counts the right predictions at idx. */
  lemma {:induction false} PickAgreements<L>(yTrue: seq<L>, yPred: seq<L>, idx: seq<nat>)
    requires forall j | 0 <= j < |idx| :: idx[j] < |yTrue| && idx[j] < |yPred|
    ensures Agreements(Pick(yTrue, idx), Pick(yPred, idx)) == HitsAt(yTrue, yPred, idx)
  {
    if idx != [] {
      PickAgreements(yTrue, yPred, idx[1..]);
      AgreementsCons(yTrue[idx[0]], yPred[idx[0]], Pick(yTrue, idx[1..]), Pick(yPred, idx[1..]));
    }
  }

  /** The right predictions at the positions of g are the right predictions within group g. */
  lemma {:induction false} PositionsHits<L, G>(yTrue: seq<L>, yPred: seq<L>, groups: seq<G>, g: G, from: nat)
    requires from <= |groups| <= |yTrue| && |groups| <= |yPred|
    ensures HitsAt(yTrue, yPred, Positions(groups, g, from)) == Hits(yTrue, yPred, groups, g, from)
    decreases |groups| - from
  {
    if from < |groups| {
      PositionsHits(yTrue, yPred, groups, g, from + 1);
      if groups[from] == g {
        HitsAtCons(yTrue, yPred, from, Positions(groups, g, from + 1));
      }
    }
  }

  /** Scoring the picked labels counts exactly the right predictions within the group. */
  lemma PickedAgreements<L, G>(yTrue: seq<L>, yPred: seq<L>, groups: seq<G>, g: G, from: nat)
    requires from <= |groups| <= |yTrue| && |groups| <= |yPred|
    ensures Agreements(Pick(yTrue, Positions(groups, g, from)), Pick(yPred, Positions(groups, g, from)))
         == Hits(yTrue, yPred, groups, g, from)
  {
    PickAgreements(yTrue, yPred, Positions(groups, g, from));
    PositionsHits(yTrue, yPred, groups, g, from);
  }

  lemma AgreementsCons<L>(x: L, y: L, a: seq<L>, b: seq<L>)
    requires |a| == |b|
    ensures Agreements([x] + a, [y] + b) == (if x == y then 1 else 0) + Agreements(a, b)
  {
    assert ([x] + a)[1..] == a && ([y] + b)[1..] == b;
  }

  /** The accuracy of group g, as the loop body computes it. */
  function GroupAccuracy<L(==), G(==)>(yTrue: seq<L>, yPred: seq<L>, groups: seq<G>, g: G): (a: real)
    requires |groups| <= |yTrue| && |groups| <= |yPred|
    requires g in groups
    ensures 0.0 <= a <= 1.0
  {
    var idx := Positions(groups, g, 0);
    PositionsOfMember(groups, g);
    AccuracyScore(Pick(yTrue, idx), Pick(yPred, idx))
  }

  /** A group's accuracy is its number of right predictions over its number of members. */
  lemma GroupAccuracyIsHitRate<L, G>(yTrue: seq<L>, yPred: seq<L>, groups: seq<G>, g: G)
    requires |groups| <= |yTrue| && |groups| <= |yPred|
    requires g in groups
    ensures GroupAccuracy(yTrue, yPred, groups, g)
         == Hits(yTrue, yPred, groups, g, 0) as real / Count(groups, g) as real
  {
    PickedAgreements(yTrue, yPred, groups, g, 0);
    PositionsCount(groups, g, 0);
    assert groups[0..] == groups;
  }

  /** The gap between the largest and the smallest of values in [0,1] lies in [0,1],
      and it is zero when the map has a single key. */
  lemma GapBounds<G>(m: map<G, real>, hi: real, lo: real)
    requires IsGreatest(m, hi) && IsLeast(m, lo)
    requires forall g | g in m :: 0.0 <= m[g] <= 1.0
    ensures 0.0 <= hi - lo <= 1.0
    ensures (forall a, b | a in m && b in m :: a == b) ==> hi == lo
  {
    var a :| a in m && m[a] == hi;
    var b :| b in m && m[b] == lo;
  }

  /** The loop of evaluate_model_bias: the accuracy of every distinct group, visited in set order. */
  method GroupAccuracies<L(==), G(==)>(yTrue: seq<L>, yPred: seq<L>, groups: seq<G>) returns (results: map<G, real>)
    requires |groups| <= |yTrue| && |groups| <= |yPred|
    ensures forall g | g in groups :: g in results
    ensures forall g | g in results :: g in groups && results[g] == GroupAccuracy(yTrue, yPred, groups, g)
  {
    results := map[];
    var remaining := set g | g in groups;
    while remaining != {}
      invariant forall g | g in groups :: g in results || g in remaining
      invariant forall g | g in remaining :: g in groups && g !in results
      invariant forall g | g in results :: g in groups && results[g] == GroupAccuracy(yTrue, yPred, groups, g)
      decreases remaining
    {
      var g :| g in remaining;
      var idx := Positions(groups, g, 0);
      PositionsOfMember(groups, g);
      var acc := AccuracyScore(Pick(yTrue, idx), Pick(yPred, idx));
      results := results[g := acc];
      remaining := remaining - {g};
    }
  }

  /** evaluate_model_bias(y_true, y_pred, groups); every group index must index both label lists. */
  method EvaluateModelBias<L(==), G(==)>(yTrue: seq<L>, yPred: seq<L>, groups: seq<G>)
    returns (r: Result<Evaluation<G>, string>)
    requires |groups| <= |yTrue| && |groups| <= |yPred|
    ensures r.Failure? <==> groups == []
    ensures r.Failure? ==> r.error == EmptyMaxMessage
    ensures r.Success? ==> forall g | g in groups :: g in r.value.groupAccuracy
    ensures r.Success? ==> forall g | g in r.value.groupAccuracy ::
      g in groups && r.value.groupAccuracy[g] == GroupAccuracy(yTrue, yPred, groups, g)
    ensures r.Success? ==> forall g | g in r.value.groupAccuracy :: 0.0 <= r.value.groupAccuracy[g] <= 1.0
    ensures r.Success? ==> exists hi, lo ::
      && IsGreatest(r.value.groupAccuracy, hi)
      && IsLeast(r.value.groupAccuracy, lo)
      && r.value.accuracyGap == hi - lo
    ensures r.Success? ==> 0.0 <= r.value.accuracyGap <= 1.0
    ensures r.Success? ==> (r.value.biasDetected <==> r.value.accuracyGap > GapThreshold)
    ensures r.Success? && (forall g | g in groups :: g == groups[0]) ==> r.value.accuracyGap == 0.0
  {
    var results := GroupAccuracies(yTrue, yPred, groups);
    assert groups != [] ==> groups[0] in results;
    if results == map[] {
      return Failure(EmptyMaxMessage);
    }
    assert |results| > 0 by {
      var g :| g in results;
    }
    var hi := MaxValue(results);
    var lo := MinValue(results);
    var gap := hi - lo;
    GapBounds(results, hi, lo);
    r := Success(Evaluation(results, gap, gap > GapThreshold));
  }
}
