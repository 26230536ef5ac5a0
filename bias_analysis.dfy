/** backend/bias_analysis.py: the percentage of rows per value of the
    sensitive column, and a flag raised when one value holds more than 70
    per cent of the rows. */
module BiasAnalysis {
  import opened Common
  import opened Frames

  datatype Report = Report(distribution: map<string, real>, biasDetected: bool, message: string)

  /** A group above this percentage of the rows makes the dataset imbalanced. */
  const Threshold: real := 70.0
  const BiasMessage: string := "Bias detected"
  const BalancedMessage: string := "Dataset balanced"

  /** value_counts(normalize=True) * 100: each distinct value to its percentage of the rows. */
  function Distribution(col: seq<string>): (d: map<string, real>)
    ensures forall v | v in col :: v in d
    ensures forall v | v in d :: v in col && d[v] == Share(col, v) * 100.0 && 0.0 < d[v] <= 100.0
  {
    map v | v in col :: Share(col, v) * 100.0
  }

  /** A share is above 70 per cent exactly when ten times the count exceeds seven times the rows. */
  lemma AboveThresholdIff(c: nat, n: nat)
    requires n > 0
    ensures (c as real / n as real) * 100.0 > Threshold <==> 10 * c > 7 * n
  {
    var q := c as real / n as real;
    assert q * n as real == c as real;
    SignOfProduct(q - 0.7, n as real);
    assert (q - 0.7) * n as real == c as real - 0.7 * n as real;
  }

  /** A product with a positive factor has the sign of the other factor. */
  lemma SignOfProduct(x: real, y: real)
    requires y > 0.0
    ensures x * y > 0.0 <==> x > 0.0
  {
    if x <= 0.0 {
      assert x * y <= 0.0 * y;
    }
  }

  /** analyze_dataset_bias(df, sensitive_col); a missing column raises KeyError naming it. */
  function AnalyzeDatasetBias(df: Frame, sensitiveCol: string): (r: Result<Report, string>)
    ensures r.Failure? <==> sensitiveCol !in df.columns
    ensures r.Failure? ==> r.error == sensitiveCol
    ensures r.Success? ==> r.value.distribution == Distribution(Column(df, sensitiveCol))
    ensures r.Success? ==>
      var col := Column(df, sensitiveCol);
      r.value.biasDetected <==> exists v :: v in col && 10 * Count(col, v) > 7 * |col|
    ensures r.Success? ==> (r.value.message == BiasMessage <==> r.value.biasDetected)
    ensures r.Success? ==> (r.value.message == BalancedMessage <==> !r.value.biasDetected)
  {
    if sensitiveCol !in df.columns then Failure(sensitiveCol)
    else
      var col := Column(df, sensitiveCol);
      var distribution := Distribution(col);
      var biasDetected := exists v | v in distribution :: distribution[v] > Threshold;
      assert biasDetected <==> exists v :: v in col && 10 * Count(col, v) > 7 * |col| by {
        forall v | v in col {
          AboveThresholdIff(Count(col, v), |col|);
        }
      }
      Success(Report(distribution, biasDetected, if biasDetected then BiasMessage else BalancedMessage))
  }

  /** Summed over any keys of the column, the percentages are a hundred times the shares. */
  lemma {:induction false} SumOfPercentages(col: seq<string>, ks: seq<string>)
    requires forall v | v in ks :: v in col
    ensures SumOver(ks, Distribution(col)) == SumOver(ks, Shares(col)) * 100.0
  {
    if ks != [] {
      assert ks[0] in col;
      SumOfPercentages(col, ks[1..]);
    }
  }

  /** The percentages of a non-empty column add up to 100, in whatever order the groups are visited. */
  lemma DistributionSumsTo100(col: seq<string>, ks: seq<string>)
    requires col != []
    requires NoDup(ks)
    requires forall v | v in ks :: v in col
    requires forall v | v in col :: v in ks
    ensures SumOver(ks, Distribution(col)) == 100.0
  {
    SharesSumToOne(col, ks);
    SumOfPercentages(col, ks);
  }

  /** A column holding a single value is all one group, at 100 per cent, and is flagged. */
  lemma SingleValueFlagged(df: Frame, sensitiveCol: string, v: string)
    requires sensitiveCol in df.columns
    requires |df.rows| > 0
    requires forall x | x in Column(df, sensitiveCol) :: x == v
    ensures var r := AnalyzeDatasetBias(df, sensitiveCol);
      && r.Success?
      && r.value.distribution.Keys == {v}
      && r.value.distribution[v] == 100.0
      && r.value.biasDetected
      && r.value.message == BiasMessage
  {
    var col := Column(df, sensitiveCol);
    assert col[0] in col;
    AllSameCount(col, v);
    var d := Distribution(col);
    assert d.Keys == {v};
    QuotientSelf(|col| as real);
    assert d[v] == 100.0;
    assert 10 * Count(col, v) > 7 * |col|;
  }

  lemma {:induction false} AllSameCount(s: seq<string>, v: string)
    requires forall x | x in s :: x == v
    ensures Count(s, v) == |s|
  {
    if s != [] {
      assert s[0] in s;
      assert forall x | x in s[1..] :: x in s;
      AllSameCount(s[1..], v);
    }
  }

  /** Two different values together occupy at most every cell. */
  lemma {:induction false} CountPair(s: seq<string>, v: string, w: string)
    requires v != w
    ensures Count(s, v) + Count(s, w) <= |s|
  {
    if s != [] {
      CountPair(s[1..], v, w);
    }
  }

  /** A group at exactly 70 per cent is not above the threshold, and leaves at most 30 per cent
      to every other group, so the dataset is reported balanced. */
  lemma ExactlySeventyNotFlagged(df: Frame, sensitiveCol: string, v: string)
    requires sensitiveCol in df.columns
    requires v in Column(df, sensitiveCol)
    requires 10 * Count(Column(df, sensitiveCol), v) == 7 * |df.rows|
    ensures var r := AnalyzeDatasetBias(df, sensitiveCol);
      && r.Success?
      && v in r.value.distribution
      && r.value.distribution[v] == 70.0
      && !r.value.biasDetected
      && r.value.message == BalancedMessage
  {
    var col := Column(df, sensitiveCol);
    forall w | w in col ensures !(10 * Count(col, w) > 7 * |col|) {
      if w != v {
        CountPair(col, v, w);
      }
    }
    SeventyPercent(Count(col, v), |col|);
  }

  lemma SeventyPercent(c: nat, n: nat)
    requires n > 0 && 10 * c == 7 * n
    ensures (c as real / n as real) * 100.0 == 70.0
  {
    var q := c as real / n as real;
    assert q * n as real == c as real;
    assert c as real == 0.7 * n as real;
    assert (q - 0.7) * n as real == 0.0;
  }

  /** A table without rows has no groups, so it is reported as balanced rather than failing. */
  lemma EmptyTableBalanced(df: Frame, sensitiveCol: string)
    requires sensitiveCol in df.columns
    requires |df.rows| == 0
    ensures var r := AnalyzeDatasetBias(df, sensitiveCol);
      r.Success? && r.value.distribution == map[] && !r.value.biasDetected && r.value.message == BalancedMessage
  {
  }
}
