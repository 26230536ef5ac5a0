/** The parsed CSV table the backend works on, and pandas'
    value_counts(normalize=True) over one of its columns: the share of the
    rows that holds each distinct value. */
module Frames {
  import opened Common

  /** A table as pandas.read_csv returns it: a header and data rows. */
  datatype DataFrame = DataFrame(columns: seq<string>, rows: seq<seq<string>>)
  {
    /** Every row has one cell per column. */
    predicate Rectangular()
    {
      forall i | 0 <= i < |rows| :: |rows[i]| == |columns|
    }
  }

  /** read_csv pads short rows and refuses long ones, so a parsed table is rectangular. */
  type Frame = df: DataFrame | df.Rectangular() witness DataFrame([], [])

  /** Position of the first column called name. */
  function ColumnIndex(columns: seq<string>, name: string): (k: nat)
    requires name in columns
    ensures k < |columns| && columns[k] == name
    ensures forall j | 0 <= j < k :: columns[j] != name
  {
    if columns[0] == name then 0 else 1 + ColumnIndex(columns[1..], name)
  }

  /** df[name]: the cells of column name, one per row, in row order. */
  function Column(df: Frame, name: string): (col: seq<string>)
    requires name in df.columns
    ensures |col| == |df.rows|
    ensures forall i | 0 <= i < |col| :: col[i] == df.rows[i][ColumnIndex(df.columns, name)]
  {
    var k := ColumnIndex(df.columns, name);
    seq(|df.rows|, i requires 0 <= i < |df.rows| => df.rows[i][k])
  }

  /** The share of col taken by v: its count over the number of cells. */
  function Share<V(==)>(col: seq<V>, v: V): (r: real)
    requires col != []
    ensures 0.0 <= r <= 1.0
    ensures r > 0.0 <==> v in col
  {
    QuotientBounds(Count(col, v) as real, |col| as real);
    Count(col, v) as real / |col| as real
  }

  lemma QuotientBounds(a: real, n: real)
    requires 0.0 <= a <= n && n > 0.0
    ensures 0.0 <= a / n <= 1.0
    ensures a / n > 0.0 <==> a > 0.0
  {
  }

  lemma AddQuotients(a: real, b: real, n: real)
    requires n > 0.0
    ensures a / n + b / n == (a + b) / n
  {
  }

  /** value_counts(normalize=True).to_dict(): each distinct value to its share. */
  function Shares<V(==)>(col: seq<V>): (m: map<V, real>)
    ensures forall v | v in col :: v in m
    ensures forall v | v in m :: v in col && m[v] == Share(col, v) && 0.0 < m[v] <= 1.0
  {
    map v | v in col :: Share(col, v)
  }

  /** Sum of the counts of the values ks. */
  function CountSum<V(==)>(col: seq<V>, ks: seq<V>): nat
  {
    if ks == [] then 0 else Count(col, ks[0]) + CountSum(col, ks[1..])
  }

  lemma {:induction false} CountSumOfEmpty<V>(ks: seq<V>)
    ensures CountSum([], ks) == 0
  {
    if ks != [] {
      CountSumOfEmpty(ks[1..]);
    }
  }

  /** Removing the first cell lowers the sum by the times that cell is listed in ks. */
  lemma {:induction false} CountSumSplit<V>(col: seq<V>, ks: seq<V>)
    requires col != []
    ensures CountSum(col, ks) == Count(ks, col[0]) + CountSum(col[1..], ks)
  {
    if ks != [] {
      CountSumSplit(col, ks[1..]);
    }
  }

  /** Counting every value once over a cover of the column counts each cell once. */
  lemma {:induction false} CountSumCovers<V>(col: seq<V>, ks: seq<V>)
    requires NoDup(ks)
    requires forall v | v in col :: v in ks
    ensures CountSum(col, ks) == |col|
  {
    if col == [] {
      CountSumOfEmpty(ks);
    } else {
      CountSumSplit(col, ks);
      CountInNoDup(ks, col[0]);
      CountSumCovers(col[1..], ks);
    }
  }

  lemma {:induction false} SumOfShares<V>(col: seq<V>, ks: seq<V>)
    requires col != []
    requires forall k | k in ks :: k in col
    ensures SumOver(ks, Shares(col)) == CountSum(col, ks) as real / |col| as real
  {
    if ks != [] {
      SumOfShares(col, ks[1..]);
      AddQuotients(Count(col, ks[0]) as real, CountSum(col, ks[1..]) as real, |col| as real);
    }
  }

  /** The shares of a non-empty column add up to one, in whatever order the keys are visited. */
  lemma SharesSumToOne<V>(col: seq<V>, ks: seq<V>)
    requires col != []
    requires NoDup(ks)
    requires forall v | v in ks :: v in col
    requires forall v | v in col :: v in ks
    ensures SumOver(ks, Shares(col)) == 1.0
  {
    SumOfShares(col, ks);
    CountSumCovers(col, ks);
    QuotientSelf(|col| as real);
  }

  lemma QuotientSelf(n: real)
    requires n > 0.0
    ensures n / n == 1.0
  {
  }

  /** The smallest count among the values xs. */
  function MinCount<V(==)>(col: seq<V>, xs: seq<V>): (c: nat)
    requires xs != []
    ensures exists v :: v in xs && c == Count(col, v)
    ensures forall v | v in xs :: c <= Count(col, v)
  {
    if |xs| == 1 then Count(col, xs[0])
    else
      var rest := MinCount(col, xs[1..]);
      if Count(col, xs[0]) <= rest then Count(col, xs[0]) else rest
  }

  /** The largest count among the values xs. */
  function MaxCount<V(==)>(col: seq<V>, xs: seq<V>): (c: nat)
    requires xs != []
    ensures exists v :: v in xs && c == Count(col, v)
    ensures forall v | v in xs :: Count(col, v) <= c
  {
    if |xs| == 1 then Count(col, xs[0])
    else
      var rest := MaxCount(col, xs[1..]);
      if Count(col, xs[0]) >= rest then Count(col, xs[0]) else rest
  }

  lemma DivideMonotone(a: real, b: real, n: real)
    requires a <= b && n > 0.0
    ensures a / n <= b / n
  {
  }

  /** min(counts.values()) for the normalised value counts of col. */
  function MinShare<V(==)>(col: seq<V>): (lo: real)
    requires col != []
    ensures IsLeast(Shares(col), lo)
  {
    var c := MinCount(col, col);
    var lo := c as real / |col| as real;
    var m := Shares(col);
    var w :| w in col && c == Count(col, w);
    assert w in m && m[w] == lo;
    assert forall v | v in m :: lo <= m[v] by {
      forall v | v in m ensures lo <= m[v] {
        DivideMonotone(c as real, Count(col, v) as real, |col| as real);
      }
    }
    lo
  }

  /** max(counts.values()) for the normalised value counts of col. */
  function MaxShare<V(==)>(col: seq<V>): (hi: real)
    requires col != []
    ensures IsGreatest(Shares(col), hi)
  {
    var c := MaxCount(col, col);
    var hi := c as real / |col| as real;
    var m := Shares(col);
    var w :| w in col && c == Count(col, w);
    assert w in m && m[w] == hi;
    assert forall v | v in m :: m[v] <= hi by {
      forall v | v in m ensures m[v] <= hi {
        DivideMonotone(Count(col, v) as real, c as real, |col| as real);
      }
    }
    hi
  }
}
