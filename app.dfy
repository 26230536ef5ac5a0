/** backend/app.py, the /analyze endpoint: request validation in a fixed
    order, then the normalised value counts of the sensitive column and the
    disparate impact (smallest share over largest share). */
module App {
  import opened Common
  import opened Frames

  /** The uploaded dataset: a table read_csv could parse, or the reason it raised. */
  datatype Upload = Csv(frame: Frame) | Unparseable(reason: string)

  /** The multipart request: the "dataset" file and the "sensitive" form field, each possibly absent. */
  datatype Request = Request(dataset: Option<Upload>, sensitive: Option<string>)

  datatype Body =
    | Error(error: string)
    | Analysis(status: string, sensitiveAttribute: string, rows: nat, biasMetrics: map<string, real>, disparateImpact: real)

  datatype Response = Response(body: Body, status: nat)

  const Success: string := "success"
  const DatasetMissing: string := "Dataset file missing"
  const SensitiveMissing: string := "Sensitive attribute missing"
  /** What Python's min raises on an empty collection. */
  const EmptyMinMessage: string := "min() arg is an empty sequence"

  function ColumnNotFound(name: string): string
  {
    "Column '" + name + "' not found in dataset"
  }

  /** The request names a non-empty attribute that is a column of a parsed dataset. */
  predicate HasColumn(req: Request)
  {
    && req.dataset.Some? && req.dataset.value.Csv?
    && req.sensitive.Some? && req.sensitive.value != ""
    && req.sensitive.value in req.dataset.value.frame.columns
  }

  /** The cells of the requested column. */
  function SensitiveColumn(req: Request): seq<string>
    requires HasColumn(req)
  {
    Column(req.dataset.value.frame, req.sensitive.value)
  }

  lemma RatioBounds(lo: real, hi: real)
    requires 0.0 < lo <= hi
    ensures 0.0 < lo / hi <= 1.0
    ensures lo / hi == 1.0 <==> lo == hi
  {
    if lo / hi == 1.0 {
      assert lo == (lo / hi) * hi;
    }
  }

  /** analyze_bias(): any exception raised on the way becomes a 500 carrying its message. */
  function AnalyzeBias(req: Request): (resp: Response)
    ensures resp.status == 200 || resp.status == 400 || resp.status == 500
    ensures resp.status == 200 <==> resp.body.Analysis?
    ensures req.dataset.None? ==> resp == Response(Error(DatasetMissing), 400)
    ensures req.dataset.Some? && (req.sensitive.None? || req.sensitive.value == "") ==>
      resp == Response(Error(SensitiveMissing), 400)
    ensures req.dataset.Some? && req.dataset.value.Unparseable? && req.sensitive.Some? && req.sensitive.value != "" ==>
      resp == Response(Error(req.dataset.value.reason), 500)
    ensures (&& req.dataset.Some? && req.dataset.value.Csv? && req.sensitive.Some? && req.sensitive.value != ""
             && req.sensitive.value !in req.dataset.value.frame.columns) ==>
      resp == Response(Error(ColumnNotFound(req.sensitive.value)), 400)
    ensures HasColumn(req) && req.dataset.value.frame.rows == [] ==> resp == Response(Error(EmptyMinMessage), 500)
    ensures resp.status == 200 <==> HasColumn(req) && req.dataset.value.frame.rows != []
    ensures resp.status == 200 ==>
      var col := SensitiveColumn(req);
      var metrics := resp.body.biasMetrics;
      && resp.body.status == Success
      && resp.body.sensitiveAttribute == req.sensitive.value
      && resp.body.rows == |req.dataset.value.frame.rows|
      && (forall v | v in col :: v in metrics)
      && (forall v | v in metrics :: v in col && metrics[v] == Count(col, v) as real / |col| as real)
      && (forall v | v in metrics :: 0.0 < metrics[v] <= 1.0)
      && 0.0 < resp.body.disparateImpact <= 1.0
  {
    if req.dataset.None? then
      Response(Error(DatasetMissing), 400)
    else if req.sensitive.None? || req.sensitive.value == "" then
      Response(Error(SensitiveMissing), 400)
    else match req.dataset.value
      case Unparseable(reason) => Response(Error(reason), 500)
      case Csv(df) =>
        var sensitive := req.sensitive.value;
        if sensitive !in df.columns then
          Response(Error(ColumnNotFound(sensitive)), 400)
        else
          var col := Column(df, sensitive);
          var counts := Shares(col);
          assert col != [] ==> col[0] in counts;
          if counts == map[] then
            Response(Error(EmptyMinMessage), 500)
          else
            assert col[0] in counts;
            var lo, hi := MinShare(col), MaxShare(col);
            assert 0.0 < lo <= hi by {
              var k :| k in counts && counts[k] == lo;
            }
            RatioBounds(lo, hi);
            Response(Analysis(Success, sensitive, |df.rows|, counts, lo / hi), 200)
  }

  /** On success the bias metrics add up to one, whatever order the groups are visited in. */
  lemma MetricsSumToOne(req: Request, ks: seq<string>)
    requires AnalyzeBias(req).status == 200
    requires NoDup(ks)
    requires forall v | v in ks :: v in AnalyzeBias(req).body.biasMetrics
    requires forall v | v in AnalyzeBias(req).body.biasMetrics :: v in ks
    ensures SumOver(ks, AnalyzeBias(req).body.biasMetrics) == 1.0
  {
    var col := SensitiveColumn(req);
    SharesSumToOne(col, ks);
  }

  /** The disparate impact is the smallest share over the largest, and it is exactly one
      when every group holds the same share of the rows. */
  lemma DisparateImpactIsOneIffBalanced(req: Request)
    requires AnalyzeBias(req).status == 200
    ensures var body := AnalyzeBias(req).body;
      && (exists lo, hi :: IsLeast(body.biasMetrics, lo) && IsGreatest(body.biasMetrics, hi) && body.disparateImpact == lo / hi)
      && (body.disparateImpact == 1.0 <==>
          forall v, w | v in body.biasMetrics && w in body.biasMetrics :: body.biasMetrics[v] == body.biasMetrics[w])
  {
    var col := SensitiveColumn(req);
    var m := Shares(col);
    var lo, hi := MinShare(col), MaxShare(col);
    assert AnalyzeBias(req).body.disparateImpact == lo / hi;
    var a :| a in m && m[a] == lo;
    var b :| b in m && m[b] == hi;
    RatioBounds(lo, hi);
    if lo / hi != 1.0 {
      assert m[a] != m[b];
    }
  }
}
