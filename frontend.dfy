/** frontend/script.js: validate the chosen file and sensitive attribute,
    post them to the backend, and render the backend's answer as a risk
    label, a progress bar and one list item per group.  The page is
    reduced to what the script reads (the selected files, the text typed)
    and the effects it has, in order: alerts, writes of the result area,
    and the one request it posts.  The fetch outcome is an input. */
module Frontend {
  import opened Common

  /** A file chosen in the file input; its contents are never inspected. */
  datatype File = File(name: string)

  datatype FormValue = Blob(file: File) | Text(text: string)

  /** The POST the script sends: its URL and its multipart fields, in order. */
  datatype FormRequest = FormRequest(url: string, fields: seq<(string, FormValue)>)

  /** The JSON body the script reads: the groups in for...in order, the flag and the message. */
  datatype Payload = Payload(distribution: seq<(string, real)>, biasDetected: bool, message: string)

  /** How the fetch ended: no answer at all, or an HTTP answer whose body may not parse as JSON. */
  datatype Reply = NoAnswer | Answer(ok: bool, body: Option<Payload>)

  datatype Risk = Risk(score: nat, cssClass: string, text: string)

  /** One <li> of the group list: the group and its value (toFixed(2) is not modelled). */
  datatype Item = Item(group: string, value: real)

  /** What renderResult writes into the result area. */
  datatype ResultView = ResultView(status: string, risk: Risk, barWidth: nat, items: seq<Item>)

  datatype Display = Loading | Rendered(view: ResultView) | NotReachable

  datatype Effect = Alert(text: string) | Show(display: Display) | Post(request: FormRequest)

  const Endpoint: string := "http://127.0.0.1:5000/dataset-bias"
  const FileAlert: string := "Please upload a dataset file"
  const AttributeAlert: string := "Please enter a sensitive attribute (e.g. gender)"

  /** The code points String.prototype.trim removes: ECMAScript's WhiteSpace (tab, vertical tab,
      form feed, space, no-break space, the byte order mark and the other space separators) and
      its LineTerminators (line feed, carriage return, line and paragraph separators). */
  const JsWhiteSpace: string :=
    "\t\n\U{B}\U{C}\r \U{A0}\U{1680}"
    + "\U{2000}\U{2001}\U{2002}\U{2003}\U{2004}\U{2005}\U{2006}\U{2007}\U{2008}\U{2009}\U{200A}"
    + "\U{2028}\U{2029}\U{202F}\U{205F}\U{3000}\U{FEFF}"

  predicate IsJsSpace(c: char)
  {
    Listed(c, JsWhiteSpace)
  }

  /** c is one of the characters of cs. */
  predicate Listed(c: char, cs: string)
  {
    cs != [] && (cs[0] == c || Listed(c, cs[1..]))
  }

  /** How many characters at the start of s are white space. */
  function LeadingSpace(s: string): (k: nat)
    ensures k <= |s|
    ensures forall i | 0 <= i < k :: IsJsSpace(s[i])
    ensures k < |s| ==> !IsJsSpace(s[k])
  {
    if s != [] && IsJsSpace(s[0]) then
      var rest := s[1..];
      assert forall i | 0 <= i < |rest| :: rest[i] == s[i + 1];
      1 + LeadingSpace(rest)
    else 0
  }

  /** How many characters at the end of s are white space. */
  function TrailingSpace(s: string): (k: nat)
    ensures k <= |s|
    ensures forall i | |s| - k <= i < |s| :: IsJsSpace(s[i])
    ensures k < |s| ==> !IsJsSpace(s[|s| - 1 - k])
  {
    if s != [] && IsJsSpace(s[|s| - 1]) then
      var init := s[..|s| - 1];
      assert forall i | 0 <= i < |init| :: init[i] == s[i];
      1 + TrailingSpace(init)
    else 0
  }

  /** String.prototype.trim: s without its leading and trailing white space. */
  function Trim(s: string): string
  {
    var a := LeadingSpace(s);
    if a == |s| then "" else s[a..|s| - TrailingSpace(s)]
  }

  /** The trimmed string is the slice of s left once a run of white space is dropped at each end. */
  lemma TrimIsSlice(s: string)
    ensures exists a, b ::
      && 0 <= a <= b <= |s|
      && Trim(s) == s[a..b]
      && (forall i | 0 <= i < a :: IsJsSpace(s[i]))
      && (forall i | b <= i < |s| :: IsJsSpace(s[i]))
  {
    var a := LeadingSpace(s);
    if a == |s| {
      assert Trim(s) == s[a..a];
    } else {
      var b := |s| - TrailingSpace(s);
      assert a <= b;
      assert Trim(s) == s[a..b];
    }
  }

  /** The trimmed string neither starts nor ends with white space. */
  lemma TrimEnds(s: string)
    ensures Trim(s) != [] ==> !IsJsSpace(Trim(s)[0]) && !IsJsSpace(Trim(s)[|Trim(s)| - 1])
  {
    var a, k := LeadingSpace(s), TrailingSpace(s);
    if a < |s| {
      assert a < |s| - k;
      var t := s[a..|s| - k];
      assert t[0] == s[a] && t[|t| - 1] == s[|s| - 1 - k];
    }
  }

  /** The trimmed string is empty exactly when s is all white space. */
  lemma TrimBlank(s: string)
    ensures Trim(s) == [] <==> forall i | 0 <= i < |s| :: IsJsSpace(s[i])
  {
    var a := LeadingSpace(s);
    if a < |s| {
      assert |s| - TrailingSpace(s) > a;
    }
  }

  /** String.prototype.trim drops exactly the leading and the trailing white space: what is dropped is
      white space, what is kept starts and ends with a character that is not, and it is empty exactly
      when s is all white space. */
  lemma TrimSpec(s: string)
    ensures exists a, b ::
      && 0 <= a <= b <= |s|
      && Trim(s) == s[a..b]
      && (forall i | 0 <= i < a :: IsJsSpace(s[i]))
      && (forall i | b <= i < |s| :: IsJsSpace(s[i]))
    ensures Trim(s) != [] ==> !IsJsSpace(Trim(s)[0]) && !IsJsSpace(Trim(s)[|Trim(s)| - 1])
    ensures Trim(s) == [] <==> forall i | 0 <= i < |s| :: IsJsSpace(s[i])
  {
    TrimIsSlice(s);
    TrimEnds(s);
    TrimBlank(s);
  }

  /** renderResult's risk mapping from the bias_detected flag. */
  function RiskOf(biasDetected: bool): (r: Risk)
    ensures r.score == 80 <==> biasDetected
    ensures r.cssClass == "high" <==> biasDetected
    ensures r.text == "High Bias Risk" <==> biasDetected
    ensures !biasDetected ==> r == Risk(20, "low", "Low Bias Risk")
  {
    Risk(if biasDetected then 80 else 20, if biasDetected then "high" else "low",
         if biasDetected then "High Bias Risk" else "Low Bias Risk")
  }

  /** The three parts of the risk always agree: any one of them determines the others. */
  lemma RiskPartsAgree(a: bool, b: bool)
    ensures RiskOf(a).score == RiskOf(b).score <==> RiskOf(a) == RiskOf(b)
    ensures RiskOf(a).cssClass == RiskOf(b).cssClass <==> RiskOf(a) == RiskOf(b)
  {
  }

  /** The view renderResult produces for data. */
  ghost predicate Renders(data: Payload, view: ResultView)
  {
    && view.status == data.message
    && view.risk == RiskOf(data.biasDetected)
    && view.barWidth == view.risk.score
    && |view.items| == |data.distribution|
    && forall i | 0 <= i < |view.items| :: view.items[i] == Item(data.distribution[i].0, data.distribution[i].1)
  }

  /** renderResult(data). */
  method RenderResult(data: Payload) returns (view: ResultView)
    ensures Renders(data, view)
  {
    var risk := RiskOf(data.biasDetected);
    var items: seq<Item> := [];
    for i := 0 to |data.distribution|
      invariant |items| == i
      invariant forall j | 0 <= j < i :: items[j] == Item(data.distribution[j].0, data.distribution[j].1)
    {
      var (key, value) := data.distribution[i];
      items := items + [Item(key, value)];
    }
    view := ResultView(data.message, risk, risk.score, items);
  }

  /** The fetch's .then/.catch chain: what the result area shows once the request settles.
      A non-ok status throws, and so does a body that does not parse; both end in the catch. */
  method Settle(reply: Reply) returns (outcome: Display)
    ensures outcome.Rendered? <==> reply.Answer? && reply.ok && reply.body.Some?
    ensures outcome.Rendered? ==> Renders(reply.body.value, outcome.view)
    ensures !outcome.Rendered? ==> outcome == NotReachable
  {
    if reply.Answer? && reply.ok && reply.body.Some? {
      var view := RenderResult(reply.body.value);
      outcome := Rendered(view);
    } else {
      outcome := NotReachable;
    }
  }

  /** analyzeDataset(): the effects of one click on the analyze button, in order. */
  method AnalyzeDataset(files: seq<File>, sensitiveValue: string, reply: Reply) returns (effects: seq<Effect>)
    ensures files == [] ==> effects == [Alert(FileAlert)]
    ensures files != [] && Trim(sensitiveValue) == "" ==> effects == [Alert(AttributeAlert)]
    ensures files == [] || Trim(sensitiveValue) == "" ==> forall i | 0 <= i < |effects| :: !effects[i].Post?
    ensures files != [] && Trim(sensitiveValue) != "" ==>
      && |effects| == 3
      && effects[0] == Show(Loading)
      && effects[1] == Post(FormRequest(Endpoint, [("file", Blob(files[0])), ("sensitive", Text(Trim(sensitiveValue)))]))
      && effects[2].Show?
    ensures files != [] && Trim(sensitiveValue) != "" && reply.Answer? && reply.ok && reply.body.Some? ==>
      effects[2].display.Rendered? && Renders(reply.body.value, effects[2].display.view)
    ensures files != [] && Trim(sensitiveValue) != "" && !(reply.Answer? && reply.ok && reply.body.Some?) ==>
      effects[2] == Show(NotReachable)
    ensures forall i | 0 <= i < |effects| :: effects[i].Show? && effects[i].display.Rendered? ==>
      reply.Answer? && reply.ok && reply.body.Some?
  {
    if |files| == 0 {
      return [Alert(FileAlert)];
    }
    var attribute := Trim(sensitiveValue);
    if attribute == "" {
      return [Alert(AttributeAlert)];
    }
    var request := FormRequest(Endpoint, [("file", Blob(files[0])), ("sensitive", Text(attribute))]);
    var outcome := Settle(reply);
    effects := [Show(Loading), Post(request), Show(outcome)];
  }

  /** An attribute of white space only trims to the empty string, which AnalyzeDataset's second
      ensures turns into the attribute alert with nothing posted. */
  lemma BlankAttributeRejected(s: string)
    requires forall i | 0 <= i < |s| :: IsJsSpace(s[i])
    ensures Trim(s) == ""
  {
    TrimSpec(s);
  }
}
