/** `SentimentAnalyzer`: the token rewrite done before RoBERTa, the TextBlob
    label rule, the arg-max selection over RoBERTa scores, the mapping of a
    hosted-API response, and `batch_analyze`, which isolates the failure of
    each item. The models, TextBlob and the HTTP call are inputs. */
module Sentiment {
  import opened Wrappers
  import opened Text

  /** `self.labels`, in the order of the model's output scores. */
  const LABELS: seq<string> := ["negative", "neutral", "positive"]

  const MODEL_NAME: string := "cardiffnlp/twitter-roberta-base-sentiment-latest"

  // ---------------------------------------------------------------------
  // The analyser's configuration
  // ---------------------------------------------------------------------

  /** The fields `__init__` and `setup_models` set; none changes afterwards.
      `api_url` and `headers` exist only when the token is truthy. */
  datatype Analyzer = Analyzer(hfToken: Option<string>, labels: seq<string>,
                               apiUrl: Option<string>, headers: Option<string>)

  function NewAnalyzer(hfToken: Option<string>): (a: Analyzer)
    ensures a.hfToken == hfToken && a.labels == LABELS
    ensures a.apiUrl.Some? <==> Truthy(hfToken)
    ensures a.headers.Some? <==> Truthy(hfToken)
  {
    if Truthy(hfToken) then
      Analyzer(hfToken, LABELS, Some("https://api-inference.huggingface.co/models/" + MODEL_NAME),
               Some("Bearer " + hfToken.value))
    else Analyzer(hfToken, LABELS, None, None)
  }

  // ---------------------------------------------------------------------
  // Results
  // ---------------------------------------------------------------------

  /** One API entry, `{'label': ..., 'score': ...}`. */
  datatype ApiEntry = ApiEntry(entryLabel: string, score: real)

  /** The dictionaries the analysers return, one constructor per shape. */
  datatype Result =
    | RobertaResult(sentiment: string, confidence: real, scores: seq<(string, real)>)
    | TextBlobResult(sentiment: string, polarity: real, subjectivity: real)
    | ApiResult(sentiment: string, confidence: real, allScores: seq<ApiEntry>)
    | Fallback(sentiment: string, confidence: real)

  /** The keys of the dictionary. */
  function Keys(r: Result): set<string> {
    match r
    case RobertaResult(_, _, _) => {"sentiment", "confidence", "scores"}
    case TextBlobResult(_, _, _) => {"sentiment", "polarity", "subjectivity"}
    case ApiResult(_, _, _) => {"sentiment", "confidence", "all_scores"}
    case Fallback(_, _) => {"sentiment", "confidence"}
  }

  /** `r.get('confidence', default)`. */
  function GetConfidence(r: Result, absent: real): (c: real)
    ensures "confidence" in Keys(r) ==> c == r.confidence
    ensures "confidence" !in Keys(r) ==> c == absent
  {
    if r.TextBlobResult? then absent else r.confidence
  }

  // ---------------------------------------------------------------------
  // preprocess_for_roberta
  // ---------------------------------------------------------------------

  /** The two rewrites of one token, in the source's order. */
  function RobertaToken(t: string): string {
    var t1 := if StartsWith(t, "@") && |t| > 1 then "@user" else t;
    if StartsWith(t1, "http") then "http" else t1
  }

  function RobertaTokens(ts: seq<string>): (r: seq<string>)
    ensures |r| == |ts| && forall k :: 0 <= k < |ts| ==> r[k] == RobertaToken(ts[k])
  {
    seq(|ts|, k requires 0 <= k < |ts| => RobertaToken(ts[k]))
  }

  /** `" ".join(...)` of the rewritten pieces of `text.split(" ")`. */
  function RobertaText(text: string): string {
    Join(" ", RobertaTokens(SplitOn(text, ' ')))
  }

  method PreprocessForRoberta(text: string) returns (r: string)
    ensures r == RobertaText(text)
  {
    var parts := SplitOn(text, ' ');
    var newText: seq<string> := [];
    for i := 0 to |parts|
      invariant |newText| == i
      invariant forall k :: 0 <= k < i ==> newText[k] == RobertaToken(parts[k])
    {
      var t := parts[i];
      t := if StartsWith(t, "@") && |t| > 1 then "@user" else t;
      t := if StartsWith(t, "http") then "http" else t;
      newText := newText + [t];
    }
    assert newText == RobertaTokens(parts);
    r := Join(" ", newText);
  }

  /** A mention of more than one character becomes `@user`, a lone `@` stays,
      and any other token starting with `http` becomes `http`. */
  lemma RobertaTokenCases(t: string)
    ensures StartsWith(t, "@") && |t| > 1 ==> RobertaToken(t) == "@user"
    ensures t == "@" ==> RobertaToken(t) == "@"
    ensures !StartsWith(t, "@") && StartsWith(t, "http") ==> RobertaToken(t) == "http"
    ensures !StartsWith(t, "@") && !StartsWith(t, "http") ==> RobertaToken(t) == t
  {
    assert !StartsWith("@user", "http") by {
      assert "@user"[..4][0] == '@';
    }
  }

  /** A token is left alone exactly when it is not a longer mention or a
      longer `http` token. */
  lemma RobertaTokenFixed(t: string)
    ensures RobertaToken(t) == t <==>
              (StartsWith(t, "@") && |t| > 1 ==> t == "@user") && (StartsWith(t, "http") ==> t == "http")
  {
    RobertaTokenCases(t);
    if t == "@user" {
      assert !StartsWith(t, "http") by {
        assert t[..4][0] == '@';
      }
    }
  }

  lemma RobertaTokenIdempotent(t: string)
    ensures RobertaToken(RobertaToken(t)) == RobertaToken(t)
  {
    RobertaTokenCases(t);
    RobertaTokenFixed("@user");
    RobertaTokenFixed("http");
    RobertaTokenFixed(t);
  }

  lemma RobertaTokenNoSpace(t: string)
    requires ' ' !in t
    ensures ' ' !in RobertaToken(t)
  {
    RobertaTokenCases(t);
  }

  /** Splitting the rewritten text on single spaces gives the rewritten
      pieces, so the number of pieces is kept. */
  lemma RobertaSplit(text: string)
    ensures SplitOn(RobertaText(text), ' ') == RobertaTokens(SplitOn(text, ' '))
    ensures |SplitOn(RobertaText(text), ' ')| == |SplitOn(text, ' ')|
  {
    var parts := SplitOn(text, ' ');
    forall k | 0 <= k < |parts|
      ensures ' ' !in RobertaTokens(parts)[k]
    {
      RobertaTokenNoSpace(parts[k]);
    }
    SplitOnJoin(RobertaTokens(parts), ' ');
  }

  /** The text comes back unchanged exactly when every piece is left alone. */
  lemma RobertaUnchanged(text: string)
    ensures RobertaText(text) == text <==>
              forall k :: 0 <= k < |SplitOn(text, ' ')| ==> RobertaToken(SplitOn(text, ' ')[k]) == SplitOn(text, ' ')[k]
  {
    var parts := SplitOn(text, ' ');
    JoinSplitOn(text, ' ');
    RobertaSplit(text);
    if forall k :: 0 <= k < |parts| ==> RobertaToken(parts[k]) == parts[k] {
      assert RobertaTokens(parts) == parts;
    }
  }

  /** Text with no longer mention and no `http` token other than `http`
      itself comes back byte for byte. */
  lemma RobertaPlain(text: string)
    requires forall k :: 0 <= k < |SplitOn(text, ' ')| ==>
               !(StartsWith(SplitOn(text, ' ')[k], "@") && |SplitOn(text, ' ')[k]| > 1) &&
               !StartsWith(SplitOn(text, ' ')[k], "http")
    ensures RobertaText(text) == text
  {
    var parts := SplitOn(text, ' ');
    forall k | 0 <= k < |parts|
      ensures RobertaToken(parts[k]) == parts[k]
    {
      RobertaTokenFixed(parts[k]);
    }
    RobertaUnchanged(text);
  }

  /** `@user` and `http` map to themselves, so the rewrite is idempotent. */
  lemma RobertaIdempotent(text: string)
    ensures RobertaText(RobertaText(text)) == RobertaText(text)
  {
    var r := RobertaText(text);
    RobertaSplit(text);
    var parts := SplitOn(r, ' ');
    forall k | 0 <= k < |parts|
      ensures RobertaToken(parts[k]) == parts[k]
    {
      RobertaTokenIdempotent(SplitOn(text, ' ')[k]);
    }
    RobertaUnchanged(r);
  }

  // ---------------------------------------------------------------------
  // analyze_with_textblob
  // ---------------------------------------------------------------------

  /** The threshold rule on TextBlob's polarity. */
  function TextBlobLabel(polarity: real): string {
    if polarity > 0.1 then "positive"
    else if polarity < -0.1 then "negative"
    else "neutral"
  }

  /** Each label, as a condition on the polarity; the thresholds themselves
      are neutral. */
  lemma TextBlobLabelCases(polarity: real)
    ensures TextBlobLabel(polarity) == "positive" <==> polarity > 0.1
    ensures TextBlobLabel(polarity) == "negative" <==> polarity < -0.1
    ensures TextBlobLabel(polarity) == "neutral" <==> -0.1 <= polarity <= 0.1
    ensures TextBlobLabel(polarity) in LABELS
  {
  }

  /** Position of a label on the negative-to-positive scale of `LABELS`. */
  function Rank(name: string): int {
    if name == "negative" then 0 else if name == "neutral" then 1 else 2
  }

  /** A higher polarity never gives a lower label, and negating the polarity
      mirrors the label. */
  lemma TextBlobLabelOrder(p: real, q: real)
    ensures p <= q ==> Rank(TextBlobLabel(p)) <= Rank(TextBlobLabel(q))
    ensures Rank(TextBlobLabel(-p)) == 2 - Rank(TextBlobLabel(p))
  {
  }

  /** The external TextBlob analysis: polarity and subjectivity. */
  datatype Blob = Blob(polarity: real, subjectivity: real)

  function TextBlobAnalysis(b: Blob): (r: Result)
    ensures Keys(r) == {"sentiment", "polarity", "subjectivity"}
    ensures "confidence" !in Keys(r) && "scores" !in Keys(r)
    ensures r.sentiment == TextBlobLabel(b.polarity) && r.polarity == b.polarity
  {
    TextBlobResult(TextBlobLabel(b.polarity), b.polarity, b.subjectivity)
  }

  // ---------------------------------------------------------------------
  // analyze_with_roberta
  // ---------------------------------------------------------------------

  /** `np.argmax`: the first position of the largest score. */
  function ArgMax(scores: seq<real>): (i: nat)
    requires |scores| > 0
    ensures i < |scores|
    ensures forall j :: 0 <= j < |scores| ==> scores[j] <= scores[i]
    ensures forall j :: 0 <= j < i ==> scores[j] < scores[i]
  {
    if |scores| == 1 then 0
    else
      var k := ArgMax(scores[..|scores| - 1]);
      if scores[|scores| - 1] > scores[k] then |scores| - 1 else k
  }

  /** `zip(labels, scores)`: pairs up to the shorter length. */
  function Zip(labels: seq<string>, scores: seq<real>): (z: seq<(string, real)>)
    ensures |z| == if |labels| <= |scores| then |labels| else |scores|
    ensures forall k :: 0 <= k < |z| ==> z[k] == (labels[k], scores[k])
  {
    if labels == [] || scores == [] then [] else [(labels[0], scores[0])] + Zip(labels[1..], scores[1..])
  }

  /** The result built from the model's scores: `np.argmax` of no scores and
      an index past the labels raise. */
  function RobertaAnalysis(labels: seq<string>, scores: seq<real>): Outcome<Result> {
    if |scores| == 0 then Raised
    else
      var i := ArgMax(scores);
      if i >= |labels| then Raised
      else Returned(RobertaResult(labels[i], scores[i], Zip(labels, scores)))
  }

  /** With three scores the label is the one at the first maximal score, the
      confidence is that score, and the score map has the three labels in
      order. */
  lemma RobertaSelection(scores: seq<real>)
    requires |scores| == 3
    ensures RobertaAnalysis(LABELS, scores).Returned?
    ensures var r := RobertaAnalysis(LABELS, scores).value;
            exists i :: 0 <= i < 3 && r.sentiment == LABELS[i] && r.confidence == scores[i] &&
                        (forall j :: 0 <= j < 3 ==> scores[j] <= scores[i]) &&
                        (forall j :: 0 <= j < i ==> scores[j] < scores[i])
    ensures RobertaAnalysis(LABELS, scores).value.scores
            == [("negative", scores[0]), ("neutral", scores[1]), ("positive", scores[2])]
  {
    var i := ArgMax(scores);
    var z := Zip(LABELS, scores);
    assert z == [(LABELS[0], scores[0]), (LABELS[1], scores[1]), (LABELS[2], scores[2])];
  }

  // ---------------------------------------------------------------------
  // analyze_with_huggingface_api
  // ---------------------------------------------------------------------

  /** What `response.json()` finds: a list of well-formed entries; a
      non-empty list in which some element has no numeric `score`, or whose
      top element has no string `label` (so that `max` or `.lower()`
      raises); some other JSON value; or no JSON at all (which makes
      `json()` raise). */
  datatype Body = EntryList(entries: seq<ApiEntry>) | MalformedList | OtherJson | NotJson

  datatype Response = Response(status: int, body: Body)

  function EntryScores(entries: seq<ApiEntry>): (s: seq<real>)
    ensures |s| == |entries| && forall k :: 0 <= k < |entries| ==> s[k] == entries[k].score
  {
    seq(|entries|, k requires 0 <= k < |entries| => entries[k].score)
  }

  /** `max(result, key=lambda x: x['score'])`: the first entry of highest score. */
  function TopEntry(entries: seq<ApiEntry>): (e: ApiEntry)
    requires |entries| > 0
    ensures e in entries
    ensures forall k :: 0 <= k < |entries| ==> entries[k].score <= e.score
  {
    entries[ArgMax(EntryScores(entries))]
  }

  /** The mapping of the hosted API's response, given the outcome of the
      POST request. */
  function ApiAnalysis(a: Analyzer, post: Outcome<Response>): Outcome<Option<Result>> {
    if !Truthy(a.hfToken) then Returned(None)
    else match post
      case Raised => Raised
      case Returned(resp) =>
        if resp.status != 200 then Returned(None)
        else match resp.body
          case NotJson => Raised
          case MalformedList => Raised
          case OtherJson => Returned(None)
          case EntryList(entries) =>
            if |entries| == 0 then Returned(None)
            else
              var top := TopEntry(entries);
              Returned(Some(ApiResult(Lower(top.entryLabel), top.score, entries)))
  }

  /** No token, a status other than 200, or a body that is not a non-empty
      list gives `None`; a failed request, a body that is not JSON or a list
      with malformed entries raises; otherwise the result is the first entry
      of highest score, with its label lower-cased. */
  lemma ApiAnalysisCases(a: Analyzer, post: Outcome<Response>)
    ensures !Truthy(a.hfToken) ==> ApiAnalysis(a, post) == Returned(None)
    ensures Truthy(a.hfToken) && post.Returned? && post.value.status != 200 ==> ApiAnalysis(a, post) == Returned(None)
    ensures Truthy(a.hfToken) && post.Returned? && post.value.status == 200 && post.value.body.EntryList? ==>
              var entries := post.value.body.entries;
              (entries == [] <==> ApiAnalysis(a, post) == Returned(None)) &&
              (entries != [] ==>
                exists i :: 0 <= i < |entries| &&
                  ApiAnalysis(a, post) == Returned(Some(ApiResult(Lower(entries[i].entryLabel), entries[i].score, entries))) &&
                  (forall j :: 0 <= j < |entries| ==> entries[j].score <= entries[i].score) &&
                  (forall j :: 0 <= j < i ==> entries[j].score < entries[i].score))
    ensures Truthy(a.hfToken) && post.Returned? && post.value.status == 200 && post.value.body.OtherJson? ==>
              ApiAnalysis(a, post) == Returned(None)
    ensures Truthy(a.hfToken) && post.Returned? && post.value.status == 200 &&
            (post.value.body.MalformedList? || post.value.body.NotJson?) ==>
              ApiAnalysis(a, post) == Raised
    ensures Truthy(a.hfToken) && post.Raised? ==> ApiAnalysis(a, post) == Raised
  {
    if Truthy(a.hfToken) && post.Returned? && post.value.status == 200 && post.value.body.EntryList? {
      var entries := post.value.body.entries;
      if entries != [] {
        var i := ArgMax(EntryScores(entries));
        assert TopEntry(entries) == entries[i];
      }
    }
  }

  // ---------------------------------------------------------------------
  // batch_analyze
  // ---------------------------------------------------------------------

  /** The external computations: the RoBERTa tokenizer and model (softmaxed
      scores of a text), TextBlob, and the POST request to the hosted API. */
  datatype Backends = Backends(model: string -> Outcome<seq<real>>,
                               blob: string -> Outcome<Blob>,
                               post: string -> Outcome<Response>)

  function AnalyzeWithRoberta(a: Analyzer, b: Backends, text: string): Outcome<Result> {
    match b.model(RobertaText(text))
    case Raised => Raised
    case Returned(scores) => RobertaAnalysis(a.labels, scores)
  }

  function AnalyzeWithTextBlob(b: Backends, text: string): Outcome<Result> {
    match b.blob(text)
    case Raised => Raised
    case Returned(blob) => Returned(TextBlobAnalysis(blob))
  }

  function AnalyzeWithApi(a: Analyzer, b: Backends, text: string): Outcome<Option<Result>> {
    if !Truthy(a.hfToken) then Returned(None) else ApiAnalysis(a, b.post(text))
  }

  function SomeResult(o: Outcome<Result>): Outcome<Option<Result>> {
    match o
    case Raised => Raised
    case Returned(r) => Returned(Some(r))
  }

  /** The analysis a `method` argument selects. */
  datatype Method = RobertaMethod | TextBlobMethod | ApiMethod

  /** The comparisons of `method` inside the `try`; any other name is
      RoBERTa. */
  function ParseMethod(methodName: string): (m: Method)
    ensures m == TextBlobMethod <==> methodName == "textblob"
    ensures m == ApiMethod <==> methodName == "huggingface_api"
  {
    if methodName == "roberta" then RobertaMethod
    else if methodName == "textblob" then TextBlobMethod
    else if methodName == "huggingface_api" then ApiMethod
    else RobertaMethod
  }

  function Dispatch(a: Analyzer, b: Backends, text: string, m: Method): Outcome<Option<Result>> {
    match m
    case RobertaMethod => SomeResult(AnalyzeWithRoberta(a, b, text))
    case TextBlobMethod => SomeResult(AnalyzeWithTextBlob(b, text))
    case ApiMethod => AnalyzeWithApi(a, b, text)
  }

  const FALLBACK: Result := Fallback("neutral", 0.0)

  /** One item of the batch: an exception becomes the neutral fallback. */
  function AnalyzeItem(a: Analyzer, b: Backends, text: string, m: Method): Option<Result> {
    match Dispatch(a, b, text, m)
    case Raised => Some(FALLBACK)
    case Returned(r) => r
  }

  /** `f` applied to each text, in input order. */
  function MapItems(f: string -> Option<Result>, texts: seq<string>): (rs: seq<Option<Result>>)
    ensures |rs| == |texts|
  {
    if texts == [] then [] else MapItems(f, texts[..|texts| - 1]) + [f(texts[|texts| - 1])]
  }

  lemma {:induction false} MapItemsAt(f: string -> Option<Result>, texts: seq<string>, k: nat)
    requires k < |texts|
    ensures MapItems(f, texts)[k] == f(texts[k])
  {
    var n := |texts| - 1;
    if k < n {
      MapItemsAt(f, texts[..n], k);
    }
  }

  /** The results of the items, in input order. */
  function BatchResults(a: Analyzer, b: Backends, texts: seq<string>, m: Method): seq<Option<Result>> {
    MapItems(t => AnalyzeItem(a, b, t, m), texts)
  }

  /** `batch_analyze`. The name comparison is made once; `method` is the same
      for every item. */
  method BatchAnalyze(a: Analyzer, b: Backends, texts: seq<string>, methodName: string)
    returns (results: seq<Option<Result>>)
    ensures results == BatchResults(a, b, texts, ParseMethod(methodName))
  {
    var m := ParseMethod(methodName);
    ghost var f := t => AnalyzeItem(a, b, t, m);
    results := [];
    for i := 0 to |texts|
      invariant results == MapItems(f, texts[..i])
    {
      assert texts[..i + 1][..i] == texts[..i];
      var outcome := Dispatch(a, b, texts[i], m);
      match outcome
      case Raised =>
        assert f(texts[i]) == Some(FALLBACK);
        results := results + [Some(FALLBACK)];
      case Returned(r) =>
        assert f(texts[i]) == r;
        results := results + [r];
    }
    assert texts[..|texts|] == texts;
  }

  /** The batch has one result per text, in input order, and item `k` is the
      analysis of text `k` alone: a failing item affects no other. */
  lemma BatchItems(a: Analyzer, b: Backends, texts: seq<string>, m: Method)
    ensures |BatchResults(a, b, texts, m)| == |texts|
    ensures forall k :: 0 <= k < |texts| ==> BatchResults(a, b, texts, m)[k] == AnalyzeItem(a, b, texts[k], m)
  {
    forall k | 0 <= k < |texts|
      ensures BatchResults(a, b, texts, m)[k] == AnalyzeItem(a, b, texts[k], m)
    {
      MapItemsAt(t => AnalyzeItem(a, b, t, m), texts, k);
    }
  }

  /** A failing item yields `{'sentiment': 'neutral', 'confidence': 0.0}`, a
      `None` from the API path is kept as it is, only the API path gives
      `None`, and a name other than the three behaves as `roberta`. */
  lemma AnalyzeItemCases(a: Analyzer, b: Backends, text: string, m: Method)
    ensures Dispatch(a, b, text, m).Raised? ==>
              AnalyzeItem(a, b, text, m) == Some(FALLBACK) &&
              FALLBACK.sentiment == "neutral" && FALLBACK.confidence == 0.0
    ensures Dispatch(a, b, text, m) == Returned(None) ==> AnalyzeItem(a, b, text, m) == None
    ensures m != ApiMethod ==> AnalyzeItem(a, b, text, m).Some?
    ensures m == ApiMethod && Truthy(a.hfToken) && b.post(text).Returned? &&
            b.post(text).value.status == 200 && b.post(text).value.body.MalformedList? ==>
              AnalyzeItem(a, b, text, m) == Some(FALLBACK)
  {
  }

  lemma UnknownMethod(methodName: string)
    requires methodName != "roberta" && methodName != "textblob" && methodName != "huggingface_api"
    ensures ParseMethod(methodName) == ParseMethod("roberta") == RobertaMethod
  {
  }

  /** Under `textblob` every item has a sentiment label of `LABELS`, its
      confidence with default 0 is 0, and when TextBlob succeeded the label
      follows the polarity rule. */
  lemma TextBlobItem(a: Analyzer, b: Backends, text: string)
    ensures AnalyzeItem(a, b, text, TextBlobMethod).Some?
    ensures AnalyzeItem(a, b, text, TextBlobMethod).value.sentiment in LABELS
    ensures GetConfidence(AnalyzeItem(a, b, text, TextBlobMethod).value, 0.0) == 0.0
    ensures b.blob(text).Returned? ==>
              AnalyzeItem(a, b, text, TextBlobMethod).value.sentiment == TextBlobLabel(b.blob(text).value.polarity)
  {
    if b.blob(text).Returned? {
      TextBlobLabelCases(b.blob(text).value.polarity);
    }
  }
}
