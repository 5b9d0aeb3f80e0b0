/** `TwitterSentimentPipeline`: collect, preprocess, analyse with TextBlob,
    keep the analysed frame in `results`, and export a summary of it. The
    search API, the analysis back ends and the clock are inputs; files are
    not written, only their names and contents are computed. */
module Pipeline {
  import opened Wrappers
  import opened Text
  import Collection
  import Frame
  import Sentiment
  import Insights

  // ---------------------------------------------------------------------
  // Attaching the analysis to the frame
  // ---------------------------------------------------------------------

  /** `processed_df['cleaned_text'].tolist()`. */
  function CleanedTexts(rows: seq<Frame.Row>): (r: seq<string>)
    ensures |r| == |rows| && forall k :: 0 <= k < |rows| ==> r[k] == rows[k].cleanedText
  {
    seq(|rows|, k requires 0 <= k < |rows| => rows[k].cleanedText)
  }

  /** The `sentiment` and `confidence` columns assigned from the batch
      results: `r['sentiment']` fails on a missing result, and a column of
      the wrong length cannot be assigned. */
  function Attach(rows: seq<Frame.Row>, results: seq<Option<Sentiment.Result>>): Outcome<seq<Insights.AnalysedRow>>
    decreases |rows|
  {
    if |rows| != |results| then Raised
    else if rows == [] then Returned([])
    else if results[0].None? then Raised
    else
      match Attach(rows[1..], results[1..])
      case Raised => Raised
      case Returned(tail) =>
        var r := results[0].value;
        Returned([Insights.AnalysedRow(rows[0], r.sentiment, Sentiment.GetConfidence(r, 0.0))] + tail)
  }

  /** Row `k` keeps its preprocessed row and takes the sentiment of result
      `k` and its confidence, 0 when it has none; assignment fails exactly
      when the lengths differ or some result is missing. */
  lemma {:induction false} AttachAligned(rows: seq<Frame.Row>, results: seq<Option<Sentiment.Result>>)
    ensures Attach(rows, results).Raised? <==>
              |rows| != |results| || exists k :: 0 <= k < |results| && results[k].None?
    ensures Attach(rows, results).Returned? ==>
              var out := Attach(rows, results).value;
              && |out| == |rows|
              && forall k :: 0 <= k < |rows| ==>
                   && out[k].row == rows[k]
                   && out[k].sentiment == results[k].value.sentiment
                   && out[k].confidence == Sentiment.GetConfidence(results[k].value, 0.0)
    decreases |rows|
  {
    if |rows| == |results| && rows != [] {
      AttachAligned(rows[1..], results[1..]);
      if results[0].Some? {
        if exists k :: 0 <= k < |results| && results[k].None? {
          var k :| 0 <= k < |results| && results[k].None?;
          assert results[1..][k - 1].None?;
        }
        if Attach(rows[1..], results[1..]).Returned? {
          var out := Attach(rows, results).value;
          forall k | 0 <= k < |rows|
            ensures && out[k].row == rows[k]
                    && out[k].sentiment == results[k].value.sentiment
                    && out[k].confidence == Sentiment.GetConfidence(results[k].value, 0.0)
          {
            if k > 0 {
              assert out[k] == Attach(rows[1..], results[1..]).value[k - 1];
            }
          }
        }
      }
    }
  }

  /** The analysed frame of a preprocessed frame, with `method='textblob'`. */
  function Analysed(a: Sentiment.Analyzer, b: Sentiment.Backends, processed: seq<Frame.Row>): Outcome<seq<Insights.AnalysedRow>> {
    Attach(processed, Sentiment.BatchResults(a, b, CleanedTexts(processed), Sentiment.ParseMethod("textblob")))
  }

  /** With TextBlob the columns are always assigned: one analysed row per
      preprocessed row, each labelled with one of the three labels and
      confidence 0, because TextBlob results and the error fallback carry
      no positive confidence. */
  lemma TextBlobFrame(a: Sentiment.Analyzer, b: Sentiment.Backends, processed: seq<Frame.Row>)
    ensures Analysed(a, b, processed).Returned?
    ensures var out := Analysed(a, b, processed).value;
            && |out| == |processed|
            && forall k :: 0 <= k < |out| ==>
                 && out[k].row == processed[k]
                 && out[k].sentiment in Sentiment.LABELS
                 && out[k].confidence == 0.0
  {
    var texts := CleanedTexts(processed);
    var m := Sentiment.ParseMethod("textblob");
    assert m == Sentiment.TextBlobMethod;
    var results := Sentiment.BatchResults(a, b, texts, m);
    Sentiment.BatchItems(a, b, texts, m);
    forall k | 0 <= k < |texts|
      ensures && results[k].Some?
              && results[k].value.sentiment in Sentiment.LABELS
              && Sentiment.GetConfidence(results[k].value, 0.0) == 0.0
    {
      Sentiment.TextBlobItem(a, b, texts[k]);
    }
    AttachAligned(processed, results);
  }

  // ---------------------------------------------------------------------
  // File names
  // ---------------------------------------------------------------------

  /** `s.replace(' ', '')`. */
  function RemoveSpaces(s: string): (r: string)
    ensures ' ' !in r && |r| <= |s|
    decreases |s|
  {
    if s == [] then [] else (if s[0] == ' ' then [] else [s[0]]) + RemoveSpaces(s[1..])
  }

  /** Only the spaces go: every other character keeps its number of
      occurrences, and a string without spaces is left as it is. */
  lemma {:induction false} RemoveSpacesKeeps(s: string, c: char)
    ensures c != ' ' ==> Count(RemoveSpaces(s), c) == Count(s, c)
    ensures ' ' !in s ==> RemoveSpaces(s) == s
    decreases |s|
  {
    if s != [] {
      RemoveSpacesKeeps(s[1..], c);
      CountAppend(if s[0] == ' ' then [] else [s[0]], RemoveSpaces(s[1..]), c);
      if ' ' !in s {
        assert ' ' !in s[1..] by {
          forall k | 0 <= k < |s[1..]| ensures s[1..][k] != ' ' {
            assert s[1..][k] == s[k + 1];
          }
        }
      }
    }
  }

  const RESULTS_PREFIX: string := "sentiment_analysis_"
  const SUMMARY_PREFIX: string := "sentiment_summary_"

  /** The CSV name: the prefix, the query without spaces, the timestamp. */
  function ResultsFileName(query: string, timestamp: string): string {
    RESULTS_PREFIX + RemoveSpaces(query) + timestamp + ".csv"
  }

  lemma NameParts(prefix: string, q: string, timestamp: string, ext: string)
    ensures var name := prefix + q + timestamp + ext;
            && |name| == |prefix| + |q| + |timestamp| + |ext|
            && name[|prefix|..|prefix| + |q|] == q
            && name[|prefix| + |q|..|name| - |ext|] == timestamp
            && name[|prefix|..|name| - |ext|] == q + timestamp
  {
    var name := prefix + q + timestamp + ext;
    assert name == prefix + (q + timestamp) + ext;
    assert name[|prefix|..|name| - |ext|] == q + timestamp;
    assert (q + timestamp)[..|q|] == q;
  }

  /** After the prefix comes the query with its spaces removed, then the
      timestamp; so that part of the name has no space when the timestamp
      has none. */
  lemma ResultsFileNameParts(query: string, timestamp: string)
    ensures var name := ResultsFileName(query, timestamp);
            var q := RemoveSpaces(query);
            var p := |RESULTS_PREFIX|;
            && |name| == p + |q| + |timestamp| + 4
            && name[p..p + |q|] == q
            && name[p + |q|..|name| - 4] == timestamp
            && (' ' !in timestamp ==> ' ' !in name[p..|name| - 4])
  {
    var q := RemoveSpaces(query);
    NameParts(RESULTS_PREFIX, q, timestamp, ".csv");
  }

  // ---------------------------------------------------------------------
  // The summary
  // ---------------------------------------------------------------------

  datatype Summary = Summary(totalTweets: nat, sentimentDistribution: map<string, nat>,
                             averageConfidence: Option<real>, analysisTimestamp: string)

  function Sum(xs: seq<real>): real
    decreases |xs|
  {
    if xs == [] then 0.0 else xs[0] + Sum(xs[1..])
  }

  /** `mean()`; an empty column has none (pandas yields NaN). */
  function Mean(xs: seq<real>): Option<real> {
    if xs == [] then None else Some(Sum(xs) / |xs| as real)
  }

  function Confidences(df: seq<Insights.AnalysedRow>): (r: seq<real>)
    ensures |r| == |df| && forall k :: 0 <= k < |df| ==> r[k] == df[k].confidence
  {
    seq(|df|, k requires 0 <= k < |df| => df[k].confidence)
  }

  function Summarize(df: seq<Insights.AnalysedRow>, timestamp: string): Summary {
    Summary(|df|, Insights.ValueCounts(Insights.Sentiments(df)), Mean(Confidences(df)), timestamp)
  }

  /** `total_tweets` is the row count; the distribution holds exactly the
      labels that occur, each with its number of rows, and these add up to
      the row count. */
  lemma SummaryCounts(df: seq<Insights.AnalysedRow>, timestamp: string)
    ensures var s := Summarize(df, timestamp);
            var labels := Insights.Sentiments(df);
            && s.totalTweets == |df|
            && (forall l :: l in s.sentimentDistribution <==> l in labels)
            && (forall l :: l in s.sentimentDistribution ==> s.sentimentDistribution[l] == Count(labels, l))
            && Insights.SumCounts(labels, Insights.Distinct(labels)) == s.totalTweets
  {
    var labels := Insights.Sentiments(df);
    Insights.DistinctUnique(labels);
    forall k | 0 <= k < |labels| ensures labels[k] in Insights.Distinct(labels) {
      assert labels[k] in labels;
    }
    Insights.CountsSum(labels, Insights.Distinct(labels));
    forall l | l in Summarize(df, timestamp).sentimentDistribution
      ensures Summarize(df, timestamp).sentimentDistribution[l] == Count(labels, l)
    {
      Insights.CountOfValue(labels, l);
    }
  }

  lemma {:induction false} SumZeros(xs: seq<real>)
    requires forall k :: 0 <= k < |xs| ==> xs[k] == 0.0
    ensures Sum(xs) == 0.0
    decreases |xs|
  {
    if xs != [] {
      SumZeros(xs[1..]);
    }
  }

  /** After a TextBlob run the average confidence is 0. */
  lemma TextBlobAverage(a: Sentiment.Analyzer, b: Sentiment.Backends, processed: seq<Frame.Row>, timestamp: string)
    requires processed != []
    ensures Analysed(a, b, processed).Returned? &&
            Summarize(Analysed(a, b, processed).value, timestamp).averageConfidence == Some(0.0)
  {
    TextBlobFrame(a, b, processed);
    SumZeros(Confidences(Analysed(a, b, processed).value));
  }

  // ---------------------------------------------------------------------
  // The pipeline object
  // ---------------------------------------------------------------------

  class TwitterSentimentPipeline {
    /** The search API for each query. */
    const collector: string -> Collection.Api
    const analyzer: Sentiment.Analyzer
    const backends: Sentiment.Backends
    var results: Option<seq<Insights.AnalysedRow>>

    constructor(collector: string -> Collection.Api, hfToken: Option<string>, backends: Sentiment.Backends)
      ensures this.collector == collector && this.backends == backends
      ensures analyzer == Sentiment.NewAnalyzer(hfToken)
      ensures results == None
    {
      this.collector := collector;
      this.analyzer := Sentiment.NewAnalyzer(hfToken);
      this.backends := backends;
      results := None;
    }

    /** The tweets a run collects. */
    function Collected(query: string, maxTweets: int, fuel: nat): seq<Collection.TweetRecord>
      reads {}
    {
      Collection.Run(collector(query), maxTweets, Collection.Init, fuel).tweets
    }

    /** `run_analysis`. With no tweets it returns an empty frame and leaves
        `results` alone. Otherwise it keeps the analysed frame in `results`
        before `generate_insights` runs, which divides by the row count and
        so fails on an empty frame; a successful run returns that frame and,
        if asked, names the CSV it saves. */
    method RunAnalysis(query: string, maxTweets: int, fuel: nat, saveResults: bool, timestamp: string)
      returns (out: Outcome<seq<Insights.AnalysedRow>>, saved: Option<string>)
      modifies this
      ensures var tweets := Collected(query, maxTweets, fuel);
              var analysed := Analysed(analyzer, backends, Frame.PreprocessFrame(tweets));
              && (tweets == [] ==> out == Returned([]) && saved == None && results == old(results))
              && (tweets != [] && analysed.Raised? ==> out == Raised && saved == None && results == old(results))
              && (tweets != [] && analysed.Returned? ==>
                    && results == Some(analysed.value)
                    && (analysed.value == [] ==> out == Raised && saved == None)
                    && (analysed.value != [] ==>
                          && out == analysed
                          && saved == (if saveResults then Some(ResultsFileName(query, timestamp)) else None)))
    {
      var tweets := Collection.CollectTweets(collector(query), maxTweets, fuel);
      if tweets == [] {
        return Returned([]), None;
      }
      var processed := Frame.PreprocessDataframe(tweets);
      var batch := Sentiment.BatchAnalyze(analyzer, backends, CleanedTexts(processed), "textblob");
      var analysed := Attach(processed, batch);
      if analysed.Raised? {
        return Raised, None;
      }
      results := Some(analysed.value);
      if |analysed.value| == 0 {
        return Raised, None;
      }
      saved := if saveResults then Some(ResultsFileName(query, timestamp)) else None;
      out := analysed;
    }

    /** `export_summary`: nothing without results; otherwise the file name,
        given or derived from the clock, and the summary written to it. The
        clock is read twice: `nameStamp` is its `strftime` form at the
        naming, `isoStamp` its `isoformat` form when the summary is built. */
    method ExportSummary(filename: Option<string>, nameStamp: string, isoStamp: string)
      returns (written: Option<(string, Summary)>)
      ensures results.None? ==> written.None?
      ensures results.Some? ==>
                && written.Some?
                && written.value.0 == (if filename.Some? then filename.value else SUMMARY_PREFIX + nameStamp + ".json")
                && written.value.1 == Summarize(results.value, isoStamp)
    {
      if results.None? {
        return None;
      }
      var name := if filename.Some? then filename.value else SUMMARY_PREFIX + nameStamp + ".json";
      written := Some((name, Summarize(results.value, isoStamp)));
    }
  }
}
