# Twitter sentiment pipeline, modelled in Dafny

The system works in five stages:

1. It collects recent English tweets for a search query from the Twitter
   search API. It pages with `next_token` and waits out rate limits.
2. It cleans each tweet's text with regular expressions. It drops rows of
   fewer than three words and rows whose cleaned text repeats an earlier one.
3. It labels each text `negative`, `neutral` or `positive`, using RoBERTa,
   TextBlob or the hosted Hugging Face API.
4. It reports label counts and percentages, and the five most common words
   for each label.
5. A pipeline object keeps the analysed frame and exports a JSON summary of
   it.

The model follows the code one module per source file:

| module | file | what it holds |
|---|---|---|
| `Wrappers` | `wrappers.dfy` | `Option`, and `Outcome` (a value, or a raised exception) |
| `Text` | `text.dfy` | ASCII character classes, `str.lower`, `str.split()`, `str.split(" ")`, `str.join` and counting |
| `Regex` | `regex.dfy` | the `re.sub` semantics the cleaner relies on: a left-to-right, non-overlapping scan over patterns made of alternatives, with greedy class runs |
| `Preprocessing` | `preprocessing.dfy` | `clean_tweet` as a composition of those substitutions, with strip and punctuation removal |
| `Frame` | `frame.dfy` | `preprocess_dataframe` on a sequence of rows; the de-duplication is an imperative scan with a set of seen texts |
| `Sentiment` | `sentiment.dfy` | `SentimentAnalyzer`: the RoBERTa token rewrite (a loop), the TextBlob label rule, the argmax selection, the API response mapping, and `batch_analyze` (a loop with per-item fallback) |
| `Collection` | `collection.dfy` | `collect_tweets`: a step function over a state record, specifying an imperative loop |
| `Insights` | `insights.dfy` | `generate_insights`: `value_counts`, counts and percentages, and `Counter.most_common(5)` per label |
| `Pipeline` | `pipeline.dfy` | the class `TwitterSentimentPipeline`, whose `results` field `RunAnalysis` updates and `ExportSummary` reads |

The pipeline's external dependencies are inputs to the model:

- The search API is modelled as a function from (request number, request) to response.
- The RoBERTa model, TextBlob and the HTTP POST are functions from text to outcome.
- Each reading of the clock is an input: a timestamp string per formatted reading, and the current time in seconds for the rate-limit wait.

A value of type `Outcome` is either a result or `Raised`. It models a Python exception.

## Model

| member | source | states |
|---|---|---|
| Regex.SubAt | DataPreprocessing.py:19-28 | one step of `re.sub`'s left-to-right scan: at the first alternative that matches, emit its replacement and resume after the match; otherwise copy the character |
| Regex.Sub | DataPreprocessing.py:19-28 | `re.sub(pattern, repl, s)`: the scan from the first position to the end |
| Regex.SubNoMatch | DataPreprocessing.py:19-28 | text in which no match is found anywhere is unchanged |
| Regex.SubNoStart | DataPreprocessing.py:19-28 | text in which no match can start is unchanged |
| Regex.SubSkip | DataPreprocessing.py:19-28 | a prefix in which no match can start is copied ahead of the scan of the rest |
| Regex.SubFirstMatch | DataPreprocessing.py:19-28 | a match at the start is replaced, and the scan goes on after it |
| Regex.SubAcrossSpace | DataPreprocessing.py:19-25 | a pattern that never matches across whitespace rewrites each side of a whitespace character separately and keeps the character |
| Regex.SubWords | DataPreprocessing.py:19-25 | one rewritten word per word, in order |
| Regex.SubJoin | DataPreprocessing.py:19-25 | on space-joined words such a pattern rewrites each word on its own |
| Regex.SubKeepsLowerCase | DataPreprocessing.py:16-25 | a rewrite with a lower-case replacement keeps lower-case text lower-case |
| Regex.SubKeepsNoSpace | DataPreprocessing.py:19-25 | a rewrite with a space-free replacement keeps space-free text space-free |
| Regex.SubKeepsWordChars | DataPreprocessing.py:19-25 | a rewrite with a replacement of word characters keeps text of word characters so |
| Regex.SubNonEmpty | DataPreprocessing.py:19-25 | with a non-empty replacement, non-empty text stays non-empty |
| Preprocessing.CleanTweet | DataPreprocessing.py:14-33 | `clean_tweet`: lower-case, then the URL, mention, hashtag and whitespace substitutions in that order, the strip, and the removal of `string.punctuation`; its properties are the `CleanTweet…` lemmas below |
| Preprocessing.PatternFacts | DataPreprocessing.py:19-28 | the URL, mention and hashtag patterns never match across a space; every replacement is lower-case; the URL, mention and hashtag replacements contain no space |
| Preprocessing.UrlStarts | DataPreprocessing.py:19 | a URL match can start exactly at `h` or `w` |
| Preprocessing.MentionStarts | DataPreprocessing.py:22 | a mention match can start exactly at `@` |
| Preprocessing.HashtagStarts | DataPreprocessing.py:25 | a hashtag match can start exactly at `#` |
| Preprocessing.HttpsAlternativeDead | DataPreprocessing.py:19 | whenever the `https\S+` alternative would match, `http\S+` already matches the same extent, so the pattern behaves as `http\S+\|www\S+` |
| Preprocessing.UrlMatchExtent | DataPreprocessing.py:19 | a URL match occurs iff the text reads `http` or `www` followed by a non-space character; the match then runs to the next whitespace or the end |
| Preprocessing.WhitespaceMatch | DataPreprocessing.py:28 | `\s+` matches iff the next character is whitespace, and then takes the whole run of whitespace |
| Preprocessing.UrlWordReplaced | DataPreprocessing.py:19 | a space-free word starting with `http` or `www` and longer than that prefix becomes `http` |
| Preprocessing.UrlMidWordReplaced | DataPreprocessing.py:19 | a URL inside a word, after characters that cannot start a match, is replaced from its start to the end of the word |
| Preprocessing.BareHttpKept | DataPreprocessing.py:19 | a bare `http` with nothing after it is not a URL and stays |
| Preprocessing.MentionReplaced | DataPreprocessing.py:22 | `@` followed by a maximal run of word characters becomes `@user`; the rest of the text is processed on |
| Preprocessing.LoneAtKept | DataPreprocessing.py:22 | an `@` not followed by a word character is kept |
| Preprocessing.HashtagReplaced | DataPreprocessing.py:25 | `#word` becomes `word` (the captured group), for a maximal run of word characters |
| Preprocessing.CollapseSingleSpaced | DataPreprocessing.py:28 | after `re.sub(r'\s+', ' ', …)` every whitespace character is a single space, followed by no whitespace |
| Preprocessing.CollapseKeeps | DataPreprocessing.py:28 | text that is already single-spaced is unchanged by the collapse |
| Preprocessing.CollapseIdempotent | DataPreprocessing.py:28 | collapsing twice is collapsing once |
| Preprocessing.TrimStart | DataPreprocessing.py:28 | the result is a suffix of the input; it starts with a non-space or is empty; everything removed was whitespace |
| Preprocessing.TrimEnd | DataPreprocessing.py:28 | the result is a prefix of the input; it ends with a non-space or is empty; everything removed was whitespace |
| Preprocessing.Strip | DataPreprocessing.py:28 | `str.strip()`: the result is the stretch of the input between its leading and its trailing whitespace; it neither starts nor ends with whitespace; every character in it comes from the input; every non-space character of the input stays |
| Preprocessing.StripKeeps | DataPreprocessing.py:28 | text already without leading or trailing whitespace is unchanged |
| Preprocessing.RemovePunct | DataPreprocessing.py:31 | deleting `string.punctuation` never lengthens the text |
| Preprocessing.RemovePunctChars | DataPreprocessing.py:31 | a character is in the result iff it is in the input and is not punctuation |
| Preprocessing.RemovePunctAppend | DataPreprocessing.py:31 | punctuation removal distributes over concatenation |
| Preprocessing.RemovePunctKeeps | DataPreprocessing.py:31 | text without punctuation is unchanged |
| Preprocessing.CleanTweetChars | DataPreprocessing.py:14-33 | a cleaned tweet holds no punctuation and no upper-case letter, so lower-casing it again changes nothing |
| Preprocessing.CleanTweetWords | DataPreprocessing.py:14-33 | for lower-case, single-spaced words, cleaning the joined text equals joining the words cleaned one by one (URL, then mention, then hashtag, then punctuation) |
| Preprocessing.UrlFreeKept | DataPreprocessing.py:19 | text in which no `h` is followed by `t` and no `w` by `w` holds no URL and is unchanged |
| Preprocessing.PlainWordKept | DataPreprocessing.py:14-33 | a lower-case word with no URL start is cleaned to itself |
| Preprocessing.MentionRewritten | DataPreprocessing.py:19-25 | `@name`, for a non-empty name of word characters, becomes `@user` after the URL, mention and hashtag rewrites |
| Preprocessing.AtUserUnpunctuated | DataPreprocessing.py:31 | punctuation removal turns `@user` into `user` |
| Preprocessing.MentionCleaned | DataPreprocessing.py:19-31 | a mention word `@name` is cleaned to `user` |
| Preprocessing.ExampleUrl | DataPreprocessing.py:19-31 | the word `http://x.co` is cleaned to `http` |
| Preprocessing.ExampleHttpKept | DataPreprocessing.py:19-31 | a bare `http` is cleaned to itself |
| Preprocessing.ExampleHashtag | DataPreprocessing.py:25-31 | the word `#great!!` is cleaned to `great` |
| Preprocessing.ExampleWords | DataPreprocessing.py:14-33 | the words of `check this out http://x.co @bob #great!!` are cleaned to `check`, `this`, `out`, `http`, `user`, `great` |
| Preprocessing.CleanTweetExample | DataPreprocessing.py:14-33 | `clean_tweet("check this out http://x.co @bob #great!!")` is `"check this out http user great"` |
| Preprocessing.CleanTweetNotTrimmed | DataPreprocessing.py:28-31 | `clean_tweet("hi !")` is `"hi "`: the strip happens before punctuation removal, so a trailing space can remain |
| Frame.KeepLong | DataPreprocessing.py:43 | the boolean-mask filter: the rows whose cleaned text has at least three words, in order |
| Frame.Kept | DataPreprocessing.py:43-46 | the filter followed by `drop_duplicates` on `cleaned_text` |
| Frame.PreprocessFrame | DataPreprocessing.py:35-48 | `preprocess_dataframe` on values: clean the column, filter, de-duplicate; its properties are the `Frame…` lemmas below |
| Frame.CleanColumn | DataPreprocessing.py:40 | one row per record, each holding the record and its cleaned text |
| Frame.LongIndices | DataPreprocessing.py:43 | the selected positions increase, and each has a row of at least three words |
| Frame.LongIndicesComplete | DataPreprocessing.py:43 | every row of at least three words is selected |
| Frame.FirstIndices | DataPreprocessing.py:46 | the selected positions increase, and each is the first occurrence of its cleaned text |
| Frame.FirstIndicesComplete | DataPreprocessing.py:46 | every first occurrence is selected |
| Frame.Dedup | DataPreprocessing.py:46 | `drop_duplicates(keep='first')` picks exactly the first occurrences, in order |
| Frame.DropDuplicates | DataPreprocessing.py:46 | the scan with a set of seen texts computes `Dedup` |
| Frame.PreprocessDataframe | DataPreprocessing.py:35-48 | the method (clean, filter short rows, scan for duplicates) computes `PreprocessFrame` |
| Frame.KeptRows | DataPreprocessing.py:43-46 | the kept rows are the rows at increasing positions of the cleaned frame |
| Frame.KeptLong | DataPreprocessing.py:43 | every kept row has at least three words |
| Frame.KeptDistinct | DataPreprocessing.py:46 | no two kept rows share a cleaned text |
| Frame.KeptFirst | DataPreprocessing.py:46 | no row before a kept row's position has the same cleaned text, so the first occurrence is kept |
| Frame.KeptComplete | DataPreprocessing.py:43-46 | every row of at least three words has its text among the kept rows |
| Frame.FrameShorter | DataPreprocessing.py:35-48 | preprocessing never adds rows |
| Frame.FrameRows | DataPreprocessing.py:35-48 | output row `k` is input record `j` (for increasing `j`) with `clean_tweet` of its text; `reset_index` renumbers them |
| Frame.FrameLong | DataPreprocessing.py:43 | every output text has at least three words |
| Frame.FrameDistinct | DataPreprocessing.py:46 | output texts are pairwise different |
| Frame.FrameFirst | DataPreprocessing.py:46 | no earlier record cleans to an output row's text |
| Frame.FrameComplete | DataPreprocessing.py:40-46 | every record whose cleaned text has at least three words has that text in the output |
| Sentiment.NewAnalyzer | SentimentAnalysis.py:12-27 | the labels are `negative, neutral, positive`; the API URL and headers exist iff the token is truthy |
| Sentiment.GetConfidence | main.py:51 | `r.get('confidence', default)`: the confidence when the result has that key, the default otherwise |
| Sentiment.RobertaToken | SentimentAnalysis.py:92-93 | the rewrite of one token: first the mention rule, then the `http` rule on its result |
| Sentiment.RobertaText | SentimentAnalysis.py:88-95 | `preprocess_for_roberta` on values: split on `" "`, rewrite each token, join with `" "` |
| Sentiment.RobertaTokens | SentimentAnalysis.py:91-94 | one rewritten token per input token, in order |
| Sentiment.PreprocessForRoberta | SentimentAnalysis.py:88-95 | the loop over `text.split(" ")` computes `RobertaText`, the re-joined rewritten tokens |
| Sentiment.RobertaTokenCases | SentimentAnalysis.py:92-93 | `@x` (with x non-empty) becomes `@user`; a lone `@` stays; a token starting with `http` becomes `http`; any other token stays |
| Sentiment.RobertaTokenFixed | SentimentAnalysis.py:92-93 | a token is unchanged iff it is not a longer mention other than `@user` and not an `http…` token other than `http` |
| Sentiment.RobertaTokenIdempotent | SentimentAnalysis.py:92-93 | rewriting a token twice is rewriting it once |
| Sentiment.RobertaTokenNoSpace | SentimentAnalysis.py:92-93 | a rewritten token contains no space |
| Sentiment.RobertaSplit | SentimentAnalysis.py:88-95 | splitting the rewritten text on spaces gives exactly the rewritten tokens, as many as the input had |
| Sentiment.RobertaUnchanged | SentimentAnalysis.py:88-95 | the text is unchanged iff every token is a fixed point of the rewrite |
| Sentiment.RobertaPlain | SentimentAnalysis.py:88-95 | text with no mention and no `http` token is unchanged |
| Sentiment.RobertaIdempotent | SentimentAnalysis.py:88-95 | `preprocess_for_roberta` is idempotent |
| Sentiment.TextBlobLabel | SentimentAnalysis.py:57-62 | the polarity rule: above 0.1 positive, below -0.1 negative, otherwise neutral |
| Sentiment.TextBlobLabelCases | SentimentAnalysis.py:57-62 | `positive` iff polarity > 0.1; `negative` iff polarity < -0.1; `neutral` iff it lies in [-0.1, 0.1]; always one of the labels |
| Sentiment.TextBlobLabelOrder | SentimentAnalysis.py:57-62 | the label is monotone in polarity, and negating the polarity mirrors the label |
| Sentiment.TextBlobAnalysis | SentimentAnalysis.py:53-68 | the result has keys `sentiment`, `polarity` and `subjectivity`, but no `confidence`; the label follows the polarity rule |
| Sentiment.ArgMax | SentimentAnalysis.py:43 | `np.argmax`: an index of a maximal score, the first such |
| Sentiment.Zip | SentimentAnalysis.py:50 | `zip` pairs labels and scores position by position, as long as the shorter list |
| Sentiment.RobertaAnalysis | SentimentAnalysis.py:39-51 | `analyze_with_roberta` on the model's scores: the label and score at `np.argmax`, and the label–score map; no scores, or an argmax past the labels, raises |
| Sentiment.RobertaSelection | SentimentAnalysis.py:29-51 | with three scores, the label and confidence are those of the first maximal score, and the score map lists the three labels in order |
| Sentiment.TopEntry | SentimentAnalysis.py:80 | `max(result, key=score)`: an entry of the list whose score no entry exceeds |
| Sentiment.ApiAnalysis | SentimentAnalysis.py:70-86 | `analyze_with_huggingface_api` given the outcome of the POST: the cases of the token, the status and the JSON body |
| Sentiment.ApiAnalysisCases | SentimentAnalysis.py:70-86 | no token, a non-200 status, an empty list or a non-list body give `None`; a failed POST, a body that is not JSON or a non-empty list with an entry lacking a score or label raises; otherwise the result is the first top-scoring entry, with its label lower-cased |
| Sentiment.ParseMethod | SentimentAnalysis.py:102-109 | TextBlob is chosen iff the name is `textblob`; the API iff it is `huggingface_api` |
| Sentiment.UnknownMethod | SentimentAnalysis.py:108-109 | any other name behaves as `roberta` |
| Sentiment.Dispatch | SentimentAnalysis.py:101-109 | the analysis the method selects, inside the `try` |
| Sentiment.AnalyzeItem | SentimentAnalysis.py:101-114 | one item of the batch: the selected analysis, or the neutral fallback when it raised |
| Sentiment.BatchResults | SentimentAnalysis.py:97-116 | `batch_analyze` on values: `AnalyzeItem` of each text, in order |
| Sentiment.BatchAnalyze | SentimentAnalysis.py:97-116 | the loop computes `BatchResults`, one result per text |
| Sentiment.BatchItems | SentimentAnalysis.py:97-116 | the batch has one entry per text, and entry `k` is the analysis of text `k` alone |
| Sentiment.AnalyzeItemCases | SentimentAnalysis.py:101-114 | an exception gives `{'sentiment': 'neutral', 'confidence': 0.0}`, in particular for a malformed API list; the API's `None` is kept; only the API path yields `None` |
| Sentiment.TextBlobItem | SentimentAnalysis.py:104-114 | under `textblob` every item is present, with a label from the three and no confidence; after a successful TextBlob call, the label follows the polarity rule |
| Collection.Consume | DataCollection.py:49-62 | the loop over one page: append and count each English tweet, stop once the count reaches the maximum |
| Collection.Step | DataCollection.py:41-81 | one pass of the `while` body: send a request of `min(100, max − collected)`, then handle a page, an empty page, a missing token, a rate limit or an error |
| Collection.Run | DataCollection.py:37-81 | the `while` loop: steps until stopped or the maximum is reached, for at most `fuel` requests |
| Collection.Wait | DataCollection.py:73-78 | the sleep is at least 5 s: 905 s without a reset header, reset − now + 5 when the reset is not past, and 5 s otherwise |
| Collection.TakePage | DataCollection.py:49-62 | the loop over one page computes `Consume`: English tweets are appended and counted, and the loop stops as soon as the count reaches the maximum |
| Collection.CollectTweets | DataCollection.py:30-84 | the outer loop returns the tweets of the specification `Run` from the initial state |
| Collection.EnglishRecordsAppend | DataCollection.py:49-59 | one more tweet adds its record iff its language is `en` |
| Collection.ConsumeKeeps | DataCollection.py:49-62 | a page keeps count == number of records <= maximum, and records == the English tweets seen |
| Collection.ConsumePrefix | DataCollection.py:49-62 | a page is consumed as a prefix; it stops early only when the maximum is reached |
| Collection.StepKeeps | DataCollection.py:37-81 | one request, in any of its outcomes, preserves the collection invariant |
| Collection.RunKeeps | DataCollection.py:37-81 | the whole loop preserves the invariant |
| Collection.CollectBounds | DataCollection.py:30-84 | never more tweets than asked for; every tweet is the record of an English tweet received; every `max_results` lies in 1..100; a non-positive maximum sends no request |
| Collection.EnglishRecordsFrom | DataCollection.py:49-59 | each collected record comes from an English tweet of the input |
| Collection.StopsAfter | DataCollection.py:48-81 | an error, an empty page or a missing `next_token` ends the collection after exactly that request; after an error or an empty page the tweets are those collected before it |
| Collection.RateLimitRetries | DataCollection.py:73-78 | a rate limit keeps the tweets, count and token, records the wait, and resends the same request |
| Collection.ConsumeAll | DataCollection.py:49-62 | a page of English tweets that fits under the maximum is taken whole |
| Collection.FullStep | DataCollection.py:41-67 | with full English pages, a request adds `min(100, max − collected)` tweets and stays active |
| Collection.FullRun | DataCollection.py:37-67 | with full English pages the loop collects exactly the maximum, with request sizes 100, 100, …, remainder |
| Collection.Collect205 | DataCollection.py:37-67 | asking for 205 tweets from full pages sends sizes 100, 100, 5 and returns 205 tweets |
| Insights.CountReport | Visualization_and_analysis.py:92-99 | the total and `sentiment_counts.get(label, 0)` for positive, neutral and negative |
| Insights.MostCommon | Visualization_and_analysis.py:110 | `Counter(words).most_common(n)`: the entries sorted by count descending, ties in first-occurrence order, cut to `n` |
| Insights.SectionFor | Visualization_and_analysis.py:106-110 | the top words of one label's texts, or nothing when no row has the label |
| Insights.Sections | Visualization_and_analysis.py:106-110 | the sections for positive, negative and neutral, in that order |
| Insights.Sentiments | Visualization_and_analysis.py:93 | the sentiment column, row by row |
| Insights.ValueCounts | Visualization_and_analysis.py:93 | the keys are exactly the labels that occur |
| Insights.CountOfValue | Visualization_and_analysis.py:93-99 | `sentiment_counts.get(v, 0)` is the number of rows labelled `v`; 0 for a label that does not occur |
| Insights.CountsSum | Visualization_and_analysis.py:93 | counts over distinct keys that cover all values add up to the number of values |
| Insights.ReportCounts | Visualization_and_analysis.py:92-99 | the reported positive, neutral and negative counts are the numbers of rows with those labels |
| Insights.ReportTotal | Visualization_and_analysis.py:92-99 | when every label is one of the three, the three counts add up to the total |
| Insights.Percent | Visualization_and_analysis.py:97-99 | a percentage is non-negative, and at most 100 when count <= total |
| Insights.PercentsAdd | Visualization_and_analysis.py:97-99 | three counts that add up to the total give percentages that add up to 100 |
| Insights.PercentsSum | Visualization_and_analysis.py:92-99 | on a non-empty frame with the three labels, the reported percentages add up to 100 |
| Insights.Distinct | Visualization_and_analysis.py:110 | the distinct words, in order of first occurrence, with the same members as the list |
| Insights.FirstIndex | Visualization_and_analysis.py:110 | the first position of a word |
| Insights.DistinctUnique | Visualization_and_analysis.py:110 | the distinct words hold no duplicates |
| Insights.DistinctOrder | Visualization_and_analysis.py:110 | distinct words are ordered by first occurrence |
| Insights.InsertElems | Visualization_and_analysis.py:110 | inserting an entry adds it to the multiset of entries |
| Insights.SortElems | Visualization_and_analysis.py:110 | sorting the counts is a permutation |
| Insights.SortSorted | Visualization_and_analysis.py:110 | the stable insertion sort orders by count descending, then by first occurrence |
| Insights.SortFacts | Visualization_and_analysis.py:110 | the sort both permutes and orders |
| Insights.MostCommonOrder | Visualization_and_analysis.py:110 | `most_common(n)` returns min(n, #distinct) entries; each is a word of the list with its true count; the words are distinct; counts do not increase; equal counts keep first-occurrence order |
| Insights.MostCommonTop | Visualization_and_analysis.py:110 | a word left out means `n` entries are listed and its count is at most the last entry's; on a tie, the last listed word occurs for the first time before the left-out word does |
| Insights.LabelTextsCount | Visualization_and_analysis.py:107-108 | the texts selected for a label are as many as its rows; the selection is empty iff the label does not occur |
| Insights.SectionPresent | Visualization_and_analysis.py:106-110 | a label gets a section iff some row has it |
| Insights.SectionTop | Visualization_and_analysis.py:109-110 | a section lists at most five words, each a token of that label's joined texts with its true count |
| Insights.SectionsOfHeadings | Visualization_and_analysis.py:106-110 | the sections follow the label order, skipping absent labels |
| Insights.SectionsFacts | Visualization_and_analysis.py:106-110 | sections appear in the order positive, negative, neutral, each only if that label occurs |
| Pipeline.Attach | main.py:50-51 | the two column assignments: each row with its result's sentiment and confidence; a length mismatch or a `None` result raises |
| Pipeline.Analysed | main.py:44-51 | the batch over the cleaned texts with `textblob`, attached to the rows |
| Pipeline.ResultsFileName | main.py:63-66 | `sentiment_analysis_<query without spaces><timestamp>.csv` |
| Pipeline.Summarize | main.py:80-85 | the summary: the row count, the label counts, the mean confidence and the `isoformat` timestamp |
| Pipeline.CleanedTexts | main.py:45 | the `cleaned_text` column as a list, row by row |
| Pipeline.AttachAligned | main.py:50-51 | attaching fails iff the lengths differ or some result is `None`; otherwise row `k` keeps its row and takes result `k`'s sentiment and its confidence (0 when absent) |
| Pipeline.TextBlobFrame | main.py:44-51 | with TextBlob the columns are always assigned: one analysed row per preprocessed row, each with one of the three labels and confidence 0 |
| Pipeline.RemoveSpaces | main.py:66 | `query.replace(' ', '')` leaves no space and never lengthens |
| Pipeline.RemoveSpacesKeeps | main.py:66 | every other character keeps its count; a query without spaces is unchanged |
| Pipeline.ResultsFileNameParts | main.py:66 | the CSV name is the prefix, the space-free query, the timestamp and `.csv`, each recoverable at its position |
| Pipeline.Confidences | main.py:83 | the `confidence` column, row by row |
| Pipeline.SummaryCounts | main.py:80-85 | `total_tweets` is the row count; the distribution holds exactly the labels that occur, each with its row count, and these add up to the total |
| Pipeline.TextBlobAverage | main.py:44-51 | after a TextBlob run of a non-empty frame the average confidence is 0 |
| Pipeline.TwitterSentimentPipeline.constructor | main.py:19-23 | the analyzer is built from the token, and `results` starts empty |
| Pipeline.TwitterSentimentPipeline.RunAnalysis | main.py:25-70 | no tweets: an empty frame, with `results` unchanged; otherwise `results` is set to the analysed frame; an empty frame then fails in `generate_insights`; otherwise the run returns the frame and, if asked, the CSV name |
| Pipeline.TwitterSentimentPipeline.ExportSummary | main.py:72-90 | nothing without results; otherwise the given name or `sentiment_summary_<strftime stamp>.json`, with the summary of `results` stamped by a second, `isoformat` reading of the clock |

## Left out

Collection (`DataCollection.py`):
- Collection.CollectTweets: the loop runs at most `fuel` requests. The source can loop forever, given endless rate limits or pages with no English tweet but a `next_token`.
- Collection.Wait: the source reads `time.time()` twice. The model uses the same current time for both reads.
- Collection.Wait: the source's `int(...)` truncates fractional seconds. The model takes whole-second times.
- The sleep itself is a no-op; only its length is recorded.
- The Tweepy client and credential setup (`DataCollection.py:1-28`) belong to the API and are not modelled.
- The API's own range rule for `max_results` (10–100) belongs to the API. The response oracle decides whether a small request succeeds.
- An exception inside the page loop, such as missing `public_metrics`, is not modelled. Only whole responses fail.
- The collected records become a list of rows. The `'text' not in tweets_df.columns` check of `main.py:32` fires only for an empty frame, which is already the empty case.

Preprocessing (`DataPreprocessing.py`):
- The emoji pattern (`DataPreprocessing.py:7-12`) is built but never used, so it is not modelled.
- Character classes cover ASCII only. `\w`, `\s`, `str.lower` and `str.split()` on other Unicode characters are not modelled.

Sentiment (`SentimentAnalysis.py`):
- The RoBERTa tokenizer and model, softmax and TextBlob's polarity are inputs. So is the HTTP POST and its JSON decoding.
- Sentiment.RobertaSelection: it assumes the model returns three scores, as the checkpoint does.
- The API result's label is lower-cased in ASCII only.

Insights and pipeline (`Visualization_and_analysis.py`, `main.py`):
- The printing in `generate_insights` is not modelled. Its average-confidence line (`Visualization_and_analysis.py:101-103`) prints only; the same mean is modelled in the summary.
- `plot_sentiment_distribution` and the other plots are not modelled, and neither is `app.py` (the web front end).
- Writing the CSV and JSON files is not modelled. The model computes the file names and the summary contents.
- `OUTPUT_DIR`, `os.makedirs` and `os.path.join` are not modelled, so the CSV name has no directory part.
- The timestamp strings are inputs. The two clock readings of `export_summary` are separate inputs; how they relate is not modelled.
- Pipeline.Summarize: pandas gives NaN as the mean of an empty column. The model gives `None`.
- Pipeline.Attach: a missing `confidence` is read as `0` (an int) in the source. The model reads it as `0.0`.
- Floating-point arithmetic is not modelled: scores, polarity, percentages and means are real numbers.
