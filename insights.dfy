/** The counting behind `SentimentVisualizer.generate_insights`: the
    per-label row counts of `value_counts()` and, for each label, the five
    most common whitespace tokens of its tweets as `Counter.most_common(5)`
    finds them. Printing and plotting are not modelled. */
module Insights {
  import opened Text
  import opened Frame

  /** A row of the analysed frame: the preprocessed row with its
      `sentiment` and `confidence` columns. */
  datatype AnalysedRow = AnalysedRow(row: Row, sentiment: string, confidence: real)

  /** The `sentiment` column. */
  function Sentiments(df: seq<AnalysedRow>): (r: seq<string>)
    ensures |r| == |df| && forall k :: 0 <= k < |df| ==> r[k] == df[k].sentiment
  {
    seq(|df|, k requires 0 <= k < |df| => df[k].sentiment)
  }

  // ---------------------------------------------------------------------
  // value_counts
  // ---------------------------------------------------------------------

  /** `value_counts()`: every value that occurs, with its number of rows. */
  function ValueCounts(values: seq<string>): (m: map<string, nat>)
    ensures forall v :: v in m <==> v in values
  {
    map v | v in values :: Count(values, v)
  }

  /** `counts.get(v, 0)`. */
  function CountOf<T>(m: map<T, nat>, v: T): nat {
    if v in m then m[v] else 0
  }

  /** What `get(v, 0)` reports is the number of occurrences, 0 for a value
      that never occurs. */
  lemma CountOfValue(values: seq<string>, v: string)
    ensures CountOf(ValueCounts(values), v) == Count(values, v)
    ensures v !in values ==> CountOf(ValueCounts(values), v) == 0
  {
  }

  /** The sum of the counts of `keys`. */
  function SumCounts<T(==)>(values: seq<T>, keys: seq<T>): nat
    decreases |keys|
  {
    if keys == [] then 0 else Count(values, keys[0]) + SumCounts(values, keys[1..])
  }

  predicate NoDuplicates<T(==)>(s: seq<T>) {
    forall i, j :: 0 <= i < j < |s| ==> s[i] != s[j]
  }

  lemma {:induction false} CountDistinct<T>(keys: seq<T>, v: T)
    requires NoDuplicates(keys) && v in keys
    ensures Count(keys, v) == 1
    decreases |keys|
  {
    if keys[0] == v {
      assert v !in keys[1..] by {
        forall k | 0 <= k < |keys[1..]| ensures keys[1..][k] != v {
          assert keys[1..][k] == keys[k + 1];
        }
      }
    } else {
      assert v in keys[1..];
      CountDistinct(keys[1..], v);
    }
  }

  lemma {:induction false} SumCountsCons<T>(v: T, rest: seq<T>, keys: seq<T>)
    ensures SumCounts([v] + rest, keys) == Count(keys, v) + SumCounts(rest, keys)
    decreases |keys|
  {
    if keys != [] {
      assert ([v] + rest)[1..] == rest;
      SumCountsCons(v, rest, keys[1..]);
    }
  }

  /** Counting over keys that cover every value once each adds up to the
      number of values: the per-label counts sum to the number of rows. */
  lemma {:induction false} CountsSum<T>(values: seq<T>, keys: seq<T>)
    requires NoDuplicates(keys)
    requires forall k :: 0 <= k < |values| ==> values[k] in keys
    ensures SumCounts(values, keys) == |values|
    decreases |values|
  {
    if values == [] {
      EmptyCounts(keys);
    } else {
      assert values == [values[0]] + values[1..];
      SumCountsCons(values[0], values[1..], keys);
      CountDistinct(keys, values[0]);
      CountsSum(values[1..], keys);
    }
  }

  lemma {:induction false} EmptyCounts<T>(keys: seq<T>)
    ensures SumCounts([], keys) == 0
    decreases |keys|
  {
    if keys != [] {
      EmptyCounts(keys[1..]);
    }
  }

  // ---------------------------------------------------------------------
  // The count lines
  // ---------------------------------------------------------------------

  /** The numbers printed first: the row count and the positive, neutral and
      negative counts. */
  datatype Report = Report(total: nat, positive: nat, neutral: nat, negative: nat)

  function CountReport(df: seq<AnalysedRow>): Report {
    var counts := ValueCounts(Sentiments(df));
    Report(|df|, CountOf(counts, "positive"), CountOf(counts, "neutral"), CountOf(counts, "negative"))
  }

  /** The label counts of the report are the numbers of rows with each
      label, 0 for a label no row carries. */
  lemma ReportCounts(df: seq<AnalysedRow>)
    ensures var r := CountReport(df);
            && r.positive == Count(Sentiments(df), "positive")
            && r.neutral == Count(Sentiments(df), "neutral")
            && r.negative == Count(Sentiments(df), "negative")
  {
    var s := Sentiments(df);
    CountOfValue(s, "positive");
    CountOfValue(s, "neutral");
    CountOfValue(s, "negative");
  }

  /** When every row carries one of the three labels, the label counts sum
      to the row count. */
  lemma ReportTotal(df: seq<AnalysedRow>)
    requires forall k :: 0 <= k < |df| ==> df[k].sentiment in ["positive", "neutral", "negative"]
    ensures CountReport(df).positive + CountReport(df).neutral + CountReport(df).negative == CountReport(df).total
  {
    var keys := ["positive", "neutral", "negative"];
    ReportCounts(df);
    CountsSum(Sentiments(df), keys);
    assert keys[1..][1..][1..] == [];
  }

  /** `count / total_tweets * 100`; there is no guard, so an empty frame
      divides by zero. */
  function Percent(count: nat, total: nat): (p: real)
    requires total > 0
    ensures 0.0 <= p
    ensures count <= total ==> p <= 100.0
  {
    count as real / total as real * 100.0
  }

  lemma PercentsAdd(a: nat, b: nat, c: nat, t: nat)
    requires t > 0 && a + b + c == t
    ensures Percent(a, t) + Percent(b, t) + Percent(c, t) == 100.0
  {
    var tr := t as real;
    var x, y, z := a as real / tr, b as real / tr, c as real / tr;
    calc {
      (x + y + z) * tr;
      x * tr + y * tr + z * tr;
      a as real + b as real + c as real;
      tr;
    }
  }

  /** When every row carries one of the three labels, the three printed
      percentages add up to 100. */
  lemma PercentsSum(df: seq<AnalysedRow>)
    requires |df| > 0
    requires forall k :: 0 <= k < |df| ==> df[k].sentiment in ["positive", "neutral", "negative"]
    ensures var r := CountReport(df);
            Percent(r.positive, r.total) + Percent(r.neutral, r.total) + Percent(r.negative, r.total) == 100.0
  {
    ReportTotal(df);
    var r := CountReport(df);
    PercentsAdd(r.positive, r.neutral, r.negative, r.total);
  }

  // ---------------------------------------------------------------------
  // Counter(...).most_common(n)
  // ---------------------------------------------------------------------

  /** The values of `s` in first-seen order, each once: the key order of a
      `Counter`. */
  function Distinct(s: seq<string>): (r: seq<string>)
    ensures forall x :: x in r <==> x in s
    decreases |s|
  {
    if s == [] then []
    else
      var init := Distinct(s[..|s| - 1]);
      if s[|s| - 1] in init then init else init + [s[|s| - 1]]
  }

  /** The position of the first occurrence of `x` in `s`. */
  function FirstIndex(s: seq<string>, x: string): (n: nat)
    requires x in s
    ensures n < |s| && s[n] == x && x !in s[..n]
    decreases |s|
  {
    if x in s[..|s| - 1] then FirstIndex(s[..|s| - 1], x) else |s| - 1
  }

  /** No value repeats. */
  lemma {:induction false} DistinctUnique(s: seq<string>)
    ensures NoDuplicates(Distinct(s))
    decreases |s|
  {
    if s != [] {
      DistinctUnique(s[..|s| - 1]);
    }
  }

  /** The values come in the order of their first occurrences. */
  lemma {:induction false} DistinctOrder(s: seq<string>)
    ensures forall i, j :: 0 <= i < j < |Distinct(s)| ==> FirstIndex(s, Distinct(s)[i]) < FirstIndex(s, Distinct(s)[j])
    decreases |s|
  {
    if s != [] {
      var init := s[..|s| - 1];
      var last := s[|s| - 1];
      DistinctOrder(init);
      var d := Distinct(init);
      forall x | x in init ensures x in s && FirstIndex(s, x) == FirstIndex(init, x) {
        assert x in s[..|s| - 1];
      }
      if last !in d {
        forall i | 0 <= i < |d| ensures d[i] in s && FirstIndex(s, d[i]) < FirstIndex(s, last) {
          assert d[i] in d;
          assert d[i] in init;
        }
      }
    }
  }

  /** A (word, count) pair of `most_common`. */
  datatype WordCount = WordCount(word: string, count: nat)

  /** A distinct word with its count and its rank in first-seen order. */
  datatype Entry = Entry(word: string, count: nat, rank: nat)

  function Entries(words: seq<string>): (es: seq<Entry>)
    ensures |es| == |Distinct(words)|
  {
    var d := Distinct(words);
    seq(|d|, k requires 0 <= k < |d| => Entry(d[k], Count(words, d[k]), k))
  }

  /** The order of `most_common`: higher count first, ties in first-seen
      order. */
  predicate Before(a: Entry, b: Entry) {
    a.count > b.count || (a.count == b.count && a.rank < b.rank)
  }

  predicate Sorted(s: seq<Entry>) {
    forall i, j :: 0 <= i < j < |s| ==> Before(s[i], s[j])
  }

  /** Insert after every entry counted at least as often: the step of a
      stable sort by decreasing count. */
  function Insert(x: Entry, s: seq<Entry>): (r: seq<Entry>)
    ensures |r| == |s| + 1
    decreases |s|
  {
    if s == [] then [x]
    else if s[0].count >= x.count then [s[0]] + Insert(x, s[1..])
    else [x] + s
  }

  /** A stable sort by decreasing count. */
  function SortEntries(es: seq<Entry>): (r: seq<Entry>)
    ensures |r| == |es|
    decreases |es|
  {
    if es == [] then [] else Insert(es[|es| - 1], SortEntries(es[..|es| - 1]))
  }

  lemma SortedTail(s: seq<Entry>)
    requires Sorted(s) && s != []
    ensures Sorted(s[1..])
    ensures forall k :: 0 <= k < |s[1..]| ==> Before(s[0], s[1..][k])
  {
    var t := s[1..];
    forall i, j | 0 <= i < j < |t| ensures Before(t[i], t[j]) {
      assert t[i] == s[i + 1] && t[j] == s[j + 1];
    }
    forall k | 0 <= k < |t| ensures Before(s[0], t[k]) {
      assert t[k] == s[k + 1];
    }
  }

  lemma SortedCons(a: Entry, t: seq<Entry>)
    requires Sorted(t)
    requires forall k :: 0 <= k < |t| ==> Before(a, t[k])
    ensures Sorted([a] + t)
  {
    var r := [a] + t;
    forall i, j | 0 <= i < j < |r| ensures Before(r[i], r[j]) {
      assert r[j] == t[j - 1];
      if i > 0 {
        assert r[i] == t[i - 1];
      }
    }
  }

  lemma {:induction false} InsertElems(x: Entry, s: seq<Entry>)
    ensures multiset(Insert(x, s)) == multiset(s) + multiset{x}
    decreases |s|
  {
    if s != [] && s[0].count >= x.count {
      InsertElems(x, s[1..]);
      assert s == [s[0]] + s[1..];
    }
  }

  lemma {:induction false} InsertSorted(x: Entry, s: seq<Entry>)
    requires Sorted(s)
    requires forall k :: 0 <= k < |s| ==> s[k].rank < x.rank
    ensures Sorted(Insert(x, s))
    decreases |s|
  {
    if s == [] {
    } else if s[0].count >= x.count {
      var tail := s[1..];
      SortedTail(s);
      InsertSorted(x, tail);
      InsertElems(x, tail);
      var t := Insert(x, tail);
      forall j | 0 <= j < |t| ensures Before(s[0], t[j]) {
        assert t[j] in multiset(tail) + multiset{x};
        if t[j] != x {
          var m :| 0 <= m < |tail| && tail[m] == t[j];
        }
      }
      SortedCons(s[0], t);
    } else {
      forall k | 0 <= k < |s| ensures Before(x, s[k]) {
        if k > 0 {
          assert Before(s[0], s[k]);
        }
      }
      SortedCons(x, s);
    }
  }

  lemma {:induction false} SortElems(es: seq<Entry>)
    ensures multiset(SortEntries(es)) == multiset(es)
    decreases |es|
  {
    if es != [] {
      var init := es[..|es| - 1];
      SortElems(init);
      InsertElems(es[|es| - 1], SortEntries(init));
      assert es == init + [es[|es| - 1]];
    }
  }

  /** Sorting entries listed in increasing rank orders them by `Before`. */
  lemma {:induction false} SortSorted(es: seq<Entry>)
    requires forall i, j :: 0 <= i < j < |es| ==> es[i].rank < es[j].rank
    ensures Sorted(SortEntries(es))
    decreases |es|
  {
    if es != [] {
      var init := es[..|es| - 1];
      var last := es[|es| - 1];
      SortSorted(init);
      SortElems(init);
      var s := SortEntries(init);
      forall k | 0 <= k < |s| ensures s[k].rank < last.rank {
        assert s[k] in multiset(init);
        var m :| 0 <= m < |init| && init[m] == s[k];
      }
      InsertSorted(last, s);
    }
  }

  /** Sorting keeps every entry and orders them by `Before`. */
  lemma SortFacts(es: seq<Entry>)
    requires forall i, j :: 0 <= i < j < |es| ==> es[i].rank < es[j].rank
    ensures Sorted(SortEntries(es))
    ensures multiset(SortEntries(es)) == multiset(es)
  {
    SortSorted(es);
    SortElems(es);
  }

  /** `Counter(words).most_common(n)`. */
  function MostCommon(words: seq<string>, n: nat): seq<WordCount> {
    var s := SortEntries(Entries(words));
    var top := s[..if n <= |s| then n else |s|];
    seq(|top|, k requires 0 <= k < |top| => WordCount(top[k].word, top[k].count))
  }

  /** Every sorted entry is the entry of a distinct word. */
  lemma SortedEntry(words: seq<string>, p: nat)
    requires p < |SortEntries(Entries(words))|
    ensures var e := SortEntries(Entries(words))[p];
            && e.rank < |Distinct(words)| && e.word == Distinct(words)[e.rank]
            && e.word in words && e.count == Count(words, e.word)
  {
    var es := Entries(words);
    SortFacts(es);
    var e := SortEntries(es)[p];
    assert e in multiset(es);
    var m :| 0 <= m < |es| && es[m] == e;
    assert Distinct(words)[m] in Distinct(words);
  }

  lemma SortedPair(words: seq<string>, i: nat, j: nat)
    requires i < j < |SortEntries(Entries(words))|
    ensures Before(SortEntries(Entries(words))[i], SortEntries(Entries(words))[j])
  {
    SortFacts(Entries(words));
  }

  /** Earlier rank, earlier first occurrence. */
  lemma RankOrder(words: seq<string>, a: Entry, b: Entry)
    requires a.rank < b.rank < |Distinct(words)|
    requires a.word == Distinct(words)[a.rank] && b.word == Distinct(words)[b.rank]
    requires a.word in words && b.word in words
    ensures FirstIndex(words, a.word) < FirstIndex(words, b.word)
  {
    DistinctOrder(words);
  }

  /** Every word has its entry somewhere in the sorted list. */
  lemma Locate(words: seq<string>, w: string) returns (p: nat)
    requires w in words
    ensures p < |SortEntries(Entries(words))| && SortEntries(Entries(words))[p].word == w
  {
    var es := Entries(words);
    SortFacts(es);
    var d := Distinct(words);
    var i :| 0 <= i < |d| && d[i] == w;
    assert es[i] in multiset(SortEntries(es));
    p :| 0 <= p < |SortEntries(es)| && SortEntries(es)[p] == es[i];
  }

  lemma MostCommonAt(words: seq<string>, n: nat, k: nat)
    ensures var s := SortEntries(Entries(words));
            && |MostCommon(words, n)| == (if n <= |s| then n else |s|)
            && (k < |MostCommon(words, n)| ==> MostCommon(words, n)[k] == WordCount(s[k].word, s[k].count))
  {
  }

  /** At most `n` entries, the most frequent first; equal counts in
      first-seen order; each count is the word's number of occurrences. */
  lemma MostCommonOrder(words: seq<string>, n: nat)
    ensures var r := MostCommon(words, n);
            && |r| == (if n <= |Distinct(words)| then n else |Distinct(words)|)
            && (forall k :: 0 <= k < |r| ==> r[k].word in words && r[k].count == Count(words, r[k].word))
            && (forall i, j :: 0 <= i < j < |r| ==>
                  && r[i].word != r[j].word
                  && r[i].count >= r[j].count
                  && (r[i].count == r[j].count ==> FirstIndex(words, r[i].word) < FirstIndex(words, r[j].word)))
  {
    var r := MostCommon(words, n);
    MostCommonAt(words, n, 0);
    forall k | 0 <= k < |r| ensures r[k].word in words && r[k].count == Count(words, r[k].word) {
      MostCommonAt(words, n, k);
      SortedEntry(words, k);
    }
    forall i, j | 0 <= i < j < |r|
      ensures && r[i].word != r[j].word
              && r[i].count >= r[j].count
              && (r[i].count == r[j].count ==> FirstIndex(words, r[i].word) < FirstIndex(words, r[j].word))
    {
      var s := SortEntries(Entries(words));
      MostCommonAt(words, n, i);
      MostCommonAt(words, n, j);
      SortedEntry(words, i);
      SortedEntry(words, j);
      SortedPair(words, i, j);
      if s[i].rank < s[j].rank {
        RankOrder(words, s[i], s[j]);
      }
    }
  }

  /** No word left out is more frequent than the last one listed, and one
      as frequent was first seen later; a word is left out only when `n`
      entries are listed. */
  lemma MostCommonTop(words: seq<string>, n: nat, w: string)
    requires n > 0 && w in words
    requires forall k :: 0 <= k < |MostCommon(words, n)| ==> MostCommon(words, n)[k].word != w
    ensures var r := MostCommon(words, n);
            && |r| == n
            && r[n - 1].word in words
            && Count(words, w) <= r[n - 1].count
            && (Count(words, w) == r[n - 1].count ==> FirstIndex(words, r[n - 1].word) < FirstIndex(words, w))
  {
    var s := SortEntries(Entries(words));
    var p := Locate(words, w);
    MostCommonAt(words, n, p);
    MostCommonAt(words, n, n - 1);
    SortedEntry(words, n - 1);
    SortedEntry(words, p);
    SortedPair(words, n - 1, p);
    if s[n - 1].rank < s[p].rank {
      RankOrder(words, s[n - 1], s[p]);
    }
  }

  // ---------------------------------------------------------------------
  // Top words per label
  // ---------------------------------------------------------------------

  /** `df[df['sentiment'] == name]['cleaned_text']`. */
  function LabelTexts(df: seq<AnalysedRow>, name: string): (r: seq<string>)
    decreases |df|
  {
    if df == [] then []
    else (if df[0].sentiment == name then [df[0].row.cleanedText] else []) + LabelTexts(df[1..], name)
  }

  /** A label has as many texts as rows carry it, so it has none exactly
      when no row carries it. */
  lemma {:induction false} LabelTextsCount(df: seq<AnalysedRow>, name: string)
    ensures |LabelTexts(df, name)| == Count(Sentiments(df), name)
    ensures LabelTexts(df, name) == [] <==> name !in Sentiments(df)
    decreases |df|
  {
    if df != [] {
      assert Sentiments(df)[1..] == Sentiments(df[1..]);
      LabelTextsCount(df[1..], name);
    }
  }

  /** `' '.join(texts).split()`. */
  function Tokens(texts: seq<string>): seq<string> {
    SplitWs(Join(" ", texts))
  }

  /** A label's heading with its top words. */
  datatype Section = Section(heading: string, top: seq<WordCount>)

  /** The section of one label: none when no tweet carries it. */
  function SectionFor(df: seq<AnalysedRow>, name: string): seq<Section> {
    var texts := LabelTexts(df, name);
    if texts == [] then [] else [Section(name, MostCommon(Tokens(texts), 5))]
  }

  /** The order the labels are visited in. */
  const VISIT_ORDER: seq<string> := ["positive", "negative", "neutral"]

  /** The sections of `labels`, in turn. */
  function SectionsOf(df: seq<AnalysedRow>, labels: seq<string>): seq<Section>
    decreases |labels|
  {
    if labels == [] then [] else SectionFor(df, labels[0]) + SectionsOf(df, labels[1..])
  }

  /** The top-words sections, for positive, negative and neutral in turn. */
  function Sections(df: seq<AnalysedRow>): seq<Section> {
    SectionsOf(df, VISIT_ORDER)
  }

  function Headings(secs: seq<Section>): (r: seq<string>)
    ensures |r| == |secs| && forall k :: 0 <= k < |secs| ==> r[k] == secs[k].heading
  {
    seq(|secs|, k requires 0 <= k < |secs| => secs[k].heading)
  }

  /** The labels of `labels` that occur in `present`, in order. */
  function Present(labels: seq<string>, present: seq<string>): seq<string>
    decreases |labels|
  {
    if labels == [] then []
    else (if labels[0] in present then [labels[0]] else []) + Present(labels[1..], present)
  }

  /** A label has a section exactly when some row carries it, headed by
      the label. */
  lemma SectionPresent(df: seq<AnalysedRow>, name: string)
    ensures Headings(SectionFor(df, name)) == if name in Sentiments(df) then [name] else []
  {
    LabelTextsCount(df, name);
  }

  lemma HeadingsAppend(a: seq<Section>, b: seq<Section>)
    ensures Headings(a + b) == Headings(a) + Headings(b)
  {
  }

  /** A section lists at most five words, each counted over the tokens of
      that label's tweets. */
  lemma SectionTop(df: seq<AnalysedRow>, name: string)
    ensures var sec := SectionFor(df, name);
            sec != [] ==>
              var tokens := Tokens(LabelTexts(df, name));
              && |sec[0].top| <= 5
              && forall k :: 0 <= k < |sec[0].top| ==>
                   sec[0].top[k].word in tokens && sec[0].top[k].count == Count(tokens, sec[0].top[k].word)
  {
    MostCommonOrder(Tokens(LabelTexts(df, name)), 5);
  }

  /** The sections are those of the labels some row carries, in the order
      given. */
  lemma {:induction false} SectionsOfHeadings(df: seq<AnalysedRow>, labels: seq<string>)
    ensures Headings(SectionsOf(df, labels)) == Present(labels, Sentiments(df))
    decreases |labels|
  {
    if labels != [] {
      var a, b := SectionFor(df, labels[0]), SectionsOf(df, labels[1..]);
      SectionPresent(df, labels[0]);
      SectionsOfHeadings(df, labels[1..]);
      HeadingsAppend(a, b);
      assert SectionsOf(df, labels) == a + b;
    }
  }

  /** The top-words sections are, in the order positive, negative, neutral,
      those of the labels some row carries. */
  lemma SectionsFacts(df: seq<AnalysedRow>)
    ensures Headings(Sections(df)) == Present(VISIT_ORDER, Sentiments(df))
  {
    SectionsOfHeadings(df, VISIT_ORDER);
  }
}
