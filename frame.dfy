/** `TwitterPreprocessor.preprocess_dataframe`: clean every text, keep the
    rows with at least three tokens, then keep the first row of each cleaned
    text. A frame is a sequence of rows; the input is a value, so the copy
    the source takes before assigning the new column is implicit. */
module Frame {
  import opened Text
  import opened Collection
  import opened Preprocessing

  /** A row of the processed frame: the collected fields and `cleaned_text`. */
  datatype Row = Row(record: TweetRecord, cleanedText: string)

  /** `processed_df['cleaned_text'] = processed_df['text'].apply(clean_tweet)`. */
  function CleanColumn(df: seq<TweetRecord>): (rows: seq<Row>)
    ensures |rows| == |df|
    ensures forall k :: 0 <= k < |df| ==> rows[k] == Row(df[k], CleanTweet(df[k].text))
  {
    if df == [] then [] else [Row(df[0], CleanTweet(df[0].text))] + CleanColumn(df[1..])
  }

  /** The mask `cleaned_text.str.split().str.len() >= 3`. */
  predicate Long(r: Row) {
    NumTokens(r.cleanedText) >= 3
  }

  /** The rows at positions `idx`, in that order. */
  function Pick(rows: seq<Row>, idx: seq<nat>): (r: seq<Row>)
    requires forall k :: 0 <= k < |idx| ==> idx[k] < |rows|
    ensures |r| == |idx|
    ensures forall k :: 0 <= k < |idx| ==> r[k] == rows[idx[k]]
  {
    seq(|idx|, k requires 0 <= k < |idx| => rows[idx[k]])
  }

  predicate Increasing(idx: seq<nat>) {
    forall k, l :: 0 <= k < l < |idx| ==> idx[k] < idx[l]
  }

  /** The positions below `n` whose row passes the token-count mask, in order. */
  function LongIndices(rows: seq<Row>, n: nat): (idx: seq<nat>)
    requires n <= |rows|
    ensures |idx| <= n && Increasing(idx)
    ensures forall k :: 0 <= k < |idx| ==> idx[k] < n && Long(rows[idx[k]])
  {
    if n == 0 then [] else LongIndices(rows, n - 1) + (if Long(rows[n - 1]) then [n - 1] else [])
  }

  lemma {:induction false} LongIndicesComplete(rows: seq<Row>, n: nat, j: nat)
    requires j < n <= |rows| && Long(rows[j])
    ensures j in LongIndices(rows, n)
  {
    var tail := if Long(rows[n - 1]) then [n - 1] else [];
    assert LongIndices(rows, n) == LongIndices(rows, n - 1) + tail;
    if j < n - 1 {
      LongIndicesComplete(rows, n - 1, j);
    } else {
      assert tail == [j];
    }
  }

  /** Boolean-mask selection: the rows with at least three tokens, in order. */
  function KeepLong(rows: seq<Row>): seq<Row> {
    Pick(rows, LongIndices(rows, |rows|))
  }

  /** No earlier row has the same `cleaned_text`. */
  predicate IsFirst(rows: seq<Row>, j: nat)
    requires j < |rows|
  {
    forall i :: 0 <= i < j ==> rows[i].cleanedText != rows[j].cleanedText
  }

  /** The positions below `n` that hold the first row of their text, in order. */
  function FirstIndices(rows: seq<Row>, n: nat): (idx: seq<nat>)
    requires n <= |rows|
    ensures |idx| <= n && Increasing(idx)
    ensures forall k :: 0 <= k < |idx| ==> idx[k] < n && IsFirst(rows, idx[k])
  {
    if n == 0 then [] else FirstIndices(rows, n - 1) + (if IsFirst(rows, n - 1) then [n - 1] else [])
  }

  lemma {:induction false} FirstIndicesComplete(rows: seq<Row>, n: nat, j: nat)
    requires j < n <= |rows| && IsFirst(rows, j)
    ensures j in FirstIndices(rows, n)
  {
    if j < n - 1 {
      FirstIndicesComplete(rows, n - 1, j);
    }
  }

  /** The rows below `n` that are the first of their text, in order. */
  function FirstRows(rows: seq<Row>, n: nat): seq<Row>
    requires n <= |rows|
  {
    if n == 0 then [] else FirstRows(rows, n - 1) + (if IsFirst(rows, n - 1) then [rows[n - 1]] else [])
  }

  lemma {:induction false} FirstRowsPick(rows: seq<Row>, n: nat)
    requires n <= |rows|
    ensures FirstRows(rows, n) == Pick(rows, FirstIndices(rows, n))
  {
    if n > 0 {
      FirstRowsPick(rows, n - 1);
      var x := FirstIndices(rows, n - 1);
      if IsFirst(rows, n - 1) {
        PickNext(rows, x, n - 1);
      } else {
        assert FirstIndices(rows, n) == x;
      }
    }
  }

  /** `drop_duplicates(subset=['cleaned_text'])` with the default `keep='first'`. */
  function Dedup(rows: seq<Row>): (r: seq<Row>)
    ensures r == Pick(rows, FirstIndices(rows, |rows|))
  {
    FirstRowsPick(rows, |rows|);
    FirstRows(rows, |rows|)
  }

  /** The texts of the rows before position `i`. */
  function TextsBefore(rows: seq<Row>, i: nat): set<string>
    requires i <= |rows|
  {
    set j | 0 <= j < i :: rows[j].cleanedText
  }

  lemma TextsBeforeNext(rows: seq<Row>, i: nat)
    requires i < |rows|
    ensures TextsBefore(rows, i + 1) == TextsBefore(rows, i) + {rows[i].cleanedText}
    ensures IsFirst(rows, i) <==> rows[i].cleanedText !in TextsBefore(rows, i)
  {
    if !IsFirst(rows, i) {
      var j :| 0 <= j < i && rows[j].cleanedText == rows[i].cleanedText;
      assert rows[j].cleanedText in TextsBefore(rows, i);
    }
  }

  lemma PickNext(rows: seq<Row>, idx: seq<nat>, i: nat)
    requires i < |rows| && forall k :: 0 <= k < |idx| ==> idx[k] < |rows|
    ensures Pick(rows, idx + [i]) == Pick(rows, idx) + [rows[i]]
  {
  }

  /** The de-duplication as a scan with a set of the texts seen so far. */
  method DropDuplicates(rows: seq<Row>) returns (out: seq<Row>)
    ensures out == Dedup(rows)
  {
    var seen: set<string> := {};
    out := [];
    var i := 0;
    while i < |rows|
      invariant i <= |rows|
      invariant seen == TextsBefore(rows, i)
      invariant out == FirstRows(rows, i)
    {
      TextsBeforeNext(rows, i);
      if rows[i].cleanedText !in seen {
        out := out + [rows[i]];
        seen := seen + {rows[i].cleanedText};
      }
      i := i + 1;
    }
  }

  /** Filtering then de-duplicating. */
  function Kept(rows: seq<Row>): seq<Row> {
    Dedup(KeepLong(rows))
  }

  /** The whole of `preprocess_dataframe` on values. The final
      `reset_index(drop=True)` renumbers the rows 0, 1, ..., which positions
      in a sequence already are. */
  function PreprocessFrame(df: seq<TweetRecord>): seq<Row> {
    Kept(CleanColumn(df))
  }

  method PreprocessDataframe(df: seq<TweetRecord>) returns (out: seq<Row>)
    ensures out == PreprocessFrame(df)
  {
    var processed := CleanColumn(df);
    processed := KeepLong(processed);
    out := DropDuplicates(processed);
  }

  // ---------------------------------------------------------------------
  // What the output is, in terms of the rows it came from
  // ---------------------------------------------------------------------

  /** The positions of the kept rows among the cleaned rows. */
  function KeptIndices(rows: seq<Row>): (idx: seq<nat>)
    ensures |idx| == |Kept(rows)|
  {
    var a := LongIndices(rows, |rows|);
    var b := FirstIndices(KeepLong(rows), |a|);
    seq(|b|, k requires 0 <= k < |b| => a[b[k]])
  }

  /** The first row of a text is never after any row with that text. */
  lemma {:induction false} FirstOccurrence(rows: seq<Row>, j: nat)
    requires j < |rows|
    ensures exists i :: 0 <= i <= j && IsFirst(rows, i) && rows[i].cleanedText == rows[j].cleanedText
    decreases j
  {
    if !IsFirst(rows, j) {
      var i :| 0 <= i < j && rows[i].cleanedText == rows[j].cleanedText;
      FirstOccurrence(rows, i);
    }
  }

  /** Kept rows are rows of the input, in input order. */
  lemma KeptRows(rows: seq<Row>)
    ensures Increasing(KeptIndices(rows))
    ensures forall k :: 0 <= k < |KeptIndices(rows)| ==>
              KeptIndices(rows)[k] < |rows| && Kept(rows)[k] == rows[KeptIndices(rows)[k]]
  {
    var a := LongIndices(rows, |rows|);
    var long := KeepLong(rows);
    var b := FirstIndices(long, |a|);
    var idx := KeptIndices(rows);
    forall k | 0 <= k < |idx|
      ensures idx[k] < |rows| && Kept(rows)[k] == rows[idx[k]]
    {
      assert idx[k] == a[b[k]];
      assert Kept(rows)[k] == long[b[k]];
    }
  }

  /** Every kept row has at least three whitespace-separated tokens. */
  lemma KeptLong(rows: seq<Row>)
    ensures forall k :: 0 <= k < |Kept(rows)| ==> NumTokens(Kept(rows)[k].cleanedText) >= 3
  {
    var long := KeepLong(rows);
    var b := FirstIndices(long, |long|);
    forall k | 0 <= k < |b|
      ensures Long(Kept(rows)[k])
    {
      assert Kept(rows)[k] == long[b[k]];
    }
  }

  /** No two kept rows share their cleaned text. */
  lemma KeptDistinct(rows: seq<Row>)
    ensures forall k, l :: 0 <= k < l < |Kept(rows)| ==> Kept(rows)[k].cleanedText != Kept(rows)[l].cleanedText
  {
    var long := KeepLong(rows);
    var b := FirstIndices(long, |long|);
    forall k, l | 0 <= k < l < |b|
      ensures long[b[k]].cleanedText != long[b[l]].cleanedText
    {
      assert IsFirst(long, b[l]);
    }
  }

  /** Equal cleaned texts have equal token counts, so a kept row is the
      first row of the whole input with its text. */
  lemma KeptFirst(rows: seq<Row>)
    ensures forall k, j :: 0 <= k < |KeptIndices(rows)| && 0 <= j < KeptIndices(rows)[k] ==>
              rows[j].cleanedText != Kept(rows)[k].cleanedText
  {
    var a := LongIndices(rows, |rows|);
    var long := KeepLong(rows);
    var b := FirstIndices(long, |a|);
    var idx := KeptIndices(rows);
    KeptRows(rows);
    forall k, j | 0 <= k < |idx| && 0 <= j < idx[k]
      ensures rows[j].cleanedText != rows[idx[k]].cleanedText
    {
      assert idx[k] == a[b[k]];
      if Long(rows[j]) {
        LongIndicesComplete(rows, |rows|, j);
        var i :| 0 <= i < |a| && a[i] == j;
        assert i < b[k] && long[i] == rows[j];
        assert IsFirst(long, b[k]);
      }
    }
  }

  /** Every cleaned text with at least three tokens is kept. */
  lemma KeptComplete(rows: seq<Row>)
    ensures forall j :: 0 <= j < |rows| && NumTokens(rows[j].cleanedText) >= 3 ==>
              exists k :: 0 <= k < |Kept(rows)| && Kept(rows)[k].cleanedText == rows[j].cleanedText
  {
    var a := LongIndices(rows, |rows|);
    var long := KeepLong(rows);
    var b := FirstIndices(long, |a|);
    var out := Kept(rows);
    forall j | 0 <= j < |rows| && NumTokens(rows[j].cleanedText) >= 3
      ensures exists k :: 0 <= k < |out| && out[k].cleanedText == rows[j].cleanedText
    {
      LongIndicesComplete(rows, |rows|, j);
      var i :| 0 <= i < |a| && a[i] == j;
      FirstOccurrence(long, i);
      var m :| 0 <= m <= i && IsFirst(long, m) && long[m].cleanedText == long[i].cleanedText;
      FirstIndicesComplete(long, |a|, m);
      var k :| 0 <= k < |b| && b[k] == m;
      assert out[k] == long[m];
    }
  }

  // ---------------------------------------------------------------------
  // The same, in terms of the input frame
  // ---------------------------------------------------------------------

  /** The output is never longer than the input. */
  lemma FrameShorter(df: seq<TweetRecord>)
    ensures |PreprocessFrame(df)| <= |df|
  {
  }

  /** Each output row is an input row, in input order, with `cleaned_text`
      its cleaned `text`. */
  lemma FrameRows(df: seq<TweetRecord>)
    ensures Increasing(KeptIndices(CleanColumn(df)))
    ensures forall k :: 0 <= k < |PreprocessFrame(df)| ==>
              var j := KeptIndices(CleanColumn(df))[k];
              j < |df| && PreprocessFrame(df)[k] == Row(df[j], CleanTweet(df[j].text))
  {
    var rows := CleanColumn(df);
    KeptRows(rows);
    forall k | 0 <= k < |Kept(rows)|
      ensures KeptIndices(rows)[k] < |df| && Kept(rows)[k] == Row(df[KeptIndices(rows)[k]], CleanTweet(df[KeptIndices(rows)[k]].text))
    {
      var j := KeptIndices(rows)[k];
      assert Kept(rows)[k] == rows[j];
    }
  }

  /** Every output row has at least three whitespace-separated tokens. */
  lemma FrameLong(df: seq<TweetRecord>)
    ensures forall k :: 0 <= k < |PreprocessFrame(df)| ==> NumTokens(PreprocessFrame(df)[k].cleanedText) >= 3
  {
    KeptLong(CleanColumn(df));
  }

  /** No two output rows share their cleaned text. */
  lemma FrameDistinct(df: seq<TweetRecord>)
    ensures forall k, l :: 0 <= k < l < |PreprocessFrame(df)| ==>
              PreprocessFrame(df)[k].cleanedText != PreprocessFrame(df)[l].cleanedText
  {
    KeptDistinct(CleanColumn(df));
  }

  /** Each output row is the first input row with its cleaned text. */
  lemma FrameFirst(df: seq<TweetRecord>)
    ensures forall k, j :: 0 <= k < |PreprocessFrame(df)| && 0 <= j < KeptIndices(CleanColumn(df))[k] ==>
              CleanTweet(df[j].text) != PreprocessFrame(df)[k].cleanedText
  {
    var rows := CleanColumn(df);
    var out := PreprocessFrame(df);
    var idx := KeptIndices(rows);
    assert out == Kept(rows);
    KeptFirst(rows);
    forall k, j | 0 <= k < |out| && 0 <= j < idx[k]
      ensures CleanTweet(df[j].text) != out[k].cleanedText
    {
      assert rows[j].cleanedText == CleanTweet(df[j].text);
    }
  }

  /** Every input row whose cleaned text has at least three tokens has that
      text in the output. */
  lemma FrameComplete(df: seq<TweetRecord>)
    ensures forall j :: 0 <= j < |df| && NumTokens(CleanTweet(df[j].text)) >= 3 ==>
              exists k :: 0 <= k < |PreprocessFrame(df)| && PreprocessFrame(df)[k].cleanedText == CleanTweet(df[j].text)
  {
    var rows := CleanColumn(df);
    var out := PreprocessFrame(df);
    assert out == Kept(rows);
    KeptComplete(rows);
    forall j | 0 <= j < |df| && NumTokens(CleanTweet(df[j].text)) >= 3
      ensures exists k :: 0 <= k < |out| && out[k].cleanedText == CleanTweet(df[j].text)
    {
      assert rows[j].cleanedText == CleanTweet(df[j].text);
    }
  }
}
