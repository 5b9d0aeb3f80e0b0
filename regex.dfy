/** The fragment of Python's `re.sub` that `clean_tweet` uses: patterns that
    are an ordered alternation of "literal prefix, then a greedy non-empty
    run of one character class" (`http\S+|www\S+|https\S+`, `@\w+`,
    `#(\w+)`, `\s+`), replaced either by a fixed text or by the run itself
    (group 1 of `#(\w+)`). */
module Regex {
  import opened Wrappers
  import opened Text

  /** One alternative: `prefix` literally, then one or more `cls` characters. */
  datatype Alt = Alt(prefix: string, cls: CharClass)

  /** The replacement: a fixed text, or the run after the prefix (`\1`). */
  datatype Repl = Literal(text: string) | Group

  /** Alternatives are tried left to right, as Python's `re` does. */
  datatype Pattern = Pattern(alts: seq<Alt>, repl: Repl)

  /** `lit` occurs at `i` without reaching past `end`. */
  predicate LitAt(lit: string, s: string, i: nat, end: nat)
    requires i <= end <= |s|
  {
    i + |lit| <= end && SameText(lit, 0, |lit|, s, i)
  }

  lemma LitIntro(lit: string, s: string, i: nat, end: nat)
    requires i + |lit| <= end <= |s| && s[i..i + |lit|] == lit
    ensures LitAt(lit, s, i, end)
  {
    forall k | 0 <= k < |lit|
      ensures lit[k] == s[k - 0 + i]
    {
      assert s[i..i + |lit|][k] == s[i + k];
    }
    SameTextIntro(lit, 0, |lit|, s, i);
  }

  /** The first two characters of a literal found at `i`. */
  lemma LitHead(lit: string, s: string, i: nat, end: nat)
    requires i <= end <= |s| && |lit| >= 2 && LitAt(lit, s, i, end)
    ensures s[i] == lit[0] && s[i + 1] == lit[1]
  {
    SameTextAt(lit, 0, |lit|, s, i, 1);
  }

  /** Length of the match of `a` at `i` (the run is greedy), 0 when there is none. */
  function AltMatch(a: Alt, s: string, i: nat, end: nat): (n: nat)
    requires i <= end <= |s|
    ensures i + n <= end
    ensures n > 0 ==> |a.prefix| < n
  {
    var k := |a.prefix|;
    if LitAt(a.prefix, s, i, end) && i + k < end && InClass(a.cls, s[i + k])
    then k + Span(s, i + k, end, a.cls)
    else 0
  }

  /** The match of `a` is the literal and then the whole run of `cls`
      characters that follows it. */
  lemma AltRun(a: Alt, s: string, i: nat, j: nat, end: nat)
    requires i + |a.prefix| < j <= end <= |s| && LitAt(a.prefix, s, i, end)
    requires forall k :: i + |a.prefix| <= k < j ==> InClass(a.cls, s[k])
    requires j == end || !InClass(a.cls, s[j])
    ensures AltMatch(a, s, i, end) == j - i
  {
    var k := i + |a.prefix|;
    SpanAll(s, k, j, a.cls);
    if j < end {
      SpanStops(s, k, j, end, a.cls);
    }
  }

  /** A match: the alternative that matched and the length of its text. */
  datatype Hit = Hit(alt: Alt, len: nat)

  /** The first of `alts[m..]` that matches at `i`. */
  function MatchFrom(alts: seq<Alt>, m: nat, s: string, i: nat, end: nat): (h: Option<Hit>)
    requires m <= |alts| && i <= end <= |s|
    ensures h.Some? ==> |h.value.alt.prefix| < h.value.len && i + h.value.len <= end
    decreases |alts| - m
  {
    if m == |alts| then None
    else
      var n := AltMatch(alts[m], s, i, end);
      if n > 0 then Some(Hit(alts[m], n)) else MatchFrom(alts, m + 1, s, i, end)
  }

  /** The match of `p` at `i`, if any. */
  function MatchAt(p: Pattern, s: string, i: nat, end: nat): (h: Option<Hit>)
    requires i <= end <= |s|
    ensures h.Some? ==> |h.value.alt.prefix| < h.value.len && i + h.value.len <= end
  {
    MatchFrom(p.alts, 0, s, i, end)
  }

  /** The text that replaces the match `h` found at `i`. */
  function Replace(p: Pattern, s: string, i: nat, h: Hit): string
    requires |h.alt.prefix| < h.len && i + h.len <= |s|
  {
    match p.repl
    case Literal(t) => t
    case Group => s[i + |h.alt.prefix|..i + h.len]
  }

  /** `re.sub` on `s[i..end]`: scan left to right; at each position either
      the match found there is replaced and scanning resumes after it, or the
      character is copied. No alternative matches the empty string. */
  function SubRange(p: Pattern, s: string, i: nat, end: nat): string
    requires i <= end <= |s|
    decreases end - i, 1
  {
    if i == end then "" else SubAt(p, s, i, end)
  }

  /** One step of the scan at `i < end`, followed by the rest of it. */
  function SubAt(p: Pattern, s: string, i: nat, end: nat): string
    requires i < end <= |s|
    decreases end - i, 0
  {
    match MatchAt(p, s, i, end)
    case None => [s[i]] + SubRange(p, s, i + 1, end)
    case Some(h) => Replace(p, s, i, h) + SubRange(p, s, i + h.len, end)
  }

  /** `re.sub(p, repl, s)`. */
  function Sub(p: Pattern, s: string): string {
    SubRange(p, s, 0, |s|)
  }

  // ---------------------------------------------------------------------
  // Locality: a scan depends only on the characters it looks at
  // ---------------------------------------------------------------------

  /** If `s[i..end]` reads the same as `t[j..]`, a literal that fits in
      `s[i..end]` occurs at `i` in `s` exactly when it occurs at `j` in `t`. */
  lemma {:induction false} SameTextVia(lit: string, a: nat, s: string, i: nat, end: nat, t: string, j: nat)
    requires a <= |lit| && i + (|lit| - a) <= end <= |s| && SameText(s, i, end, t, j)
    ensures SameText(lit, a, |lit|, s, i) <==> SameText(lit, a, |lit|, t, j)
    decreases |lit| - a
  {
    if a < |lit| {
      SameTextAt(s, i, end, t, j, 1);
      SameTextVia(lit, a + 1, s, i + 1, end, t, j + 1);
    }
  }

  // In the lemmas below `s[i..end]` reads the same as `t[j..tend]`.

  lemma AltShift(a: Alt, s: string, i: nat, end: nat, t: string, j: nat, tend: nat)
    requires i <= end <= |s| && SameText(s, i, end, t, j) && tend == j + (end - i)
    ensures AltMatch(a, s, i, end) == AltMatch(a, t, j, tend)
  {
    var k := |a.prefix|;
    if i + k <= end {
      SameTextVia(a.prefix, 0, s, i, end, t, j);
      SameTextAt(s, i, end, t, j, k);
      SpanShift(s, i + k, end, t, j + k, a.cls);
    }
  }

  lemma {:induction false} MatchFromShift(alts: seq<Alt>, m: nat, s: string, i: nat, end: nat, t: string, j: nat, tend: nat)
    requires m <= |alts| && i <= end <= |s| && SameText(s, i, end, t, j) && tend == j + (end - i)
    ensures MatchFrom(alts, m, s, i, end) == MatchFrom(alts, m, t, j, tend)
    decreases |alts| - m
  {
    if m < |alts| {
      AltShift(alts[m], s, i, end, t, j, tend);
      MatchFromShift(alts, m + 1, s, i, end, t, j, tend);
    }
  }

  /** The replacement of a match depends only on the characters it covers. */
  lemma ReplaceShift(p: Pattern, s: string, i: nat, end: nat, t: string, j: nat, h: Hit)
    requires |h.alt.prefix| < h.len && i + h.len <= end <= |s| && SameText(s, i, end, t, j)
    ensures j + h.len <= |t| && Replace(p, t, j, h) == Replace(p, s, i, h)
  {
    SameTextSlice(s, i, end, t, j, |h.alt.prefix|, h.len);
  }

  /** One scan step depends only on the characters it looks at. */
  lemma StepShift(p: Pattern, s: string, i: nat, end: nat, t: string, j: nat, tend: nat)
    requires i < end <= |s| && SameText(s, i, end, t, j) && tend == j + (end - i)
    ensures MatchAt(p, t, j, tend) == MatchAt(p, s, i, end)
    ensures s[i] == t[j]
  {
    MatchFromShift(p.alts, 0, s, i, end, t, j, tend);
    SameTextAt(s, i, end, t, j, 0);
  }

  // The two steps of `SubShift`, each given the shift of the rest of the scan.

  lemma SubShiftCopy(p: Pattern, s: string, i: nat, end: nat, t: string, j: nat, tend: nat)
    requires i < end <= |s| && SameText(s, i, end, t, j) && tend == j + (end - i)
    requires MatchAt(p, s, i, end) == None
    requires SubRange(p, s, i + 1, end) == SubRange(p, t, j + 1, tend)
    ensures SubRange(p, s, i, end) == SubRange(p, t, j, tend)
  {
    StepShift(p, s, i, end, t, j, tend);
    var a := SubRange(p, s, i + 1, end);
    assert SubRange(p, s, i, end) == SubAt(p, s, i, end) == [s[i]] + a;
    assert SubRange(p, t, j, tend) == SubAt(p, t, j, tend) == [s[i]] + a;
  }

  lemma SubShiftMatch(p: Pattern, s: string, i: nat, end: nat, t: string, j: nat, tend: nat, h: Hit)
    requires i < end <= |s| && SameText(s, i, end, t, j) && tend == j + (end - i)
    requires MatchAt(p, s, i, end) == Some(h)
    requires SubRange(p, s, i + h.len, end) == SubRange(p, t, j + h.len, tend)
    ensures SubRange(p, s, i, end) == SubRange(p, t, j, tend)
  {
    StepShift(p, s, i, end, t, j, tend);
    ReplaceShift(p, s, i, end, t, j, h);
    SubAtHit(p, s, i, end, h);
    SubAtHit(p, t, j, tend, h);
  }

  /** The scan at a match: its replacement, then the scan after it. */
  lemma SubAtHit(p: Pattern, s: string, i: nat, end: nat, h: Hit)
    requires i < end <= |s| && MatchAt(p, s, i, end) == Some(h)
    ensures i + h.len <= end
    ensures SubRange(p, s, i, end) == Replace(p, s, i, h) + SubRange(p, s, i + h.len, end)
  {
    assert SubRange(p, s, i, end) == SubAt(p, s, i, end);
  }

  lemma {:induction false} SubShift(p: Pattern, s: string, i: nat, end: nat, t: string, j: nat, tend: nat)
    requires i <= end <= |s| && SameText(s, i, end, t, j) && tend == j + (end - i)
    ensures SubRange(p, s, i, end) == SubRange(p, t, j, tend)
    decreases end - i
  {
    if i < end {
      match MatchAt(p, s, i, end)
      case None =>
        SameTextAt(s, i, end, t, j, 1);
        SubShift(p, s, i + 1, end, t, j + 1, tend);
        SubShiftCopy(p, s, i, end, t, j, tend);
      case Some(h) =>
        SameTextAt(s, i, end, t, j, h.len);
        SubShift(p, s, i + h.len, end, t, j + h.len, tend);
        SubShiftMatch(p, s, i, end, t, j, tend, h);
    }
  }

  /** Scanning `s[i..end]` in place is scanning the string `s[i..end]`. */
  lemma SubRangeSlice(p: Pattern, s: string, i: nat, end: nat)
    requires i <= end <= |s|
    ensures SubRange(p, s, i, end) == Sub(p, s[i..end])
  {
    var t := s[i..end];
    SameTextSelf(s, i, end);
    SubShift(p, s, i, end, t, 0, |t|);
  }

  // ---------------------------------------------------------------------
  // Patterns whose matches stay inside one word
  // ---------------------------------------------------------------------

  /** No match of `p` can contain whitespace. */
  predicate WithinWord(p: Pattern) {
    forall m :: 0 <= m < |p.alts| ==> p.alts[m].cls != Space && NoSpace(p.alts[m].prefix)
  }

  /** A literal without whitespace that occurs at `i` ends before a
      whitespace character at `j`, and so does not depend on what follows. */
  lemma LitStops(lit: string, s: string, i: nat, j: nat, end: nat)
    requires NoSpace(lit) && i <= j < end <= |s| && IsSpace(s[j])
    ensures LitAt(lit, s, i, end) ==> i + |lit| <= j
    ensures LitAt(lit, s, i, end) <==> LitAt(lit, s, i, j)
  {
    if LitAt(lit, s, i, end) && j < i + |lit| {
      SameTextAt(lit, 0, |lit|, s, i, j - i);
      assert false;
    }
  }

  lemma AltStops(a: Alt, s: string, i: nat, j: nat, end: nat)
    requires a.cls != Space && NoSpace(a.prefix)
    requires i <= j < end <= |s| && IsSpace(s[j])
    ensures AltMatch(a, s, i, end) == AltMatch(a, s, i, j)
  {
    LitStops(a.prefix, s, i, j, end);
    var k := |a.prefix|;
    assert !InClass(a.cls, s[j]);
    if LitAt(a.prefix, s, i, end) && i + k < j {
      SpanStops(s, i + k, j, end, a.cls);
    }
  }

  lemma {:induction false} MatchFromStops(alts: seq<Alt>, m: nat, s: string, i: nat, j: nat, end: nat)
    requires m <= |alts| && forall q :: 0 <= q < |alts| ==> alts[q].cls != Space && NoSpace(alts[q].prefix)
    requires i <= j < end <= |s| && IsSpace(s[j])
    ensures MatchFrom(alts, m, s, i, end) == MatchFrom(alts, m, s, i, j)
    decreases |alts| - m
  {
    if m < |alts| {
      AltStops(alts[m], s, i, j, end);
      MatchFromStops(alts, m + 1, s, i, j, end);
    }
  }

  /** One scan step before a whitespace character does not see past it. */
  lemma StepStops(p: Pattern, s: string, i: nat, j: nat, end: nat)
    requires WithinWord(p) && i < j < end <= |s| && IsSpace(s[j])
    ensures MatchAt(p, s, i, end) == MatchAt(p, s, i, j)
  {
    MatchFromStops(p.alts, 0, s, i, j, end);
  }

  // ---------------------------------------------------------------------
  // Characters at which no match can start
  // ---------------------------------------------------------------------

  /** A match of `a` can start with `c`. */
  predicate StartsAlt(a: Alt, c: char) {
    if a.prefix == [] then InClass(a.cls, c) else a.prefix[0] == c
  }

  /** A match of `p` can start with `c`. */
  predicate CanStart(p: Pattern, c: char) {
    exists m :: 0 <= m < |p.alts| && StartsAlt(p.alts[m], c)
  }

  lemma {:induction false} MatchFromNone(alts: seq<Alt>, m: nat, s: string, i: nat, end: nat)
    requires m <= |alts| && i < end <= |s|
    requires forall q :: 0 <= q < |alts| ==> !StartsAlt(alts[q], s[i])
    ensures MatchFrom(alts, m, s, i, end) == None
    decreases |alts| - m
  {
    if m < |alts| {
      assert !StartsAlt(alts[m], s[i]);
      assert AltMatch(alts[m], s, i, end) == 0;
      MatchFromNone(alts, m + 1, s, i, end);
    }
  }

  /** A step at a character where no match can start copies that character. */
  lemma StepSkip(p: Pattern, s: string, i: nat, end: nat)
    requires i < end <= |s| && !CanStart(p, s[i])
    ensures MatchAt(p, s, i, end) == None
  {
    MatchFromNone(p.alts, 0, s, i, end);
  }

  // ---------------------------------------------------------------------
  // Scans of composite text
  // ---------------------------------------------------------------------

  /** The steps of `SubSplit`: a character copied, or a match replaced,
      before the whitespace. */
  lemma SubSplitCopy(p: Pattern, s: string, i: nat, j: nat, end: nat)
    requires WithinWord(p) && i < j < end <= |s| && IsSpace(s[j]) && MatchAt(p, s, i, j) == None
    requires SubRange(p, s, i + 1, end) == SubRange(p, s, i + 1, j) + [s[j]] + SubRange(p, s, j + 1, end)
    ensures SubRange(p, s, i, end) == SubRange(p, s, i, j) + [s[j]] + SubRange(p, s, j + 1, end)
  {
    StepStops(p, s, i, j, end);
    AppendAround([s[i]], SubRange(p, s, i + 1, j), s[j], SubRange(p, s, j + 1, end));
  }

  lemma SubSplitMatch(p: Pattern, s: string, i: nat, j: nat, end: nat, h: Hit)
    requires WithinWord(p) && i < j < end <= |s| && IsSpace(s[j]) && MatchAt(p, s, i, j) == Some(h)
    requires SubRange(p, s, i + h.len, end) == SubRange(p, s, i + h.len, j) + [s[j]] + SubRange(p, s, j + 1, end)
    ensures SubRange(p, s, i, end) == SubRange(p, s, i, j) + [s[j]] + SubRange(p, s, j + 1, end)
  {
    StepStops(p, s, i, j, end);
    SubAtHit(p, s, i, j, h);
    SubAtHit(p, s, i, end, h);
    AppendAround(Replace(p, s, i, h), SubRange(p, s, i + h.len, j), s[j], SubRange(p, s, j + 1, end));
  }

  lemma SubSplitHere(p: Pattern, s: string, j: nat, end: nat)
    requires WithinWord(p) && j < end <= |s| && IsSpace(s[j])
    ensures SubRange(p, s, j, end) == SubRange(p, s, j, j) + [s[j]] + SubRange(p, s, j + 1, end)
  {
    SpaceCannotStart(p, s[j]);
    StepSkip(p, s, j, end);
    AppendEmpty(s[j], SubRange(p, s, j + 1, end));
  }

  /** Whitespace splits the scan of a within-word pattern in two. */
  lemma {:induction false} SubSplit(p: Pattern, s: string, i: nat, j: nat, end: nat)
    requires WithinWord(p) && i <= j < end <= |s| && IsSpace(s[j])
    ensures SubRange(p, s, i, end) == SubRange(p, s, i, j) + [s[j]] + SubRange(p, s, j + 1, end)
    decreases j - i
  {
    if i < j {
      match MatchAt(p, s, i, j)
      case None =>
        SubSplit(p, s, i + 1, j, end);
        SubSplitCopy(p, s, i, j, end);
      case Some(h) =>
        SubSplit(p, s, i + h.len, j, end);
        SubSplitMatch(p, s, i, j, end, h);
    } else {
      SubSplitHere(p, s, j, end);
    }
  }

  /** Whitespace cannot start a match of a within-word pattern. */
  lemma SpaceCannotStart(p: Pattern, c: char)
    requires WithinWord(p) && IsSpace(c)
    ensures !CanStart(p, c)
  {
    forall m | 0 <= m < |p.alts|
      ensures !StartsAlt(p.alts[m], c)
    {
      var a := p.alts[m];
      if a.prefix != [] {
        assert a.prefix[0] != c;
      }
    }
  }

  /** A whitespace character at `j` splits the scan of `s` there. */
  lemma SubSplitAt(p: Pattern, s: string, j: nat)
    requires WithinWord(p) && j < |s| && IsSpace(s[j])
    ensures Sub(p, s) == Sub(p, s[..j]) + [s[j]] + Sub(p, s[j + 1..])
  {
    SubSplit(p, s, 0, j, |s|);
    SubRangeSlice(p, s, 0, j);
    SubRangeSlice(p, s, j + 1, |s|);
    assert s[0..j] == s[..j] && s[j + 1..|s|] == s[j + 1..];
  }

  /** A within-word rewrite acts on each side of a whitespace character
      separately and keeps the character. */
  lemma SubAcrossSpace(p: Pattern, a: string, c: char, b: string)
    requires WithinWord(p) && IsSpace(c)
    ensures Sub(p, a + [c] + b) == Sub(p, a) + [c] + Sub(p, b)
  {
    var s := a + [c] + b;
    assert s[|a|] == c && s[..|a|] == a && s[|a| + 1..] == b;
    SubSplitAt(p, s, |a|);
  }

  /** A position where nothing matches is copied. */
  lemma SubCopyStep(p: Pattern, s: string, i: nat, end: nat)
    requires i < end <= |s| && MatchAt(p, s, i, end) == None
    ensures SubRange(p, s, i, end) == [s[i]] + SubRange(p, s, i + 1, end)
  {
    assert SubRange(p, s, i, end) == SubAt(p, s, i, end);
  }

  /** Text at none of whose positions a match is found is copied unchanged. */
  lemma {:induction false} SubCopyRange(p: Pattern, s: string, i: nat, j: nat, end: nat)
    requires i <= j <= end <= |s|
    requires forall k :: i <= k < j ==> MatchAt(p, s, k, end) == None
    ensures SubRange(p, s, i, end) == s[i..j] + SubRange(p, s, j, end)
    decreases j - i
  {
    if i < j {
      SubCopyRange(p, s, i + 1, j, end);
      SubCopyStep(p, s, i, end);
      AppendAssoc([s[i]], s[i + 1..j], SubRange(p, s, j, end));
      SliceCons(s, i, j);
    }
  }

  /** A string in which no match is found anywhere is left unchanged. */
  lemma SubNoMatch(p: Pattern, s: string)
    requires forall k :: 0 <= k < |s| ==> MatchAt(p, s, k, |s|) == None
    ensures Sub(p, s) == s
  {
    SubCopyRange(p, s, 0, |s|, |s|);
    assert s[0..|s|] == s;
  }

  /** A prefix in which no match can start is copied unchanged. */
  lemma SubSkipPrefix(p: Pattern, s: string, n: nat)
    requires n <= |s| && forall k :: 0 <= k < n ==> !CanStart(p, s[k])
    ensures Sub(p, s) == s[..n] + Sub(p, s[n..])
  {
    forall k | 0 <= k < n
      ensures MatchAt(p, s, k, |s|) == None
    {
      StepSkip(p, s, k, |s|);
    }
    SubCopyRange(p, s, 0, n, |s|);
    SubRangeSlice(p, s, n, |s|);
    assert s[0..n] == s[..n] && s[n..|s|] == s[n..];
  }

  /** A string in which no match can start is left unchanged. */
  lemma SubNoStart(p: Pattern, s: string)
    requires forall k :: 0 <= k < |s| ==> !CanStart(p, s[k])
    ensures Sub(p, s) == s
  {
    SubSkipPrefix(p, s, |s|);
    assert s[..|s|] == s && s[|s|..] == [];
  }

  /** Text in which no match can start, followed by `w`, is copied before
      the scan of `w`. */
  lemma SubSkip(p: Pattern, u: string, w: string)
    requires forall k :: 0 <= k < |u| ==> !CanStart(p, u[k])
    ensures Sub(p, u + w) == u + Sub(p, w)
  {
    var s := u + w;
    assert s[..|u|] == u && s[|u|..] == w;
    SubSkipPrefix(p, s, |u|);
  }

  /** A match at the start of `s`, replaced, followed by the scan of the rest. */
  lemma SubFirstMatch(p: Pattern, s: string, h: Hit)
    requires 0 < |s| && MatchAt(p, s, 0, |s|) == Some(h)
    ensures Sub(p, s) == Replace(p, s, 0, h) + Sub(p, s[h.len..])
  {
    SubRangeSlice(p, s, h.len, |s|);
    assert s[h.len..|s|] == s[h.len..];
    assert SubRange(p, s, 0, |s|) == SubAt(p, s, 0, |s|);
  }

  /** `Sub(p, w)` for each word of `ws`. */
  function SubWords(p: Pattern, ws: seq<string>): (r: seq<string>)
    ensures |r| == |ws|
    ensures forall k :: 0 <= k < |ws| ==> r[k] == Sub(p, ws[k])
  {
    if |ws| == 0 then [] else [Sub(p, ws[0])] + SubWords(p, ws[1..])
  }

  /** On space-joined text, a within-word rewrite is a rewrite of each word. */
  lemma {:induction false} SubJoin(p: Pattern, ws: seq<string>)
    requires WithinWord(p)
    ensures Sub(p, Join(" ", ws)) == Join(" ", SubWords(p, ws))
  {
    if |ws| > 1 {
      SubJoin(p, ws[1..]);
      assert Join(" ", ws) == ws[0] + [' '] + Join(" ", ws[1..]);
      SubAcrossSpace(p, ws[0], ' ', Join(" ", ws[1..]));
      assert SubWords(p, ws)[1..] == SubWords(p, ws[1..]);
    }
  }

  // ---------------------------------------------------------------------
  // Lower case is kept
  // ---------------------------------------------------------------------

  /** The replacement text introduces no upper-case letter. */
  predicate LowerRepl(p: Pattern) {
    p.repl.Literal? ==> NoUpper(p.repl.text)
  }

  lemma {:induction false} SubRangeKeepsLowerCase(p: Pattern, s: string, i: nat, end: nat)
    requires LowerRepl(p) && i <= end <= |s| && NoUpper(s)
    ensures NoUpper(SubRange(p, s, i, end))
    decreases end - i
  {
    if i < end {
      match MatchAt(p, s, i, end)
      case None =>
        SubRangeKeepsLowerCase(p, s, i + 1, end);
      case Some(h) =>
        var e := Replace(p, s, i, h);
        assert NoUpper(e) by {
          if p.repl.Group? {
            var k := i + |h.alt.prefix|;
            assert forall q :: 0 <= q < |e| ==> e[q] == s[k + q];
          }
        }
        SubRangeKeepsLowerCase(p, s, i + h.len, end);
    }
  }

  /** None of the rewrites introduces an upper-case letter. */
  lemma SubKeepsLowerCase(p: Pattern, s: string)
    requires LowerRepl(p) && NoUpper(s)
    ensures NoUpper(Sub(p, s))
  {
    SubRangeKeepsLowerCase(p, s, 0, |s|);
  }

  // ---------------------------------------------------------------------
  // Words stay words
  // ---------------------------------------------------------------------

  /** The replacement text introduces no whitespace. */
  predicate SpaceFreeRepl(p: Pattern) {
    p.repl.Literal? ==> NoSpace(p.repl.text)
  }

  lemma {:induction false} SubRangeKeepsNoSpace(p: Pattern, s: string, i: nat, end: nat)
    requires SpaceFreeRepl(p) && i <= end <= |s| && NoSpace(s)
    ensures NoSpace(SubRange(p, s, i, end))
    decreases end - i
  {
    if i < end {
      assert SubRange(p, s, i, end) == SubAt(p, s, i, end);
      match MatchAt(p, s, i, end)
      case None =>
        SubRangeKeepsNoSpace(p, s, i + 1, end);
      case Some(h) =>
        var e := Replace(p, s, i, h);
        assert NoSpace(e) by {
          if p.repl.Group? {
            var k := i + |h.alt.prefix|;
            assert forall q :: 0 <= q < |e| ==> e[q] == s[k + q];
          }
        }
        SubRangeKeepsNoSpace(p, s, i + h.len, end);
    }
  }

  /** Rewriting text without whitespace gives text without whitespace. */
  lemma SubKeepsNoSpace(p: Pattern, s: string)
    requires SpaceFreeRepl(p) && NoSpace(s)
    ensures NoSpace(Sub(p, s))
  {
    SubRangeKeepsNoSpace(p, s, 0, |s|);
  }

  /** The replacement text is made of word characters. */
  predicate WordRepl(p: Pattern) {
    p.repl.Literal? ==> AllWordChars(p.repl.text)
  }

  lemma {:induction false} SubRangeKeepsWordChars(p: Pattern, s: string, i: nat, end: nat)
    requires WordRepl(p) && i <= end <= |s| && AllWordChars(s)
    ensures AllWordChars(SubRange(p, s, i, end))
    decreases end - i
  {
    if i < end {
      assert SubRange(p, s, i, end) == SubAt(p, s, i, end);
      match MatchAt(p, s, i, end)
      case None =>
        SubRangeKeepsWordChars(p, s, i + 1, end);
      case Some(h) =>
        var e := Replace(p, s, i, h);
        assert AllWordChars(e) by {
          if p.repl.Group? {
            var k := i + |h.alt.prefix|;
            assert forall q :: 0 <= q < |e| ==> e[q] == s[k + q];
          }
        }
        SubRangeKeepsWordChars(p, s, i + h.len, end);
    }
  }

  /** Rewriting word characters with a word-character replacement gives
      word characters. */
  lemma SubKeepsWordChars(p: Pattern, s: string)
    requires WordRepl(p) && AllWordChars(s)
    ensures AllWordChars(Sub(p, s))
  {
    SubRangeKeepsWordChars(p, s, 0, |s|);
  }

  /** With a non-empty replacement, rewriting non-empty text gives non-empty text. */
  lemma SubNonEmpty(p: Pattern, s: string)
    requires s != [] && (p.repl.Literal? ==> p.repl.text != [])
    ensures Sub(p, s) != []
  {
    assert SubRange(p, s, 0, |s|) == SubAt(p, s, 0, |s|);
    match MatchAt(p, s, 0, |s|)
    case None =>
    case Some(h) =>
      assert |Replace(p, s, 0, h)| > 0;
  }
}
