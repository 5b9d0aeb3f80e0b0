/** DataPreprocessing.py: `TwitterPreprocessor.clean_tweet`, a fixed chain of
    rewrites of one text, and `preprocess_dataframe`, which cleans every row,
    drops short texts and de-duplicates. Text is ASCII: the character classes
    are those of module Text. */
module Preprocessing {
  import opened Wrappers
  import opened Text
  import opened Regex

  // ---------------------------------------------------------------------
  // The four substitutions of clean_tweet
  // ---------------------------------------------------------------------

  /** `re.sub(r'http\S+|www\S+|https\S+', 'http', ...)`. */
  const URL: Pattern := Pattern([Alt("http", NonSpace), Alt("www", NonSpace), Alt("https", NonSpace)], Literal("http"))

  /** `re.sub(r'@\w+', '@user', ...)`. */
  const MENTION: Pattern := Pattern([Alt("@", Word)], Literal("@user"))

  /** `re.sub(r'#(\w+)', r'\1', ...)`. */
  const HASHTAG: Pattern := Pattern([Alt("#", Word)], Group)

  /** `re.sub(r'\s+', ' ', ...)`. */
  const WHITESPACE: Pattern := Pattern([Alt("", Space)], Literal(" "))

  /** The first two alternatives of `URL`: all that can ever match. */
  const URL_EFFECTIVE: Pattern := Pattern([Alt("http", NonSpace), Alt("www", NonSpace)], Literal("http"))

  /** The URL, mention and hashtag rewrites stay inside one word and put in
      no upper-case letter; nor does the whitespace rewrite. */
  lemma PatternFacts()
    ensures WithinWord(URL) && WithinWord(MENTION) && WithinWord(HASHTAG)
    ensures LowerRepl(URL) && LowerRepl(MENTION) && LowerRepl(HASHTAG) && LowerRepl(WHITESPACE)
    ensures SpaceFreeRepl(URL) && SpaceFreeRepl(MENTION) && SpaceFreeRepl(HASHTAG)
  {
    assert NoSpace(URL.alts[0].prefix) && NoSpace(URL.alts[1].prefix) && NoSpace(URL.alts[2].prefix);
  }

  /** A URL can start only at `h` or `w`. */
  lemma UrlStarts(c: char)
    ensures CanStart(URL, c) <==> c == 'h' || c == 'w'
  {
    if c == 'h' {
      assert StartsAlt(URL.alts[0], c);
    } else if c == 'w' {
      assert StartsAlt(URL.alts[1], c);
    }
  }

  /** A mention can start only at `@`. */
  lemma MentionStarts(c: char)
    ensures CanStart(MENTION, c) <==> c == '@'
  {
    if c == '@' {
      assert StartsAlt(MENTION.alts[0], c);
    }
  }

  /** A hashtag can start only at `#`. */
  lemma HashtagStarts(c: char)
    ensures CanStart(HASHTAG, c) <==> c == '#'
  {
    if c == '#' {
      assert StartsAlt(HASHTAG.alts[0], c);
    }
  }

  /** `https\S+` never gets its turn: wherever it matches, `http\S+` matches
      first, with the same extent. */
  lemma HttpsAlternativeDead(s: string, i: nat, end: nat)
    requires i <= end <= |s|
    ensures AltMatch(URL.alts[2], s, i, end) > 0 ==>
              AltMatch(URL.alts[0], s, i, end) == AltMatch(URL.alts[2], s, i, end)
    ensures MatchAt(URL, s, i, end) == MatchAt(URL_EFFECTIVE, s, i, end)
  {
    var http, www, https := URL.alts[0], URL.alts[1], URL.alts[2];
    if AltMatch(https, s, i, end) > 0 {
      SameTextIntroBack("https", 0, 5, s, i, 5);
      SameTextIntro("http", 0, 4, s, i);
      assert InClass(NonSpace, s[i + 4]);
      var n := Span(s, i + 4, end, NonSpace);
      assert n == 1 + Span(s, i + 5, end, NonSpace);
    }
    assert MatchFrom(URL.alts, 2, s, i, end).Some? ==> MatchFrom(URL.alts, 0, s, i, end).value.alt == http;
  }

  /** A URL match starts with `http` or `www` followed by a non-whitespace
      character, and runs exactly to the next whitespace or to the end. */
  lemma UrlMatchExtent(s: string, i: nat, end: nat)
    requires i < end <= |s|
    ensures MatchAt(URL, s, i, end).Some? <==>
              (LitAt("http", s, i, end) && i + 4 < end && !IsSpace(s[i + 4])) ||
              (LitAt("www", s, i, end) && i + 3 < end && !IsSpace(s[i + 3]))
    ensures MatchAt(URL, s, i, end).Some? ==>
              var e := i + MatchAt(URL, s, i, end).value.len;
              (forall k :: i <= k < e ==> !IsSpace(s[k])) && (e == end || IsSpace(s[e]))
  {
    HttpsAlternativeDead(s, i, end);
    var h := MatchAt(URL, s, i, end);
    if h.Some? {
      var k := |h.value.alt.prefix|;
      assert k == 4 || k == 3;
      assert LitAt(h.value.alt.prefix, s, i, end);
      SpanFacts(s, i + k, end, NonSpace);
      SameTextIntroBack(h.value.alt.prefix, 0, k, s, i, k);
      forall q | i <= q < i + k
        ensures !IsSpace(s[q])
      {
        assert s[q] == h.value.alt.prefix[q - i];
      }
    }
  }

  /** A whitespace match is a maximal run of whitespace. */
  lemma WhitespaceMatch(s: string, i: nat, end: nat)
    requires i < end <= |s|
    ensures MatchAt(WHITESPACE, s, i, end).Some? <==> IsSpace(s[i])
    ensures MatchAt(WHITESPACE, s, i, end).Some? ==>
              var e := i + MatchAt(WHITESPACE, s, i, end).value.len;
              (forall k :: i <= k < e ==> IsSpace(s[k])) && (e == end || !IsSpace(s[e]))
  {
    SpanFacts(s, i, end, Space);
    assert LitAt("", s, i, end);
  }

  // ---------------------------------------------------------------------
  // What the rewrites do to single words
  // ---------------------------------------------------------------------

  /** A whole word that is `http` or `www` followed by at least one more
      character becomes the literal `http`. */
  lemma UrlWordReplaced(w: string)
    requires NoSpace(w)
    requires (|w| > 4 && w[..4] == "http") || (|w| > 3 && w[..3] == "www")
    ensures Sub(URL, w) == "http"
  {
    var a := if |w| > 4 && w[..4] == "http" then URL.alts[0] else URL.alts[1];
    LitIntro(a.prefix, w, 0, |w|);
    AltRun(a, w, 0, |w|, |w|);
    if a == URL.alts[1] {
      assert w[0] == 'w';
      assert !LitAt("http", w, 0, |w|);
    }
    assert MatchAt(URL, w, 0, |w|) == Some(Hit(a, |w|));
    SubFirstMatch(URL, w, Hit(a, |w|));
    assert w[|w|..] == [];
  }

  /** A URL that starts in the middle of a word, after characters at which no
      URL can start, replaces the rest of the word. */
  lemma UrlMidWordReplaced(u: string, w: string)
    requires forall k :: 0 <= k < |u| ==> u[k] != 'h' && u[k] != 'w'
    requires NoSpace(w)
    requires (|w| > 4 && w[..4] == "http") || (|w| > 3 && w[..3] == "www")
    ensures Sub(URL, u + w) == u + "http"
  {
    forall k | 0 <= k < |u|
      ensures !CanStart(URL, u[k])
    {
      UrlStarts(u[k]);
    }
    SubSkip(URL, u, w);
    UrlWordReplaced(w);
  }

  /** A bare `http` with nothing after it is not a match of `http\S+`. */
  lemma BareHttpKept()
    ensures Sub(URL, "http") == "http"
  {
    var s := "http";
    assert MatchAt(URL, s, 0, 4) == None;
    assert MatchAt(URL, s, 1, 4) == None;
    assert MatchAt(URL, s, 2, 4) == None;
    assert MatchAt(URL, s, 3, 4) == None;
    SubNoMatch(URL, s);
  }

  /** `@name` becomes `@user`; the name ends at the first non-word character. */
  lemma MentionReplaced(name: string, rest: string)
    requires |name| > 0 && forall k :: 0 <= k < |name| ==> IsWordChar(name[k])
    requires rest == [] || !IsWordChar(rest[0])
    ensures Sub(MENTION, "@" + name + rest) == "@user" + Sub(MENTION, rest)
  {
    var s := "@" + name + rest;
    var j := 1 + |name|;
    assert s[0..1] == "@" && s[j..] == rest;
    assert forall k :: 1 <= k < j ==> s[k] == name[k - 1];
    LitIntro("@", s, 0, |s|);
    AltRun(MENTION.alts[0], s, 0, j, |s|);
    assert MatchAt(MENTION, s, 0, |s|) == Some(Hit(MENTION.alts[0], j));
    SubFirstMatch(MENTION, s, Hit(MENTION.alts[0], j));
  }

  /** The rewrites turn a mention word into `@user`: the URL rewrite leaves
      word characters after the `@`, and the mention rewrite replaces them. */
  lemma MentionRewritten(name: string)
    requires |name| > 0 && AllWordChars(name)
    ensures Sub(HASHTAG, Sub(MENTION, Sub(URL, "@" + name))) == "@user"
  {
    UrlStarts('@');
    SubSkip(URL, "@", name);
    var u := Sub(URL, name);
    SubKeepsWordChars(URL, name);
    SubNonEmpty(URL, name);
    assert Sub(URL, "@" + name) == "@" + u;
    MentionReplaced(u, "");
    assert "@" + u + "" == "@" + u;
    assert Sub(MENTION, "") == "";
    assert Sub(MENTION, "@" + u) == "@user";
    NoHashtagKept("@user");
    assert Sub(HASHTAG, "@user") == "@user";
  }

  /** Punctuation removal then drops the `@`. */
  lemma AtUserUnpunctuated()
    ensures RemovePunct("@user") == "user"
  {
    assert "@user" == "@" + "user";
    RemovePunctAppend("@", "user");
    RemovePunctKeeps("user");
  }

  /** A mention word cleans to `user`. */
  lemma MentionCleaned(name: string)
    requires |name| > 0 && AllWordChars(name)
    ensures CleanWord("@" + name) == "user"
  {
    MentionRewritten(name);
    AtUserUnpunctuated();
  }

  /** A lone `@` (no word character after it) is kept. */
  lemma LoneAtKept(rest: string)
    requires rest == [] || !IsWordChar(rest[0])
    ensures Sub(MENTION, "@" + rest) == "@" + Sub(MENTION, rest)
  {
    var s := "@" + rest;
    assert MatchAt(MENTION, s, 0, |s|) == None;
    SubCopyStep(MENTION, s, 0, |s|);
    SubRangeSlice(MENTION, s, 1, |s|);
    assert s[1..|s|] == rest;
  }

  /** `#word` becomes `word`; the word ends at the first non-word character. */
  lemma HashtagReplaced(word: string, rest: string)
    requires |word| > 0 && forall k :: 0 <= k < |word| ==> IsWordChar(word[k])
    requires rest == [] || !IsWordChar(rest[0])
    ensures Sub(HASHTAG, "#" + word + rest) == word + Sub(HASHTAG, rest)
  {
    var s := "#" + word + rest;
    var j := 1 + |word|;
    assert s[0..1] == "#" && s[j..] == rest && s[1..j] == word;
    assert forall k :: 1 <= k < j ==> s[k] == word[k - 1];
    LitIntro("#", s, 0, |s|);
    AltRun(HASHTAG.alts[0], s, 0, j, |s|);
    assert MatchAt(HASHTAG, s, 0, |s|) == Some(Hit(HASHTAG.alts[0], j));
    SubFirstMatch(HASHTAG, s, Hit(HASHTAG.alts[0], j));
  }

  // ---------------------------------------------------------------------
  // Whitespace: `re.sub(r'\s+', ' ', t).strip()`
  // ---------------------------------------------------------------------

  /** Every whitespace character is a plain space and none follows another. */
  predicate SingleSpaced(s: string) {
    forall i :: 0 <= i < |s| && IsSpace(s[i]) ==> s[i] == ' ' && (i + 1 < |s| ==> !IsSpace(s[i + 1]))
  }

  lemma ConsSingleSpaced(c: char, x: string)
    requires SingleSpaced(x)
    requires IsSpace(c) ==> c == ' ' && (x == [] || !IsSpace(x[0]))
    ensures SingleSpaced([c] + x)
  {
    var s := [c] + x;
    forall i | 0 <= i < |s| && IsSpace(s[i])
      ensures s[i] == ' ' && (i + 1 < |s| ==> !IsSpace(s[i + 1]))
    {
      if i > 0 {
        assert s[i] == x[i - 1];
        if i + 1 < |s| { assert s[i + 1] == x[i]; }
      }
    }
  }

  /** After `\s+` is replaced by one space the text is single-spaced, and it
      starts with whitespace exactly when the input does. */
  lemma {:induction false} CollapseRange(s: string, i: nat, end: nat)
    requires i <= end <= |s|
    ensures SingleSpaced(SubRange(WHITESPACE, s, i, end))
    ensures (i < end ==> (|SubRange(WHITESPACE, s, i, end)| > 0 &&
                          (IsSpace(SubRange(WHITESPACE, s, i, end)[0]) <==> IsSpace(s[i]))))
    decreases end - i
  {
    if i < end {
      WhitespaceMatch(s, i, end);
      assert SubRange(WHITESPACE, s, i, end) == SubAt(WHITESPACE, s, i, end);
      match MatchAt(WHITESPACE, s, i, end)
      case None =>
        CollapseRange(s, i + 1, end);
        ConsSingleSpaced(s[i], SubRange(WHITESPACE, s, i + 1, end));
      case Some(h) =>
        CollapseRange(s, i + h.len, end);
        ConsSingleSpaced(' ', SubRange(WHITESPACE, s, i + h.len, end));
    }
  }

  lemma CollapseSingleSpaced(s: string)
    ensures SingleSpaced(Sub(WHITESPACE, s))
  {
    CollapseRange(s, 0, |s|);
  }

  /** Single-spaced text is left as it is by the whitespace rewrite. */
  lemma {:induction false} CollapseKeepsRange(s: string, i: nat)
    requires i <= |s| && SingleSpaced(s)
    ensures SubRange(WHITESPACE, s, i, |s|) == s[i..]
    decreases |s| - i
  {
    if i < |s| {
      WhitespaceMatch(s, i, |s|);
      assert SubRange(WHITESPACE, s, i, |s|) == SubAt(WHITESPACE, s, i, |s|);
      match MatchAt(WHITESPACE, s, i, |s|)
      case None =>
        CollapseKeepsRange(s, i + 1);
        SliceCons(s, i, |s|);
      case Some(h) =>
        assert i + 1 < |s| ==> !IsSpace(s[i + 1]);
        CollapseKeepsRange(s, i + 1);
        SliceCons(s, i, |s|);
    }
  }

  lemma CollapseKeeps(s: string)
    requires SingleSpaced(s)
    ensures Sub(WHITESPACE, s) == s
  {
    CollapseKeepsRange(s, 0);
    assert s[0..] == s;
  }

  /** Collapsing whitespace is idempotent. */
  lemma CollapseIdempotent(s: string)
    ensures Sub(WHITESPACE, Sub(WHITESPACE, s)) == Sub(WHITESPACE, s)
  {
    CollapseSingleSpaced(s);
    CollapseKeeps(Sub(WHITESPACE, s));
  }

  /** `str.lstrip()`: drop the leading whitespace. */
  function TrimStart(s: string): (r: string)
    ensures |r| <= |s| && r == s[|s| - |r|..]
    ensures r == [] || !IsSpace(r[0])
    ensures forall i :: 0 <= i < |s| - |r| ==> IsSpace(s[i])
  {
    SpanFacts(s, 0, |s|, Space);
    s[Span(s, 0, |s|, Space)..]
  }

  /** `str.rstrip()`: drop the trailing whitespace. */
  function TrimEnd(s: string): (r: string)
    ensures |r| <= |s| && r == s[..|r|]
    ensures r == [] || !IsSpace(r[|r| - 1])
    ensures forall i :: |r| <= i < |s| ==> IsSpace(s[i])
  {
    if |s| > 0 && IsSpace(s[|s| - 1]) then TrimEnd(s[..|s| - 1]) else s
  }

  /** `r` is the stretch of `s` starting at `a`, and everything of `s`
      around that stretch is whitespace. */
  predicate StrippedAt(s: string, a: nat, r: string) {
    && a + |r| <= |s|
    && r == s[a..a + |r|]
    && (forall k :: 0 <= k < a ==> IsSpace(s[k]))
    && (forall k :: a + |r| <= k < |s| ==> IsSpace(s[k]))
  }

  /** `str.strip()`: the text without its leading and trailing whitespace.
      Only whitespace is removed, and what is left has none at either end. */
  function Strip(s: string): (r: string)
    ensures r == [] || (!IsSpace(r[0]) && !IsSpace(r[|r| - 1]))
    ensures exists a :: StrippedAt(s, a, r)
    ensures forall c :: c in r ==> c in s
    ensures forall c :: c in s && !IsSpace(c) ==> c in r
  {
    var t := TrimStart(s);
    var r := TrimEnd(t);
    StripSpan(s, |s| - |t|, t, r);
    StripChars(s, |s| - |t|, r);
    r
  }

  /** Trimming the front to `t`, then the back to `r`, leaves `r` as a
      stretch of `s` with only whitespace around it. */
  lemma StripSpan(s: string, a: nat, t: string, r: string)
    requires a + |t| == |s| && t == s[a..] && forall i :: 0 <= i < a ==> IsSpace(s[i])
    requires |r| <= |t| && r == t[..|r|] && forall i :: |r| <= i < |t| ==> IsSpace(t[i])
    ensures StrippedAt(s, a, r)
  {
    assert forall k :: 0 <= k < |t| ==> t[k] == s[a + k];
    assert forall k :: a + |r| <= k < |s| ==> s[k] == t[k - a];
  }

  /** Around a stripped stretch there is only whitespace, so every other
      character is in the stretch. */
  lemma StripChars(s: string, a: nat, r: string)
    requires StrippedAt(s, a, r)
    ensures forall c :: c in r ==> c in s
    ensures forall c :: c in s && !IsSpace(c) ==> c in r
  {
    assert forall k :: 0 <= k < |r| ==> r[k] == s[a + k];
    assert forall k :: 0 <= k < |s| && !IsSpace(s[k]) ==> s[k] == r[k - a];
  }

  /** Text without whitespace at either end is left alone by `strip`. */
  lemma StripKeeps(s: string)
    requires s == [] || (!IsSpace(s[0]) && !IsSpace(s[|s| - 1]))
    ensures Strip(s) == s
  {
    assert s[0..] == s;
  }

  // ---------------------------------------------------------------------
  // Punctuation: `t.translate(str.maketrans('', '', string.punctuation))`
  // ---------------------------------------------------------------------

  /** Deletes every character of `string.punctuation`, keeping the rest in order. */
  function RemovePunct(s: string): (r: string)
    ensures |r| <= |s|
  {
    if |s| == 0 then ""
    else if IsPunctuation(s[0]) then RemovePunct(s[1..])
    else [s[0]] + RemovePunct(s[1..])
  }

  /** The characters left are exactly the input's non-punctuation characters. */
  lemma {:induction false} RemovePunctChars(s: string)
    ensures forall c :: c in RemovePunct(s) <==> c in s && !IsPunctuation(c)
  {
    if |s| > 0 {
      RemovePunctChars(s[1..]);
      assert s == [s[0]] + s[1..];
    }
  }

  lemma {:induction false} RemovePunctAppend(a: string, b: string)
    ensures RemovePunct(a + b) == RemovePunct(a) + RemovePunct(b)
  {
    if |a| > 0 {
      assert (a + b)[1..] == a[1..] + b;
      RemovePunctAppend(a[1..], b);
    } else {
      assert a + b == b;
    }
  }

  /** Text without punctuation is left alone. */
  lemma {:induction false} RemovePunctKeeps(s: string)
    requires forall i :: 0 <= i < |s| ==> !IsPunctuation(s[i])
    ensures RemovePunct(s) == s
  {
    if |s| > 0 {
      RemovePunctKeeps(s[1..]);
      assert [s[0]] + s[1..] == s;
    }
  }

  // ---------------------------------------------------------------------
  // clean_tweet
  // ---------------------------------------------------------------------

  /** `clean_tweet`: lower-case, rewrite URLs, mentions and hashtags,
      collapse and trim whitespace, then delete punctuation. */
  function CleanTweet(tweet: string): string {
    var lowered := Lower(tweet);
    var noUrls := Sub(URL, lowered);
    var noMentions := Sub(MENTION, noUrls);
    var noTags := Sub(HASHTAG, noMentions);
    var collapsed := Sub(WHITESPACE, noTags);
    var trimmed := Strip(collapsed);
    RemovePunct(trimmed)
  }

  /** The cleaned text has no punctuation and no upper-case letter, so
      lower-casing it again changes nothing: every rewrite after the first
      step inserts only lower-case text. */
  lemma CleanTweetChars(tweet: string)
    ensures forall c :: c in CleanTweet(tweet) ==> c !in PUNCTUATION && !IsUpper(c)
    ensures Lower(CleanTweet(tweet)) == CleanTweet(tweet)
  {
    var lowered := Lower(tweet);
    var noUrls := Sub(URL, lowered);
    var noMentions := Sub(MENTION, noUrls);
    var noTags := Sub(HASHTAG, noMentions);
    var collapsed := Sub(WHITESPACE, noTags);
    var trimmed := Strip(collapsed);
    PatternFacts();
    SubKeepsLowerCase(URL, lowered);
    SubKeepsLowerCase(MENTION, noUrls);
    SubKeepsLowerCase(HASHTAG, noMentions);
    SubKeepsLowerCase(WHITESPACE, noTags);
    RemovePunctChars(trimmed);
    CleanChars(collapsed, trimmed, RemovePunct(trimmed));
  }

  // ---------------------------------------------------------------------
  // clean_tweet on words separated by single spaces
  // ---------------------------------------------------------------------

  /** Non-empty words without whitespace. */
  predicate Words(ws: seq<string>) {
    forall k :: 0 <= k < |ws| ==> ws[k] != "" && NoSpace(ws[k])
  }

  lemma SpacedJoin(a: string, b: string)
    requires a != "" && NoSpace(a) && SingleSpaced(b) && b != [] && !IsSpace(b[0])
    ensures SingleSpaced(a + [' '] + b)
  {
    var s := a + [' '] + b;
    forall i | 0 <= i < |s| && IsSpace(s[i])
      ensures s[i] == ' ' && (i + 1 < |s| ==> !IsSpace(s[i + 1]))
    {
      if i == |a| {
        assert s[i + 1] == b[0];
      } else if i > |a| {
        assert s[i] == b[i - |a| - 1];
        if i + 1 < |s| {
          assert s[i + 1] == b[i - |a|];
        }
      }
    }
  }

  /** Words joined by single spaces make single-spaced text with no
      whitespace at either end. */
  lemma {:induction false} JoinWords(ws: seq<string>)
    requires |ws| > 0 && Words(ws)
    ensures Join(" ", ws) != [] && SingleSpaced(Join(" ", ws))
    ensures !IsSpace(Join(" ", ws)[0]) && !IsSpace(Join(" ", ws)[|Join(" ", ws)| - 1])
  {
    if |ws| > 1 {
      JoinWords(ws[1..]);
      var b := Join(" ", ws[1..]);
      assert Join(" ", ws) == ws[0] + [' '] + b;
      SpacedJoin(ws[0], b);
      assert (ws[0] + [' '] + b)[0] == ws[0][0];
      assert (ws[0] + [' '] + b)[|ws[0]| + 1 + |b| - 1] == b[|b| - 1];
    }
  }

  /** `RemovePunct` of each word. */
  function RemovePunctWords(ws: seq<string>): (r: seq<string>)
    ensures |r| == |ws|
    ensures forall k :: 0 <= k < |ws| ==> r[k] == RemovePunct(ws[k])
  {
    if |ws| == 0 then [] else [RemovePunct(ws[0])] + RemovePunctWords(ws[1..])
  }

  /** Punctuation removal keeps the separating spaces and acts on each word. */
  lemma {:induction false} RemovePunctJoin(ws: seq<string>)
    ensures RemovePunct(Join(" ", ws)) == Join(" ", RemovePunctWords(ws))
  {
    if |ws| > 1 {
      RemovePunctJoin(ws[1..]);
      RemovePunctAppend(ws[0] + " ", Join(" ", ws[1..]));
      RemovePunctAppend(ws[0], " ");
      assert RemovePunct(" ") == " ";
      assert RemovePunctWords(ws)[1..] == RemovePunctWords(ws[1..]);
    }
  }

  /** The URL, mention and hashtag rewrites turn words into words. */
  lemma SubWordsKeepWords(p: Pattern, ws: seq<string>)
    requires Words(ws) && SpaceFreeRepl(p) && (p.repl.Literal? ==> p.repl.text != [])
    ensures Words(SubWords(p, ws))
  {
    forall k | 0 <= k < |ws|
      ensures SubWords(p, ws)[k] != "" && NoSpace(SubWords(p, ws)[k])
    {
      SubKeepsNoSpace(p, ws[k]);
      SubNonEmpty(p, ws[k]);
    }
  }

  lemma {:induction false} JoinNoUpper(ws: seq<string>)
    requires forall k :: 0 <= k < |ws| ==> NoUpper(ws[k])
    ensures NoUpper(Join(" ", ws))
  {
    if |ws| > 1 {
      JoinNoUpper(ws[1..]);
      var a, b := ws[0], Join(" ", ws[1..]);
      assert Join(" ", ws) == a + " " + b;
      forall i | 0 <= i < |a + " " + b|
        ensures !IsUpper((a + " " + b)[i])
      {
        if i < |a| {
          assert (a + " " + b)[i] == a[i];
        } else if i > |a| {
          assert (a + " " + b)[i] == b[i - |a| - 1];
        }
      }
    }
  }

  /** What `clean_tweet` makes of each word of single-spaced text. */
  function CleanWords(ws: seq<string>): seq<string> {
    RemovePunctWords(SubWords(HASHTAG, SubWords(MENTION, SubWords(URL, ws))))
  }

  /** What `clean_tweet` makes of one word of single-spaced text. */
  function CleanWord(w: string): string {
    RemovePunct(Sub(HASHTAG, Sub(MENTION, Sub(URL, w))))
  }

  lemma CleanWordsEach(ws: seq<string>, out: seq<string>)
    requires |out| == |ws| && forall k :: 0 <= k < |ws| ==> out[k] == CleanWord(ws[k])
    ensures CleanWords(ws) == out
  {
  }

  /** Words joined by single spaces are left as they are by the whitespace
      collapse and the strip. */
  lemma WhitespaceKeepsWords(h: seq<string>)
    requires |h| > 0 && Words(h)
    ensures Strip(Sub(WHITESPACE, Join(" ", h))) == Join(" ", h)
  {
    JoinWords(h);
    CollapseKeeps(Join(" ", h));
    StripKeeps(Join(" ", h));
  }

  /** The whitespace and punctuation steps of `clean_tweet` once the three
      rewrites have left words separated by single spaces. */
  lemma CleanTweetTail(t: string, h: seq<string>)
    requires NoUpper(t) && |h| > 0 && Words(h)
    requires Sub(HASHTAG, Sub(MENTION, Sub(URL, t))) == Join(" ", h)
    ensures CleanTweet(t) == Join(" ", RemovePunctWords(h))
  {
    assert Lower(t) == t;
    WhitespaceKeepsWords(h);
    RemovePunctJoin(h);
  }

  /** The URL, mention and hashtag rewrites of words separated by single
      spaces act on each word and leave words. */
  lemma RewritesWords(ws: seq<string>)
    requires Words(ws)
    ensures Words(SubWords(HASHTAG, SubWords(MENTION, SubWords(URL, ws))))
    ensures Sub(HASHTAG, Sub(MENTION, Sub(URL, Join(" ", ws))))
         == Join(" ", SubWords(HASHTAG, SubWords(MENTION, SubWords(URL, ws))))
  {
    PatternFacts();
    SubJoin(URL, ws);
    var u := SubWords(URL, ws);
    SubWordsKeepWords(URL, ws);
    SubJoin(MENTION, u);
    var m := SubWords(MENTION, u);
    SubWordsKeepWords(MENTION, u);
    SubJoin(HASHTAG, m);
    SubWordsKeepWords(HASHTAG, m);
  }

  /** On lower-case words separated by single spaces, `clean_tweet` rewrites
      each word on its own and keeps the separating spaces. */
  lemma CleanTweetWords(ws: seq<string>)
    requires |ws| > 0 && Words(ws) && forall k :: 0 <= k < |ws| ==> NoUpper(ws[k])
    ensures CleanTweet(Join(" ", ws)) == Join(" ", CleanWords(ws))
  {
    JoinNoUpper(ws);
    RewritesWords(ws);
    CleanTweetTail(Join(" ", ws), SubWords(HASHTAG, SubWords(MENTION, SubWords(URL, ws))));
  }

  // ---------------------------------------------------------------------
  // Worked examples
  // ---------------------------------------------------------------------

  /** Text with no `h` and no `w` has no URL in it. */
  lemma NoUrlKept(w: string)
    requires forall k :: 0 <= k < |w| ==> w[k] != 'h' && w[k] != 'w'
    ensures Sub(URL, w) == w
  {
    forall k | 0 <= k < |w|
      ensures !CanStart(URL, w[k])
    {
      UrlStarts(w[k]);
    }
    SubNoStart(URL, w);
  }

  /** Text with no `@` has no mention in it. */
  lemma NoMentionKept(w: string)
    requires forall k :: 0 <= k < |w| ==> w[k] != '@'
    ensures Sub(MENTION, w) == w
  {
    forall k | 0 <= k < |w|
      ensures !CanStart(MENTION, w[k])
    {
      MentionStarts(w[k]);
    }
    SubNoStart(MENTION, w);
  }

  /** Text with no `#` has no hashtag in it. */
  lemma NoHashtagKept(w: string)
    requires forall k :: 0 <= k < |w| ==> w[k] != '#'
    ensures Sub(HASHTAG, w) == w
  {
    forall k | 0 <= k < |w|
      ensures !CanStart(HASHTAG, w[k])
    {
      HashtagStarts(w[k]);
    }
    SubNoStart(HASHTAG, w);
  }

  /** Text in which no `h` is followed by `t` and no `w` by `w` holds no URL. */
  lemma UrlFreeKept(w: string)
    requires forall k :: 0 <= k < |w| - 1 && w[k] == 'h' ==> w[k + 1] != 't'
    requires forall k :: 0 <= k < |w| - 1 && w[k] == 'w' ==> w[k + 1] != 'w'
    ensures Sub(URL, w) == w
  {
    forall k | 0 <= k < |w|
      ensures MatchAt(URL, w, k, |w|) == None
    {
      UrlMatchExtent(w, k, |w|);
      if LitAt("http", w, k, |w|) {
        LitHead("http", w, k, |w|);
        assert false;
      }
      if LitAt("www", w, k, |w|) {
        LitHead("www", w, k, |w|);
        assert false;
      }
    }
    SubNoMatch(URL, w);
  }

  /** A lower-case word without URL, mention, hashtag or punctuation is
      kept as it is. */
  lemma PlainWordKept(w: string)
    requires forall k :: 0 <= k < |w| ==> 'a' <= w[k] <= 'z'
    requires forall k :: 0 <= k < |w| - 1 && w[k] == 'h' ==> w[k + 1] != 't'
    requires forall k :: 0 <= k < |w| - 1 && w[k] == 'w' ==> w[k + 1] != 'w'
    ensures CleanWord(w) == w
  {
    UrlFreeKept(w);
    NoMentionKept(w);
    NoHashtagKept(w);
    RemovePunctKeeps(w);
  }

  // `"check this out http://x.co @bob #great!!"`, word by word.

  lemma ExampleUrlRewritten()
    ensures Sub(URL, "http://x.co") == "http"
  {
    var w := "http://x.co";
    assert w[..4] == "http";
    assert NoSpace(w);
    UrlWordReplaced(w);
  }

  /** `http` alone is too short to be a URL: `http\S+` needs one more character. */
  lemma ExampleHttpKept()
    ensures CleanWord("http") == "http"
    ensures RemovePunct(Sub(HASHTAG, Sub(MENTION, "http"))) == "http"
  {
    var w := "http";
    forall k | 0 <= k < |w|
      ensures MatchAt(URL, w, k, |w|) == None
    {
      UrlMatchExtent(w, k, |w|);
    }
    SubNoMatch(URL, w);
    NoMentionKept(w);
    NoHashtagKept(w);
    RemovePunctKeeps(w);
  }

  lemma ExampleUrl()
    ensures CleanWord("http://x.co") == "http"
  {
    ExampleUrlRewritten();
    ExampleHttpKept();
  }

  lemma ExampleHashtagRewritten()
    ensures Sub(HASHTAG, Sub(MENTION, Sub(URL, "#great!!"))) == "great!!"
  {
    NoUrlKept("#great!!");
    NoMentionKept("#great!!");
    assert "#great!!" == "#" + "great" + "!!";
    HashtagReplaced("great", "!!");
    NoHashtagKept("!!");
  }

  lemma ExampleHashtag()
    ensures CleanWord("#great!!") == "great"
  {
    ExampleHashtagRewritten();
    assert "great!!" == "great" + "!!";
    RemovePunctAppend("great", "!!");
    RemovePunctKeeps("great");
    assert RemovePunct("!!") == "";
  }

  lemma ExampleWords()
    ensures CleanWords(["check", "this", "out", "http://x.co", "@bob", "#great!!"])
         == ["check", "this", "out", "http", "user", "great"]
  {
    PlainWordKept("check");
    PlainWordKept("this");
    PlainWordKept("out");
    ExampleUrl();
    assert "@bob" == "@" + "bob";
    MentionCleaned("bob");
    ExampleHashtag();
    CleanWordsEach(["check", "this", "out", "http://x.co", "@bob", "#great!!"],
                   ["check", "this", "out", "http", "user", "great"]);
  }

  /** A non-empty word without spaces or capitals, as the example's words are. */
  lemma ExampleWordShape(w: string)
    requires |w| > 0 && forall k :: 0 <= k < |w| ==> !IsSpace(w[k]) && !IsUpper(w[k])
    ensures w != "" && NoSpace(w) && NoUpper(w)
  {
  }

  lemma ExampleShape()
    ensures var ws := ["check", "this", "out", "http://x.co", "@bob", "#great!!"];
            Words(ws) && forall k :: 0 <= k < |ws| ==> NoUpper(ws[k])
  {
    var ws := ["check", "this", "out", "http://x.co", "@bob", "#great!!"];
    forall k | 0 <= k < |ws|
      ensures ws[k] != "" && NoSpace(ws[k]) && NoUpper(ws[k])
    {
      ExampleWordShape(ws[k]);
    }
  }

  lemma ExampleJoinFirst()
    ensures Join(" ", ["check", "this", "out"]) == "check this out"
  {
  }

  lemma ExampleJoinRest()
    ensures Join(" ", ["http://x.co", "@bob"]) == "http://x.co @bob"
    ensures Join(" ", ["http", "user", "great"]) == "http user great"
  {
  }

  lemma ExampleGlueIn()
    ensures "check this out" + " " + "http://x.co @bob" == "check this out http://x.co @bob"
  {
  }

  lemma ExampleGlueTag()
    ensures "check this out http://x.co @bob" + " " + "#great!!" == "check this out http://x.co @bob #great!!"
  {
  }

  lemma ExampleGlueOut()
    ensures "check this out" + " " + "http user great" == "check this out http user great"
  {
  }

  lemma ExampleJoinIn()
    ensures Join(" ", ["check", "this", "out", "http://x.co", "@bob", "#great!!"])
         == "check this out http://x.co @bob #great!!"
  {
    var a, b, c := ["check", "this", "out"], ["http://x.co", "@bob"], ["#great!!"];
    assert a + b + c == ["check", "this", "out", "http://x.co", "@bob", "#great!!"];
    JoinAppend(" ", a, b);
    JoinAppend(" ", a + b, c);
    ExampleJoinFirst();
    ExampleJoinRest();
    ExampleGlueIn();
    ExampleGlueTag();
  }

  lemma ExampleJoinOut()
    ensures Join(" ", ["check", "this", "out", "http", "user", "great"]) == "check this out http user great"
  {
    var a, b := ["check", "this", "out"], ["http", "user", "great"];
    assert a + b == ["check", "this", "out", "http", "user", "great"];
    JoinAppend(" ", a, b);
    ExampleJoinFirst();
    ExampleJoinRest();
    ExampleGlueOut();
  }

  /** The URL becomes `http`, the mention `user` (its `@` is punctuation),
      and the hashtag keeps its word without the `#` and the `!!`. */
  lemma CleanTweetExample()
    ensures CleanTweet("check this out http://x.co @bob #great!!") == "check this out http user great"
  {
    ExampleShape();
    ExampleWords();
    ExampleJoinIn();
    ExampleJoinOut();
    CleanTweetWords(["check", "this", "out", "http://x.co", "@bob", "#great!!"]);
  }

  // `"hi !"`, word by word.

  lemma NotTrimmedWords()
    ensures CleanWord("hi") == "hi" && CleanWord("!") == ""
  {
    assert MatchAt(URL, "hi", 0, 2) == None && MatchAt(URL, "hi", 1, 2) == None;
    SubNoMatch(URL, "hi");
    NoMentionKept("hi");
    NoHashtagKept("hi");
    RemovePunctKeeps("hi");
    NoUrlKept("!");
    NoMentionKept("!");
    NoHashtagKept("!");
  }

  lemma NotTrimmedShape()
    ensures Words(["hi", "!"]) && NoUpper("hi") && NoUpper("!")
  {
  }

  lemma NotTrimmedFacts()
    ensures CleanWords(["hi", "!"]) == ["hi", ""]
  {
    NotTrimmedWords();
    CleanWordsEach(["hi", "!"], ["hi", ""]);
  }

  lemma NotTrimmedJoins()
    ensures Join(" ", ["hi", "!"]) == "hi !" && Join(" ", ["hi", ""]) == "hi "
  {
  }

  /** Whitespace is trimmed before punctuation goes, so a deleted punctuation
      character can leave a trailing space. */
  lemma CleanTweetNotTrimmed()
    ensures CleanTweet("hi !") == "hi "
  {
    NotTrimmedShape();
    NotTrimmedFacts();
    NotTrimmedJoins();
    CleanTweetWords(["hi", "!"]);
  }

  lemma CleanChars(collapsed: string, trimmed: string, r: string)
    requires NoUpper(collapsed)
    requires forall c :: c in trimmed ==> c in collapsed
    requires forall c :: c in r <==> c in trimmed && !IsPunctuation(c)
    ensures forall c :: c in r ==> c !in PUNCTUATION && !IsUpper(c)
    ensures Lower(r) == r
  {
    forall c | c in r
      ensures c !in PUNCTUATION && !IsUpper(c)
    {
      PunctuationRanges(c);
    }
    assert NoUpper(r) by {
      forall k | 0 <= k < |r|
        ensures !IsUpper(r[k])
      {
        assert r[k] in r;
      }
    }
  }
}
