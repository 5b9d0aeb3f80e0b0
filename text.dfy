/** Character classes and the Python string operations the pipeline relies on,
    restricted to ASCII: `str.lower()`, `str.split()`, `str.split(" ")`,
    `sep.join(parts)` and `str.startswith`. */
module Text {

  /** Python's `\s` and `str.isspace()` on ASCII: space, `\t \n \v \f \r`
      and the four separators `\x1c`..`\x1f`. */
  predicate IsSpace(c: char) {
    c == ' ' || ('\t' <= c <= '\r') || ('\U{1C}' <= c <= '\U{1F}')
  }

  predicate IsUpper(c: char) {
    'A' <= c <= 'Z'
  }

  /** Python's `\w` on ASCII: letters, digits and the underscore. */
  predicate IsWordChar(c: char) {
    ('a' <= c <= 'z') || ('A' <= c <= 'Z') || ('0' <= c <= '9') || c == '_'
  }

  /** Python's `string.punctuation`, character for character. */
  const PUNCTUATION: string := "!\"#$%&'()*+,-./:;<=>?@[\\]^_`{|}~"

  /** Membership in `PUNCTUATION`, written as the four ASCII ranges it covers. */
  predicate IsPunctuation(c: char) {
    ('!' <= c <= '/') || (':' <= c <= '@') || ('[' <= c <= '`') || ('{' <= c <= '~')
  }

  /** Membership in a string of consecutive characters is a range test. */
  lemma InConsecutive(c: char, seg: string)
    requires |seg| > 0
    requires forall k :: 0 <= k < |seg| ==> seg[k] as int == seg[0] as int + k
    ensures c in seg <==> seg[0] <= c && c as int < seg[0] as int + |seg|
  {
    if seg[0] <= c && c as int < seg[0] as int + |seg| {
      assert seg[c as int - seg[0] as int] == c;
    }
  }

  lemma PunctuationRanges(c: char)
    ensures IsPunctuation(c) <==> c in PUNCTUATION
  {
    var p1, p2, p3, p4 := "!\"#$%&'()*+,-./", ":;<=>?@", "[\\]^_`", "{|}~";
    assert PUNCTUATION == p1 + p2 + p3 + p4;
    InConsecutive(c, p1);
    InConsecutive(c, p2);
    InConsecutive(c, p3);
    InConsecutive(c, p4);
  }

  /** The regular-expression character classes the cleaning step uses. */
  datatype CharClass = Space | NonSpace | Word

  predicate InClass(cls: CharClass, c: char) {
    match cls
    case Space => IsSpace(c)
    case NonSpace => !IsSpace(c)
    case Word => IsWordChar(c)
  }

  /** Length of the longest run of `cls` characters in `s[i..end]` that
      starts at `i`: what a greedy `[cls]*` consumes there. */
  function Span(s: string, i: nat, end: nat, cls: CharClass): (n: nat)
    requires i <= end <= |s|
    ensures i + n <= end
    decreases end - i
  {
    if i < end && InClass(cls, s[i]) then 1 + Span(s, i + 1, end, cls) else 0
  }

  /** The run is maximal: every character in it is in the class, and the
      character that ends it (if any before `end`) is not. */
  lemma {:induction false} SpanFacts(s: string, i: nat, end: nat, cls: CharClass)
    requires i <= end <= |s|
    ensures forall k :: i <= k < i + Span(s, i, end, cls) ==> InClass(cls, s[k])
    ensures i + Span(s, i, end, cls) < end ==> !InClass(cls, s[i + Span(s, i, end, cls)])
    decreases end - i
  {
    if i < end && InClass(cls, s[i]) {
      SpanFacts(s, i + 1, end, cls);
    }
  }

  /** A stretch made only of class characters is consumed completely. */
  lemma {:induction false} SpanAll(s: string, i: nat, end: nat, cls: CharClass)
    requires i <= end <= |s|
    requires forall k :: i <= k < end ==> InClass(cls, s[k])
    ensures Span(s, i, end, cls) == end - i
    decreases end - i
  {
    if i < end {
      SpanAll(s, i + 1, end, cls);
    }
  }

  /** A run stops at the first character outside its class, whatever follows. */
  lemma {:induction false} SpanStops(s: string, i: nat, j: nat, end: nat, cls: CharClass)
    requires i <= j < end <= |s| && !InClass(cls, s[j])
    ensures Span(s, i, end, cls) == Span(s, i, j, cls)
    decreases j - i
  {
    if i < j && InClass(cls, s[i]) {
      SpanStops(s, i + 1, j, end, cls);
    }
  }

  /** `t[j..]` starts with the characters of `s[i..end]`. */
  predicate SameText(s: string, i: nat, end: nat, t: string, j: nat)
    requires i <= end <= |s|
    decreases end - i
  {
    j + (end - i) <= |t| && (i == end || (s[i] == t[j] && SameText(s, i + 1, end, t, j + 1)))
  }

  lemma {:induction false} SameTextAt(s: string, i: nat, end: nat, t: string, j: nat, d: nat)
    requires i + d <= end <= |s| && SameText(s, i, end, t, j)
    ensures SameText(s, i + d, end, t, j + d)
    ensures i + d < end ==> s[i + d] == t[j + d]
    decreases d
  {
    if d > 0 {
      SameTextAt(s, i + 1, end, t, j + 1, d - 1);
    }
  }

  /** The first `d` characters agree position by position. */
  lemma {:induction false} SameTextIntroBack(s: string, i: nat, end: nat, t: string, j: nat, d: nat)
    requires i + d <= end <= |s| && SameText(s, i, end, t, j)
    ensures forall k :: i <= k < i + d ==> s[k] == t[k - i + j]
    decreases d
  {
    if d > 0 {
      SameTextIntroBack(s, i + 1, end, t, j + 1, d - 1);
    }
  }

  /** `s[i..end]` reads the same as the slice `s[i..end]`. */
  lemma SameTextSelf(s: string, i: nat, end: nat)
    requires i <= end <= |s|
    ensures SameText(s, i, end, s[i..end], 0)
  {
    SameTextIntro(s, i, end, s[i..end], 0);
  }

  lemma SameTextSlice(s: string, i: nat, end: nat, t: string, j: nat, a: nat, b: nat)
    requires a <= b && i + b <= end <= |s| && SameText(s, i, end, t, j)
    ensures j + b <= |t| && s[i + a..i + b] == t[j + a..j + b]
  {
    SameTextIntroBack(s, i, end, t, j, b);
  }

  lemma {:induction false} SameTextIntro(s: string, i: nat, end: nat, t: string, j: nat)
    requires i <= end <= |s| && j + (end - i) <= |t|
    requires forall k :: i <= k < end ==> s[k] == t[k - i + j]
    ensures SameText(s, i, end, t, j)
    decreases end - i
  {
    if i < end {
      SameTextIntro(s, i + 1, end, t, j + 1);
    }
  }

  /** A run depends only on the characters it looks at. */
  lemma {:induction false} SpanShift(s: string, i: nat, end: nat, t: string, j: nat, cls: CharClass)
    requires i <= end <= |s| && SameText(s, i, end, t, j)
    ensures Span(s, i, end, cls) == Span(t, j, j + (end - i), cls)
    decreases end - i
  {
    if i < end {
      SameTextAt(s, i, end, t, j, 1);
      SpanShift(s, i + 1, end, t, j + 1, cls);
    }
  }

  /** Concatenation regrouped, kept apart so that callers rewrite with it
      instead of reasoning about sequence extensionality. */
  lemma AppendAssoc<T>(a: seq<T>, b: seq<T>, c: seq<T>)
    ensures a + (b + c) == (a + b) + c
  {
  }

  lemma AppendAround<T>(r: seq<T>, a: seq<T>, c: T, b: seq<T>)
    ensures r + (a + [c] + b) == (r + a) + [c] + b
  {
  }

  lemma AppendEmpty<T>(c: T, b: seq<T>)
    ensures [] + [c] + b == [c] + b
  {
  }

  lemma SliceCons<T>(s: seq<T>, i: nat, j: nat)
    requires i < j <= |s|
    ensures s[i..j] == [s[i]] + s[i + 1..j]
  {
  }

  predicate StartsWith(s: string, prefix: string) {
    |prefix| <= |s| && s[..|prefix|] == prefix
  }

  function LowerChar(c: char): char {
    if IsUpper(c) then (c as int + 32) as char else c
  }

  predicate NoUpper(s: string) {
    forall i :: 0 <= i < |s| ==> !IsUpper(s[i])
  }

  /** `str.lower()` on ASCII text. */
  function Lower(s: string): (r: string)
    ensures |r| == |s|
    ensures NoUpper(r)
    ensures NoUpper(s) ==> r == s
    ensures forall i :: 0 <= i < |s| && !IsUpper(s[i]) ==> r[i] == s[i]
  {
    seq(|s|, i requires 0 <= i < |s| => LowerChar(s[i]))
  }

  /** Every character is a `\w` character. */
  predicate AllWordChars(s: string) {
    forall i :: 0 <= i < |s| ==> IsWordChar(s[i])
  }

  predicate NoSpace(s: string) {
    forall i :: 0 <= i < |s| ==> !IsSpace(s[i])
  }

  /** `str.split()` with no argument: the maximal runs of non-whitespace. */
  function SplitWs(s: string): (r: seq<string>)
    ensures forall i :: 0 <= i < |r| ==> r[i] != "" && NoSpace(r[i])
    ensures NoSpace(s) && s != "" ==> r == [s]
    decreases |s|
  {
    if |s| == 0 then []
    else if IsSpace(s[0]) then SplitWs(s[1..])
    else
      var n := Span(s, 0, |s|, NonSpace);
      SpanFacts(s, 0, |s|, NonSpace);
      assert n < |s| ==> IsSpace(s[n]);
      assert n == |s| ==> s[n..] == [] && s[..n] == s;
      [s[..n]] + SplitWs(s[n..])
  }

  /** Whitespace-separated token count, `len(s.split())`. */
  function NumTokens(s: string): nat {
    |SplitWs(s)|
  }

  /** `str.split(sep)` with a one-character separator: every separator
      splits, so consecutive separators yield empty tokens. */
  function SplitOn(s: string, sep: char): (r: seq<string>)
    ensures |r| >= 1
    ensures forall i :: 0 <= i < |r| ==> sep !in r[i]
  {
    if |s| == 0 then [""]
    else
      var rest := SplitOn(s[1..], sep);
      if s[0] == sep then [""] + rest
      else [[s[0]] + rest[0]] + rest[1..]
  }

  /** `sep.join(parts)`. */
  function Join(sep: string, parts: seq<string>): string {
    if |parts| == 0 then ""
    else if |parts| == 1 then parts[0]
    else parts[0] + sep + Join(sep, parts[1..])
  }

  /** Joining two non-empty lists is joining each and putting `sep` between. */
  lemma {:induction false} JoinAppend(sep: string, a: seq<string>, b: seq<string>)
    requires |a| > 0 && |b| > 0
    ensures Join(sep, a + b) == Join(sep, a) + sep + Join(sep, b)
  {
    if |a| == 1 {
      assert (a + b)[1..] == b;
    } else {
      assert (a + b)[1..] == a[1..] + b;
      JoinAppend(sep, a[1..], b);
      AppendAssoc(a[0] + sep, Join(sep, a[1..]) + sep, Join(sep, b));
      AppendAssoc(a[0] + sep, Join(sep, a[1..]), sep);
    }
  }

  /** Joining the pieces of `s.split(sep)` with `sep` gives `s` back. */
  lemma {:induction false} JoinSplitOn(s: string, sep: char)
    ensures Join([sep], SplitOn(s, sep)) == s
  {
    if |s| > 0 {
      var rest := SplitOn(s[1..], sep);
      JoinSplitOn(s[1..], sep);
      if s[0] == sep {
        assert ([""] + rest)[1..] == rest;
      } else if |rest| > 1 {
        assert ([[s[0]] + rest[0]] + rest[1..])[1..] == rest[1..];
      }
    }
  }

  lemma {:induction false} SplitOnWithout(a: string, sep: char)
    requires sep !in a
    ensures SplitOn(a, sep) == [a]
  {
    if |a| > 0 {
      SplitOnWithout(a[1..], sep);
      assert [a[0]] + a[1..] == a;
    }
  }

  lemma {:induction false} SplitOnAfter(a: string, sep: char, b: string)
    requires sep !in a
    ensures SplitOn(a + [sep] + b, sep) == [a] + SplitOn(b, sep)
  {
    var s := a + [sep] + b;
    if |a| == 0 {
      assert s[1..] == b;
    } else {
      assert s[1..] == a[1..] + [sep] + b;
      SplitOnAfter(a[1..], sep, b);
      assert [a[0]] + a[1..] == a;
    }
  }

  /** Splitting a join of separator-free pieces gives the pieces back. */
  lemma {:induction false} SplitOnJoin(parts: seq<string>, sep: char)
    requires |parts| >= 1
    requires forall i :: 0 <= i < |parts| ==> sep !in parts[i]
    ensures SplitOn(Join([sep], parts), sep) == parts
  {
    if |parts| == 1 {
      SplitOnWithout(parts[0], sep);
    } else {
      SplitOnJoin(parts[1..], sep);
      SplitOnAfter(parts[0], sep, Join([sep], parts[1..]));
      assert [parts[0]] + parts[1..] == parts;
    }
  }

  /** Number of occurrences of `x` in `s`. */
  function Count<T(==)>(s: seq<T>, x: T): (n: nat)
    ensures n <= |s|
    ensures n > 0 <==> x in s
  {
    if |s| == 0 then 0 else (if s[0] == x then 1 else 0) + Count(s[1..], x)
  }

  lemma {:induction false} CountAppend<T>(a: seq<T>, b: seq<T>, x: T)
    ensures Count(a + b, x) == Count(a, x) + Count(b, x)
  {
    if |a| > 0 {
      assert (a + b)[1..] == a[1..] + b;
      CountAppend(a[1..], b, x);
    } else {
      assert a + b == b;
    }
  }
}
