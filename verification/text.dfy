/** String helpers with the semantics of JavaScript's `String.prototype`
    methods the system uses: `trim`, `trimEnd` and `indexOf`. A `char` is a
    Unicode scalar value; it matches JavaScript's UTF-16 code unit only for
    text of the Basic Multilingual Plane, the only text modelled here. */
module Text {

  /** ECMAScript WhiteSpace and LineTerminator code points: tab, line feed,
      vertical tab, form feed, carriage return, space, no-break space,
      byte order mark, the Unicode space separators (category Zs), line
      separator and paragraph separator. None lies strictly between the
      space and the no-break space, which is where digits, signs and
      letters are. */
  predicate IsWhitespace(c: char) {
    (c <= ' ' || '\U{00A0}' <= c) && (c in WhitespaceChars || '\U{2000}' <= c <= '\U{200A}')
  }

  /** Among ASCII characters, white space is exactly the space and tab
      through carriage return. */
  lemma AsciiWhitespace(c: char)
    requires c as int < 0x80
    ensures IsWhitespace(c) <==> c == ' ' || '\t' <= c <= '\r'
  {
  }

  /** The white space characters outside the range U+2000 to U+200A. */
  const WhitespaceChars: set<char> :=
    {'\t', '\n', '\U{000B}', '\U{000C}', '\r', ' ', '\U{00A0}', '\U{1680}',
     '\U{2028}', '\U{2029}', '\U{202F}', '\U{205F}', '\U{3000}', '\U{FEFF}'}

  predicate AllWhitespace(s: string) {
    forall i | 0 <= i < |s| :: IsWhitespace(s[i])
  }

  /** `s` neither starts nor ends with white space. */
  predicate Trimmed(s: string) {
    |s| == 0 || (!IsWhitespace(s[0]) && !IsWhitespace(s[|s| - 1]))
  }

  /** Every character of `s[lo..hi]` is white space. */
  predicate WhitespaceIn(s: string, lo: nat, hi: nat)
    requires lo <= hi <= |s|
  {
    forall j | lo <= j < hi :: IsWhitespace(s[j])
  }

  /** Where the text of `s[..n]` ends once trailing white space is skipped:
      the largest `m <= n` with no white space just before it. */
  function TextEnd(s: string, n: nat): (m: nat)
    requires n <= |s|
    ensures m <= n
    ensures m == 0 || !IsWhitespace(s[m - 1])
    ensures WhitespaceIn(s, m, n)
    decreases n
  {
    if n > 0 && IsWhitespace(s[n - 1]) then TextEnd(s, n - 1) else n
  }

  /** Where the text of `s[lo..hi]` starts once leading white space is
      skipped: the smallest `k >= lo` that is `hi` or not white space. */
  function TextStart(s: string, lo: nat, hi: nat): (k: nat)
    requires lo <= hi <= |s|
    ensures lo <= k <= hi
    ensures k == hi || !IsWhitespace(s[k])
    ensures WhitespaceIn(s, lo, k)
    decreases hi - lo
  {
    if lo < hi && IsWhitespace(s[lo]) then TextStart(s, lo + 1, hi) else lo
  }

  /** `s.trimEnd()`: the longest prefix of `s` that does not end in white space. */
  function TrimEnd(s: string): (r: string)
    ensures r <= s
    ensures |r| == 0 || !IsWhitespace(r[|r| - 1])
    ensures AllWhitespace(s[|r|..])
  {
    var m := TextEnd(s, |s|);
    assert forall j | 0 <= j < |s| - m :: s[m..][j] == s[m + j];
    s[..m]
  }

  /** `s.trimStart()`: the longest suffix of `s` that does not start with white space. */
  function TrimStart(s: string): (r: string)
    ensures |r| <= |s| && r == s[|s| - |r|..]
    ensures |r| == 0 || !IsWhitespace(r[0])
    ensures AllWhitespace(s[..|s| - |r|])
  {
    s[TextStart(s, 0, |s|)..]
  }

  /** `r` is a slice of `s` with nothing but white space around it. */
  ghost predicate WhitespaceAround(s: string, r: string) {
    exists k :: 0 <= k <= |s| - |r| && r == s[k..k + |r|]
                && AllWhitespace(s[..k]) && AllWhitespace(s[k + |r|..])
  }

  /** `s.trim()`: `s` without its leading and trailing white space. The result
      is a slice of `s` whose outside is all white space and which neither
      starts nor ends with white space. */
  function Trim(s: string): (r: string)
    ensures Trimmed(r)
    ensures WhitespaceAround(s, r)
  {
    var e := TextEnd(s, |s|);
    var k := TextStart(s, 0, e);
    SliceAround(s, k, e);
    s[k..e]
  }

  /** Where the trim of `s` starts in `s`. */
  lemma TrimOffset(s: string) returns (k: nat)
    ensures k + |Trim(s)| <= |s| && Trim(s) == s[k..k + |Trim(s)|]
  {
    k := TextStart(s, 0, TextEnd(s, |s|));
  }

  /** The slice between the two ends `TextStart` and `TextEnd` find is
      trimmed and has only white space around it. */
  lemma SliceAround(s: string, k: nat, e: nat)
    requires e == TextEnd(s, |s|) && k == TextStart(s, 0, e)
    ensures Trimmed(s[k..e])
    ensures WhitespaceAround(s, s[k..e])
  {
    var r := s[k..e];
    assert forall j | 0 <= j < k :: s[..k][j] == s[j];
    assert forall j | 0 <= j < |s| - e :: s[e..][j] == s[e + j];
    assert k + |r| == e;
  }

  /** `trim` cuts the trailing white space, then the leading white space. */
  lemma TrimStartEnd(s: string)
    ensures Trim(s) == TrimStart(TrimEnd(s))
  {
  }

  /** Trimming a string that has no white space at either end changes nothing. */
  lemma TrimOfTrimmed(s: string)
    ensures Trimmed(s) ==> Trim(s) == s
  {
  }

  /** `trim` is idempotent. */
  lemma TrimIdempotent(s: string)
    ensures Trim(Trim(s)) == Trim(s)
  {
    TrimOfTrimmed(Trim(s));
  }

  /** `Trim(s)` is empty exactly when `s` is all white space. */
  lemma TrimEmptyIff(s: string)
    ensures |Trim(s)| == 0 <==> AllWhitespace(s)
  {
    var e := TrimEnd(s);
    if |Trim(s)| == 0 {
      assert e[..|e|] == e;
      assert |e| == 0;
      assert s[|e|..] == s;
    } else {
      assert |e| > 0 && !IsWhitespace(s[|e| - 1]);
    }
  }

  /** `text[k..k + |pat|] == pat`, with the bounds that make the slice meaningful. */
  predicate OccursAt(text: string, pat: string, k: int) {
    0 <= k && k + |pat| <= |text| && text[k..k + |pat|] == pat
  }

  /** `text.indexOf(pat, from)`: the first position at or after `from` where
      `pat` occurs, or -1 when there is none. */
  function IndexOfFrom(text: string, pat: string, from: nat): (r: int)
    requires from <= |text|
    ensures r == -1 || (from <= r && OccursAt(text, pat, r))
    ensures r == -1 ==> forall k | from <= k :: !OccursAt(text, pat, k)
    ensures r != -1 ==> forall k | from <= k < r :: !OccursAt(text, pat, k)
    decreases |text| - from
  {
    if from + |pat| > |text| then -1
    else if text[from..from + |pat|] == pat then from
    else IndexOfFrom(text, pat, from + 1)
  }

  /** `text.indexOf(pat)`. */
  function IndexOf(text: string, pat: string): (r: int)
    ensures r == -1 <==> forall k :: !OccursAt(text, pat, k)
    ensures r != -1 ==> OccursAt(text, pat, r) && forall k | 0 <= k < r :: !OccursAt(text, pat, k)
  {
    IndexOfFrom(text, pat, 0)
  }
}
