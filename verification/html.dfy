/** Markup removal as done by `stripHtmlTags`: the global regular expression
    replacement of `<[^>]*>` by the empty string, followed by `trim`. */
module Html {
  import Text

  /** The pattern `<[^>]*>` has no match in `s`: no `'<'` is followed,
      anywhere later, by a `'>'`. */
  predicate NoTagSpan(s: string)
    decreases |s|
  {
    |s| == 0 || ((s[0] == '<' ==> '>' !in s[1..]) && NoTagSpan(s[1..]))
  }

  /** The same property stated over pairs of positions. */
  ghost predicate NoOpenBeforeClose(s: string) {
    forall i, j | 0 <= i < j < |s| :: s[i] == '<' ==> s[j] != '>'
  }

  /** `NoTagSpan` is exactly the pairwise property. */
  lemma {:induction false} NoTagSpanIff(s: string)
    ensures NoTagSpan(s) <==> NoOpenBeforeClose(s)
    decreases |s|
  {
    if |s| > 0 {
      NoTagSpanIff(s[1..]);
      if NoOpenBeforeClose(s) {
        forall i, j | 0 <= i < j < |s[1..]| && s[1..][i] == '<' ensures s[1..][j] != '>' {
          assert s[1..][i] == s[i + 1] && s[1..][j] == s[j + 1];
        }
        if s[0] == '<' {
          forall k | 0 <= k < |s[1..]| ensures s[1..][k] != '>' {
            assert s[1..][k] == s[k + 1];
          }
        }
      }
      if NoTagSpan(s) {
        forall i, j | 0 <= i < j < |s| && s[i] == '<' ensures s[j] != '>' {
          assert s[j] == s[1..][j - 1];
          if i > 0 {
            assert s[i] == s[1..][i - 1];
          }
        }
      }
    }
  }

  /** The position of the first `'>'` in `s`. */
  function FirstClose(s: string): (r: nat)
    requires '>' in s
    ensures r < |s| && s[r] == '>' && '>' !in s[..r]
  {
    if s[0] == '>' then 0
    else
      var r := FirstClose(s[1..]) + 1;
      assert s[..r] == [s[0]] + s[1..][..r - 1];
      r
  }

  /** `s.replace(/<[^>]*>/g, '')`, scanning left to right: at a `'<'` that
      has a `'>'` somewhere after it, everything through the first such
      `'>'` is dropped; any other character is kept. The result has no tag
      span left, is no longer than `s`, and equals `s` when `s` has no `'>'`
      at all (then nothing can match). */
  function RemoveTags(s: string): (r: string)
    ensures NoTagSpan(r)
    ensures |r| <= |s|
    ensures '>' !in s ==> r == s
    decreases |s|
  {
    if |s| == 0 then ""
    else if s[0] == '<' && '>' in s[1..] then
      var skip := FirstClose(s[1..]) + 2;
      assert s[1..][skip - 2] == '>';
      RemoveTags(s[skip..])
    else
      var tail := RemoveTags(s[1..]);
      assert s == [s[0]] + s[1..];
      assert ([s[0]] + tail)[1..] == tail;
      [s[0]] + tail
  }

  /** `stripHtmlTags`: tag removal followed by `trim`. */
  function StripHtmlTags(html: string): (r: string)
    ensures NoTagSpan(r)
    ensures Text.Trimmed(r)
    ensures |r| <= |html|
  {
    var removed := RemoveTags(html);
    NoTagSpanTrim(removed);
    Text.Trim(removed)
  }

  /** A suffix of a string without tag spans has none either. */
  lemma {:induction false} NoTagSpanSuffix(s: string, lo: nat)
    requires lo <= |s|
    requires NoTagSpan(s)
    ensures NoTagSpan(s[lo..])
    decreases lo
  {
    if lo > 0 {
      NoTagSpanSuffix(s[1..], lo - 1);
      assert s[1..][lo - 1..] == s[lo..];
    }
  }

  /** A prefix of a string without tag spans has none either. */
  lemma {:induction false} NoTagSpanPrefix(s: string, hi: nat)
    requires hi <= |s|
    requires NoTagSpan(s)
    ensures NoTagSpan(s[..hi])
    decreases hi
  {
    if hi > 0 {
      NoTagSpanPrefix(s[1..], hi - 1);
      assert s[..hi][1..] == s[1..][..hi - 1];
    }
  }

  /** Trimming a string without tag spans leaves none. */
  lemma NoTagSpanTrim(s: string)
    requires NoTagSpan(s)
    ensures NoTagSpan(Text.Trim(s))
  {
    var k := Text.TrimOffset(s);
    NoTagSpanSlice(s, k, |Text.Trim(s)|, Text.Trim(s));
  }

  /** A slice `r` of a string without tag spans has none either. */
  lemma NoTagSpanSlice(s: string, k: nat, n: nat, r: string)
    requires k + n <= |s| && r == s[k..k + n]
    requires NoTagSpan(s)
    ensures NoTagSpan(r)
  {
    NoTagSpanSuffix(s, k);
    NoTagSpanPrefix(s[k..], n);
    assert s[k..][..n] == r;
  }

  /** Tag removal leaves a string without tag spans unchanged. */
  lemma {:induction false} RemoveTagsFixpoint(s: string)
    requires NoTagSpan(s)
    ensures RemoveTags(s) == s
    decreases |s|
  {
    if |s| > 0 {
      RemoveTagsFixpoint(s[1..]);
      assert s == [s[0]] + s[1..];
    }
  }

  /** Removing tags twice is the same as removing them once. */
  lemma RemoveTagsIdempotent(s: string)
    ensures RemoveTags(RemoveTags(s)) == RemoveTags(s)
  {
    RemoveTagsFixpoint(RemoveTags(s));
  }

  /** The first `'>'` after text without one is right after that text. */
  lemma FirstCloseAfter(t: string, b: string)
    requires '>' !in t
    ensures FirstClose(t + ['>'] + b) == |t|
  {
    var s := t + ['>'] + b;
    assert s[|t|] == '>';
    assert s[..|t|] == t;
  }

  /** A character other than `'<'` is kept and the scan goes on after it. */
  lemma RemoveTagsKeeps(c: char, s: string)
    requires c != '<'
    ensures RemoveTags([c] + s) == [c] + RemoveTags(s)
  {
    assert ([c] + s)[1..] == s;
  }

  /** A tag at the front is dropped and the scan goes on right after it. */
  lemma RemoveTagsDropsTag(t: string, b: string)
    requires '>' !in t
    ensures RemoveTags(['<'] + t + ['>'] + b) == RemoveTags(b)
  {
    var s := ['<'] + t + ['>'] + b;
    assert s[1..] == t + ['>'] + b;
    FirstCloseAfter(t, b);
    assert s[1..][|t|] == '>';
    assert s[|t| + 2..] == b;
  }

  /** `p + x` is the first character of `p` followed by the rest of `p` and `x`. */
  lemma SplitFirst(p: string, x: string)
    requires |p| > 0
    ensures p + x == [p[0]] + (p[1..] + x)
    ensures '<' !in p ==> p[0] != '<' && '<' !in p[1..]
  {
    assert p == [p[0]] + p[1..];
  }

  /** Text without `'<'` in front passes through unchanged. */
  lemma {:induction false} RemoveTagsSkipsText(p: string, rest: string)
    requires '<' !in p
    ensures RemoveTags(p + rest) == p + RemoveTags(rest)
    decreases |p|
  {
    if |p| > 0 {
      SplitFirst(p, rest);
      SplitFirst(p, RemoveTags(rest));
      RemoveTagsKeeps(p[0], p[1..] + rest);
      RemoveTagsSkipsText(p[1..], rest);
    } else {
      assert p + rest == rest && p + RemoveTags(rest) == RemoveTags(rest);
    }
  }

  /** One match of `<[^>]*>` after tag-free text is deleted and the scan goes on
      right after it: `p + "<" + t + ">" + b` becomes `p` followed by the
      tag removal of `b`, whenever `p` has no `'<'` and `t` no `'>'`. */
  lemma RemoveTagsDropsMatch(p: string, t: string, b: string)
    requires '<' !in p
    requires '>' !in t
    ensures RemoveTags(p + ['<'] + t + ['>'] + b) == p + RemoveTags(b)
  {
    var tag := ['<'] + t + ['>'] + b;
    assert p + ['<'] + t + ['>'] + b == p + tag;
    RemoveTagsSkipsText(p, tag);
    assert RemoveTags(p + tag) == p + RemoveTags(tag);
    RemoveTagsDropsTag(t, b);
    assert RemoveTags(tag) == RemoveTags(b);
  }

  /** `stripHtmlTags` is idempotent. */
  lemma StripHtmlTagsIdempotent(html: string)
    ensures StripHtmlTags(StripHtmlTags(html)) == StripHtmlTags(html)
  {
    var once := StripHtmlTags(html);
    RemoveTagsFixpoint(once);
    Text.TrimOfTrimmed(once);
  }

  /** An element `<open>t<close>` around tag-free, already trimmed text,
      such as `<p>t</p>`, strips to that text. */
  lemma StripElement(open: string, t: string, close: string)
    requires '>' !in open && '>' !in close
    requires '<' !in t
    requires Text.Trimmed(t)
    ensures StripHtmlTags(['<'] + open + ['>'] + t + ['<'] + close + ['>']) == t
  {
    var closing := ['<'] + close + ['>'] + "";
    ElementShape(open, t, close);
    RemoveTagsDropsTag(open, t + closing);
    RemoveTagsSkipsText(t, closing);
    RemoveTagsDropsTag(close, "");
    Text.TrimOfTrimmed(t);
  }

  /** How an element's string splits into its opening tag, its text and its
      closing tag. */
  lemma ElementShape(open: string, t: string, close: string)
    ensures ['<'] + open + ['>'] + t + ['<'] + close + ['>']
            == ['<'] + open + ['>'] + (t + (['<'] + close + ['>'] + ""))
    ensures t + "" == t
  {
  }
}
