/** `prepareBlueskyMessage`: the text of a Bluesky post made of a message and
    a link back to the original status, cut to the 300-character limit, with
    one rich-text facet that makes the URL clickable. Lengths and indices are
    counted in `char`s, which are JavaScript's UTF-16 code units only for
    text without surrogate pairs, the only text modelled here. */
module Bluesky {
  import Text
  import TruthSocial

  const MaxLength := 300
  const LinkLabel := "\nLink: "
  const Ellipsis := "..."
  const LinkFeatureType := "app.bsky.richtext.facet#link"

  datatype Feature = Feature(featureType: string, uri: string)
  datatype ByteSlice = ByteSlice(byteStart: int, byteEnd: int)
  datatype Facet = Facet(index: ByteSlice, features: seq<Feature>)
  datatype BlueskyMessage = BlueskyMessage(text: string, facets: seq<Facet>)

  /** `s.slice(0, end)`: a negative `end` counts back from the end of `s`, and
      the end is clamped into `[0, |s|]`. The result is a prefix of `s`. */
  function SliceTo(s: string, end: int): (r: string)
    ensures r <= s
    ensures 0 <= end <= |s| ==> |r| == end
    ensures |s| < end ==> r == s
    ensures end < 0 ==> |r| == (if |s| + end < 0 then 0 else |s| + end)
  {
    var e := if end < 0 then (if |s| + end < 0 then 0 else |s| + end)
             else if end > |s| then |s| else end;
    s[..e]
  }

  /** `` `\nLink: ${url}` `` */
  function LinkText(url: string): (r: string)
    ensures |r| == |url| + 7 && r[7..] == url
  {
    LinkLabel + url
  }

  /** `maxLength - linkText.length`: what is left for the message. */
  function AvailableLength(url: string): (r: int)
    ensures r == 293 - |url|
    ensures r >= 3 <==> |url| <= 290
  {
    MaxLength - |LinkText(url)|
  }

  /** The message part of the text: unchanged when it fits, otherwise cut to
      three characters under the budget, stripped of trailing white space, and
      followed by an ellipsis. */
  function Truncate(message: string, available: int): (r: string)
    ensures |message| <= available ==> r == message
    ensures |message| > available ==>
              exists cut :: cut <= message && r == cut + Ellipsis
                            && (available >= 3 ==> |cut| <= available - 3)
  {
    if |message| > available then
      var cut := Text.TrimEnd(SliceTo(message, available - 3));
      cut + Ellipsis
    else
      message
  }

  /** `prepareBlueskyMessage(message, post)`: the text is the (possibly cut)
      message followed by the link suffix, with one link facet for the URL. */
  function PrepareBlueskyMessage(message: string, post: TruthSocial.SlimPost): (r: BlueskyMessage)
    ensures |r.facets| == 1
    ensures r.facets[0].features == [Feature(LinkFeatureType, post.url)]
  {
    var url := post.url;
    var text := Truncate(message, AvailableLength(url)) + LinkText(url);
    var start := Text.IndexOf(text, url);
    BlueskyMessage(text, [Facet(ByteSlice(start, start + |url|), [Feature(LinkFeatureType, url)])])
  }

  /** The text always ends with the whole link suffix; a message that fits is
      kept verbatim; a longer one is cut to three under the budget, stripped of
      trailing white space and marked with an ellipsis. */
  lemma PrepareText(message: string, post: TruthSocial.SlimPost)
    ensures var r := PrepareBlueskyMessage(message, post);
            && |r.text| >= |LinkText(post.url)|
            && r.text[|r.text| - |LinkText(post.url)|..] == LinkText(post.url)
            && (|message| <= AvailableLength(post.url) ==> r.text == message + LinkText(post.url))
            && (|message| > AvailableLength(post.url) && AvailableLength(post.url) >= 3 ==>
                  r.text == Text.TrimEnd(message[..AvailableLength(post.url) - 3]) + Ellipsis + LinkText(post.url))
  {
    LinkAtEnd(Truncate(message, AvailableLength(post.url)), post.url);
    TruncateCut(message, AvailableLength(post.url));
  }

  /** With a URL of at most 290 characters the text fits in 300. */
  lemma PrepareFits(message: string, post: TruthSocial.SlimPost)
    requires |post.url| <= 290
    ensures |PrepareBlueskyMessage(message, post).text| <= MaxLength
  {
    TextFits(message, post.url);
  }

  /** The single facet spans the first occurrence of the URL in the text,
      which is never after the copy in the link suffix. */
  lemma PrepareFacet(message: string, post: TruthSocial.SlimPost)
    ensures var r := PrepareBlueskyMessage(message, post);
            var f := r.facets[0].index;
            && 0 <= f.byteStart <= |r.text| - |post.url|
            && f.byteEnd - f.byteStart == |post.url|
            && r.text[f.byteStart..f.byteEnd] == post.url
            && forall k | 0 <= k < f.byteStart :: !Text.OccursAt(r.text, post.url, k)
  {
    var text := Truncate(message, AvailableLength(post.url)) + LinkText(post.url);
    LinkAtEnd(Truncate(message, AvailableLength(post.url)), post.url);
    FirstLink(text, post.url);
  }

  /** The link suffix closes the text, and the URL occurs at its very end. */
  lemma LinkAtEnd(truncated: string, url: string)
    ensures var text := truncated + LinkText(url);
            && text[|text| - |LinkText(url)|..] == LinkText(url)
            && Text.OccursAt(text, url, |text| - |url|)
  {
    var text := truncated + LinkText(url);
    assert text[|text| - |LinkText(url)|..] == LinkText(url);
    assert text[|truncated| + |LinkLabel|..] == url;
  }

  /** With a URL of at most 290 characters the message part leaves room for
      the link suffix within the 300-character limit. */
  lemma TextFits(message: string, url: string)
    ensures |url| <= 290 ==> |Truncate(message, AvailableLength(url))| + |LinkText(url)| <= MaxLength
  {
  }

  /** A message over the budget keeps its first `available - 3` characters
      less trailing white space, then the ellipsis. */
  lemma TruncateCut(message: string, available: int)
    ensures |message| > available >= 3 ==>
              Truncate(message, available) == Text.TrimEnd(message[..available - 3]) + Ellipsis
  {
    if |message| > available >= 3 {
      assert SliceTo(message, available - 3) == message[..available - 3];
    }
  }

  /** When the URL ends the text, its first occurrence is a real one, no later
      than that end. */
  lemma FirstLink(text: string, url: string)
    requires Text.OccursAt(text, url, |text| - |url|)
    ensures var start := Text.IndexOf(text, url);
            && 0 <= start <= |text| - |url|
            && text[start..start + |url|] == url
            && forall k | 0 <= k < start :: !Text.OccursAt(text, url, k)
  {
  }
}
