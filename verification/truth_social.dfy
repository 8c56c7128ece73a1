/** The post normaliser `cutFatFromPost`: a Truth Social status, as read from
    the feed, reduced to the `SlimPost` shape consumed downstream. */
module TruthSocial {
  import opened Optional
  import Html
  import Text

  /** A media attachment of a status. Only `id` of the fields the slim form
      drops is kept here, so that dropping is visible. */
  datatype MediaAttachment = MediaAttachment(id: string, mediaType: string, url: string, previewUrl: string)

  datatype Account = Account(displayName: string)

  /** A status with the fields `cutFatFromPost` reads. `content` and
      `mediaAttachments` may be missing or `null` (`None`); `account` and
      `reblog` are optional objects. */
  datatype Post = Post(
    id: string,
    createdAt: string,
    url: string,
    content: Option<string>,
    account: Option<Account>,
    mediaAttachments: Option<seq<MediaAttachment>>,
    reblog: Option<Post>)

  datatype SlimMedia = SlimMedia(mediaType: string, url: string, previewUrl: string)

  /** A slim reblog has no `reblog` field: the nesting stops after one level. */
  datatype SlimReblog = SlimReblog(
    id: string,
    createdAt: string,
    url: string,
    content: string,
    displayName: Option<string>,
    media: Option<seq<SlimMedia>>)

  datatype SlimPost = SlimPost(
    id: string,
    createdAt: string,
    url: string,
    content: string,
    displayName: Option<string>,
    media: Option<seq<SlimMedia>>,
    reblog: Option<SlimReblog>)

  const PostMediaPlaceholder := "A post with image(s) or media but no text."
  const PostEmptyPlaceholder := "Empty post content."
  const ReblogMediaPlaceholder := "A reblog with image(s) or media but no text."
  const ReblogEmptyPlaceholder := "Reblog has empty content."

  /** The slim post of a `null` or `undefined` input. */
  const EmptySlimPost := SlimPost("", "", "", "", None, None, None)

  /** `post.content || ''` */
  function RawContent(p: Post): string {
    p.content.GetOr("")
  }

  /** `post.media_attachments || []` */
  function Attachments(p: Post): seq<MediaAttachment> {
    p.mediaAttachments.GetOr([])
  }

  /** `post.media_attachments && post.media_attachments.length > 0` */
  predicate HasMedia(p: Post) {
    |Attachments(p)| > 0
  }

  /** `post.account?.display_name` */
  function DisplayName(p: Post): Option<string> {
    match p.account
    case Some(a) => Some(a.displayName)
    case None => None
  }

  function SlimMediaOf(m: MediaAttachment): SlimMedia {
    SlimMedia(m.mediaType, m.url, m.previewUrl)
  }

  /** The `media` field: the attachments mapped to their slim form, or no
      field at all when there are none. */
  function SlimAttachments(ms: seq<MediaAttachment>): (r: Option<seq<SlimMedia>>)
    ensures r.Some? <==> |ms| > 0
    ensures r.Some? ==> |r.value| == |ms|
    ensures r.Some? ==> forall i | 0 <= i < |ms| ::
              r.value[i].mediaType == ms[i].mediaType && r.value[i].url == ms[i].url
              && r.value[i].previewUrl == ms[i].previewUrl
  {
    var slim := seq(|ms|, i requires 0 <= i < |ms| => SlimMediaOf(ms[i]));
    if |slim| > 0 then Some(slim) else None
  }

  /** The body of a slim post: the stripped text, or a placeholder that says
      whether the post had attachments. */
  function PostContent(p: Post): (r: string)
    ensures |r| > 0
    ensures Html.StripHtmlTags(RawContent(p)) != "" ==> r == Html.StripHtmlTags(RawContent(p))
    ensures Html.StripHtmlTags(RawContent(p)) == "" && HasMedia(p) ==> r == PostMediaPlaceholder
    ensures Html.StripHtmlTags(RawContent(p)) == "" && !HasMedia(p) ==> r == PostEmptyPlaceholder
  {
    var textOnly := Html.StripHtmlTags(RawContent(p));
    if |textOnly| == 0 then
      if HasMedia(p) then PostMediaPlaceholder else PostEmptyPlaceholder
    else
      textOnly
  }

  /** The body of a slim reblog: the RAW content when its stripped text is
      non-empty, otherwise a reblog placeholder. */
  function ReblogContent(p: Post): (r: string)
    ensures |r| > 0
    ensures Html.StripHtmlTags(RawContent(p)) != "" ==> r == RawContent(p)
    ensures Html.StripHtmlTags(RawContent(p)) == "" && HasMedia(p) ==> r == ReblogMediaPlaceholder
    ensures Html.StripHtmlTags(RawContent(p)) == "" && !HasMedia(p) ==> r == ReblogEmptyPlaceholder
  {
    var reblogRaw := RawContent(p);
    var reblogTextOnly := Html.StripHtmlTags(reblogRaw);
    if |reblogTextOnly| == 0 then
      if HasMedia(p) then ReblogMediaPlaceholder else ReblogEmptyPlaceholder
    else
      reblogRaw
  }

  function SlimReblogOf(p: Post): SlimReblog {
    SlimReblog(p.id, p.createdAt, p.url, ReblogContent(p), DisplayName(p), SlimAttachments(Attachments(p)))
  }

  /** `cutFatFromPost`. A missing post gives the all-empty slim post; any
      other post keeps its identity fields, gets a non-empty body, keeps the
      three slim fields of each attachment in order (no `media` when it has
      none) and one slimmed level of reblog. */
  function CutFatFromPost(post: Option<Post>): (r: SlimPost)
    ensures post.None? ==> r.id == "" && r.createdAt == "" && r.url == "" && r.content == ""
                           && r.displayName.None? && r.media.None? && r.reblog.None?
    ensures post.Some? ==> r.id == post.value.id && r.createdAt == post.value.createdAt
                           && r.url == post.value.url && |r.content| > 0
    ensures post.Some? ==> r.content == PostContent(post.value)
    ensures post.Some? ==> (r.displayName.Some? <==> post.value.account.Some?)
    ensures post.Some? && post.value.account.Some? ==> r.displayName == Some(post.value.account.value.displayName)
    ensures post.Some? ==> (r.media.Some? <==> HasMedia(post.value))
    ensures post.Some? ==> (r.reblog.Some? <==> post.value.reblog.Some?)
  {
    match post
    case None => EmptySlimPost
    case Some(p) =>
      SlimPost(
        p.id, p.createdAt, p.url, PostContent(p), DisplayName(p),
        SlimAttachments(Attachments(p)),
        match p.reblog
        case Some(rb) => Some(SlimReblogOf(rb))
        case None => None)
  }

  /** The `media` field of a post with attachments lists, in input order, the
      type, URL and preview URL of each attachment. */
  lemma MediaSlimming(p: Post)
    ensures var r := CutFatFromPost(Some(p)).media;
            var ms := Attachments(p);
            && (r.Some? <==> |ms| > 0)
            && (r.Some? ==> |r.value| == |ms|)
            && (r.Some? ==> forall i | 0 <= i < |ms| ::
                  r.value[i] == SlimMedia(ms[i].mediaType, ms[i].url, ms[i].previewUrl))
  {
    assert CutFatFromPost(Some(p)).media == SlimAttachments(Attachments(p));
    SlimAttachmentsEach(Attachments(p));
  }

  /** Each slim attachment is the slim form of the attachment at its index. */
  lemma SlimAttachmentsEach(ms: seq<MediaAttachment>)
    ensures var r := SlimAttachments(ms);
            r.Some? ==> forall i | 0 <= i < |ms| ::
              r.value[i] == SlimMedia(ms[i].mediaType, ms[i].url, ms[i].previewUrl)
  {
  }

  /** The slim reblog copies the identity fields of the reblogged post, applies
      the reblog placeholder table to its content, and carries no reblog of its own. */
  lemma ReblogSlimming(p: Post, rb: Post)
    requires p.reblog == Some(rb)
    ensures var r := CutFatFromPost(Some(p)).reblog;
            && r.Some?
            && r.value.id == rb.id && r.value.createdAt == rb.createdAt && r.value.url == rb.url
            && r.value.displayName == DisplayName(rb)
            && (Html.StripHtmlTags(RawContent(rb)) != "" ==> r.value.content == RawContent(rb))
            && (Html.StripHtmlTags(RawContent(rb)) == "" ==>
                  r.value.content == (if HasMedia(rb) then ReblogMediaPlaceholder else ReblogEmptyPlaceholder))
            && (r.value.media.Some? <==> HasMedia(rb))
            && r.value.media == SlimAttachments(Attachments(rb))
            && |r.value.content| > 0
  {
  }

  /** The body of a slim post is never markup: it is one of the two post
      placeholders or trimmed text without tag spans. The body of a slim
      reblog has no such guarantee, since it is the raw content. */
  lemma ContentWithoutMarkup(p: Post)
    ensures var c := CutFatFromPost(Some(p)).content;
            c == PostMediaPlaceholder || c == PostEmptyPlaceholder || (Html.NoTagSpan(c) && Text.Trimmed(c))
  {
  }

  /** A reblog whose content is a tagged text keeps the tags. */
  lemma ReblogKeepsMarkup(p: Post, rb: Post, open: string, t: string, close: string)
    requires p.reblog == Some(rb)
    requires rb.content == Some(['<'] + open + ['>'] + t + ['<'] + close + ['>'])
    requires '>' !in open && '>' !in close
    requires '<' !in t && |t| > 0 && Text.Trimmed(t)
    ensures CutFatFromPost(Some(p)).reblog.value.content == ['<'] + open + ['>'] + t + ['<'] + close + ['>']
    ensures !Html.NoTagSpan(CutFatFromPost(Some(p)).reblog.value.content)
  {
    var raw := ['<'] + open + ['>'] + t + ['<'] + close + ['>'];
    Html.StripElement(open, t, close);
    Html.NoTagSpanIff(raw);
    assert raw[0] == '<' && raw[|open| + 1] == '>';
  }

  function TextPost(content: string, media: seq<MediaAttachment>): Post {
    Post("1", "2025-01-20T12:00:00.000Z", "https://truthsocial.com/@a/1", Some(content), None, Some(media), None)
  }

  /** A paragraph's markup is removed and its text kept as the body. */
  lemma TagsStrippedExample(open: string, t: string, close: string)
    requires '>' !in open && '>' !in close
    requires '<' !in t && |t| > 0 && Text.Trimmed(t)
    ensures CutFatFromPost(Some(TextPost(['<'] + open + ['>'] + t + ['<'] + close + ['>'], []))).content == t
  {
    Html.StripElement(open, t, close);
  }

  /** A post whose body is a lone tag `<a>` has no text: it gets the media
      placeholder when it has one attachment, and the empty-post placeholder
      when it has none. */
  lemma PlaceholderExamples(a: string, m: MediaAttachment)
    requires '>' !in a
    ensures CutFatFromPost(Some(TextPost(['<'] + a + ['>'], [m]))).content == PostMediaPlaceholder
    ensures CutFatFromPost(Some(TextPost(['<'] + a + ['>'], []))).content == PostEmptyPlaceholder
  {
    Html.RemoveTagsDropsMatch("", a, "");
    assert "" + ['<'] + a + ['>'] + "" == ['<'] + a + ['>'];
    Text.TrimOfTrimmed("");
  }
}
