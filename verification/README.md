# what-now-donald, modelled in Dafny

This project models the pure core of `what-now-donald`, a scheduled job that
watches a Truth Social account and prepares its new statuses for posting on
Bluesky. It has four parts.

- **The post normaliser**, `cutFatFromPost` and `stripHtmlTags`. A status as
  read from the feed becomes a `SlimPost`. Markup is removed and the body is
  trimmed. An empty body gets one of two placeholders. Each attachment keeps
  only its type, URL and preview URL. One level of reblog is slimmed, with
  its own placeholders.
- **The Bluesky message builder**, `prepareBlueskyMessage`. It appends
  `"\nLink: " + url` to the message and cuts the message to fit 300
  characters, ending the cut with `"..."`. It records one link facet over the
  URL.
- **The scheduled fetch handler**. For each watched account it reads the
  cursor (the id of the last processed status) and loads the account's
  statuses. It keeps the statuses whose id, read with `BigInt`, is above the
  cursor, and sorts them by that value into a FIFO queue. When nothing is new
  it `return`s, which leaves the whole handler.
- **The cursor store**, `getLastProcessedById` and `writeRecord`, over a
  key-value table.

The modules follow the program's structure:

| module | file | models |
|---|---|---|
| `Optional` | optional.dfy | `Option`, for absent fields and for throws |
| `Text` | text.dfy | `trim`, `trimEnd` and `indexOf` of ECMAScript strings |
| `Html` | html.dfy | `stripHtmlTags`: the global replacement of `<[^>]*>`, then `trim` |
| `TruthSocial` | truth_social.dfy | the post and slim-post datatypes, `cutFatFromPost` |
| `Bluesky` | bsky.dfy | `prepareBlueskyMessage` |
| `BigIntParse` | bigint.dfy | `BigInt(string)`: ECMAScript's StringToBigInt |
| `StableSort` | stable_sort.dfy | `Array.prototype.sort` with an integer-sign comparator |
| `KeyFilter` | key_filter.dfy | `filter` with a callback that may throw |
| `Selection` | selection.dfy | the id filter and the id sort of the handler |
| `Persistence` | persistence.dfy | the cursor table |
| `AccountLoop` | account_loop.dfy | the shape of the handler's `for` loop |
| `FetchHandler` | fetch_handler.dfy | the handler: the `try` block, the loop, re-runs |

Strings are sequences of `char`. A Dafny `char` is a Unicode scalar value,
while JavaScript's `length`, `slice` and `indexOf` count UTF-16 code units.
The two agree on text of the Basic Multilingual Plane, that is, text without
surrogate pairs, and the model covers only such text (see "## Left out"). A throw is `None` (for `BigInt` and the filter), `Caught` (for
the `try` block) or the `Threw` status (for the loop). The browser, the page
and the table are parameters. An `Environment` says, per account, whether
the cursor read throws, whether the browser launch throws, and what loading
the page yields: a throw, no text, or a parsed array of statuses.

Two points where the code and its design notes can be read differently:

- The code stores the RAW reblog content, tags included, when the stripped
  reblog text is non-empty. Only the top-level body is stripped. The model
  follows the code (`TruthSocial.ReblogContent`, `TruthSocial.ReblogKeepsMarkup`).
- The sort is by id value with a stable sort, and nothing removes duplicates.
  Statuses with equal ids therefore stay in page order, and the queue is
  non-decreasing, not strictly increasing (`Selection.KeepsOrderAbove`).

## Model

| member | source | states |
|---|---|---|
| Html.RemoveTags | lib/utils/truth.social.ts:10 | the replacement of `<[^>]*>` leaves no `'<'` followed later by a `'>'`, never lengthens the text, and leaves text without any `'>'` unchanged |
| Html.NoTagSpanIff | lib/utils/truth.social.ts:10 | the recursive "no tag span" predicate is exactly "no `'<'` at any position before a `'>'` at any later position" |
| Html.StripHtmlTags | lib/utils/truth.social.ts:9-11 | the stripped text has no tag span, has no white space at either end, and is no longer than the input |
| Html.RemoveTagsFixpoint | lib/utils/truth.social.ts:10 | a text without tag spans comes out of the replacement unchanged |
| Html.RemoveTagsIdempotent | lib/utils/truth.social.ts:10 | replacing twice is replacing once |
| Html.StripHtmlTagsIdempotent | lib/utils/truth.social.ts:9-11 | `stripHtmlTags` applied twice equals applying it once |
| Html.RemoveTagsSkipsText | lib/utils/truth.social.ts:10 | text without `'<'` in front is kept and the scan goes on after it |
| Html.RemoveTagsDropsTag | lib/utils/truth.social.ts:10 | a leading `<t>` with no `'>'` inside is deleted through its first `'>'`, and the scan goes on after it |
| Html.RemoveTagsDropsMatch | lib/utils/truth.social.ts:10 | after tag-free text, one match `<t>` is deleted and the rest is scanned on its own |
| Html.StripElement | lib/utils/truth.social.ts:9-11 | an element `<open>t<close>` around trimmed, tag-free text strips to exactly that text |
| Html.NoTagSpanTrim | lib/utils/truth.social.ts:10 | trimming cannot create a tag span |
| Text.Trim | lib/utils/truth.social.ts:10 | `trim` returns a slice of the input that neither starts nor ends with white space, with only white space cut off on either side |
| Text.TrimEnd | lib/utils/bsky.ts:27 | `trimEnd` returns a prefix of the input that does not end in white space, with only white space cut off |
| Text.TrimStart | lib/utils/truth.social.ts:10 | `trim`'s leading half returns a suffix that does not start with white space, with only white space cut off |
| Text.TrimStartEnd | lib/utils/truth.social.ts:10 | `trim` is `trimEnd` followed by cutting the leading white space |
| Text.TrimOfTrimmed | lib/utils/truth.social.ts:10 | a string with no white space at either end is its own trim |
| Text.TrimIdempotent | lib/utils/truth.social.ts:10 | trimming twice is trimming once |
| Text.TrimEmptyIff | lib/utils/truth.social.ts:10 | the trim is empty exactly when the input is all white space |
| Text.IsWhitespace | lib/utils/truth.social.ts:10 | the white space `trim` and `trimEnd` remove, ECMAScript's WhiteSpace and LineTerminator set; `Text.AsciiWhitespace`, `Text.Trim`, `Text.TrimEnd` and `Text.TrimEmptyIff` carry its contract |
| Text.AsciiWhitespace | lib/utils/truth.social.ts:10 | among ASCII characters, exactly space and tab through carriage return are white space |
| Text.IndexOfFrom | lib/utils/bsky.ts:40 | the result is -1 when the pattern never occurs from `from` on; otherwise it is an occurrence with none earlier from `from` on |
| Text.IndexOf | lib/utils/bsky.ts:40-41 | `indexOf` is -1 exactly when the pattern never occurs; otherwise it is the first occurrence |
| TruthSocial.CutFatFromPost | lib/utils/truth.social.ts:19-120 | a missing post gives all-empty fields and no display name, media or reblog; any other post keeps id, created_at and url, gets the body `TruthSocial.PostContent` describes, has a display name exactly when it has an account, has media exactly when it has attachments, and has a reblog exactly when it has one |
| TruthSocial.PostContent | lib/utils/truth.social.ts:32-50 | the body is never empty: it is the stripped text when that is non-empty, otherwise the media placeholder or the empty-post placeholder according to the attachments |
| TruthSocial.ReblogContent | lib/utils/truth.social.ts:83-95 | the reblog body is never empty: it is the raw content when the stripped text is non-empty, otherwise one of the two reblog placeholders |
| TruthSocial.SlimAttachments | lib/utils/truth.social.ts:55-59 | the `media` field is present exactly when there are attachments, with one entry per attachment in order, carrying its type, URL and preview URL |
| TruthSocial.MediaSlimming | lib/utils/truth.social.ts:55-74 | the slim post's `media` is present exactly when the post has attachments and is their element-wise (type, url, preview_url) |
| TruthSocial.ReblogSlimming | lib/utils/truth.social.ts:79-117 | the slim reblog copies id, created_at, url and display name, applies the reblog placeholder table, has media exactly when the reblog has attachments, its media are the slim form of the reblog's attachments, and it has a non-empty body |
| TruthSocial.ContentWithoutMarkup | lib/utils/truth.social.ts:32-50 | the slim post's body is a post placeholder, or trimmed text without tag spans |
| TruthSocial.ReblogKeepsMarkup | lib/utils/truth.social.ts:83-95 | a reblog whose content is a tagged element keeps the raw content, tags included |
| TruthSocial.TagsStrippedExample | lib/utils/truth.social.ts:32-50 | a post whose content is `<open>t<close>` gets `t` as its body |
| TruthSocial.PlaceholderExamples | lib/utils/truth.social.ts:39-47 | a post whose content is a lone tag gets the media placeholder with an attachment and the empty-post placeholder without |
| Bluesky.SliceTo | lib/utils/bsky.ts:27 | `slice(0, end)` is a prefix of the input; `end` in range gives that length, an `end` past the end gives the whole input, and a negative `end` counts back from the end |
| Bluesky.LinkText | lib/utils/bsky.ts:17 | the link suffix is seven characters longer than the URL and ends with the URL |
| Bluesky.AvailableLength | lib/utils/bsky.ts:22 | the message budget is 293 minus the URL length, and it leaves room for `"..."` exactly when the URL has at most 290 characters; `Bluesky.PrepareText` and `Bluesky.PrepareFits` state what the budget does |
| Bluesky.Truncate | lib/utils/bsky.ts:27 | a message within the budget is kept as it is; a longer one becomes a prefix of it followed by `"..."`, and when the budget is at least 3 that prefix has at most `available - 3` characters |
| Bluesky.PrepareBlueskyMessage | lib/utils/bsky.ts:11-53 | exactly one facet, of link type, whose uri is the post URL |
| Bluesky.PrepareText | lib/utils/bsky.ts:17-32 | the text ends with the whole `"\nLink: " + url`; a message that fits is kept verbatim before it; a longer one, for a URL of at most 290 characters (so that `availableLength - 3` is not negative), is cut to `availableLength - 3` characters, stripped of trailing white space and followed by `"..."` |
| Bluesky.PrepareFits | lib/utils/bsky.ts:12-32 | with a URL of at most 290 characters the text is at most 300 characters long |
| Bluesky.PrepareFacet | lib/utils/bsky.ts:37-42 | the facet spans exactly `url.length` positions holding the URL, at its first occurrence in the text, which is at or before the link suffix's copy |
| BigIntParse.ParseBlank | lib/functions/fetch.src.ts:41 | a blank string, the empty string included, reads as 0 |
| BigIntParse.ParseDecimal | lib/functions/fetch.src.ts:41 | a decimal numeral reads as its value |
| BigIntParse.ParseNegative | lib/functions/fetch.src.ts:41 | `-` followed by a numeral reads as the negated value |
| BigIntParse.ParseRejects | lib/functions/fetch.src.ts:41 | a non-blank string that starts with a digit, has no radix prefix (`0` followed by one of `xXoObB`) and is not all digits throws |
| BigIntParse.LetterAfterDigitRejected | lib/functions/fetch.src.ts:41 | `"1x2"` throws: an `x` after a digit other than `0` starts no hexadecimal literal |
| BigIntParse.DecimalRoundTrip | lib/functions/fetch.src.ts:41 | reading the decimal numeral of `n` gives back `n` |
| BigIntParse.ParseToDecimal | lib/functions/fetch.src.ts:41 | `BigInt` of the decimal numeral of `n` is `n` |
| BigIntParse.DigitsValueBound | lib/functions/fetch.src.ts:41 | `n` digits in base `radix` stay below `radix` to the `n` |
| BigIntParse.LongerIsLarger | lib/functions/fetch.src.ts:41 | a numeral with fewer digits is below any longer one without a leading zero, whatever the first digits |
| BigIntParse.NineBeforeTen | lib/functions/fetch.src.ts:41 | `"9"` reads below `"10"` although it is larger as a string |
| BigIntParse.StringToBigInt | lib/functions/fetch.src.ts:41 | text without surrounding white space is read as it stands; the contract says nothing of text with such white space: the body trims it away, and `BigIntParse.ParseBlank` states that white space alone reads as 0; the readings of each kind of string are stated by the `BigIntParse.Parse…` lemmas and `BigIntParse.SignedRadixRejected` |
| BigIntParse.ParseTrimmed | lib/functions/fetch.src.ts:41 | trimmed text has a reading only when it is empty or starts with a digit or a sign |
| BigIntParse.ParsePositive | lib/functions/fetch.src.ts:41 | `+` followed by a numeral reads as its value |
| BigIntParse.ParseRadixLiteral | lib/functions/fetch.src.ts:41 | `0x`, `0o` or `0b` (either case) followed by digits of that radix reads as their value in that radix |
| BigIntParse.SignedRadixRejected | lib/functions/fetch.src.ts:41 | a radix literal with a `-` or `+` in front throws |
| StableSort.Sort | lib/functions/fetch.src.ts:50 | the result is sorted by key, a permutation of the input, and keeps the input order among equal keys |
| StableSort.SortedUnique | lib/functions/fetch.src.ts:50 | two sorted sequences that agree on the order of every key's elements are equal |
| StableSort.SortIsUnique | lib/functions/fetch.src.ts:50 | the stable sort is the only sorted rearrangement that keeps the order among equal keys |
| StableSort.InsertSorted | lib/functions/fetch.src.ts:50 | insertion into a sorted sequence keeps it sorted |
| StableSort.InsertPermutation | lib/functions/fetch.src.ts:50 | insertion adds exactly one occurrence of the element |
| StableSort.InsertStable | lib/functions/fetch.src.ts:50 | insertion puts the element ahead of those with its key and keeps the order of the others |
| StableSort.SortThree | lib/functions/fetch.src.ts:50 | largest, smallest, middle come out smallest, middle, largest |
| KeyFilter.FilterFails | lib/functions/fetch.src.ts:41 | the filter throws exactly when some id throws, or the batch is non-empty and the cursor throws |
| KeyFilter.FilterKeeps | lib/functions/fetch.src.ts:41 | a successful filter keeps each element above the cursor as often as the batch holds it, and nothing else |
| KeyFilter.FilterOrder | lib/functions/fetch.src.ts:41 | a successful filter keeps, in batch order, the elements of each key above the cursor and none of the others |
| KeyFilter.FilterEmpty | lib/functions/fetch.src.ts:41-42 | a successful filter keeps nothing exactly when no element is above the cursor |
| KeyFilter.FilterKeepsAllAbove | lib/functions/fetch.src.ts:41 | when every id is above the cursor, everything is kept |
| KeyFilter.FilterAbove | lib/functions/fetch.src.ts:41 | a successful filter keeps at most the batch, and every kept element is from the batch, has an id and lies strictly above a cursor that could be read; `KeyFilter.FilterFails`, `FilterKeeps`, `FilterOrder` and `FilterEmpty` state the rest |
| Selection.FilterNewThrows | lib/functions/fetch.src.ts:41 | `data.filter` throws exactly when some status id is not a `BigInt` string, or there is a status and the cursor is not one |
| Selection.FilterNewKeeps | lib/functions/fetch.src.ts:41 | the kept statuses are those whose id is strictly above the cursor, with their multiplicity; a status at the cursor is dropped |
| Selection.FilterNewOrder | lib/functions/fetch.src.ts:41 | the kept statuses of each id value keep their page order |
| Selection.FilterNewEmpty | lib/functions/fetch.src.ts:41-42 | nothing is kept exactly when no status is above the cursor |
| Selection.FilterNew | lib/functions/fetch.src.ts:41 | a successful filter keeps at most the page's statuses, and only statuses of the page; `Selection.FilterNewThrows`, `FilterNewKeeps`, `FilterNewOrder` and `FilterNewEmpty` state the rest |
| Selection.SortById | lib/functions/fetch.src.ts:50 | the queue is sorted by id value, a permutation of the kept statuses, and keeps their order among equal ids |
| Selection.QueueSelects | lib/functions/fetch.src.ts:41-50 | the queue holds every status above the cursor, with its multiplicity and nothing else, keeping page order among equal ids |
| Selection.QueueExact | lib/functions/fetch.src.ts:41-50 | any sorted sequence that keeps page order among equal ids above the cursor, and lists nothing else, is the queue |
| Selection.FifoExample | lib/functions/fetch.src.ts:41-50 | statuses with ids "50", "10", "30" and cursor "5" are all kept and queued as "10", "30", "50" |
| Selection.ExclusiveBoundExample | lib/functions/fetch.src.ts:41 | with cursor "30", ids "30" and "31" keep only "31": the bound is exclusive |
| Selection.NineBeforeTenInQueue | lib/functions/fetch.src.ts:50 | ids "10" and "9" are queued as "9", then "10": numeric, not string, order |
| FetchHandler.TryBlock | lib/functions/fetch.src.ts:25-67 | a failed page load is caught; a page with no text returns; a processed queue is non-empty and sorted by id |
| FetchHandler.Batch | lib/functions/fetch.src.ts:26-36 | the statuses are missing exactly when loading threw; a page with no text is the empty array |
| FetchHandler.TryBlockCaught | lib/functions/fetch.src.ts:25-67 | the `catch` is reached exactly when the load threw, some id is not a `BigInt` string, or there is a status and the cursor is not one |
| FetchHandler.TryBlockNothingNew | lib/functions/fetch.src.ts:36-45 | the early `return` happens exactly when the page loaded, every id and the cursor were read, and no status is above the cursor |
| FetchHandler.TryBlockQueue | lib/functions/fetch.src.ts:36-57 | a processed queue comes from a loaded page, selects exactly the statuses above the cursor in a stable order, and is the only sorted sequence that does |
| FetchHandler.RunAccounts | lib/functions/fetch.src.ts:9-71 | each visited account gets the `try` outcome for its initial cursor; only the last visited account can return; the loop ends by `return` exactly when it does; a throw names the next account's cursor read or browser launch; existing records are unchanged, and each new one is the "0" record of an account whose cursor was read: one with an event, or the account whose browser launch then threw |
| FetchHandler.Handler | lib/functions/fetch.src.ts:6-72 | the handler visits at most its one account, changes no existing record, and adds at most that account's "0" record |
| FetchHandler.HandlerRerun | lib/functions/fetch.src.ts:59-65 | a second run on the store the first run left does exactly what the first did, so the same queue is processed again |
| FetchHandler.FetchFailureIsCaught | lib/functions/fetch.src.ts:25-67 | an account whose page fails to load is logged as caught and the loop goes on with the next account |
| FetchHandler.LaunchFailureKeepsRecord | lib/functions/fetch.src.ts:10-18 | a browser launch that throws ends the handler with no event, yet a missing record has already been written as "0" by the cursor read before it |
| FetchHandler.CursorReadFailurePropagates | lib/functions/fetch.src.ts:9-10 | a cursor read that throws ends the handler at once, with nothing visited and the store unchanged |
| FetchHandler.EmptyPageReturns | lib/functions/fetch.src.ts:36-45 | a page with no text selects nothing and the `return` leaves the handler: no later account is visited |
| AccountLoop.LoopOutcomes | lib/functions/fetch.src.ts:9-10 | each visited account gets the outcome for the cursor the initial store holds for it |
| AccountLoop.Loop | lib/functions/fetch.src.ts:9-71 | the loop yields at most one event per account; `AccountLoop.LoopAccounts`, `LoopStore`, `LoopOutcomes`, `LoopExits` and `LoopRerun` state the rest |
| AccountLoop.LoopExits | lib/functions/fetch.src.ts:42-45 | only the last event can return, and the loop ends by `return` exactly when it does |
| AccountLoop.LoopAccounts | lib/functions/fetch.src.ts:9-21 | events follow the account order; the loop completes only after the last account; a throw comes from the next account's cursor read or browser launch |
| AccountLoop.LoopStore | lib/functions/fetch.src.ts:9-18 | the loop changes no existing record and adds only "0" records of accounts whose cursor it read: those with an event, and the one whose browser launch threw after its read |
| AccountLoop.LoopRerun | lib/functions/fetch.src.ts:59-65 | running the loop again on the store it left gives the same run |
| Persistence.GetLastProcessedById | lib/utils/persistence.ts:16-38 | an absent record is created with "0" and "0" returned; a present record is left alone and its value returned, or "0" when the value is missing or empty; the result is never empty |
| Persistence.WriteRecord | lib/utils/persistence.ts:47-57 | the record holds the written value whatever it held before, and no other record changes |
| Persistence.ReadTwice | lib/utils/persistence.ts:16-38 | two reads in a row return the same value and the second changes nothing |
| Persistence.ReadAfterWrite | lib/utils/persistence.ts:16-57 | a read after a write returns the written value, or "0" when it was empty |
| Persistence.LastWriterWins | lib/utils/persistence.ts:47-57 | of two writes to one record only the second shows |
| Persistence.WriteIsolated | lib/utils/persistence.ts:47-57 | a write to one account does not change what a read of another returns |
| Persistence.ReadPreservesReads | lib/utils/persistence.ts:16-38 | a read never changes what a later read of any account returns |

The datatypes `SlimMedia`, `SlimReblog` and `SlimPost` of `TruthSocial`
follow lib/utils/truth.social.types.ts:272-319. A field marked optional
there is an `Option` here.

## Left out

- The browser: the Chromium launch, page creation, the user agent,
  navigation and `$eval`. The launch is a per-account "throws or not" flag,
  and the page is an abstract outcome.
- `browser.close()` in `finally` is taken to succeed. A throwing `close`
  would replace a caught error, or the early `return`, by a throw out of the
  handler. `FetchHandler.FetchFailureIsCaught`, `FetchHandler.EmptyPageReturns`
  and the `Caught` and `NothingNew` outcomes of the loop rely on that.
- The `JSON.parse` details. A page either throws, has no text (parsed as
  `[]`), or yields an array of statuses. A non-array or malformed JSON is a
  throw inside `try`, like a failed navigation.
- `BigInt` of a non-string id. Ids are strings here.
- DynamoDB: the client, marshalling and sends. The table is a map from
  account to an optional `value` attribute. A write inside a read cannot
  fail in the model.
- Concurrency: two handler invocations at once are not modelled.
- Persistence.ReadAfterWrite: reads are modelled as strongly consistent. The
  source's `GetItemCommand` (lib/utils/persistence.ts:17-20) does not set
  `ConsistentRead`, so DynamoDB may serve an eventually consistent read that
  misses a recent write. `FetchHandler.HandlerRerun` and
  `AccountLoop.LoopRerun` rely on the same assumption.
- Console logging, and the empty processing loop with its TODO (posting,
  summarising, Slack). There is no such logic to model.
- The cursor write, which is commented out in the handler. The model has no
  write in the handler, and `FetchHandler.HandlerRerun` states what that
  implies.
- The CDK stack, the Lambda and its schedule, the table definition and the
  configuration constants: deployment only.
- Fields of the full `Post`, `Account`, `Card`, `MediaAttachment` and
  `Mention` interfaces that `cutFatFromPost` does not read.
- Bluesky.Truncate: covers only text without surrogate code units, that is,
  text of the Basic Multilingual Plane. JavaScript counts an emoji as two
  units, and `slice` can cut it in half, leaving a lone surrogate before
  `"..."`. A Dafny `char` cannot hold a lone surrogate, so neither that input
  nor that output can be written in the model.
- Bluesky.PrepareBlueskyMessage: the same restriction to text without
  surrogate code units; for other text the 300 limit is measured in UTF-16
  units, which the model does not count.
- Text.IndexOf: the same restriction; for text with surrogate pairs the
  JavaScript index counts UTF-16 units, not the model's characters.
- Bluesky.PrepareFacet: the facet offsets are UTF-16 code-unit indices, as
  `indexOf` computes them. The model makes no claim about UTF-8 byte offsets,
  which the field names suggest.
- Bluesky.PrepareFits: the 300-character bound is stated only for URLs of at
  most 290 characters. With a longer URL, `slice` gets a negative end; the
  model computes that case (`Bluesky.SliceTo`) but bounds nothing.
- StableSort.Sort: the comparator `Number(BigInt(a.id) - BigInt(b.id))` is
  modelled by the sign of the integer difference. `Number` of a non-zero
  `BigInt` is never zero and keeps the sign, so only that sign matters. The
  float rounding is not modelled.
- Text.Trim: white space is the fixed ECMAScript set listed in `Text`.
  Characters that a later Unicode version adds to the space separators are
  not included.
- TruthSocial.CutFatFromPost: JavaScript truthiness of non-string
  `content`, a `reblog` that is truthy but not an object, and an `account`
  whose `display_name` is missing are not modelled. These inputs are typed
  away.
