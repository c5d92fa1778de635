# Portfolio site: contact endpoint, hero video, works sections

A Dafny model of the behavioural core of a Next.js portfolio site:

- the contact form endpoint (`POST /api/contact`): request validation by a
  six-field schema, the escaped HTML notification mail, the outbound mail's
  addressing, and the choice of JSON response and status code;
- the hero section: YouTube id extraction from a link, the choice between a
  YouTube and an MP4 background, and the split of the catchphrase at `、`;
- the works section: the thumbnail id taken from a video link, the two-digit
  work number, and the alternating two-column layout;
- the works grid of the design-pattern preview: the category filter buttons,
  whose single piece of state (`activeCategory`) is a class field changed by
  a method, the filtered list, the badge label lookup and the card rules.

Modules, one per file:

| file | module | models |
|---|---|---|
| `wrappers.dfy` | `Wrappers` | `Option` and `Result` |
| `text.dfy` | `Text` | JavaScript `indexOf`, `split` and `join` on strings, character counts |
| `html_escape.dfy` | `HtmlEscape` | `escapeHtml` and a decoder to state its round trip |
| `contact.dfy` | `Contact` | schema, `safeParse`, mail body and headers, `POST` |
| `hero.dfy` | `Hero` | `extractYoutubeId`, background video choice, headline blocks |
| `works.dfy` | `Works` | thumbnail id, work number, layout, badges |
| `works_pattern.dfy` | `WorksPattern` | categories, default works, filter, cards, the `WorksSection` class |

The email-format check of the schema library is not visible in the source;
every member that needs it takes it as a parameter `isEmail`. The mail
provider's answer and the outcome of JSON parsing are inputs
(`SendOutcome`, `ParseOutcome`), and so is the recipient environment
variable.

## Model

| member | source | states |
|---|---|---|
| `Text.IndexOf` | components/sections/Works.tsx:103 | the result is the first position at or after `from` where the separator occurs, and none when it does not occur |
| `Text.Split` | components/sections/Hero.tsx:115 | `split` yields at least one piece |
| `Text.JoinSplit` | components/sections/Hero.tsx:115 | joining the pieces of `split` with the separator gives back the original string |
| `Text.SplitPartsAvoidSeparator` | components/sections/Hero.tsx:115 | no piece of `split` contains the separator |
| `Text.SplitHead` | components/sections/Works.tsx:103 | the first piece is the text before the first occurrence, or the whole string |
| `Text.SplitSecond` | components/sections/Works.tsx:103 | a second piece exists iff the separator occurs, and it is the text between the first and the next occurrence |
| `Text.SplitCharCount` | components/sections/Hero.tsx:115 | splitting at one character yields one piece more than that character's count |
| `HtmlEscape.EscapeHtml` | app/api/contact/route.ts:173-182 | the result is never shorter than the input and contains no `<`, `>`, `"` or `'` |
| `HtmlEscape.UnescapeEscape` | app/api/contact/route.ts:174-181 | decoding the five entities recovers the original text from the escaped text |
| `HtmlEscape.EscapeInjective` | app/api/contact/route.ts:173-182 | different texts are escaped to different texts |
| `HtmlEscape.EscapeAppend` | app/api/contact/route.ts:181 | escaping works piece by piece: escaping a concatenation concatenates the escapes |
| `HtmlEscape.EscapePlainText` | app/api/contact/route.ts:181 | text without any of the five characters is left unchanged |
| `HtmlEscape.EscapeLength` | app/api/contact/route.ts:174-181 | the escaped length is the input length plus 4, 3, 3, 5 and 4 per `&`, `<`, `>`, `"`, `'` |
| `HtmlEscape.EscapeNotIdempotent` | app/api/contact/route.ts:175 | escaping twice escapes the `&` of the first entity again |
| `HtmlEscape.EscapeTagExample` | app/api/contact/route.ts:176-177 | `<b>` becomes `&lt;b&gt;` |
| `HtmlEscape.EscapedHasNoAngleBrackets` | app/api/contact/route.ts:74 | an escaped value holds no angle bracket, so it cannot open a tag |
| `Contact.RuleIssuesFollowRuleFails` | app/api/contact/route.ts:6-13 | each schema rule yields an issue for its key exactly when that key's value fails the rule |
| `Contact.CheckValue` | app/api/contact/route.ts:6-13 | a missing value is rejected with `Required` exactly by the required rules; a non-string value is rejected with `Expected string, received <type>` by every rule; a string is rejected only by a required rule and then with that rule's message |
| `Contact.Validate` | app/api/contact/route.ts:26-32 | at most six issues (the number of schema rules); a body that is not an object gets one issue, with the empty path and `Expected object, received <type>` |
| `Contact.IssueFieldsAreFailingKeys` | app/api/contact/route.ts:26-32 | the issue fields are the failing keys, one each, in rule order |
| `Contact.ErrorFieldsInSchemaOrder` | app/api/contact/route.ts:6-13 | for an object body, the error fields are exactly the failing schema keys in the order name, email, company, message, deadline, budget |
| `Contact.ValidateEmptyIffAccepted` | app/api/contact/route.ts:26-28 | validation reports no issue iff the body is accepted |
| `Contact.OptionalTextNeverRejects` | app/api/contact/route.ts:9-12 | when company, deadline and budget are absent or strings, only name, email and message can be reported |
| `Contact.RequiredRuleMessages` | app/api/contact/route.ts:7-10 | an empty name, an invalid email and a message under 10 characters each yield the schema's Japanese message for that field |
| `Contact.SafeParse` | app/api/contact/route.ts:26-45 | success iff the body is accepted; then the data satisfies every rule and its name, email and message are the body's strings and its company, deadline and budget are the body's members (absent when missing); otherwise the error list is the non-empty issue list |
| `Contact.SectionsPresence` | app/api/contact/route.ts:72-113 | the block labels are name, email, then company, deadline and budget in that order, each iff set and non-empty, then the message; each block carries its field's value |
| `Contact.RenderSectionsMarkup` | app/api/contact/route.ts:72-113 | the count of `<` and `>` in the rendered fields depends only on which fields appear |
| `Contact.MarkupIndependentOfInput` | app/api/contact/route.ts:48-121 | two submissions with the same optional fields present give mail bodies with the same tag characters: user text cannot add markup |
| `Contact.ComposeBody` | app/api/contact/route.ts:48-121 | the body begins with the document head and ends with the footer |
| `Contact.ComposeBodyShowsFields` | app/api/contact/route.ts:72-113 | the body shows the escaped name, email and message, and the escaped value of each optional field that is set |
| `Contact.Recipient` | app/api/contact/route.ts:126 | the recipient is the environment value when it is set and non-empty, and empty otherwise |
| `Contact.ComposeEmail` | app/api/contact/route.ts:124-130 | reply-to is the sender's email, the subject starts with `[Portfolio] ` and the name, the body is the rendered HTML, the recipient is the environment value or empty |
| `Contact.HandlePost` | app/api/contact/route.ts:20-169 | status is 200, 400 or 500; success iff status 200 iff the body parsed, was accepted and the provider delivered; the id is present iff success; errors are present iff the parsed body was rejected, then equal the issue list with status 400; a send is attempted iff the body parsed and was accepted, and the email sent is the one composed from the parsed data and the recipient variable (recipient, raw-name subject, reply-to, body); malformed JSON, and a `SyntaxError` thrown while sending, give 400 with the bad-format message and no errors; a failed read, a provider error and any other thrown error give 500 |
| `Contact.ProviderDetailNotEchoed` | app/api/contact/route.ts:132-141 | the response to a provider failure does not depend on the provider's error detail |
| `Contact.SampleSubmissionAccepted` | app/api/contact/route.ts:6-13 | a complete sample inquiry is accepted and answered with 200 and the provider's id |
| `Hero.LineEnd` | components/sections/Hero.tsx:16 | the first line ends at the first line terminator, which `.` cannot match |
| `Hero.MarkerShape` | components/sections/Hero.tsx:16 | a marker has at least two characters, ends in `/` or `=`, and begins with the first two characters of one of the pattern's six alternatives (`youtu.be/`, `v/`, `u/x/`, `embed/`, `watch?v=`, `&v=`) |
| `Hero.LastMarker` | components/sections/Hero.tsx:16 | a chosen position is a marker start before the limit |
| `Hero.LastMarkerIsLast` | components/sections/Hero.tsx:16 | no marker starts after the chosen one before the limit, and none at all when none is chosen: the greedy `^.*` settles on the last marker of the line |
| `Hero.RunEnd` | components/sections/Hero.tsx:16 | the run after the marker is the longest one free of `#`, `&` and `?` |
| `Hero.ExtractYoutubeId` | components/sections/Hero.tsx:15-19 | an id, when returned, has exactly 11 characters, none of them `#`, `&` or `?` |
| `Hero.ExtractYoutubeIdIsGreedyMatch` | components/sections/Hero.tsx:16-18 | an id is returned iff the greedy match of the pattern captures it and it has 11 characters |
| `Hero.NoMarkerNoId` | components/sections/Hero.tsx:16-18 | without a marker on the first line the result is null |
| `Hero.ExtractIdAfterMarker` | components/sections/Hero.tsx:16-18 | a single-line link ending in a marker and an 11-character id yields that id |
| `Hero.ShortLinkRoundTrip` | components/sections/Hero.tsx:16-18 | the id is recovered from `https://youtu.be/<id>` |
| `Hero.WatchLinkRoundTrip` | components/sections/Hero.tsx:16-18 | the id is recovered from `https://www.youtube.com/watch?v=<id>` |
| `Hero.YoutubeIdOf` | components/sections/Hero.tsx:48 | no id when the YouTube URL is missing or empty, otherwise the id extracted from it; an id has 11 characters |
| `Hero.VideoLayers` | components/sections/Hero.tsx:24-60 | at most one background; a YouTube embed iff the source is YouTube (the default) and an id was found; an MP4 video iff the source is mp4 and the file URL is non-empty |
| `Hero.AtMostOneBackground` | components/sections/Hero.tsx:49-50 | the two show conditions never hold together; the embed shows iff the source is not mp4 and an id was found; the video shows iff the source is mp4 and the file URL is set and non-empty |
| `Hero.HeadlineBlocks` | components/sections/Hero.tsx:115-120 | one block per `、`-separated part; the first block is the first part followed by `、`, every later block is the matching later part |
| `Hero.HeadlineCommas` | components/sections/Hero.tsx:118 | the first block holds exactly one `、`, every other block none |
| `Hero.HeadlineTextIffOneComma` | components/sections/Hero.tsx:115-120 | the headline's text equals the catchphrase iff the catchphrase has exactly one `、` |
| `Works.CutEnd` | components/sections/Works.tsx:103 | the first `&` or `v=` at or after a position, or the end |
| `Works.ThumbnailIdIsPositional` | components/sections/Works.tsx:103 | the split-based id is the text after the first `v=` up to the next `&` or `v=`, falling back to the whole URL when there is no `v=` or that text is empty |
| `Works.ThumbnailIdShape` | components/sections/Works.tsx:103 | without `v=` the id is the URL; a non-fallback id is non-empty, shorter than the URL, and holds no `&` and no `v=` |
| `Works.ThumbnailId` | components/sections/Works.tsx:103 | the id is empty exactly when the video URL is empty |
| `Works.ThumbnailSrc` | components/sections/Works.tsx:101-107 | a thumbnail exists iff the video URL is set and non-empty, and its address embeds the thumbnail id |
| `Works.DecimalString` | components/sections/Works.tsx:144 | `String(n)` is a non-empty digit string |
| `Works.PadStart` | components/sections/Works.tsx:144 | `padStart` reaches the width or keeps the string, keeps the string at the end and fills only the front |
| `Works.WorkNumber` | components/sections/Works.tsx:144 | the work number has at least two characters, all decimal digits |
| `Works.DecimalRoundTrip` | components/sections/Works.tsx:144 | the decimal digits read back as the number |
| `Works.DecimalNoLeadingZero` | components/sections/Works.tsx:144 | the decimal form starts with `0` only for zero, and has one digit iff the number is below 10 |
| `Works.WorkNumberValue` | components/sections/Works.tsx:144 | the work number reads as index + 1, has two digits for the first nine works and the decimal length otherwise, and a leading `0` exactly for the first nine |
| `Works.WorkNumbersDistinct` | components/sections/Works.tsx:144 | different positions get different numbers |
| `Works.LayoutFor` | components/sections/Works.tsx:64-131 | the spans are 7 and 5 for a featured work and 6 and 6 otherwise, so they sum to 12 and the image is wider iff featured; image before text iff the index is even; text, items and line alignment agree and are start-aligned iff the index is even |
| `Works.LayoutAlternates` | components/sections/Works.tsx:64-112 | neighbouring articles swap column order and alignment and keep their spans |
| `Works.Badges` | components/sections/Works.tsx:115-123 | the category label first, then the target customer and the duration exactly when set and non-empty |
| `Works.Articles` | components/sections/Works.tsx:63-152 | one article per work in order; its layout is `LayoutFor` of its position, its badges are `Badges` of the work, its icon is the category's icon, and its thumbnail is `ThumbnailSrc` of the video URL (present iff the URL is set); featured label iff featured; numbers read as position + 1 and are distinct |
| `WorksPattern.CategoryIdsDistinct` | src/design-patterns/sections/WorksPattern.tsx:27-32 | the four button ids are distinct |
| `WorksPattern.Filter` | src/design-patterns/sections/WorksPattern.tsx:89 | every kept work has the category, every work with it is kept, and the list never grows |
| `WorksPattern.FilterIsSubsequence` | src/design-patterns/sections/WorksPattern.tsx:89 | the filtered list keeps the relative order of the works |
| `WorksPattern.FilterMultiplicity` | src/design-patterns/sections/WorksPattern.tsx:89 | each matching work occurs as often as in the input, any other not at all |
| `WorksPattern.FilterIdempotent` | src/design-patterns/sections/WorksPattern.tsx:89 | filtering twice by one category is filtering once |
| `WorksPattern.FilteredWorks` | src/design-patterns/sections/WorksPattern.tsx:87-89 | `all` shows exactly the works; any other id shows only and all works of that category |
| `WorksPattern.FilteredWorksIsSubsequence` | src/design-patterns/sections/WorksPattern.tsx:87-89 | the visible list is in the works' order |
| `WorksPattern.DefaultWorksByCategory` | src/design-patterns/sections/WorksPattern.tsx:35-70 | the default works give two AI video works (ids 1 and 3), one AI manga and one design work |
| `WorksPattern.Find` | src/design-patterns/sections/WorksPattern.tsx:190 | the first table entry with the id, or none iff no entry has it |
| `WorksPattern.BadgeLabel` | src/design-patterns/sections/WorksPattern.tsx:190 | a known id shows the table label, an unknown category shows itself |
| `WorksPattern.AspectRatioPattern` | src/design-patterns/sections/WorksPattern.tsx:173 | a card is wide iff its index is a multiple of three; the pattern repeats every three cards |
| `WorksPattern.WideCardCount` | src/design-patterns/sections/WorksPattern.tsx:173 | of the first n cards, a third rounded up are wide |
| `WorksPattern.CardFor` | src/design-patterns/sections/WorksPattern.tsx:171-290 | Featured badge iff featured is true; play overlay iff the video URL is set and non-empty; duration and target customer shown iff set and non-empty, and then with the work's value; the badge is `BadgeLabel` of the category; the aspect ratio is that of the position; the image's alt text is the title |
| `WorksPattern.ImageSrcDistinct` | src/design-patterns/sections/WorksPattern.tsx:174 | works with different ids get different placeholder images |
| `WorksPattern.Cards` | src/design-patterns/sections/WorksPattern.tsx:163-293 | one card per visible work, in order: card i is `CardFor` of work i at position i |
| `WorksPattern.WorksSection.constructor` | src/design-patterns/sections/WorksPattern.tsx:82-85 | the works default to the built-in list; the active category starts as `all` and everything is visible |
| `WorksPattern.WorksSection.SelectCategory` | src/design-patterns/sections/WorksPattern.tsx:116-132 | after a click exactly that button is active, the active id stays a table id, and the visible works are all works for the first button and only works of the category otherwise |

## Left out

- Sending mail through the provider's SDK, the provider's API key and the
  recipient environment variable: the send outcome and the variable's value
  are inputs.
- `console.error` logging in the endpoint.
- JSON parsing of the request body: only its outcome (parsed value, syntax
  error, other failure) is modelled.
- The email grammar of the schema library: a parameter `isEmail`.
- `Contact.Validate`: string length is counted in characters, not in UTF-16
  code units as the schema library does; for characters outside the Basic
  Multilingual Plane the minimum-length rules differ.
- `Contact.Validate`: the library's default messages for a missing or
  non-string field ("Required", "Expected string, received …") are modelled
  as fixed strings following that library's wording, which is not part of
  this model's sources.
- `Contact.ComposeBody`: the document head, style sheet and indentation of
  the mail template are not reproduced character for character; the field
  blocks, labels, CSS classes, order and escaping are.
- `Contact.HandlePost`: a delivery that reports neither an error nor data
  is not distinguished from one with data; the id is taken from the
  delivery outcome.
- `Hero.ExtractYoutubeId`: the length-11 test and the pattern's `.` and
  `[^#&?]` work on UTF-16 code units in the source but on characters here,
  so an id holding a character outside the Basic Multilingual Plane is
  judged differently.
- The regular expression engine in general: only the one pattern of the
  hero section is modelled, as an explicit marker search.
- `Hero.VideoLayers`: the iframe and video attributes other than the source
  address are not modelled.
- All other markup and styling (class names, inline styles, icons as
  images, framer-motion animation settings, SVG paths), the header's scroll
  listener, the CMS schemas and queries, the seed scripts and the page's
  data fetch.
- `WorksPattern.WorksSection`: the animated indicator and the
  `AnimatePresence` re-keying on category change are presentation only.
