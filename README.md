# blog-translation in Dafny

A model of two parts of the blog translation service, with proofs about each.

**Text guarding around machine translation (`GoogleTranslator.translate`).** Before a markdown
entry goes to the translation provider, a fixed chain of string rewrites runs over it:

- `http` after `[`, `(`, `"`, `: ` and `curl …` is re-cased to `Http`;
- every remaining bare URL is wrapped as a markdown link `[u](u)`;
- the re-casing is undone;
- `<!-- toc -->`, `<br>` and `<img` become the sentinel words `HEREISTOC`, `HEREISBR` and `BEGINIMG`;
- short links `[http://host](http://host)` are collapsed back to `http://host`.

After translation, a cleanup chain repairs the converter's markdown and a restore chain turns the
sentinel words back into tags. Each Java `String.replace` and `replaceAll` is modelled by one
scanner, `TextReplace.ReplaceAll`: leftmost, non-overlapping, left to right. Each regular
expression is a hand-written matcher in `Patterns`. The markdown parser, the renderers, the
provider call and the HTML-to-markdown converter are uninterpreted functions passed to
`GoogleTranslator.Translate`.

**Revision bookkeeping for stored translations.**

- `TranslationStore` models the `translation` table as a map from `TranslationKey` (entry id,
  language, revision) to the rest of the row. The four queries are functions of that map with
  the SQL's filter, order, `DISTINCT` and `LIMIT`. `insert` and `delete` are methods of the
  `TranslationMapper` class.
- `TranslationWeb` models the controller's handlers. `addNewTranslation` is specified by the
  function `AddNew` and implemented by a method that reads the latest revision and inserts the
  next one.
- `TranslationKeys` holds the key, `nextRevision` (Java `int` arithmetic, wrapping at 2^31-1)
  and the stored record.
- `CreateRequest` holds the request body and its three ordered not-null constraints.

Files: `wrappers.dfy`, `text_replace.dfy`, `patterns.dfy`, `google_translator.dfy`,
`guard_links.dfy`, `translation_key.dfy`, `ordering.dfy`, `translation_mapper.dfy`, `create_request.dfy`,
`translation_controller.dfy`.

Three properties one might expect of the translator do not hold in the code, and each
failure is proved as a lemma:

- Cleanup is not idempotent: `GoogleTranslator.CleanupIsNotIdempotent`.
- Guard followed by restore is not the identity: `GoogleTranslator.TocComesBackOnItsOwnLine`.
- A sentinel word already in the input is not rejected; it is turned into a tag:
  `GoogleTranslator.RestoreAuthorSentinel`.

## Model

| member | source | states |
|---|---|---|
| GoogleTranslator.Translate | src/main/java/am/ik/blog/translator/text/GoogleTranslator.java:64-108 | equal (null-safe) source and target return the text unchanged; otherwise the call fails exactly when the provider fails, and a successful result contains none of `HEREISTOC`, `HEREISBR`, `BEGINIMG` |
| GoogleTranslator.RenderTranslation | src/main/java/am/ik/blog/translator/text/GoogleTranslator.java:91-107 | whatever HTML the provider returns, the converted, cleaned, rendered and restored text holds none of `HEREISTOC`, `HEREISBR`, `BEGINIMG` |
| GoogleTranslator.ShieldLeavesNoBareScheme | src/main/java/am/ik/blog/translator/text/GoogleTranslator.java:69-73 | after the re-casing steps no `[http`, `(http`, `"http` or `: http` is left |
| Patterns.CurlMatchOf | src/main/java/am/ik/blog/translator/text/GoogleTranslator.java:72 | `curl`, a non-empty run of `[\-a-zA-Z0-9 ]` and then the word is matched up to the last such word the run can reach (greedy, then backing off), and replaced by `curl`, that run and the new word |
| Patterns.CurlRecases | src/main/java/am/ik/blog/translator/text/GoogleTranslator.java:72 | for words that differ only in their first letter, each curl match has the same length as its replacement, and every character of it is kept or is that first letter (`h`) turned into the new one (`H`) |
| GoogleTranslator.ShieldedUrlIsBare | src/main/java/am/ik/blog/translator/text/GoogleTranslator.java:69-74 | every URL the wrapping step finds after re-casing is preceded by none of `[`, `(`, `"` or `: ` |
| Patterns.UrlLengthIsLongestMatch | src/main/java/am/ik/blog/translator/text/GoogleTranslator.java:55 | the URL matcher returns the longest prefix matching URL_PATTERN (no longer prefix matches, and there is none when it reports no match); that URL never ends in `.`, `,`, `;`, `:`, `!` or `?` |
| GoogleTranslator.LinkifyWrapsLongestUrl | src/main/java/am/ik/blog/translator/text/GoogleTranslator.java:74 | where a URL starts, the wrap step writes the longest URL_PATTERN match `u` as `[u](u)` and continues after `u` |
| GoogleTranslator.UnshieldLeavesNoShield | src/main/java/am/ik/blog/translator/text/GoogleTranslator.java:75-79 | after the reverse re-casing no `[Http`, `(Http`, `"Http` or `: Http` is left, including ones the author wrote |
| GoogleTranslator.HideTagsRemovesTags | src/main/java/am/ik/blog/translator/text/GoogleTranslator.java:80-82 | after the sentinel swaps no `<!-- toc -->`, `<br>` or `<img` is left |
| GoogleTranslator.GuardHidesTags | src/main/java/am/ik/blog/translator/text/GoogleTranslator.java:68-83 | the whole guard chain leaves no `<!-- toc -->`, `<br>` or `<img`: the later short-link collapse cannot form one |
| GoogleTranslator.GuardLowercasesSchemes | src/main/java/am/ik/blog/translator/text/GoogleTranslator.java:68-83 | the whole guard chain leaves no `[Http`, `(Http`, `"Http` or `: Http` |
| Patterns.ShortLinkMatchOf | src/main/java/am/ik/blog/translator/text/GoogleTranslator.java:83 | `[u](v)`, with `u` and `v` each a scheme plus an alphanumeric host, is matched whole and replaced by `u` |
| GoogleTranslator.CollapseShortLinkOf | src/main/java/am/ik/blog/translator/text/GoogleTranslator.java:83 | the collapse writes `u` for `[u](v)` and continues after the link: the target `v` is dropped even when it differs from `u` |
| GoogleTranslator.WrappedShortUrlCollapses | src/main/java/am/ik/blog/translator/text/GoogleTranslator.java:74-83 | a short URL `u` that the wrap step turned into `[u](u)` comes out of the collapse as the bare `u` |
| GuardLinks.GuardKeepsDottedLink | src/main/java/am/ik/blog/translator/text/GoogleTranslator.java:68-83 | a self-link `[http://a.b](http://a.b)` whose host has a dot after an alphanumeric first label and no `h` or `H` comes out of the guard chain unchanged: both schemes are re-cased and re-cased back, and the collapse does not fire |
| GuardLinks.GuardKeepsLinkToDottedHost | src/main/java/am/ik/blog/translator/text/GoogleTranslator.java:68-83 | `[http://a.com](http://a.com)` comes out of the guard chain unchanged |
| GuardLinks.GuardKeepsBareShortUrl | src/main/java/am/ik/blog/translator/text/GoogleTranslator.java:68-83 | a bare short URL without `H` and `curl` comes out of the guard chain unchanged: it is wrapped as `[u](u)` and collapsed back to `u` |
| GuardLinks.GuardKeepsLocalhost | src/main/java/am/ik/blog/translator/text/GoogleTranslator.java:68-83 | `http://localhost` comes out of the guard chain unchanged |
| GuardLinks.GuardWrapsBareUrl | src/main/java/am/ik/blog/translator/text/GoogleTranslator.java:68-83 | a bare URL `u` in running text `p + u + q` comes out of the guard chain as `p + "[u](u)" + q`, when `u` is not a short URL, no `http` follows `(`, `"` or `: `, no `curl` occurs, no URL can begin in `p` or `q`, `q` does not continue the URL, and no `[`, `<` or `H` occurs |
| GuardLinks.GuardWrapsUrlInSentence | src/main/java/am/ik/blog/translator/text/GoogleTranslator.java:68-83 | `see http://a.com now` comes out of the guard chain as `see [http://a.com](http://a.com) now` |
| GuardLinks.ShieldKeepsUnguarded | src/main/java/am/ik/blog/translator/text/GoogleTranslator.java:69-73 | re-casing changes nothing in a text where no `http` follows `[`, `(`, `"` or `: ` and no `curl` occurs |
| GuardLinks.LinkifySkipsInert | src/main/java/am/ik/blog/translator/text/GoogleTranslator.java:74 | the wrap step copies a prefix inside which no URL can begin and then scans the rest on its own: `Linkify(p + s) == p + Linkify(s)` |
| GuardLinks.LinkifyWrapsBareUrl | src/main/java/am/ik/blog/translator/text/GoogleTranslator.java:74 | a URL `u` in running text becomes `[u](u)` and the text around it is kept, when no URL can begin in `p` or `q` and `q` does not continue the URL |
| GuardLinks.UrlLengthOf | src/main/java/am/ik/blog/translator/text/GoogleTranslator.java:74 | the URL match at the start of `u + q` is all of `u` and no more, when `u` is a URL and `q` does not start with a URL character |
| GuardLinks.CollapseKeepsWrappedUrl | src/main/java/am/ik/blog/translator/text/GoogleTranslator.java:83 | the collapse leaves `p + "[u](u)" + q` alone when `u` is a URL but not a short URL and neither `p` nor `q` holds `[` |
| GuardLinks.ColonNeverSpaced | src/main/java/am/ik/blog/translator/text/GoogleTranslator.java:73 | a text whose only colons are inside a URL holds no `: http`, so the colon step of the re-casing cannot fire on it |
| Patterns.ShortLinksKeepAbsent | src/main/java/am/ik/blog/translator/text/GoogleTranslator.java:83 | the collapse cannot create an occurrence of a pattern that contains no `h` and starts with a non-alphanumeric character other than `/` (after a `:`, one no short URL contains) |
| GoogleTranslator.UnescapeAnglesRemovesEscapes | src/main/java/am/ik/blog/translator/text/GoogleTranslator.java:92-93 | text without a doubled backslash has no `\<` and no `\>` after unescaping |
| GoogleTranslator.CleanupIsNotIdempotent | src/main/java/am/ik/blog/translator/text/GoogleTranslator.java:92-96 | cleanup turns `\\<` into `\<`, and a second cleanup turns that into `<`: cleanup is not idempotent |
| Patterns.EmphasisNumberMatchOf | src/main/java/am/ik/blog/translator/text/GoogleTranslator.java:94 | `*…*` with no line break and exactly one digit run is matched whole, with `_` + that number + `_` as the replacement |
| GoogleTranslator.EmphasisNumberBecomesUnderscored | src/main/java/am/ik/blog/translator/text/GoogleTranslator.java:94 | such a span becomes `_N_` in the output and every other character between the stars is dropped |
| Patterns.SpacedNumberMatchOf | src/main/java/am/ik/blog/translator/text/GoogleTranslator.java:95 | ` _N_ ` is matched with both spaces and becomes `` `_N_` `` with the spaces kept |
| GoogleTranslator.SharedSpaceQuotesFirstOnly | src/main/java/am/ik/blog/translator/text/GoogleTranslator.java:95 | in ` _1_ _2_ ` only the first number is back-quoted in one pass, because the first match consumes the shared space |
| Patterns.NumberAtLineEndMatchOf | src/main/java/am/ik/blog/translator/text/GoogleTranslator.java:96 | white space before `_N_` and a line break is dropped |
| GoogleTranslator.RestoreRemovesSentinels | src/main/java/am/ik/blog/translator/text/GoogleTranslator.java:105-107 | after the restore chain none of `HEREISTOC`, `HEREISBR`, `BEGINIMG` is left, whatever the translated text holds |
| GoogleTranslator.RestoreTocAt | src/main/java/am/ik/blog/translator/text/GoogleTranslator.java:105-107 | a `HEREISTOC` anywhere in the text becomes the line separator followed by `<!-- toc -->`, and the text on either side of it is restored on its own |
| GoogleTranslator.RestoreAuthorSentinel | src/main/java/am/ik/blog/translator/text/GoogleTranslator.java:106 | a `HEREISBR` the author wrote is restored to `<br>`: sentinel words in the input are not rejected |
| GoogleTranslator.SentinelRoundTrip | src/main/java/am/ik/blog/translator/text/GoogleTranslator.java:80-107 | for text without sentinel words and without `<!-- toc -->`, the tag swaps followed by the restore chain give the text back |
| GoogleTranslator.TocComesBackOnItsOwnLine | src/main/java/am/ik/blog/translator/text/GoogleTranslator.java:80-107 | `<!-- toc -->` comes back with a line separator in front of it, so guard then restore is not the identity |
| TextReplace.ReplaceRoundTrip | src/main/java/am/ik/blog/translator/text/GoogleTranslator.java:81-82 | `replace(a, b)` then `replace(b, a)` is the identity on text without `b`, when no occurrence of `b` can straddle |
| TextReplace.ReplaceCommute | src/main/java/am/ik/blog/translator/text/GoogleTranslator.java:80-82 | two literal replaces whose patterns and replacements cannot overlap one another commute |
| TranslationKeys.NextRevision | src/main/java/am/ik/blog/translation/TranslationKey.java:7-9 | the result is congruent to `revision + 1` modulo 2^32 and lies in the `int` range |
| TranslationKeys.NextRevisionGrows | src/main/java/am/ik/blog/translation/TranslationKey.java:8 | the next revision is larger than the current one exactly when the current one is below 2^31-1 |
| TranslationKeys.NextRevisionIncrements | src/main/java/am/ik/blog/translation/TranslationKey.java:8 | below 2^31-1 the next revision is `revision + 1` |
| TranslationKeys.NextRevisionWraps | src/main/java/am/ik/blog/translation/TranslationKey.java:8 | at 2^31-1 the next revision is -2^31 |
| TranslationKeys.NextRevisionOnlyUsesRevision | src/main/java/am/ik/blog/translation/TranslationKey.java:8 | keys with the same revision have the same next revision, whatever their entry id and language |
| TranslationKeys.KeyEquality | src/main/java/am/ik/blog/translation/TranslationKey.java:3-5 | two keys are equal exactly when entry id, language and revision are all equal |
| CreateRequest.Validate | src/main/java/am/ik/blog/translation/web/TranslationCreateRequest.java:10-18 | every violation names one of the fields `language`, `title`, `content` and carries the `object.notNull` key; there is a violation for a field exactly when that field is null; violations come in the order language, title, content |
| CreateRequest.ValidIffNoNull | src/main/java/am/ik/blog/translation/web/TranslationCreateRequest.java:10-14 | a request is valid exactly when language, title and content are all non-null |
| CreateRequest.EmptyStringsAreValid | src/main/java/am/ik/blog/translation/web/TranslationCreateRequest.java:11-13 | empty strings pass: only nullness is checked |
| CreateRequest.AllNullViolations | src/test/java/am/ik/blog/translation/web/TranslationControllerTest.java:153-169 | an empty request yields exactly three violations, naming language, title and content in that order |
| Ordering.SortDescending | src/main/java/am/ik/blog/translation/TranslationMapper.java:30-39 | the listing holds every member of the set exactly once, each above all later ones |
| TranslationStore.AvailableLanguage | src/main/java/am/ik/blog/translation/TranslationMapper.java:30-32 | the languages listed are exactly those stored for the entry, in strictly descending order, so without duplicates |
| TranslationStore.AllRevisionsOfTranslation | src/main/java/am/ik/blog/translation/TranslationMapper.java:34-39 | every row stored for the entry and language, and only those, in strictly descending revision order, with title and creation time from the row and content null |
| TranslationStore.LatestTranslation | src/main/java/am/ik/blog/translation/TranslationMapper.java:41-48 | empty exactly when nothing is stored for the entry and language; otherwise a stored row of that entry and language whose revision is the largest |
| TranslationStore.GetTranslation | src/main/java/am/ik/blog/translation/TranslationMapper.java:50-59 | present exactly when the key is stored, and then that row under that key |
| TranslationStore.TranslationMapper.Insert | src/main/java/am/ik/blog/translation/TranslationMapper.java:61-67 | a fresh key adds exactly that row and returns 1; a stored key fails with a duplicate-key error and leaves the table as it was |
| TranslationStore.TranslationMapper.Delete | src/main/java/am/ik/blog/translation/TranslationMapper.java:69-74 | returns 1 when the key was stored and 0 otherwise; the table loses exactly that key |
| TranslationStore.LatestIsFirstRevision | src/main/java/am/ik/blog/translation/TranslationMapper.java:34-48 | the latest translation is the first of all revisions, which is the same row with its content; there is none exactly when the list is empty |
| TranslationStore.InsertThenGet | src/main/java/am/ik/blog/translation/TranslationMapper.java:50-67 | a translation inserted under its key is read back with the same title, content and creation time |
| TranslationStore.UpdatesKeepOtherKeys | src/main/java/am/ik/blog/translation/TranslationMapper.java:61-74 | inserting or deleting one key leaves every other key's row unchanged |
| TranslationStore.DeleteThenGet | src/main/java/am/ik/blog/translation/TranslationMapper.java:50-74 | after a delete the key is not found |
| TranslationStore.InsertAboveLatest | src/main/java/am/ik/blog/translation/TranslationMapper.java:41-67 | a row whose revision is above every stored revision of its entry and language becomes the latest |
| TranslationWeb.AddNew | src/main/java/am/ik/blog/translation/web/TranslationController.java:108-121 | rejected exactly when the latest title and content equal the submitted ones (null-safe) or the next key is already stored, and then the table is unchanged; otherwise the returned translation has revision 1 or the latest's `nextRevision()`, and exactly that one row is added |
| TranslationWeb.TranslationController.AddNewTranslation | src/main/java/am/ik/blog/translation/web/TranslationController.java:108-121 | the method's result and new table are those of `AddNew` on the old table |
| TranslationWeb.FirstRevisionIsOne | src/main/java/am/ik/blog/translation/web/TranslationController.java:109-116 | with no translation for the entry and language, the new one is stored with revision 1 |
| TranslationWeb.NextRevisionIsLatestPlusOne | src/main/java/am/ik/blog/translation/web/TranslationController.java:109-114 | with latest revision r below 2^31-1 and a change, the new one is stored with revision r+1 |
| TranslationWeb.UnchangedIsRejected | src/main/java/am/ik/blog/translation/web/TranslationController.java:111-112 | an unchanged title and content is answered 400 and nothing is stored |
| TranslationWeb.AddedBecomesLatest | src/main/java/am/ik/blog/translation/web/TranslationController.java:108-121 | below the largest revision a changed translation is always stored, and it is then the latest |
| TranslationWeb.WrappedRevisionIsNotLatest | src/main/java/am/ik/blog/translation/web/TranslationController.java:114 | after revision 2^31-1 the next translation is stored as -2^31 and the old one stays the latest |
| TranslationWeb.TranslationController.GetAllRevisionsOfTranslation | src/main/java/am/ik/blog/translation/web/TranslationController.java:47-50 | answers 200 with the table's revision listing |
| TranslationWeb.TranslationController.GetLatestTranslation | src/main/java/am/ik/blog/translation/web/TranslationController.java:52-57 | 404 exactly when nothing is stored for the entry and language; otherwise 200 with the stored row of the largest revision |
| TranslationWeb.TranslationController.GetAvailableLanguage | src/main/java/am/ik/blog/translation/web/TranslationController.java:59-63 | answers 200 with the table's language listing |
| TranslationWeb.TranslationController.GetTranslation | src/main/java/am/ik/blog/translation/web/TranslationController.java:65-71 | 404 exactly when the key is not stored; otherwise 200 with that row |
| TranslationWeb.TranslationController.PostTranslation | src/main/java/am/ik/blog/translation/web/TranslationController.java:73-88 | an invalid request answers 400 with the violations in order and leaves the table untouched; a valid one answers 201 with the stored translation, or the rejection of `AddNew` |
| TranslationWeb.TranslationController.PostTranslationAutomatically | src/main/java/am/ik/blog/translation/web/TranslationController.java:90-99 | the translator's result is stored as by `AddNew` and answered 201; a translator failure is passed through and stores nothing |
| TranslationWeb.TranslationController.DeleteTranslation | src/main/java/am/ik/blog/translation/web/TranslationController.java:101-106 | answers 204 whether or not a row existed; the table loses exactly that key |

## Left out

- Markdown parsing, the two translation renders, the HTML renderer, the final render and the HTML-to-markdown converter are library code. They are uninterpreted functions in `GoogleTranslator.Collaborators`.
- Mutating the shared formatter's translation handler is not modelled. `setTranslatedTexts` is hidden inside those functions, and so is the thread-safety of the shared instances.
- `doTranslate` is an HTTP POST plus JSON navigation. It is the `provider` function, and a failure stands for the exception it throws.
- The debug branch guarded by `if (false)` is dead code.
- `System.lineSeparator()` is the `LineSeparator` parameter, restricted to `"\n"` or `"\r\n"`. Java allows any string there. `GoogleTranslator.RestoreRemovesSentinels` relies on this restriction, because a separator spelling a sentinel would bring one back.
- The database is left out. The table is an in-memory map, and its key is assumed to be the primary key, since the schema is not part of this model.
- `ORDER BY language` is modelled as code-point order. A database collation may order differently.
- Creation times are a `now` parameter rather than `Instant.now()`. Timestamp conversion and JSON serialisation are left out.
- HTTP plumbing is left out: request-parameter defaults (`language` defaults to `en`), the `Location` URI of the automatic post, and the error-body layout of a status exception. A thrown status exception is modelled as a response with its status and reason.
- An uncaught duplicate-key exception is modelled as a 500 response.
- GuardLinks.GuardKeepsDottedLink: proved only for `http` self-links `[http://a.b](http://a.b)` with no path and no `h` or `H` in the host. Links with `https`, links with a path and hosts such as `github.com` are not covered. The reason is that each step's "cannot fire" argument rests on a character the link lacks. With `curl` in the path the source does not keep the link at all: `[http://a.com/curlxHttp](http://a.com/curlxHttp)` comes back with `curlxhttp` (GoogleTranslator.java:78).
- GuardLinks.GuardWrapsBareUrl: proved only for running text with no `[`, `<` or `H` and one bare URL. Text that also holds a link, a tag, a capital `H` or a second bare URL is not covered, for the same reason.
- TranslationWeb.AddNew: each handler is modelled as one atomic step on the table. Two concurrent posts can read the same latest revision, and the second insert then fails on the duplicate key with a 500. That interleaving is not modelled.
- `EntryTranslatorImpl` fetches the entry and maps its errors. It is the `translator` function parameter of `PostTranslationAutomatically`.
- YAVI's message texts and argument lists are left out. A violation keeps its field name and message key.
