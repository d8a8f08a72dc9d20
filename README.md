# AI news generator — a Dafny model of its client-side logic

The application collects article parameters in a form (topic, facts,
language, tone, word count, optional photo, contact email), asks a
text-generation API for an article, shows the result, and keeps the last
twenty generations in a history list stored in the browser. This project
models the logic around that call, and proves properties of it:

- **History store** (`HistoryStore`, App.tsx): the `history` list, newest
  first. Insertion puts the new item in front and caps the list at 20.
  "Clear All History" empties it after confirmation. On start-up the list is
  restored from the storage slot `news_generator_history`, falling back to
  the empty list (see "## Findings" for a slot that holds no array). After
  every change, `history.slice(0, 20)` is written back to the slot.
  `Store` is a class whose `history` field is replaced by its methods; the
  slot is a ghost field, and `Valid()` says it always holds the first 20
  items.
- **History search** (`HistorySearch`, App.tsx and
  components/HistoryPage.tsx): keep the items whose lowercased topic or
  article contains the lowercased query, in order. The module also models
  what the history page shows: the "No articles found" message and the
  clear button.
- **Generation workflow** (`App`, App.tsx): the article text falls back when
  the API returns none, the word count is the number of pieces of
  `split(/\s+/)`, and one result record and one history item are built per
  generation. Reopening a history item restores the result. `AppState`
  holds the result, error and submitting state.
- **Form checks** (`NewsForm`, components/NewsForm.tsx): the email pattern
  `^[^\s@]+@[^\s@]+\.[^\s@]+$` as a string predicate, the form-validity and
  submit-enabled conditions, the email error message, and the word-count
  input's `parseInt(value) || 500` fallback.
- **Photo upload** (`FileUpload`, components/FileUpload.tsx): size check
  (5 MB) before the format whitelist, the base64 payload
  `dataUrl.split(',')[1]`, and the photo record handed to the form.
- **Result panel** (`ArticlePreview`, components/ArticlePreview.tsx): the
  view selection, the download file name (topic slug, `-`, clock reading,
  `.txt`), the share text (first 200 characters and `...`), and the guards
  of copy, download and share.
- **Runtime primitives** (`Text`): the JavaScript pieces those rely on,
  namely the `\s` class, `toLowerCase`, `includes`, `trim`, `split(/\s+/)`,
  `parseInt` and decimal rendering. `Types` holds the records of types.ts;
  `Wrappers` holds `Option`.

Where the design description of the history store and the code differ, the
model follows the code:

- The store does not deduplicate. Insertion prepends whatever it is given.
- Unique ids rest only on the browser's random UUIDs, so uniqueness is not
  stated as an invariant.
- Restoring does not cap the list. A restored list longer than 20 stays
  whole in memory (the slot gets its first 20) until the next insertion
  caps it. So "at most 20 items" holds after each insertion, not always.

## Model

| member | source | states |
|---|---|---|
| `HistoryStore.Truncate` | App.tsx:46 | `slice(0, 20)` keeps a prefix of at most 20 items, all of a list of at most 20, exactly 20 of a longer one |
| `HistoryStore.TruncateIdempotent` | App.tsx:46 | capping the already capped list again changes nothing |
| `HistoryStore.Prepend` | App.tsx:164 | after an insertion the new item is at index 0, the previous items follow in order, length is min(old + 1, 20), nothing is dropped below 20, and at 20 exactly the previous last item is dropped |
| `HistoryStore.InsertAllIsNewestFirst` | App.tsx:164 | any non-empty series of insertions leaves the first 20 of (the inserted items newest first) followed by the old history |
| `HistoryStore.InsertManyFromEmpty` | App.tsx:164 | N insertions into an empty history leave min(N, 20) items, the k-th newest at index k, and the first one gone after more than 20 insertions |
| `HistoryStore.RestoredAsWritten` | App.tsx:33-42 | as written, `history` becomes whatever a successful parse of a non-empty slot gave, array or not, and stays `[]` otherwise |
| `HistoryStore.RestoredNonArrayBreaksRendering` | App.tsx:37 | a non-empty slot that parses to a value other than an array leaves a `history` on which `filter` does not exist |
| `HistoryStore.Restore` | App.tsx:33-42 | an absent or empty slot, a failed parse or a parse to a non-array restores the empty list, with no error; a parse to an array restores that list uncapped |
| `HistoryStore.RestoreAgreesOnArrays` | App.tsx:33-42 | the restore equals the source's wherever the source leaves an array in `history`, and is the empty list elsewhere |
| `HistoryStore.Store.Open` | App.tsx:27-47 | on mount the history is the restored list and the slot holds its first 20 items |
| `HistoryStore.Store.Persist` | App.tsx:45-47 | the save effect makes the slot equal to the first 20 items of the history |
| `HistoryStore.Store.Insert` | App.tsx:164 | the history becomes `Prepend(old history, item)` and the slot equals it |
| `HistoryStore.Store.Clear` | App.tsx:266 | the history and the slot both become empty |
| `HistoryStore.Store.ClearIfConfirmed` | App.tsx:266 | history and slot are emptied when the dialog answered yes and are unchanged otherwise |
| `HistorySearch.Search` | App.tsx:177-180 | the result is no longer than the history, and each of its items is a history item that matches the query |
| `HistorySearch.SearchAppend` | App.tsx:177-180 | searching two joined parts of a history gives the two parts' results joined in the same order |
| `HistorySearch.SearchOfOne` | App.tsx:177-180 | a single item is kept iff it matches; with `SearchAppend` this fixes every result, repeated items included |
| `HistorySearch.SearchCounts` | App.tsx:177-180 | the result holds a matching item exactly as often as the history does, and a non-matching one never |
| `HistorySearch.SearchIsSubsequence` | components/HistoryPage.tsx:15-18 | the result is an order-preserving subsequence of the history |
| `HistorySearch.SearchMembership` | components/HistoryPage.tsx:15-18 | an item is in the result iff it is in the history and its lowercased topic or article contains the lowercased query |
| `HistorySearch.SearchEmptyQuery` | App.tsx:177-180 | the empty query returns the whole history |
| `HistorySearch.SearchIgnoresCase` | App.tsx:177-180 | queries that lowercase alike give the same result |
| `HistorySearch.SearchKeepsAllMatching` | components/HistoryPage.tsx:15-18 | when every item matches, the result is the history itself |
| `HistorySearch.SearchIdempotent` | components/HistoryPage.tsx:15-18 | searching the result again with the same query returns it unchanged |
| `HistorySearch.SearchEmptyIffNoneMatch` | components/HistoryPage.tsx:74 | the filtered list is empty iff no history item matches |
| `HistorySearch.RenderHistoryPage` | components/HistoryPage.tsx:15-91 | the page lists exactly the filtered history; the "No articles found" message shows iff that list is empty, i.e. iff no item matches the query; the clear button shows iff the history is not empty |
| `HistorySearch.RenderAppHistorySection` | App.tsx:213-273 | the App's history section, with its clear button, exists iff the history is not empty; it lists exactly the filtered history, and its empty-result message shows iff nothing matches |
| `App.ArticleText` | App.tsx:134 | the article is never empty: a non-empty response text is kept, otherwise the fixed fallback text is used |
| `App.GeneratedWordCount` | App.tsx:134-136 | the stored word count is at least 1, and the split's pieces put together are the article without its whitespace |
| `App.GeneratedResult` | App.tsx:138-150 | the shown result carries the article, the form's topic and language, the generation time, a word count of at least 1, and the photo's payload and file name when the form has a photo (none otherwise) |
| `App.GeneratedItem` | App.tsx:152-161 | the history item carries the fresh id, the form's topic and language, the article, the generation time, a word count of at least 1, and the photo's payload and file name when the form has a photo (none otherwise) |
| `App.GeneratedItemRecordsResult` | App.tsx:138-161 | the history item of a generation records exactly the data the generation shows, under the fresh id |
| `App.ResultFromHistory` | App.tsx:65-78 | reopening an item shows a successful result carrying the item's topic, article, word count, language, photo payload, photo file name and generation time |
| `App.ReopenLosesNothing` | App.tsx:65-78 | the item, restored from storage or not, is rebuilt from its id and the data reopening shows |
| `App.ReopenShowsGeneratedData` | App.tsx:65-78 | reopening the history item of a generation shows exactly the article data that generation showed |
| `App.FailureText` | App.tsx:171 | the error text is the error's own message when non-empty, and "Failed to generate article. Check your connection." when the message is empty |
| `App.AppState.Open` | App.tsx:23-42 | on mount there is no result, no error, nothing is submitting, and the history is the restored list |
| `App.AppState.Submit` | App.tsx:84-175 | after a generation nothing is submitting; on a response the new result is shown, the error is cleared and the item is inserted at the front; on a failure the error text is set and result and history are unchanged |
| `App.AppState.ResetResult` | App.tsx:53-63 | clearing the form or the result leaves no result and no error |
| `App.AppState.ShowFromHistory` | App.tsx:65-81 | choosing a history card shows its result and clears the error |
| `Text.Lower` | App.tsx:177-180 | lowercasing keeps the length and maps every character on its own |
| `Text.LowerAppend` | components/ArticlePreview.tsx:35 | lowercasing joined texts lowercases each of them |
| `Text.TrimNonEmptyIff` | components/NewsForm.tsx:22 | `s.trim()` is non-empty iff `s` has a character outside the `\s` class |
| `Text.SplitPiecesHaveNoWhitespace` | App.tsx:136 | no piece of `split(/\s+/)` holds whitespace |
| `Text.SplitInnerPiecesNonEmpty` | App.tsx:136 | only the first and the last piece of `split(/\s+/)` can be empty |
| `Text.SplitFlattenIsRemoveWhitespace` | App.tsx:136 | the pieces of `split(/\s+/)` put together are the text with its whitespace removed |
| `Text.ParseIntReadsDecimal` | components/NewsForm.tsx:146 | `parseInt` reads the decimal text of every natural number back as that number |
| `Text.ParseIntReadsPrefix` | components/NewsForm.tsx:146 | after leading whitespace, `parseInt` reads the digits of a number and ignores what follows them |
| `Text.ParseIntReadsNegativePrefix` | components/NewsForm.tsx:146 | the same after a `-`, with the number negated |
| `Text.ParseIntWithoutDigits` | components/NewsForm.tsx:146 | a text without a decimal digit, the empty text included, is `NaN` |
| `NewsForm.EmailValidIff` | components/NewsForm.tsx:21 | the pattern accepts a string iff it has no whitespace, exactly one `@` with a character before it, and after it a `.` with a character on each side |
| `NewsForm.EmailValidHasContent` | components/NewsForm.tsx:21-22 | an email the pattern accepts is never blank |
| `NewsForm.FormValidIff` | components/NewsForm.tsx:22 | the form is valid iff topic and facts each have a non-whitespace character and the email matches the pattern |
| `NewsForm.SubmitEnabledIff` | components/NewsForm.tsx:172 | Generate is enabled iff the form is valid and nothing is submitting |
| `NewsForm.EmailErrorBlocksSubmit` | components/NewsForm.tsx:163 | whenever "Invalid email format" shows, Generate is disabled; an empty email shows no message and still disables Generate |
| `NewsForm.WordCountInput` | components/NewsForm.tsx:146 | the word count taken from the input is never 0 |
| `NewsForm.WordCountInputWithoutDigits` | components/NewsForm.tsx:146 | a cleared field or one without a digit gives `NaN`, so the word count is 500 |
| `NewsForm.WordCountInputKeepsNumber` | components/NewsForm.tsx:146 | a typed number is kept, also with leading whitespace or trailing text (`12abc` gives 12); a typed 0 becomes 500 |
| `NewsForm.WordCountInputKeepsNegative` | components/NewsForm.tsx:146 | a typed negative number is kept (`-5` gives -5); `-0` becomes 500 |
| `FileUpload.FileError` | components/FileUpload.tsx:13-27 | a file over 5·1024·1024 bytes gets the size error whatever its type; a file within the limit and of another type gets the format error |
| `FileUpload.FileAcceptedIff` | components/FileUpload.tsx:17-27 | a file is accepted iff it has at most 5242880 bytes (that size included) and its type is image/jpeg, image/png, image/webp or image/gif |
| `FileUpload.SplitOn` | components/FileUpload.tsx:32 | `split(',')` gives at least one piece, and no piece holds a comma |
| `FileUpload.JoinSplitOn` | components/FileUpload.tsx:32 | joining the pieces of `split(',')` with commas gives the data URL back |
| `FileUpload.Base64Payload` | components/FileUpload.tsx:32 | the payload is absent iff the data URL has no comma, and it never holds a comma |
| `FileUpload.Base64PayloadOfDataUrl` | components/FileUpload.tsx:32 | for a data URL `header,payload` with no other comma, the payload is exactly `payload` |
| `FileUpload.Base64PayloadStopsAtComma` | components/FileUpload.tsx:32 | for `header,payload,rest` with no comma in header or payload, the payload is `payload` whatever `rest` holds |
| `FileUpload.SplitAtFirst` | components/FileUpload.tsx:32 | `split(',')` gives the text before the first comma, then the split of the text after it |
| `FileUpload.PhotoOf` | components/FileUpload.tsx:34-40 | the photo record carries the file's name, type and size unchanged, the data URL as preview and the extracted payload |
| `FileUpload.Uploader.HandleFile` | components/FileUpload.tsx:13-43 | the error is reset and then set by the checks; a rejected file never reaches the form, an accepted one is handed to it once |
| `FileUpload.Uploader.Receive` | components/FileUpload.tsx:49-58 | a drop or file choice without a file changes nothing; with a file, the error is that file's check result, and the file's photo record is handed to the form iff it passes |
| `FileUpload.Uploader.Remove` | components/FileUpload.tsx:100 | the remove button hands "no photo" to the form |
| `ArticlePreview.KeepSlugSource` | components/ArticlePreview.tsx:35 | removing `[^\w\s-]` leaves only word characters, whitespace and `-`; a text made only of those is kept whole, one with none of them becomes empty |
| `ArticlePreview.KeepSlugSourceAppend` | components/ArticlePreview.tsx:35 | the removal works piece by piece, so every kept character stays, in order |
| `ArticlePreview.DashWhitespace` | components/ArticlePreview.tsx:35 | replacing whitespace runs leaves no whitespace and adds only `-` |
| `ArticlePreview.DashWhitespaceIsSplitJoin` | components/ArticlePreview.tsx:35 | replacing `\s+` by `-` equals splitting on `\s+` and joining with `-`, so each maximal run becomes exactly one `-` |
| `ArticlePreview.Slug` | components/ArticlePreview.tsx:35 | the slug holds only `[a-z0-9_-]` and no whitespace |
| `ArticlePreview.SlugIsJoinedWords` | components/ArticlePreview.tsx:35 | the slug is the kept text's whitespace-separated pieces joined with `-` and lowercased |
| `ArticlePreview.SlugOfUnkeptTopic` | components/ArticlePreview.tsx:35 | a topic with no ASCII letter, digit, `_`, `-` or whitespace gives the empty slug |
| `ArticlePreview.SlugOfKeptTopic` | components/ArticlePreview.tsx:35 | a topic made only of kept characters is slugged without losing any of them |
| `ArticlePreview.DashWhitespaceKeepsWord` | components/ArticlePreview.tsx:35 | replacing whitespace runs leaves a whitespace-free start unchanged |
| `ArticlePreview.SlugOfTwoWords` | components/ArticlePreview.tsx:35 | two `\w` words separated by a space give the lowercased words joined with `-` |
| `ArticlePreview.SlugOfMumbaiRain` | components/ArticlePreview.tsx:35 | the topic "Mumbai Rain" gives the slug `mumbai-rain` |
| `ArticlePreview.DevanagariSlugIsEmpty` | components/ArticlePreview.tsx:35 | an all-Devanagari topic gives the empty slug |
| `ArticlePreview.DownloadName` | components/ArticlePreview.tsx:35 | the file name is the slug, `-`, the clock reading as `NatToString` writes it (decimal digits, no leading zero, read back by `parseInt`) and `.txt`, with only `[a-z0-9_.-]` in it |
| `ArticlePreview.ShareText` | components/ArticlePreview.tsx:48 | the share text is a prefix of the article of at most 200 characters (code points; see below) followed by `...`, so at most 203 characters; a short article is kept whole |
| `ArticlePreview.ShareOf` | components/ArticlePreview.tsx:43-50 | sharing has a payload iff the result has data; its title is the topic, its text the share text and its url the page address |
| `ArticlePreview.DownloadOf` | components/ArticlePreview.tsx:30-40 | a file is produced iff the result has data; it holds the article under the download name |
| `ArticlePreview.ViewPrecedence` | components/ArticlePreview.tsx:69-95 | the placeholder shows iff there is no result, nothing is submitting and no error; submitting wins over the error, the error over the result |
| `ArticlePreview.Preview.Copy` | components/ArticlePreview.tsx:22-28 | only a non-empty article is copied, and then the copied flag is set; otherwise nothing changes |
| `ArticlePreview.Preview.CopyExpired` | components/ArticlePreview.tsx:26 | the timer resets the copied flag |
| `ArticlePreview.Preview.Share` | components/ArticlePreview.tsx:43-65 | nothing happens without data; the article is copied instead when sharing is unsupported or fails other than by `AbortError` |

Definitions that the members above state their contracts about:

- `NewsForm.IsEmailValid`: the email pattern (components/NewsForm.tsx:21).
- `NewsForm.IsFormValid`: `isFormValid` (components/NewsForm.tsx:22).
- `NewsForm.IsSubmitEnabled`: the Generate button's `disabled` condition
  (components/NewsForm.tsx:172).
- `NewsForm.ShowsEmailError`: the "Invalid email format" condition
  (components/NewsForm.tsx:163).
- `App.WordCount`: `split(/\s+/).length` (App.tsx:136).
- `App.PhotoPayload` and `App.PhotoName`: `formData.photo?.data` and
  `formData.photo?.fileName` (App.tsx:145-146).
- `ArticlePreview.SelectView`: the nested view condition
  (components/ArticlePreview.tsx:69-95).
- `HistorySearch.Matches`: the filter's test (App.tsx:178-179,
  components/HistoryPage.tsx:15-18).
- `Text.SplitWhitespace`, `Text.ParseInt`, `Text.Trim` and `Text.Contains`:
  `split(/\s+/)`, `parseInt`, `trim` and `includes`.

## Left out

- The call to the generation API, its client, the prompt and system
  instruction text and the temperature (App.tsx:91-131). This is a foreign
  network call. `AppState.Submit` takes its outcome as an input.
- Browser storage and `JSON.parse`/`JSON.stringify`. The slot is a ghost
  list, and the parse result is an input of `Restore`.
- HistoryStore.Json: the elements of a parsed array are taken to be
  history items. Elements of another shape are not modelled.
- The order of React effects, including the write of `[]` on mount before
  the restored list is written. The model writes once, after restoring.
- A failing storage write (for example, quota exceeded) is not modelled.
- `crypto.randomUUID`, `Date`, `toISOString` and locale date formatting are
  inputs: the `id`, `generatedAt` and the clock reading `time`. Id
  uniqueness is not checked.
- Text.Lower: maps only the ASCII letters A–Z. JavaScript's `toLowerCase`
  maps every Unicode letter. The slug is exact, because only ASCII
  characters survive its filter. The search lemmas hold for this mapping.
  `SearchIgnoresCase` holds for any per-string mapping.
- Text.ParseInt: uses unbounded integers, and so do the lemmas about it
  (`ParseIntReadsDecimal`, `ParseIntReadsPrefix`,
  `ParseIntReadsNegativePrefix`, `WordCountInputKeepsNumber`,
  `WordCountInputKeepsNegative`). JavaScript numbers
  lose precision above 2^53, and the model does not capture that.
- `formatSize` (components/FileUpload.tsx:60-66), which uses floating point.
- Browser services are not modelled: FileReader loading, drag-over
  handling, clipboard, `navigator.share`, `alert`, timers, scrolling and
  the DOM anchor used for downloads. Only their guards and payloads are
  modelled. The data URL and the share outcome are inputs.
- App.AppState.ResetResult: `handleClearForm` also resets the form to its
  initial contents (App.tsx:54). The form contents are not part of
  `AppState`.
- ArticlePreview.ShareText: lengths count Unicode code points.
  `slice(0, 200)` counts UTF-16 code units. The two agree on text without
  characters above U+FFFF. Otherwise JavaScript can keep fewer characters,
  and can cut an emoji in half, leaving a lone surrogate.
- The form's partial-update handler (`handleFormChange`), and the rendering
  of cards, badges and previews. These are plumbing and markup.
- The browser-enforced `maxLength`, `min` and `max` input attributes.
- components/LandingView.tsx, components/PrivacyPolicy.tsx,
  components/Header.tsx and components/AdBanner.tsx. These are static
  markup or third-party ad injection.

## Findings

| source | as written | input that shows it | evidently intended | confidence | as-written member | corrected member |
|---|---|---|---|---|---|---|
| App.tsx:37 | `setHistory(JSON.parse(saved))` stores whatever the slot parses to; `history.filter` (App.tsx:177) then throws on every render unless that is an array | slot text `null` or `{}` (`RestoredNonArrayBreaksRendering`) | restore only an array, otherwise start from the empty history; `RestoreAgreesOnArrays` proves the corrected restore keeps every array the source keeps | not executed; high that the render throws, low that a slot holds such text, since the app itself writes only arrays | `HistoryStore.RestoredAsWritten` | `HistoryStore.Restore` |
