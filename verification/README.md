# Mass-Mailer core in Dafny

Mass-Mailer is a web app. A signed-in Gmail user writes one HTML message with a `[Name]` placeholder. The user picks recipients by hand or imports them from a CSV file. The server then sends one personalised copy to each recipient and reports how many were sent and how many failed. This project models the deterministic core of that app as pure Dafny functions and proves properties about them.

The core has five parts:

- **CSV import** (`CsvParser`, `CsvUpload`):
  - the hand-written parser `parseCSV`;
  - the normalisation of each parsed row to a `{name, email}` pair, written once in the model although the modal repeats it;
  - the preview of the first five rows;
  - the file-type gate;
  - the `handleFileChange` and `handleSubmit` handlers.
- **Personalisation** (`Personalize`): `content.replace(/\[Name\]/g, name)`. This includes the JavaScript replacement-string patterns `$$`, `$&`, `` $` `` and `$'`, which are expanded when they appear inside a name.
- **Bulk send** (`SendEmail`): the `POST` handler of the send endpoint, which runs these steps in order:
  1. the access-token check (401);
  2. the request body (500 when it cannot be read);
  3. the sender check (400);
  4. one message per recipient;
  5. the `Promise.allSettled` outcome counts and the error list.
- **Composer** (`Composer`):
  - `validateEmail`;
  - adding and removing recipients;
  - taking over a preloaded list;
  - the ordered checks of `handleSend`.
- **Token life cycle** (`Auth`): the `jwt` callback, seen as a transition over the stored token, and the `session` callback.

The following JavaScript built-ins are modelled:

- **`trim` and the regex class `\s`** use the exact ECMAScript set of white-space and line-terminator code points (`Strings.IsWhitespace`).
- **`toLowerCase`** is ASCII case folding. Every comparison in the core is against an ASCII word that contains no `k`, so folding the remaining letters as well would give the same verdicts.
- **`split`** on a separator is `Strings.SplitOn`. `split(/\r?\n/)` additionally removes a carriage return at the end of each piece except the last.
- **A row object** (`Record<string, string>`) is a sequence of key/value entries with distinct keys. The first assignment fixes a key's position and the last one fixes its value.

The following inputs replace I/O:

- **The mail transport** is a sequence of outcomes, one per recipient in order.
- **The token refresh request** (src/lib/token.ts) is a `RefreshResult` input.
- **Reading a file** is an optional string, where `None` means the read failed. The modal reads the chosen file twice, once when it is chosen and once on submit, and each handler is given its own read result.
- **The clock** is an integer `now`.

Two behaviours of the code are easy to miss:

- **The endpoint does not reject an empty recipient list.** route.ts has no check for it and answers 200 with "Emails sent: 0 successful, 0 failed" (`SendEmail.EmptyBatch`). The endpoint also never checks for a blank subject or body. Only the composer does (`Composer.HandleSend`).
- **The import keeps a row whose email is not address-shaped.** In the file `name,email` / `Ana,ana@x.com` / `,bad`, the row `,bad` is kept, because its email cell `bad` is not empty and the import makes no shape check (`CsvUpload.NormaliseOne`, `CsvUpload.NormaliseBuiltRow`). The address shape is checked only in the composer, at send time.

## Model

| member | source | states |
|---|---|---|
| Strings.Trim | src/utils/csvParser.ts:55 | `trim` yields the infix of the input left between two all-white-space margins, with no white space at either end. The result is empty exactly when the input is all white space, and an already-trimmed string is unchanged. |
| Strings.TrimCharacterised | src/utils/csvParser.ts:55 | Whenever a string is a trimmed middle part between two all-white-space margins, `trim` returns exactly that middle part. |
| Strings.NatToStringRoundTrip | src/app/api/send-email/route.ts:134 | The decimal numeral written into the summary text reads back as the count it was made from. |
| CsvParser.Put | src/utils/csvParser.ts:71 | `row[key] = value` makes the key read `value` and leaves every other key's value unchanged. An existing key keeps its position and a new key is added last. |
| CsvParser.StripQuotes | src/utils/csvParser.ts:70 | Removing one leading and one trailing quote never lengthens a value and leaves a quote-free value unchanged. |
| CsvParser.KeysAt | src/components/CSVUploadModal.tsx:54-55 | The key list names the entries of a row one for one and in order, which is the order `find` walks. |
| CsvParser.BuildRow | src/utils/csvParser.ts:66-75 | A row's keys are the header cells in first-occurrence order, each once. |
| CsvParser.BuildRowValues | src/utils/csvParser.ts:66-75 | Under each header the row holds the cell of the last column carrying that header. That cell is `''` when the line has fewer fields, and surplus fields are ignored. |
| CsvParser.BuildRowDistinctHeaders | src/utils/csvParser.ts:68-74 | With distinct headers, column j holds field j, or `''` when the line is too short. |
| CsvParser.BuildRowEntries | src/utils/csvParser.ts:66-75 | Every stored value is one of the line's fields (quotes stripped) or `''`. |
| CsvParser.ScanFields | src/utils/csvParser.ts:45-63 | The character loop that toggles a quote flag and cuts at commas outside quotes computes exactly the field list `Fields`. |
| CsvParser.RawFieldsQuoteFree | src/utils/csvParser.ts:52-53 | Quote characters are never copied into a field. |
| CsvParser.RawFieldsLength | src/utils/csvParser.ts:45-63 | Every character of the line is accounted for: it is a dropped quote, a comma outside quotes that ends a field, or a character kept in a field. |
| CsvParser.Fields | src/utils/csvParser.ts:45-63 | A data line has at least one field, and every field is trimmed and contains no `"`. |
| CsvParser.RawFieldsWithoutQuotes | src/utils/csvParser.ts:49-63 | A line without quotes is cut exactly as `split(',')` would cut it. |
| CsvParser.QuotedLineRoundTrip | src/utils/csvParser.ts:49-63 | Quoting trimmed, quote-free fields and joining them with commas reads back as those fields. So a comma inside quotes does not split a field. |
| CsvParser.SplitLines | src/utils/csvParser.ts:18 | The text splits into one line more than it has line feeds. |
| CsvParser.SplitLinesOfJoin | src/utils/csvParser.ts:18 | Lines without line feeds, joined with `\n`, split back into the same lines, provided none but the last ends in a carriage return. |
| CsvParser.SplitLinesOfCrlfJoin | src/utils/csvParser.ts:18 | Lines without line feeds, joined with `\r\n`, split back into the same lines: the carriage return before a line feed belongs to the break. |
| CsvParser.NonBlank | src/utils/csvParser.ts:18 | Every line the filter keeps is not blank, and it never adds lines. |
| CsvParser.NonBlankMembers | src/utils/csvParser.ts:18 | A line is kept exactly when it occurs in the input and is not blank. |
| CsvParser.NonBlankAppend | src/utils/csvParser.ts:18 | Filtering two blocks of lines one after the other gives the same result as filtering them together, so the filter keeps input order. |
| CsvParser.HeaderCells | src/utils/csvParser.ts:26 | The header line has one trimmed cell more than it has commas, so quotes do not protect a comma there. |
| CsvParser.HeaderCellsOfJoin | src/utils/csvParser.ts:26 | Trimmed header names without commas, joined with commas, are read back as the same cells. |
| CsvParser.FindIndex | src/utils/csvParser.ts:29-32 | `findIndex` returns -1 exactly when no element matches. Otherwise it returns the first match. |
| CsvParser.ParseCSV | src/utils/csvParser.ts:10-86 | At most one error is reported, and an error comes with no data. Without an error there is one row per non-blank line after the header. |
| CsvParser.DataRows | src/utils/csvParser.ts:40-79 | The data loop makes exactly as many rows as there are non-blank lines, never more than lines. |
| CsvParser.DataRowsAt | src/utils/csvParser.ts:40-79 | Row `i` is built, under the header cells, from the fields of the trimmed `i`-th non-blank line, so blank lines make no row and the input order is kept. |
| CsvParser.DataRowsOfNonBlank | src/utils/csvParser.ts:40-42 | Each non-blank data line becomes exactly one row, in input order, built from its trimmed line. |
| CsvParser.ParseEmptyText | src/utils/csvParser.ts:18-23 | Text whose lines are all blank gives no data and the single error "CSV file appears to be empty". |
| CsvParser.ParseMissingColumns | src/utils/csvParser.ts:29-37 | Without a name-like or an email-like header cell there is no data and one error about the missing columns. |
| CsvParser.ParseRows | src/utils/csvParser.ts:39-79 | With valid headers, row i is built from the header cells and the fields of non-blank line i+1. |
| CsvParser.ParsedValuesClean | src/utils/csvParser.ts:49-70 | No parsed value contains `"` or surrounding white space. |
| CsvParser.ParsedRowKeys | src/utils/csvParser.ts:66-75 | Every parsed row has exactly the trimmed header cells as keys. |
| CsvUpload.FindKey | src/components/CSVUploadModal.tsx:54-55 | `find` returns the first key whose lower-case form is the target. It finds nothing exactly when no key has that lower-case form. |
| CsvUpload.NormaliseRow | src/components/CSVUploadModal.tsx:52-63 | Without a key spelled `name` and a key spelled `email` (any case) the row becomes `{'', ''}`. Otherwise name and email are the row's values under the first such keys. |
| CsvUpload.Normalise | src/components/CSVUploadModal.tsx:52-65 | Every imported recipient has a non-empty email, and no more recipients than rows are imported. |
| CsvUpload.NormaliseAppend | src/components/CSVUploadModal.tsx:99-112 | The map-and-filter distributes over concatenation, so kept rows stay in their relative order. |
| CsvUpload.NormaliseOne | src/components/CSVUploadModal.tsx:112 | A row is kept exactly when its email is non-empty. No address-shape check is made. |
| CsvUpload.NormaliseWithoutKeys | src/components/CSVUploadModal.tsx:101-106 | Rows that lack a key spelled `name` or a key spelled `email` (any case) import nothing. |
| CsvUpload.NormaliseBuiltRow | src/components/CSVUploadModal.tsx:101-111 | Name and email come from the first header spelled `name` and the first spelled `email`, each read from the last column with that exact header. Without both headers the row becomes `{'', ''}`. |
| CsvUpload.SynonymHeadersImportNothing | src/components/CSVUploadModal.tsx:101-112 | A file with only synonym headers (e.g. `fullname`, `e-mail`) passes the parser but imports no recipient. |
| CsvUpload.Preview | src/components/CSVUploadModal.tsx:68 | The preview is the first min(5, n) normalised rows. |
| CsvUpload.AcceptedFileExamples | src/components/CSVUploadModal.tsx:27 | A file is accepted by its MIME type `text/csv` or by a name ending in `.csv`. The extension test is case-sensitive, so `list.CSV` needs the MIME type. |
| CsvUpload.HandleFileChange | src/components/CSVUploadModal.tsx:17-81 | Choosing files clears the error and preview. A file is kept only when it is `text/csv` or named `*.csv`, and other files get the "valid CSV" error. For a kept file, given what reading it yields at line 36: a read failure, a parse error (its first message) and a file without rows each give their error and no preview; otherwise the preview is the first five normalised rows. A preview never comes with an error. |
| CsvUpload.HandleSubmit | src/components/CSVUploadModal.tsx:83-118 | Without a file the "select a file" error is shown. The file is read again, on its own, at line 90, and a failure of that read gives the "Error processing file" error. A parse error stops the submit and reports the first message. After a clean parse exactly the normalised rows are uploaded, and every uploaded email is non-empty. |
| CsvUpload.PreviewIsPrefixOfUpload | src/components/CSVUploadModal.tsx:36-68 | When the read at submit returns the same text as the read at choice, the preview shown for a file is a prefix of what submitting that file uploads. |
| CsvUpload.PreviewThenRereadFailure | src/components/CSVUploadModal.tsx:89-116 | The two reads are independent: a file whose preview was shown still gets the "Error processing file" error when the read at submit fails. |
| CsvUpload.ParseErrorShownByBoth | src/components/CSVUploadModal.tsx:39-41 | When both reads return the same text, a file that fails to parse when chosen fails with the same message when submitted. |
| CsvUpload.EmptyDataStillUploads | src/components/CSVUploadModal.tsx:46-49 | A file with a header and no data rows gets the "appears to be empty" error when chosen, yet submitting it, read again to the same text, uploads an empty list. |
| CsvUpload.HandleFileChangeIdempotent | src/components/CSVUploadModal.tsx:17-72 | Choosing the same files twice, with the same read result, leaves the same state as choosing them once. |
| Personalize.SubstitutionLiteral | src/lib/email.ts:52 | A name without `$` is inserted literally. |
| Personalize.SubstitutionOfMatch | src/lib/email.ts:52 | The name `$&` inserts the matched placeholder itself. |
| Personalize.ReplaceFromIsSplitJoin | src/lib/email.ts:52 | When the name expands to the same text at every match, the global replace cuts the content at placeholders left to right and joins the pieces with that text. Inserted text is never scanned again. |
| Personalize.PersonalizeContent | src/lib/email.ts:51-53 | Content without `[Name]` is returned unchanged, for any name. For a name without `$`, the result is the content split on `[Name]` and joined with the name. |
| Personalize.PersonalizeLength | src/lib/email.ts:52 | For a name without `$`, the result length is \|content\| + k·(\|name\| − 6) for the k placeholders found. A name with `$` is expanded first, so the formula does not apply to it. |
| Personalize.PersonalizeWithPlaceholder | src/lib/email.ts:52 | Using `[Name]` as the name restores the content. |
| Personalize.PersonalizeWithMatchPattern | src/lib/email.ts:52 | The name `$&` leaves the content unchanged, because replacement patterns are expanded. |
| Personalize.PersonalizeHelloExample | src/lib/email.ts:52 | "Hello [Name]!" for Ana gives "Hello Ana!". |
| Personalize.PersonalizeSinglePassExample | src/lib/email.ts:52 | "[[Name]Name]" with the empty name gives "[Name]". The replace makes one pass, so the result may still contain the placeholder. |
| SendEmail.AttachmentsForEmail | src/app/api/send-email/route.ts:72-83 | There is an attachment list exactly when the request has a non-empty one. It lists the same attachments in the same order, each marked base64. |
| SendEmail.MessageFor | src/app/api/send-email/route.ts:69-93 | A message goes from the sender to the recipient's address with the shared subject. For a name without `$`, its HTML is the content with the name put in place of every placeholder; content without a placeholder is sent unchanged for any name. The message has an attachment list exactly when the request has a non-empty one. |
| SendEmail.Settle | src/app/api/send-email/route.ts:95-114 | An attempt is fulfilled exactly when the transport delivers. A rejection carries the recipient's address, the transport's code, and the transport's message when that is non-empty, otherwise "Unknown error"; so its error is never empty. |
| SendEmail.SettleAll | src/app/api/send-email/route.ts:66-116 | Every recipient settles exactly once, in recipient order. |
| SendEmail.Aggregate | src/app/api/send-email/route.ts:118-142 | successful and failed are the numbers of fulfilled and rejected attempts, and they add up to the number of attempts. The errors are the rejected attempts' entries, one per failure, and the message is "Emails sent: S successful, F failed". |
| SendEmail.CountsAreFilterSizes | src/app/api/send-email/route.ts:118-119 | The counts are the sizes of the sets of fulfilled and of rejected positions. |
| SendEmail.PostCountsOutcomes | src/app/api/send-email/route.ts:66-136 | On 200, successful is the number of recipients whose message the transport delivered, and failed the number it did not. |
| SendEmail.CountsPartition | src/app/api/send-email/route.ts:118-119 | Each attempt is counted once, as either fulfilled or rejected. |
| SendEmail.ErrorEntriesLength | src/app/api/send-email/route.ts:137-141 | The error list has one entry per rejected attempt. |
| SendEmail.Post | src/app/api/send-email/route.ts:6-151 | The status is 200, 400, 401 or 500. 401 exactly when there is no session or no access token. 500 exactly when the token is present and the body cannot be read, with the thrown message or "Failed to send emails". 400 exactly when the token is present, the body was read and the user email is missing. 200 exactly when all three checks pass. No attempt is made on any non-200 answer. On 200 each recipient gets one message, with from = user email, to = recipient email, the shared subject, the personalised HTML and the shared attachments, and the body is the summary of the settled attempts. |
| SendEmail.AggregateAppend | src/app/api/send-email/route.ts:137-141 | Counts add and error lists concatenate over concatenated attempts, so errors list failing recipients in input order. |
| SendEmail.SettleOne | src/app/api/send-email/route.ts:107-114 | A failed attempt contributes its recipient's email (or "Unknown recipient"), its message (or "Unknown error") and its code unchanged. |
| SendEmail.CountsPermutationInvariant | src/app/api/send-email/route.ts:118-119 | The counts do not depend on the order in which attempts are listed. |
| SendEmail.AllDelivered | src/app/api/send-email/route.ts:118-142 | When every outcome is a delivery, all attempts are successful, none failed and there are no errors. |
| SendEmail.ExactlyOneFailure | src/app/api/send-email/route.ts:66-142 | One failure among n attempts gives n−1 successes, one failure and a single error entry for that recipient. |
| SendEmail.EmptyBatch | src/app/api/send-email/route.ts:66-142 | An authenticated request with a user email and no recipients gets 200 with 0/0, no errors and no attempt. |
| SendEmail.AttemptsIndependentOfOutcomes | src/app/api/send-email/route.ts:66-116 | The messages sent and the status do not depend on the transport's outcomes, so one failure never skips another recipient. |
| Composer.ValidateEmail | src/components/EmailComposer.tsx:106-108 | An accepted address has at least five characters, exactly one `@` and no white space. |
| Composer.ValidateEmailMatchesPattern | src/components/EmailComposer.tsx:107 | The direct check is accepted exactly when `^[^\s@]+@[^\s@]+\.[^\s@]+$` matches. This means no white space, exactly one `@` with a non-empty part before it, and a `.` after it that is neither first nor last in the domain. |
| Composer.AddRecipient | src/components/EmailComposer.tsx:50-60 | Nothing changes exactly when either box is blank. Otherwise exactly the pair of trimmed box contents is appended, the existing list is kept and both boxes are cleared. |
| Composer.RemoveFromOutside | src/components/EmailComposer.tsx:62-64 | The position filter keeps every entry when the index lies outside the list. |
| Composer.RemoveFromInside | src/components/EmailComposer.tsx:62-64 | The position filter deletes exactly the entry at the index when the index lies in the list. |
| Composer.RemoveRecipient | src/components/EmailComposer.tsx:62-64 | `removeRecipient(i)` deletes exactly the i-th entry, keeps the others in order, and changes nothing for an index outside the list. |
| Composer.RemoveUndoesAdd | src/components/EmailComposer.tsx:50-64 | Removing the recipient just added restores the previous list. |
| Composer.ApplyPreloaded | src/components/EmailComposer.tsx:38-48 | A non-empty preloaded list replaces the recipients and an empty one leaves them alone. The result is empty only when both lists are empty. |
| Composer.ApplyPreloadedIdempotent | src/components/EmailComposer.tsx:38-48 | Applying the same preloaded list twice is the same as applying it once. |
| Composer.InvalidEmails | src/components/EmailComposer.tsx:86-90 | An address is reported exactly when some recipient has it and it fails `validateEmail`; no more addresses are reported than there are recipients. |
| Composer.InvalidEmailsOne | src/components/EmailComposer.tsx:86-90 | A single recipient is reported, with its own address, exactly when that address is invalid. |
| Composer.InvalidEmailsEmpty | src/components/EmailComposer.tsx:86-87 | Nothing is reported exactly when every recipient's address is valid. |
| Composer.InvalidEmailsAppend | src/components/EmailComposer.tsx:86-91 | The report of a concatenated list is the first part's report followed by the second's; with `InvalidEmailsOne` this fixes the report as the offending addresses in list order. |
| Composer.HandleSend | src/components/EmailComposer.tsx:66-103 | The batch is handed on exactly when all of these hold: the subject is not blank, the content is neither blank nor the default template, the list is non-empty and every address is valid. It is then handed on with the untrimmed subject, the content and the list unchanged. Checks run in order (subject, content, list, addresses). When the first three pass and some address is invalid, the alert lists the invalid addresses in list order, joined with ", ". |
| Composer.PreloadedDispatch | src/components/EmailComposer.tsx:38-102 | A non-empty preloaded list that passes the checks is exactly the list handed on. |
| Auth.FreshUntilExpiry | src/lib/auth.ts:44 | A token is fresh before its expiry time and not at or after it, and a missing or zero expiry is never fresh. |
| Auth.ExpiryMillis | src/lib/auth.ts:37 | The expiry is 0 exactly when `expires_at` is absent or 0. Otherwise it is `expires_at`·1000. |
| Auth.Jwt | src/lib/auth.ts:31-78 | On sign-in the access token, expiry, refresh token and user are taken from the account. A fresh token is returned unchanged. When the token is expired and a refresh token exists, the token fields are replaced and the refresh token is kept unless a new one arrives. Without a refresh token, or when the refresh fails, only `error` changes. Other fields are always kept, and `error` is never cleared. |
| Auth.RefreshOutcomeIrrelevant | src/lib/auth.ts:43-54 | When no refresh is due, the refresh outcome does not affect the result. |
| Auth.FreshIsIdempotent | src/lib/auth.ts:44-46 | A fresh token is a fixed point between sign-ins. |
| Auth.ZeroExpiryRefreshesNext | src/lib/auth.ts:33-46 | A sign-in without an expiry stores 0, and when a refresh token was granted the next call refreshes whatever the time. |
| Auth.RefreshKeepsError | src/lib/auth.ts:58-63 | A successful refresh does not clear an earlier error. |
| Auth.RunKeepsError | src/lib/auth.ts:31-78 | Over any sequence of callback calls on one stored token, a set error stays set and the unmodelled fields never change. |
| Auth.Session | src/lib/auth.ts:79-86 | The session takes `error` only when the token's error is set, and always takes the access token and user. |
| Auth.FailedRefreshReachesSession | src/lib/auth.ts:71-86 | A failed refresh reaches the session as "RefreshAccessTokenError" together with the old access token. |

## Left out

- **React rendering and UI state** of the components beyond the handlers listed above: markup, the editor toolbar, loading flags and modal open/close. These have no decision logic.
- **The network and the mail transport:** nodemailer's transporter, `sendEmail` in src/lib/email.ts and the gmail-avatar route. Their results enter as transport outcomes.
- **src/lib/token.ts:** it is not part of this model. The refresh request is a `RefreshResult` input.
- **Concurrency:** `Promise.allSettled` is modelled as an ordered map over recipients. Completion order does not affect the result.
- **Logging and `console` output.**
- **The second credential check at route.ts lines 50-56:** it cannot fail once the checks at lines 10 and 21-26 have passed.
- **Parser errors caught at csvParser.ts lines 81-83:** the only error that could reach that `catch` comes from the JavaScript runtime, not from the parse logic.
- CsvParser.BuildRow: JavaScript lists integer-like keys (such as `0` or `12`) before all other keys, and this ordering rule is not modelled. For a header with such cells, the key order stated here differs from the object's. The key `find` picks is unaffected, because such a key never lower-cases to `name` or `email`.
- CsvParser.ParsedRowKeys: a header cell `__proto__` does not become a key of a JavaScript object, but it does here. For such a header the key set stated here has one key too many. `find` is again unaffected.
- **Unicode case folding beyond ASCII, and UTF-16:** a string is a sequence of Unicode scalar values, not UTF-16 code units, so non-BMP characters count as one character.
- Composer.RemoveRecipient: the index is an integer. JavaScript would also accept non-integer numbers, and these never arise from the list's own indices.
- Composer.ApplyPreloaded: the empty `errors` object attached to each preloaded recipient is not modelled. Nothing reads it.
- Auth.Jwt: an expiry that is `NaN` is not modelled. Such a value can only come from a malformed token response. Expiries are integers, and a non-number expiry is treated as absent.
- Auth.Jwt: the OAuth scopes and provider configuration are static data.
- Auth.RunKeepsError: every call in the sequence, sign-ins included, receives the token stored so far. NextAuth starts a new sign-in from a fresh token, so signing out and in again (the app's re-authentication button) clears the error; the lemma says nothing about that path.
- SendEmail.Post: a request body is either unreadable or a well-formed `EmailData` with string names and addresses. A body without a `recipients` array passes the sender check and then throws at route.ts line 31, answering 500. A recipient without a name gets the text `undefined` from `replace`. Neither case is modelled. Any error thrown while one message is built is caught by that recipient's own `try`, so it would count as that recipient's rejected attempt.
- **Attachment contents:** these are opaque base64 text and are never inspected.
