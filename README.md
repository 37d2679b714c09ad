# SafeSpace anonymous reporting, modelled in Dafny

SafeSpace lets someone file an anonymous report of online abuse. The browser encrypts the
sensitive fields with AES-GCM. An ingest function hashes the report into a tamper-evident
receipt. The function stores the report and returns the receipt. A public dashboard shows
aggregate statistics. Communities (schools, organisations) can register to receive reports.
This project models the logic of those pieces. Its proofs cover:

- the ingest function (`SubmitReport`): the CORS pre-flight, the canonical hashed text, the
  hex receipt, the stored row and both kinds of response;
- the report page (`ReportPage`): the `{"iv","data"}` envelope made by `encryptData`, the
  payload sent to the ingest function, and the form's state across a submission;
- the transparency dashboard (`Transparency`): the incident-type breakdown, the seven-day
  trend, the month-over-month null guard and the display form of an incident type;
- community registration (`CommunityRegister`): the schema rules, the normalisation of empty
  inputs, validate-before-insert, the inserted row and the loading flag;
- the rating card (`SafetyRating`): score thresholds, colours, sizes and defaults.

Supporting modules model the standard encodings the code relies on. `Json` covers
`JSON.stringify` of flat objects, with a parser as its partner and last-duplicate-wins lookup.
`Utf8` covers `TextEncoder`. `Base64` covers `btoa` (section 4 of RFC 4648) over
`String.fromCharCode`. `Hex` covers `toString(16)` with `padStart(2, '0')`. Each of these
encodings comes with a decoder and a proved round trip.

Some things are inputs to the model:

- SHA-256 (FIPS 180-4) is a function parameter whose result is typed as 32 bytes.
- AES-GCM (NIST SP 800-38D) is a function parameter that may fail.
- The keys and IVs are a `Randomness` value. The model cannot state that they are fresh.
- The database insert, `functions.invoke`, the parsed request body, the clock readings and
  the URL and e-mail checks are also inputs.

Where the code behaves differently from its design, the model follows the code:

- The page checks neither `incidentType` nor `description` before sending. Only the HTML
  `required` attributes do, and those are outside the model.
- The ingest function checks no field and has no 4xx answer. Every failure, including an
  unreadable body, is a 500 with an `error` member.
- The receipt view is guarded by `if (reportHash)`, so it appears only for a non-empty string
  (`ReportPage.ReportForm.ShowsReceipt`).
- The hashed timestamp is the function's own clock reading. The returned `timestamp` is the
  row's `created_at`. They are kept as separate values.
- The description rule rejects only more than 500 UTF-16 code units. The message says "less
  than 500", but exactly 500 passes.

## Model

| member | source | states |
|---|---|---|
| Wrappers.OrUndefined | src/pages/Report.tsx:75 | a form string or-ed with `undefined`: absent exactly when the string is empty, otherwise the string unchanged |
| Hex.ByteToHex | supabase/functions/submit-report/index.ts:50 | `toString(16)` then `padStart(2,'0')` always gives two lowercase digits: the high nibble, then the low one |
| Hex.ToString16 | supabase/functions/submit-report/index.ts:50 | definition of `b.toString(16)` for a byte; its properties are in `Hex.ToString16Numeral` |
| Hex.ToString16Numeral | supabase/functions/submit-report/index.ts:50 | `b.toString(16)` of a byte is one or two lowercase digits, one exactly below 16, with no leading zero unless the byte is 0, and the digits denote the byte |
| Hex.PadStart2 | supabase/functions/submit-report/index.ts:50 | definition of `padStart(2, '0')`; its properties are in `Hex.PadStart2Shape` |
| Hex.PadStart2Shape | supabase/functions/submit-report/index.ts:50 | the padded text has length 2, or the original length when longer, ends with the original text, and everything before it is '0' |
| Hex.Encode | supabase/functions/submit-report/index.ts:50 | the joined text is exactly two characters per byte, all in [0-9a-f] |
| Hex.EncodeAt | supabase/functions/submit-report/index.ts:50 | the digit pair at position 2k is the encoding of byte k |
| Hex.DecodeEncode | supabase/functions/submit-report/index.ts:50 | reading the text back in digit pairs recovers the original bytes |
| Hex.EncodeInjective | supabase/functions/submit-report/index.ts:50 | different byte strings never give the same hex text |
| Hex.DecodeAccepts | src/pages/CommunityRegister.tsx:21 | a text decodes as hex exactly when it has even length and only hex digits (either case); it yields half as many bytes |
| Utf8.EncodeChar | supabase/functions/submit-report/index.ts:46-47 | `TextEncoder` writes 1 to 4 bytes per character, one byte exactly for ASCII, and continuation bytes after the first |
| Utf8.Encode | src/pages/Report.tsx:15-16 | the encoded length is between the character count and four times it |
| Utf8.DecodeEncode | supabase/functions/submit-report/index.ts:46-47 | decoding the encoded bytes gives back the text |
| Utf8.EncodeInjective | supabase/functions/submit-report/index.ts:46-47 | different texts never encode to the same bytes |
| Utf8.EncodeAscii | src/pages/Report.tsx:15-16 | ASCII text encodes to one byte per character, equal to its code |
| Base64.AlphabetRoundTrip | src/pages/Report.tsx:41-42 | each 6-bit value has an alphabet character that maps back to it |
| Base64.Encode | src/pages/Report.tsx:41-42 | the output has 4 characters per started 3-byte group |
| Base64.DecodeEncode | src/pages/Report.tsx:36-42 | Base64 decoding of the encoded bytes gives back the same bytes |
| Base64.EncodeWithoutPadding | src/pages/Report.tsx:41 | a whole number of 3-byte groups encodes to alphabet characters only, 4 per group, with no `=` |
| Base64.EncodeCharacters | src/pages/Report.tsx:41-42 | every output character is an alphabet character or the `=` pad |
| Base64.FromCharCodes | src/pages/Report.tsx:41-42 | `String.fromCharCode(...bytes)` gives one character per byte, whose code is that byte |
| Base64.Btoa | src/pages/Report.tsx:41-42 | `btoa` succeeds exactly when every character is below 256 |
| Base64.BtoaFromCharCodes | src/pages/Report.tsx:41-42 | `btoa` over `fromCharCode` of bytes never fails and is the Base64 of those bytes |
| Json.EscapePlain | src/pages/Report.tsx:45 | a string without quotes, backslashes or control characters is written by `JSON.stringify` unchanged between its quotes |
| Json.Stringify | supabase/functions/submit-report/index.ts:36-43 | definition of `JSON.stringify` on a flat object (members in order, no white space); its properties are in `Json.ParseStringify` and `Json.StringifyInjective` |
| Json.LookupDefined | supabase/functions/submit-report/index.ts:36-43 | with distinct keys, looking a key up in the object with undefined members dropped gives that key's value, or absent |
| Json.LookupUnique | supabase/functions/submit-report/index.ts:76-81 | in an object with unique keys, every member is found under its own key |
| Json.ParseStringify | supabase/functions/submit-report/index.ts:36-43 | parsing the text `JSON.stringify` writes for a flat object gives back the same members in the same order |
| Json.StringifyInjective | supabase/functions/submit-report/index.ts:36-43 | different member lists never give the same JSON text |
| SubmitReport.Handle | supabase/functions/submit-report/index.ts:16-99 | OPTIONS gets 200, CORS headers and a null body, with nothing inserted. Otherwise an insert happens exactly when the body was read, with each field in its column plus the computed hash. 200 comes exactly when the insert succeeded and carries the stored hash; every other case is 500 with `error` as the only key |
| SubmitReport.ReportDataOf | supabase/functions/submit-report/index.ts:27 | definition: each of the five fields is the body's value under its key, absent when the key is missing; what arrives from the page is in `ReportPage.ServerReceivesPayload` |
| SubmitReport.ReportContent | supabase/functions/submit-report/index.ts:36-43 | definition of the hashed text; its properties are in `SubmitReport.ContentReadsBack` and `SubmitReport.ContentInjective` |
| SubmitReport.RowOf | supabase/functions/submit-report/index.ts:57-64 | definition of the inserted row; `SubmitReport.Handle` states when and with which hash it is inserted |
| SubmitReport.SuccessResponse | supabase/functions/submit-report/index.ts:75-86 | definition of the 200 answer; its body is described by `SubmitReport.SuccessBodyFields` |
| SubmitReport.ErrorResponse | supabase/functions/submit-report/index.ts:87-98 | definition of the 500 answer; its body is described by `SubmitReport.ErrorTextHasNoHash` |
| SubmitReport.ReportHash | supabase/functions/submit-report/index.ts:46-50 | the receipt is 64 lowercase hex digits |
| SubmitReport.HashDecodesToDigest | supabase/functions/submit-report/index.ts:48-50 | reading the receipt back as hex gives exactly the SHA-256 digest of the UTF-8 content |
| SubmitReport.ContentKeysDistinct | supabase/functions/submit-report/index.ts:36-43 | the six hashed keys are pairwise different |
| SubmitReport.ContentFieldReadsBack | supabase/functions/submit-report/index.ts:36-43 | the hashed text parses back, and each of the six keys yields its own field's value (or absent) |
| SubmitReport.ContentReadsBack | supabase/functions/submit-report/index.ts:36-43 | the hashed text parses to an object with each received field under its key, absent fields absent, and the timestamp |
| SubmitReport.ContentInjective | supabase/functions/submit-report/index.ts:36-43 | two hashed texts are equal only when the report data (presence included) and the timestamp are equal |
| SubmitReport.HashInputInjective | supabase/functions/submit-report/index.ts:46-48 | the same holds for the bytes handed to SHA-256 |
| SubmitReport.SuccessKeysUnique | supabase/functions/submit-report/index.ts:76-81 | the four keys of the success body are distinct |
| SubmitReport.SuccessBodyFields | supabase/functions/submit-report/index.ts:75-86 | the success body holds `success: true`, the hash, the row's id and the row's `created_at` as `timestamp` |
| SubmitReport.SuccessTextCarriesHash | supabase/functions/submit-report/index.ts:75-86 | the response text of a successful insert parses back to its body, which holds the stored 64-digit hash, the id and the creation time |
| SubmitReport.ErrorTextHasNoHash | supabase/functions/submit-report/index.ts:87-98 | the error text parses back to a body with the error message and no `reportHash` |
| ReportPage.EncryptData | src/pages/Report.tsx:14-46 | the envelope exists exactly when the cipher succeeded, and it is the JSON of `iv` then `data`, each the Base64 of the IV and of the ciphertext of the UTF-8 text |
| ReportPage.EnvelopeDecodes | src/pages/Report.tsx:40-45 | reading an envelope back gives exactly the IV bytes and the ciphertext bytes |
| ReportPage.EnvelopeRoundTrip | src/pages/Report.tsx:36-45 | the envelope of a successful call reads back as that call's IV and ciphertext and nothing else |
| ReportPage.EnvelopeLiteral | src/pages/Report.tsx:40-45 | for texts free of JSON escapes, the envelope is literally `{"iv":"…","data":"…"}` |
| ReportPage.Base64IsPlain | src/pages/Report.tsx:41-45 | Base64 output needs no JSON escaping |
| ReportPage.EnvelopeText | src/pages/Report.tsx:26-45 | the envelope text is the literal two-member object, and a 12-byte IV is 16 characters with no `=` |
| ReportPage.KeyNotInEnvelope | src/pages/Report.tsx:19-45 | the key reaches the envelope only through the ciphertext: keys giving the same ciphertext give the same envelope |
| ReportPage.BuildPayload | src/pages/Report.tsx:68-79 | for any encryption step: the description is always encrypted. Evidence is encrypted and present exactly when non-empty. An empty community or date is absent and a non-empty one is sent unchanged. The incident type is sent as it is. The payload fails exactly when one of the needed encryptions fails |
| ReportPage.PagePayloadEnvelopes | src/pages/Report.tsx:68-71 | with the page's `encryptData`, the payload is built exactly when AES-GCM accepts the description and any non-empty evidence, and each encrypted field reads back as its own IV and ciphertext |
| ReportPage.PayloadKeysDistinct | src/pages/Report.tsx:73-79 | the five payload keys are pairwise different |
| ReportPage.WireText | src/pages/Report.tsx:72-80 | definition of the request body's text; `ReportPage.PayloadFieldArrives` and `ReportPage.ServerReceivesPayload` state what is read from it |
| ReportPage.PayloadFieldArrives | src/pages/Report.tsx:73-79 | the wire text parses back, and each payload key yields its own field |
| ReportPage.ServerReceivesPayload | src/pages/Report.tsx:72-80 | the ingest function reads from the wire exactly the fields the page sent, absent ones absent |
| ReportPage.ReceiptIsStoredHash | src/pages/Report.tsx:84 | the hash the page records after a successful ingest is the hash the function stored |
| ReportPage.ReadReportHash | src/pages/Report.tsx:84 | definition of reading `data.reportHash`; `ReportPage.ReceiptIsStoredHash` states that it yields the stored hash |
| ReportPage.ReportForm.constructor | src/pages/Report.tsx:49-55 | the initial state: not submitting, no hash, five empty fields |
| ReportPage.ReportForm.BeginSubmit | src/pages/Report.tsx:64 | `isSubmitting` becomes true |
| ReportPage.ReportForm.HandleSubmit | src/pages/Report.tsx:62-104 | `isSubmitting` ends false. The payload sent is the one built with the given encryption step. On success the hash is the server's `reportHash` and the five fields are cleared. On an encryption failure or an invoke error, the hash and the fields are as they were |
| ReportPage.ReportForm.SubmitAnother | src/pages/Report.tsx:180 | the hash becomes null, so the receipt view is gone; nothing else changes |
| ReportPage.ReportForm.ShowsReceipt | src/pages/Report.tsx:106 | definition of `if (reportHash)`: a non-empty hash; `ReportPage.ReportForm.SubmitAnother` states that it ends false |
| Transparency.Types | src/pages/Transparency.tsx:55-60 | one incident type per row, in row order |
| Transparency.FirstIndex | src/pages/Transparency.tsx:56 | the first position holding a type, which `find` sees first |
| Transparency.DistinctElements | src/pages/Transparency.tsx:55-63 | the distinct types are exactly the types that occur |
| Transparency.DistinctNoDuplicates | src/pages/Transparency.tsx:55-63 | no type is listed twice |
| Transparency.DistinctFirstOccurrenceOrder | src/pages/Transparency.tsx:56-60 | the distinct types are ordered by their first occurrence |
| Transparency.DistinctTotal | src/pages/Transparency.tsx:55-63 | the occurrence counts of the distinct types add up to the number of rows |
| Transparency.IncidentBreakdown | src/pages/Transparency.tsx:55-63 | the reduce with `find`, `count++` and `push` gives one entry per distinct type, in first-occurrence order, each with the number of rows of that type. A missing row list gives an empty breakdown |
| Transparency.BreakdownBump | src/pages/Transparency.tsx:56-58 | a row of an already listed type keeps the breakdown exact by adding one to that entry |
| Transparency.BreakdownAppend | src/pages/Transparency.tsx:59-61 | a row of a type not yet listed keeps the breakdown exact by appending an entry of count one |
| Transparency.BreakdownTypes | src/pages/Transparency.tsx:55-63 | in a breakdown each type appears at most once, and exactly the types of the rows appear |
| Transparency.BreakdownCountsPositive | src/pages/Transparency.tsx:57-60 | every count is at least 1 |
| Transparency.BreakdownOrder | src/pages/Transparency.tsx:56-60 | entries appear in the order their types first occur |
| Transparency.BreakdownSum | src/pages/Transparency.tsx:55-63 | the counts add up to the number of rows |
| Transparency.BreakdownUnique | src/pages/Transparency.tsx:55-63 | the breakdown of a given row list is unique |
| Transparency.Within | src/pages/Transparency.tsx:77-80 | the filter keeps the rows whose `created_at` lies in the half-open interval and no others, and never more rows than it is given; their multiplicities are in `Transparency.WithinMultiplicity` |
| Transparency.WithinMultiplicity | src/pages/Transparency.tsx:77-80 | each row in range is kept as often as it occurs and each row out of range is dropped, so the filter's length counts the rows in range with their repetitions |
| Transparency.CountIn | src/pages/Transparency.tsx:77-80 | definition of the filter's length, 0 for a missing row list; its properties are in `Transparency.WithinSplit`, `Transparency.WithinMultiplicity` and `Transparency.TrendTotal` |
| Transparency.WithinSplit | src/pages/Transparency.tsx:73-80 | adjacent half-open intervals count disjoint rows, so their counts add up |
| Transparency.RecentTrend | src/pages/Transparency.tsx:66-86 | seven buckets, oldest first, on consecutive days ending today; bucket i counts the rows from its midnight up to the next |
| Transparency.DayStart | src/pages/Transparency.tsx:66-71 | definition of the midnight `6 - i` days before today; `Transparency.RecentTrend` and `Transparency.BucketsDisjoint` state its properties |
| Transparency.BucketsDisjoint | src/pages/Transparency.tsx:66-80 | a time lies in at most one bucket |
| Transparency.TrendTotal | src/pages/Transparency.tsx:73-80 | the seven counts add up to the rows of the week, so to at most the number of rows; a missing list gives zero in every bucket |
| Transparency.StatisticsOf | src/pages/Transparency.tsx:88-94 | null totals default to 0; the breakdown is carried as given (the page passes `Transparency.IncidentBreakdown` of the rows) and the trend is computed from the snapshot's rows as `Transparency.RecentTrend` |
| Transparency.TrendPercentage | src/pages/Transparency.tsx:105-109 | null exactly when there are no statistics or last month's count is 0; otherwise the change is positive, zero or negative as this month is above, equal to or below last month, and never below -100 |
| Transparency.TransparencyPage.constructor | src/pages/Transparency.tsx:17-18 | no statistics, loading |
| Transparency.TransparencyPage.FetchStatistics | src/pages/Transparency.tsx:21-100 | `loading` ends false. A throw leaves the statistics as they were. Otherwise the statistics are set with the defaults, the breakdown of the rows and the trend |
| Transparency.ToUpper | src/pages/Transparency.tsx:113 | ASCII lowercase letters are shifted to uppercase; other characters stay |
| Transparency.Split | src/pages/Transparency.tsx:112 | `split('-')` always yields at least one piece |
| Transparency.Formatted | src/pages/Transparency.tsx:111-115 | the character-by-character reading keeps the length |
| Transparency.JoinPiecesFormatted | src/pages/Transparency.tsx:111-115 | split, capitalise and join equal the character-by-character reading |
| Transparency.FormatCharacters | src/pages/Transparency.tsx:111-115 | `formatIncidentType` keeps the length. Each `-` becomes a space. A character that starts the text or follows a `-` is upper-cased. Every other character is kept |
| Transparency.FormattedAt | src/pages/Transparency.tsx:111-115 | the per-position description of the character-by-character reading |
| Transparency.FormatExample | src/pages/Transparency.tsx:111-115 | "unsafe-behavior" becomes "Unsafe Behavior" |
| Transparency.FormatIncidentType | src/pages/Transparency.tsx:111-115 | definition of split, capitalise and join; its properties are in `Transparency.FormatCharacters`, `Transparency.JoinPiecesFormatted` and `Transparency.FormatExample` |
| CommunityRegister.Utf16Length | src/pages/CommunityRegister.tsx:16 | zod's length lies between the character count and twice it |
| CommunityRegister.Utf16LengthBmp | src/pages/CommunityRegister.tsx:16 | for text below U+10000 zod's length is the character count |
| CommunityRegister.Validate | src/pages/CommunityRegister.tsx:15-22 | `parse` succeeds exactly when all six rules hold, and then returns the values unchanged. On failure the set of failing fields is non-empty and holds exactly the fields whose rule fails |
| CommunityRegister.ValidName | src/pages/CommunityRegister.tsx:16 | definition of 3 to 100 UTF-16 units; `CommunityRegister.Validate` uses it |
| CommunityRegister.ValidType | src/pages/CommunityRegister.tsx:17 | definition of the five community types; `CommunityRegister.Validate` uses it |
| CommunityRegister.ValidDescription | src/pages/CommunityRegister.tsx:18 | definition: absent, or at most 500 UTF-16 units; `CommunityRegister.EmptyOptionalsPass` states its empty case |
| CommunityRegister.ValidOptional | src/pages/CommunityRegister.tsx:19-20 | definition: absent, empty, or accepted by the URL or e-mail rule; `CommunityRegister.EmptyOptionalsPass` states its cases |
| CommunityRegister.ValidColor | src/pages/CommunityRegister.tsx:21 | definition of `#` and six hex digits; `CommunityRegister.ValidColorIsRgb` and `CommunityRegister.RgbIsValidColor` characterise it |
| CommunityRegister.ValidColorIsRgb | src/pages/CommunityRegister.tsx:21 | a colour passes `^#[0-9A-Fa-f]{6}$` exactly when it is `#` followed by text that hex-decodes, and that text is three bytes |
| CommunityRegister.RgbIsValidColor | src/pages/CommunityRegister.tsx:21 | `#` followed by the hex of any three bytes passes the pattern |
| CommunityRegister.DefaultColorsValid | src/pages/CommunityRegister.tsx:31 | the default primary colour and the fixed secondary colour both pass the pattern |
| CommunityRegister.Normalize | src/pages/CommunityRegister.tsx:64-71 | empty description, website and e-mail become absent and non-empty ones are kept. Name, type and colour pass unchanged |
| CommunityRegister.EmptyOptionalsPass | src/pages/CommunityRegister.tsx:18-20 | an empty description, website or e-mail always passes. A non-empty website or e-mail passes exactly when the URL or e-mail check accepts it |
| CommunityRegister.RowOf | src/pages/CommunityRegister.tsx:76-85 | each validated value goes to its column, with `admin_user_id` the user's id and `secondary_color` "#2d9cdb" |
| CommunityRegister.InsertedRowValid | src/pages/CommunityRegister.tsx:64-85 | every inserted row meets the name, type, description and colour rules again, both its colours match the pattern, and it carries the form's name, type and colour |
| CommunityRegister.CommunityRegisterForm.constructor | src/pages/CommunityRegister.tsx:25-32 | no user, empty fields, primary colour "#1e3a5f", not loading |
| CommunityRegister.CommunityRegisterForm.BeginSubmit | src/pages/CommunityRegister.tsx:61 | `isLoading` becomes true |
| CommunityRegister.CommunityRegisterForm.HandleSubmit | src/pages/CommunityRegister.tsx:59-106 | `isLoading` ends false on every path, the early return included. An insert is attempted exactly when validation succeeds and a user is present. A validation failure reports the failing fields. A missing user is the unexpected error. The attempted row is the validated data with the user's id. The outcome is the new id or the insert's error |
| SafetyRating.RatingColor | src/components/SafetyRating.tsx:13-17 | `text-protect` exactly from 80, `text-support` exactly on [60, 80), `text-destructive` exactly below 60 |
| SafetyRating.RatingLabel | src/components/SafetyRating.tsx:19-24 | Excellent exactly from 80, Good on [60, 80), Fair on [40, 60), "Needs Improvement" below 40 |
| SafetyRating.ColorMatchesLabel | src/components/SafetyRating.tsx:13-24 | Excellent exactly with protect, Good exactly with support, Fair or Needs Improvement exactly with destructive |
| SafetyRating.LabelMonotone | src/components/SafetyRating.tsx:19-24 | a higher score never gets a lower tier |
| SafetyRating.Render | src/components/SafetyRating.tsx:12-53 | trend defaults to stable and size to md. The caption is the label when it is non-empty and "Digital Safety Score" otherwise. The rising-trend icon is drawn exactly when the trend is up |
| SafetyRating.SizeClass | src/components/SafetyRating.tsx:26-30 | definition of the three size classes; `SafetyRating.RenderDefaults` states that they differ |
| SafetyRating.RenderDefaults | src/components/SafetyRating.tsx:26-30 | without optional properties the card is `text-4xl`, has no trend icon and the default caption, also for an empty label; the three sizes give three different classes |

## Left out

- Cryptography: SHA-256, AES-GCM and key generation are function parameters. Their internals
  and security are not modelled, and there is no decryption step to model.
- `getRandomValues` and `generateKey`: keys and IVs are a `Randomness` parameter. Fresh keys
  per call cannot be stated in a deterministic model. The model shows only that the key
  reaches the envelope through the ciphertext and nowhere else.
- Supabase calls (`insert`, `select`, count queries, `functions.invoke`, auth sessions and
  their subscriptions): their answers are inputs. So is `req.json()`, which is given as the
  already-read fields or the error it threw.
- The Deno environment is not an input of its own. A missing `SUPABASE_URL` or key makes
  `createClient` throw before the body is read; that throw is folded into the request's
  Failure body, which gives the same 500 with no insert.
- Strings are sequences of Unicode scalar values. A JavaScript string can also hold a lone
  surrogate: a textarea value, or a `\ud800` escape that `req.json()` decodes. Such strings are
  not modelled. `TextEncoder` would replace a lone surrogate with U+FFFD, so it is not injective
  on them, and `JSON.stringify` would write it as a `\uXXXX` escape. `Utf8.EncodeInjective`
  holds only for scalar-value strings.
- JSON values other than strings, `true`/`false` and `null` (numbers, nested objects) are not
  modelled. A number, array or nested object in a received field is outside the model.
- `console.log` and `console.error` output, toasts, clipboard, navigation and all rendering
  are outside the model.
- Dates: `new Date()`, `setDate`, `setHours`, `setMonth`, time zones and DST are left out.
  Days are fixed 86 400 000 ms intervals from a given start of today. The seven `new Date()`
  calls are one clock reading. The month boundaries are represented only through the counts
  they produce. `toLocaleDateString` labels are left out; a bucket carries its day's start.
- ReportPage.ReportForm.HandleSubmit: the encryption step is a parameter. The page passes
  `encryptData` (`ReportPage.PageEncryptor`), and `ReportPage.PagePayloadEnvelopes` states
  what the payload then carries.
- Transparency.TrendPercentage: the exact ratio stands in for floating-point division and
  `toFixed(1)`; the rounded string is not modelled.
- The largest-count scaling (`Math.max` over the counts) is left out.
- Transparency.ToUpper: only ASCII letters are upper-cased. `toUpperCase` on other Unicode
  characters, which can even change the length, is not modelled.
- CommunityRegister.Validate: zod's URL and e-mail checks are predicate parameters. The error
  messages and the order in which zod reports issues are left out. Validation yields the set
  of failing fields.
- Base64.FromCharCodes: the engine's limit on the number of spread arguments to
  `String.fromCharCode` is not modelled.
- The community page's session check and redirect are left out. The signed-in user is a field
  of the form. Setting it from the session (`setUser`) is not modelled. The page renders
  nothing while `user` is null, so the `user.None?` branch of `HandleSubmit` is defensive.
- A score that is not a finite number, and the progress bar, are left out of SafetyRating.
