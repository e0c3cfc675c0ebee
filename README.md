# Consent form: the `POST /api/submit` handler

A model of the only logic in this small Express server: the handler for
`POST /api/submit` in `server.js`. The handler takes a parsed JSON body and
does four things:

1. It reads `name`, `email` and `consent`, treating a missing body as `{}`.
2. It checks them in that order. The first failed check decides the 400
   reply: `'consent required'`, `'Bad name'` or `'Bad email'`.
3. On success it builds an entry. The entry holds the trimmed name and
   email, `consent: true`, the client address and the user agent. The
   client address is the trimmed first hop of `x-forwarded-for`, or else
   the socket's remote address.
4. It appends the entry as one line of newline-delimited JSON to
   `submissions.ndjson` and replies `{ok: true}`.

The project has five modules:

- `Js` (`js.dfy`) covers the parts of JavaScript the handler relies on:
  - JSON values and truthiness;
  - strings as UTF-16 code units;
  - `trim`, with a reference definition it is proved to meet and to be the only solution of;
  - `split(',')[0]`.
- `Handler` (`handler.dfy`) holds the validation chain, the client address,
  the user agent, entry construction and the handler's decision. All of
  these are pure functions, with lemmas for each promise the code makes.
- `SubmissionLog` (`submission_log.dfy`) holds the log file.
  - The log is a class whose `text` field is the file's contents.
  - `Submit` either appends exactly one serialised line or leaves the file untouched.
  - A line reader, `Lines`, is proved to read the file back as the lines it held before plus one line per accepted entry, in order, when the earlier contents are empty or end with a newline.
- `Scenarios` (`scenarios.dfy`) holds concrete requests. They include the
  a typical accepted request, one refusal per check, and the edge cases JavaScript's rules produce:
  - `"false"` as consent;
  - a surrogate pair as a two-unit name;
  - padding;
  - proxy chains.
- `Wrappers` (`wrappers.dfy`) defines `Option` and `Result`.

`JSON.stringify` is a parameter of the log (`stringify`). The only thing
required of it is that its output holds no newline.

The consent error is sent in lower case, `'consent required'`, while
`'Bad name'` and `'Bad email'` are capitalised; the model uses these
spellings.

## Model

| member | source | states |
|---|---|---|
| Js.FalsyValues | server.js:15 | `!consent` holds exactly for undefined, null, false, 0 and the empty string; every array and object, even an empty one, counts as consent |
| Js.TrimMeetsReference | server.js:17 | `trim` removes a white-space prefix and suffix and leaves a string with no white space at either end |
| Js.TrimUnique | server.js:17 | Only one string is left once white space is cut from both ends, so `trim`'s result is determined by the reference definition |
| Js.TrimIdempotent | server.js:23-24 | Trimming the stored name or email again changes nothing |
| Js.TrimFixedPoints | server.js:23-24 | `trim` leaves a string unchanged exactly when it has no white space at either end |
| Js.TrimAllWhiteSpace | server.js:28 | A string of white space only trims to the empty string |
| Js.IncludesSurvivesTrim | server.js:19 | For a code unit that is not white space, `s.includes(c)` and `s.trim().includes(c)` agree |
| Js.SplitFirstSpec | server.js:28 | `split(sep)[0]` is a prefix of the header without `sep`, followed by `sep` or by the end of the header |
| Js.SplitFirstAt | server.js:28 | Text after the first separator never changes `split(sep)[0]` |
| Js.TrimStartSpec | server.js:17 | Cutting leading white space leaves a suffix of the input; every code unit dropped is white space, and the result does not start with white space |
| Js.TrimEndSpec | server.js:17 | Cutting trailing white space leaves a prefix of the input; every code unit dropped is white space, and the result does not end with white space |
| Js.IncludesSurvivesCut | server.js:19 | Whatever string is left once white space is cut from both ends holds exactly the same non-white-space code units as the original |
| Js.TrimPadded | server.js:17-28 | A string with no white space at either end, padded with white space on both sides, trims back to itself |
| Handler.ValidationOrder | server.js:15-19 | Each error is returned exactly when all earlier checks passed and its own check failed; validation passes exactly when all three checks pass |
| Handler.ConsentDecidesFirst | server.js:15 | A falsy consent gives `'consent required'`, whatever the name and email are |
| Handler.BadNameIgnoresEmail | server.js:17 | Once the name fails, the email is not looked at: the error is `'Bad name'` for every email |
| Handler.UnpaddedNameCheck | server.js:17 | For a name with no white space at either end, the name check passes exactly when it is at least two code units long |
| Handler.EmailCheckAgreesWithStoredEmail | server.js:19 | The `'@'` test on the untrimmed email agrees with `'@'` being in the trimmed email that is stored |
| Handler.MissingBodyRefused | server.js:13-15 | A missing or null body is read as `{}` and refused with `'consent required'` |
| Handler.NonObjectBodyRefused | server.js:13-15 | A body that is not an object has none of the three fields and is refused with `'consent required'` |
| Handler.HandleFollowsValidation | server.js:13-32 | The handler refuses exactly when validation fails, with validation's error. On acceptance, both fields are strings, the entry holds the trimmed name and email and `consent: true`, and its meta is the resolved address and user agent |
| Handler.AcceptedEntryWellFormed | server.js:15-25 | Every accepted entry has consent true, a trimmed name of at least two code units, and a trimmed email containing `'@'` |
| Handler.CleanSubmissionStoredVerbatim | server.js:15-32 | A consenting submission whose name (two or more code units) and email (with `'@'`) carry no surrounding white space is stored exactly as sent |
| Handler.BuildEntryWellFormed | server.js:21-25 | An entry built from a name that trims to two or more code units and an email with `'@'` is well formed |
| Handler.ReplyMatchesDecision | server.js:15-36 | The reply is `{ok: true}` exactly when an entry is produced; otherwise it carries one of the three error strings |
| Handler.IpResolution | server.js:27-29 | With no `x-forwarded-for` header the socket address is recorded; with one, the first hop cut of white space at both ends (by the reference definition of trimming) is recorded when it is non-empty, and the socket address otherwise |
| Handler.IpIsOr | server.js:27-29 | The recorded address is JavaScript's logical or of the optional-chained trimmed first hop and the socket address: an absent header (`undefined`) and a blank hop (`""`) both give way |
| Handler.FirstHop | server.js:28 | The trimmed first hop holds no comma and is the trim of the text before the first comma |
| Handler.BlankFirstHopFallsBack | server.js:28-29 | A first hop of white space only falls back to the socket address |
| Handler.LaterHopsIgnored | server.js:28 | The hops after the first comma never change the recorded address |
| Handler.UserAgentRecorded | server.js:30 | The recorded user agent is JavaScript's logical or of the header and `null`: the header when it is truthy (present and non-empty), `null` otherwise |
| SubmissionLog.NdjsonAppend | server.js:34 | Appending an entry appends its serialisation and a newline to the text |
| SubmissionLog.LinesOfLine | server.js:34 | A line without a newline, then a newline, then any text, reads back as that line followed by the lines of the rest |
| SubmissionLog.LinesAppend | server.js:34 | The lines of complete text followed by more text are the lines of the two parts, one after the other |
| SubmissionLog.FirstLine | server.js:34 | Non-empty complete text is a first line, a newline, and shorter complete text |
| SubmissionLog.NdjsonComplete | server.js:34 | The text the log writes always ends in a newline (or is empty) |
| SubmissionLog.LinesOfNdjson | server.js:34 | Reading the written text back gives exactly each entry's serialisation, in order |
| SubmissionLog.SubmissionsFile.constructor | server.js:34 | A log over existing contents starts with those contents and no entries appended |
| SubmissionLog.SubmissionsFile.Submit | server.js:12-36 | The reply is the handler's decision. On acceptance the file gains exactly the entry's line and a newline at its end, and the entry is recorded. On refusal, file and entries are unchanged. The log's invariant is kept |
| SubmissionLog.SubmissionsFile.Append | server.js:34 | Appends the entry's line and a newline at the end of the file and nothing else, keeping every logged entry well formed |
| SubmissionLog.FileLines | server.js:34 | When the earlier contents are empty or end with a newline, the file reads back as the lines it held before this process started, then one line per accepted submission, in order |
| SubmissionLog.AppendAddsOneLine | server.js:34 | When the earlier contents are empty or end with a newline, an append adds exactly one line, its own, and leaves the earlier lines as they were |
| Scenarios.AcceptedExample | server.js:12-36 | `{name: "Al", email: "a@b.com", consent: true}` from 127.0.0.1 is stored as sent, with a null user agent |
| Scenarios.ShortNameRefused | server.js:17 | A one-letter name is refused with `'Bad name'` |
| Scenarios.EmailWithoutAtRefused | server.js:19 | An email without `'@'` is refused with `'Bad email'` |
| Scenarios.ConsentFalseRefused | server.js:15 | `consent: false` is refused with `'consent required'` |
| Scenarios.ConsentIsTruthiness | server.js:15 | The string `"false"` and an empty array count as consent; the number 0 does not |
| Scenarios.AstralCharacterNameAccepted | server.js:17 | One emoji (a surrogate pair) is two code units long and passes the name check |
| Scenarios.PaddedShortNameRefused | server.js:17 | `"  A  "` is refused: padding does not count towards the name's length |
| Scenarios.PaddedEmailTrimmed | server.js:19-24 | `" a@b "` passes the email check and is stored as `"a@b"` |
| Scenarios.FirstForwardedHopRecorded | server.js:28 | `" 203.0.113.7 , 10.0.0.1"` records `"203.0.113.7"` |
| Scenarios.BlankForwardedHopIgnored | server.js:28-29 | `" , 10.0.0.1"` falls back to the socket address |
| Scenarios.AcceptedThenRefused | server.js:12-36 | On a fresh log, an accepted submission and then a refused one reply `{ok: true}` and then the error, and leave exactly one line: the accepted entry's |

## Left out

- Express wiring is not modelled: `express.json({limit: '50kb'})`, static file serving, `app.listen` and the console message (server.js:1-10, 39-41). JSON parsing and the size limit belong to the framework. The handler is modelled from the parsed body onwards.
- `recivedAt` (server.js:22) is left out of `Entry`. The code stores the function `toISOString` itself rather than calling it, and `JSON.stringify` drops function-valued properties, so the written line has no such key. The modelled entry therefore matches what is actually written, and no clock is needed.
- `JSON.stringify` is a parameter `stringify` of the log. The only requirement on it is that it emits no newline. Key order, escaping, and leaving out `ip` when the address is undefined are not modelled.
- `fs.appendFileSync`, `path.join` and UTF-8 encoding (server.js:34) become an update of the `text` field. The model does not cover I/O failures, durability or the byte encoding. An exception from the write is not modelled: every modelled append succeeds.
- Concurrent requests are not modelled. Each `Submit` is atomic, and calls happen one after another.
- Numbers are exact reals. Only their truthiness matters to the handler; double rounding is not modelled.
- Only `x-forwarded-for`, `user-agent` and the socket address are read from a request. The case-insensitive header lookup is the framework's, and each header is a field of `Request`. A repeated `x-forwarded-for` header, which Node joins with `", "`, arrives already joined.
- JSON values with an inherited property are not modelled. Destructuring reads only `name`, `email` and `consent`, and none of these is a property of `Object.prototype`, so only own properties matter.
- SubmissionLog.FileLines: promises nothing about a file whose earlier contents do not end with a newline. `fs.appendFileSync` appends to whatever is there, so the first new line would then join the old last line.
