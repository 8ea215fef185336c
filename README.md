# scraperAPI `/html-page` text normaliser, modelled in Dafny

The service takes two uploaded files, an HTML page and a JSON object of CSS
selectors. It answers with the text of the `title` selection and the text of
the `firstParagraph` selection. Only the paragraph text is cleaned, with
`.replace(/\n\s+/g, "").trim()`. This project models that cleaning chain and
the status and data shaping of the handler, and proves what they guarantee.

- `normalizer.dfy`, module `Normalizer`: the two stages and their properties.
  - `RemoveBreakRunsFrom` / `RemoveBreakRuns` scan the string left to right,
    as the global regular expression does. A line feed followed by
    whitespace starts a match. The greedy `\s+` takes the whole whitespace
    run after it, further line feeds included (`SkipWs`). The match is
    deleted and scanning resumes after it.
  - `Trim` is `String.prototype.trim`.
  - `Normalize` is the chain of the two.
  - One predicate, `IsWs`, is the whitespace of both stages. It holds the
    WhiteSpace and LineTerminator code points of ECMA-262 (sections 12.2
    and 12.3): tab, VT, FF, space, NBSP, U+1680, U+2000–U+200A, U+202F,
    U+205F, U+3000, BOM, LF, CR, U+2028 and U+2029.
  - An independent position-wise definition (`Removed`, `Survivors`) says
    which characters the replacement deletes. The scan is proved equal to it.
- `html_page.dfy`, module `HtmlPage`: the handler as a function from the
  upload (no files, or the two selected texts) to the HTTP status and the
  JSON body.

Strings are sequences of Unicode code points. JavaScript strings are UTF-16,
but every whitespace code point and the line feed lie in the Basic
Multilingual Plane. A surrogate is never whitespace, so the two views agree
for this normaliser.

A break run is deleted whole, with no space left behind:
`"Hello\n   World"` normalises to `"HelloWorld"` (`JoinsLinesAtBreak`).

## Model

| member | source | states |
|---|---|---|
| `Normalizer.IsWs` | server.js:48-49 | the whitespace of both `\s` and `trim`, the ECMA-262 WhiteSpace and LineTerminator code points; every one is a single UTF-16 code unit, and in ASCII they are exactly TAB, LF, VT, FF, CR and SPACE |
| `Normalizer.StartsBreakRun` | server.js:48 | a match of `\n\s+` can start at a position exactly when it holds a line feed followed by a non-empty whitespace run |
| `Normalizer.SkipWs` | server.js:48-49 | the greedy `\s+` stops at the first non-whitespace position: everything it passes is whitespace and the character it stops at is not |
| `Normalizer.SkipWsBack` | server.js:49 | the trailing whitespace run found by `trim` is all whitespace and is preceded by a non-whitespace character (or by the start of the kept part) |
| `Normalizer.Trim` | server.js:49 | the trimmed string has no whitespace at either end and is no longer than the input |
| `Normalizer.TrimUnique` | server.js:49 | `trim` returns exactly the slice from the first to the last non-whitespace character; everything outside is whitespace |
| `Normalizer.TrimEmptyIff` | server.js:49 | `trim` yields the empty string if and only if the input is all whitespace |
| `Normalizer.TrimKeepsClean` | server.js:49 | a string without whitespace at its ends is left unchanged by `trim` |
| `Normalizer.TrimDeletesOnlyWs` | server.js:49 | `trim` only deletes whitespace characters and keeps the order of the rest |
| `Normalizer.RemoveBreakRunsFrom` | server.js:48 | the replacement never grows the text, and its result holds no line feed followed by whitespace; a non-whitespace character at the scan position is kept first |
| `Normalizer.RemoveBreakRuns` | server.js:48 | `replace(/\n\s+/g, "")` never grows the text, and its result holds no line feed followed by whitespace |
| `Normalizer.Normalize` | server.js:46-49 | the normalised text has no whitespace at either end and no line feed immediately followed by whitespace |
| `Normalizer.RemovedIffInsideBreakRun` | server.js:48 | a character is deleted if and only if some line feed at or before it starts a match and everything from that line feed to it is whitespace, so non-whitespace, inline spaces and whitespace before a line feed are kept |
| `Normalizer.ScanKeepsSurvivors` | server.js:48 | scanning from any position that is not inside a match keeps exactly the characters the position-wise definition keeps |
| `Normalizer.RemoveBreakRunsKeepsSurvivors` | server.js:48 | the replacement's output is exactly the characters lying in no match, in their original order |
| `Normalizer.RemoveBreakRunsDeletesOnlyWs` | server.js:48 | the replacement only deletes whitespace characters; nothing is inserted or reordered |
| `Normalizer.NormalizeDeletesOnlyWs` | server.js:46-49 | the normalised text is a subsequence of the input and every deleted character is whitespace |
| `Normalizer.ScanIdentity` | server.js:48 | on a string with no line feed followed by whitespace, the scan from any position copies the rest unchanged |
| `Normalizer.ScanShrinks` | server.js:48 | when a match lies ahead of the scan position, the output is strictly shorter than the remaining input |
| `Normalizer.RemoveBreakRunsFixedIff` | server.js:48 | the replacement leaves a string unchanged if and only if it has no line feed followed by whitespace |
| `Normalizer.NormalizeWithoutNewlineIsTrim` | server.js:48-49 | for input with no line feed, normalising is just trimming |
| `Normalizer.NormalizeIdempotent` | server.js:46-49 | normalising twice equals normalising once |
| `Normalizer.ScanCopiesLine` | server.js:48 | a stretch with no line feed is copied unchanged by the scan |
| `Normalizer.ScanSkipsMatch` | server.js:48 | at a line feed followed by whitespace, the scan resumes after the whole whitespace run |
| `Normalizer.JoinsLinesAtBreak` | server.js:48 | one line feed plus its following whitespace between two lines is deleted entirely and the lines are joined with nothing between them |
| `Normalizer.KeepsWhitespaceBeforeBreak` | server.js:46-49 | `"a  \n b"` normalises to `"a  b"` |
| `Normalizer.KeepsBreakBeforeWord` | server.js:46-49 | `"a\nb"` normalises to `"a\nb"` |
| `Normalizer.JoinsIndentedLine` | server.js:46-49 | `"Price:\n   $5.00  "` normalises to `"Price:$5.00"` |
| `Normalizer.BreakRunSwallowsBreaks` | server.js:46-49 | `"a\n \n  b"` normalises to `"ab"`: the greedy run swallows the second line feed |
| `Normalizer.CarriageReturnSurvivesReplace` | server.js:46-49 | the replacement turns `"\r\n  x"` into `"\rx"` (the carriage return is not in the match), and `trim` then gives `"x"` |
| `HtmlPage.HandleHtmlPage` | server.js:30-58 | status 400 with message "no files available." and no data exactly when there are no files; otherwise status 200, "Files are available.", the title text unchanged and the paragraph text normalised; the body status equals the HTTP status |
| `HtmlPage.FirstParagraphIsClean` | server.js:45-56 | a successful reply's first paragraph has no edge whitespace, no line feed followed by whitespace, and differs from the selected text only by deleted whitespace |
| `HtmlPage.ReplyStableOnItsOwnParagraph` | server.js:46-56 | submitting a reply's first paragraph again as the selected paragraph text produces the same reply |

## Left out

- Express setup, the routes, `app.listen`, `PORT` and the `GET /` route (server.js:5-8, 20-22, 61-63): transport plumbing with no logic.
- multer memory storage and the upload field configuration (server.js:10-18, 25-26): file-upload I/O.
- `console.log` calls (server.js:28, 36): logging with no effect on the reply.
- `cheerio.load` and `$(selector).text()` (server.js:42, 45-47): a foreign HTML parser and selector engine. The selected texts are inputs of `HtmlPage.HandleHtmlPage`; how cheerio concatenates the text of several matches is library behaviour.
- `JSON.parse` of the selector file and the unguarded `files.htmlFile[0]` / `files.jsonFile[0]` accesses (server.js:38-39): library parsing whose exceptions reach Express's default error handler. `upload.fields` (server.js:15-18) sets `req.files` to an object for every multipart request, so `Upload.NoFiles` means "`req.files` absent" (a request that is not multipart). A multipart upload with only one of the two files or with neither file, and one with invalid JSON, throws instead of answering 400 and is not modelled; `Upload.Files` stands for an upload whose selectors were evaluated.
- `title ?? ""` (server.js:55): `.text()` always returns a string, so the fallback never applies and the title is passed through unchanged.
- The set of "Zs" space separators in `IsWs` is the one of current Unicode versions; engines built on older Unicode tables may differ (U+180E was a space separator before Unicode 6.3).
