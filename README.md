# GitLab commit check — a Dafny model

The extension takes a list of GitLab projects, each written `path/branch`, and
shows the latest commit on each branch. It has three parts.

- **panel.js** is the popup. It parses the project list and writes it back out.
  It formats the commit time and keeps a history of up to 50 past checks. It can
  also fill the list from a `projectPath` URL parameter.
- **background.js** is the service worker. It collects the GitLab cookies and
  the page's headers. It asks the GitLab REST API for one commit per project. It
  turns every failure into a message and returns one result per project, in order.
- **content.js** runs in the GitLab page. It reads a CSRF token and a bearer
  token from the page's `<meta>` tags and from its web storage.

This project models those decisions in Dafny and proves their properties.
Browser APIs become inputs: the cookie store, the tab message channel, `fetch`,
`encodeURIComponent`, `Date` and web storage. The model has six modules:

- `Wrappers` holds `Option` and `Result`.
- `Seqs` holds `IsSubsequence`, used to state that a filter keeps order.
- `Text` gives JavaScript's string operations on `seq<char>`: `split` on one
  character (always at least one piece), `join`, `trim` over the ECMAScript
  white-space set, `includes`, `startsWith`, `String(n)` and `padStart`.
- `Panel` models panel.js: parsing, the format/parse round trip, the timestamp
  and relative time, the history store (a class whose `Save` changes it in
  place), and the URL loader.
- `Background` models background.js: cookie selection and the `Cookie` header,
  the endpoint and request headers, the error-message ladder (an imperative
  method proved equal to a declarative definition), commit selection, and the
  batch.
- `Content` models content.js. `GetPageHeaders` is a loop over the meta tags
  followed by the two storage steps. It is proved equal to a declarative
  definition whose precedence rules are lemmas.

## Model

| member | source | states |
|---|---|---|
| `Text.TrimCutsSpace` | panel.js:4 | What `Trim` leaves of `s` is a piece `s[i..e]` with only white space before index i and only white space from index e on. |
| `Text.TrimUnique` | panel.js:4 | Any piece `s[i..e]` with no white space at its ends and only white space around it is `Trim(s)`. Together with `TrimCutsSpace` this determines the trim. |
| `Text.TrimIdempotent` | panel.js:4 | Trimming twice gives the same result as trimming once. |
| `Text.TrimKeepsAbsent` | panel.js:4 | Trimming never adds a character that was not in the string. |
| `Text.Split` | panel.js:3 | Splitting on one character always gives at least one piece, and no piece contains the separator. |
| `Text.JoinSplit` | panel.js:9-12 | Joining the pieces of a split with the same separator gives back the original string. |
| `Text.SplitJoin` | panel.js:329 | Pieces that do not contain the separator, joined and then split again, come back unchanged. |
| `Text.SplitWithoutSeparator` | panel.js:9-10 | A string without the separator splits into exactly itself. |
| `Text.SplitWithSeparator` | panel.js:9-10 | A string that contains the separator splits into at least two pieces. |
| `Text.NatToString` | panel.js:66-70 | The numeral of `n` is one or more digits, one digit exactly below 10, and starts with `0` only for 0 itself, as `String(n)` never writes a leading zero. |
| `Text.NatToStringValue` | panel.js:66-70 | The decimal numeral of `n` is all digits and reads back as `n`. |
| `Text.PadStart` | panel.js:66-70 | Padding gives the larger of `width` and the length of `s`, ends with `s`, and holds only the fill character before it. |
| `Panel.SlashPieces` | panel.js:9-10 | A line contains `/` exactly when splitting it on `/` gives at least two pieces. |
| `Panel.ParseLine` | panel.js:9-22 | A line with `/` gives `path + "/" + branch == line` and a branch without `/`. A line without `/` gives path = line and branch `main`. |
| `Panel.LastSlashUnique` | panel.js:11-12 | Only one cut at a `/` leaves no `/` after it, so the branch is exactly the text after the last `/`. |
| `Panel.NonEmptyTrimmedAppend` | panel.js:3-5 | `NonEmptyTrimmed`, the `map(trim).filter(non-empty)` of the pieces, distributes over concatenation. |
| `Panel.NonEmptyTrimmedOne` | panel.js:3-5 | A single piece gives its trim when that is non-empty, and nothing otherwise. |
| `Panel.KeptInPlace` | panel.js:3-5 | Every piece keeps its place: the result is what is kept before piece i, then the trim of piece i unless it is empty, then what is kept after it. |
| `Panel.NonEmptyTrimmedOfClean` | panel.js:3-5 | Lines that are already non-empty and trimmed pass through unchanged. |
| `Panel.ParseLines` | panel.js:7-24 | Gives one project per line. |
| `Panel.ParseEach` | panel.js:7-24 | The `for` loop pushes one project per line: the result is the line-by-line parse, entry i being `ParseLine` of line i. |
| `Panel.ParseLinesAt` | panel.js:7-24 | Entry i of the parse is the parse of line i. |
| `Panel.ParseProjects` | panel.js:2-26 | The loop returns the declarative parse of the input: one project per non-empty trimmed line, in order, each being `ParseLine` of its line. |
| `Panel.FormatProjects` | panel.js:258 | Gives one `path/branch` string per project, in order. |
| `Panel.ParseFormatted` | panel.js:258 | Parsing a formatted project gives the project back, under the conditions of the round trip below. |
| `Panel.ParseFormatRoundTrip` | panel.js:2-26 | Projects formatted, joined with newlines and parsed again come back unchanged. This needs: no `/` or newline in a branch, no newline in a path, no white space at the start of a path or the end of a branch. |
| `Panel.HistoryEntryRoundTrip` | panel.js:327-329 | Filling the input box from a history entry and parsing it gives back the projects that were saved. |
| `Panel.TwoDigitsValue` | panel.js:66-70 | A field below 100 is written in exactly two digits that read back as its value. |
| `Panel.TimestampLayout` | panel.js:65-71 | `Timestamp`: the year, `-`, month (counted from 1), `-`, day, a space, hour, `:`, minute, `:`, second, with each field after the year two characters wide. |
| `Panel.RelativeTimeBuckets` | panel.js:59-84 | `RelativeTime`: under a minute gives "刚刚". Then whole minutes 1 to 59, then whole hours 1 to 23, then whole days from 1 up. A week or more reads the same as fewer days. |
| `Panel.FormatTime` | panel.js:48-95 | The result is "未知" exactly for a missing or empty time or an invalid date, and is then never "today". Otherwise it is "today" exactly when the commit falls on the current calendar day. The html is then `RelativeTime(now - date)`, then "（", then `Timestamp(date)`, then "）". |
| `Panel.SavedBounded` | panel.js:264-270 | `Saved`, from at most 50 entries: the new entry is first, and the rest is a prefix of the old list in the same order. The length becomes min(old + 1, 50), so only the oldest entry can be dropped. |
| `Panel.HistoryStore.constructor` | panel.js:261-262 | The stored history, or an empty history when none is stored. |
| `Panel.HistoryStore.Save` | panel.js:264-270 | The new list is the old one with the entry put in front and the last entry dropped past 50. The entry is at index 0, and a list within the cap stays within it. |
| `Panel.UrlProjectsFilled` | panel.js:362-366 | `UrlProjectsText` fills the input box exactly when the parameter is present and some piece between vertical bars is non-empty after trimming. |
| `Panel.UrlProjectsLines` | panel.js:364-366 | The text `UrlProjectsText` fills in has one line per non-empty trimmed piece, in order, with no empty line. Parsing it gives one project per piece. |
| `Background.AuthCookies` | background.js:9-14 | Every cookie kept is an authentication cookie. |
| `Background.AuthCookiesOrdered` | background.js:9-14 | The authentication cookies keep their original order. |
| `Background.AuthCookiesCounted` | background.js:9-14 | Every authentication cookie is kept as often as it occurs, and no other cookie is kept. |
| `Background.AuthCookiesEmpty` | background.js:17 | The filter finds something exactly when some cookie is an authentication cookie. |
| `Background.CookieSelection` | background.js:9-17 | `SelectCookies`: if any authentication cookie exists, the selection is exactly those cookies in their original order. Otherwise it is all the cookies. |
| `Background.CookiePairs` | background.js:18 | Gives one `name=value` string per cookie, in order. |
| `Background.JoinSpaced` | background.js:18 | Joining with `"; "` is joining with `;` after putting a space in front of every piece but the first. |
| `Background.CookieHeaderPieces` | background.js:18 | `SerializeCookies`: no cookies give `""`. Otherwise splitting the header on `;` gives one `name=value` per cookie, in order. This needs no `;` in any name or value. |
| `Background.CookieString` | background.js:2-24 | A failed lookup gives `""`. Otherwise the result is the serialised selection. |
| `Background.GetHeaders` | background.js:27-38 | A channel error or an empty response gives `{}`. Otherwise the result is the response. |
| `Background.BatchHeaders` | background.js:115-118 | A missing or zero tab id gives `{}` without asking the page. Any other tab id gives what `GetHeaders` makes of the page's reply. |
| `Background.BaseUrl` | background.js:47 | Removes one trailing `/`, and only when there is one. |
| `Background.EndpointDeterminesTarget` | background.js:47-49 | If the encoder is one-to-one and never outputs `/`, equal `Endpoint` URLs come from equal paths and branches. |
| `Background.RequestHeaders` | background.js:52-59 | `Accept` defaults to `application/json` unless supplied. `Cookie` is set to the cookie string, overriding a supplied one, exactly when that string is non-empty. Every other supplied header is kept as given, and there are no other keys. |
| `Background.FriendlyMessage` | background.js:84-90 | There is a fixed message exactly for 401, 403 and 404. |
| `Background.TextMessage` | background.js:77-80 | A non-empty text body gives its first min(length, 100) characters: a prefix of the text of exactly that length. An empty one gives nothing. |
| `Background.ErrorMessage` | background.js:67-92 | The step-by-step message equals `ErrorMessageOf`, the declarative ladder: the status's fixed message, else the body's message, else `HTTP <status>`. |
| `Background.FriendlyOverrides` | background.js:84-90 | `ErrorMessageOf`: 401, 403 and 404 always give their fixed message, whatever the body holds. |
| `Background.BodyMessage` | background.js:68-81 | The body says nothing exactly when it is a boolean, a number, an array or an object without a truthy `message`, or when the JSON could not be read or was `null` and the text body is empty. |
| `Background.MessageLadder` | background.js:68-81 | `ErrorMessageOf` for any other status: no message from `BodyMessage` gives `HTTP <status>`. So do a boolean, number or array body, an object without a truthy `message`, and unreadable or `null` JSON with an empty text body. A truthy JSON `message` gives `JsString` of it. A JSON string gives itself. Unreadable JSON or `null` gives the first min(length, 100) characters of a non-empty text body. |
| `Background.JsStringArray` | background.js:71-92 | `JsString`, the `String` that `new Error` applies to a non-string `message`: an array is its elements' texts joined by commas, a `null` element writing as nothing. |
| `Background.JsStringExample` | background.js:71-92 | `[1, null, "a"]` becomes `1,,a`, an object `[object Object]`, and -7 becomes `-7`. |
| `Background.ConsumedBodyFailure` | background.js:69-81 | As written, against a real response: unparsable JSON or a JSON `null` yields the error of the second body read. Any other body gives the ladder's message. |
| `Background.ConsumedBodyLosesFriendlyMessage` | background.js:76-90 | A 404 with a non-JSON body gets the error of the second body read, not the 404 message. |
| `Background.FirstCommit` | background.js:95-105 | An ok response succeeds exactly for a non-empty JSON array and yields its first element. Any other parsed body yields "未找到提交记录". A body that is not JSON fails with the parse error's own message. |
| `Background.GetLatestCommit` | background.js:46-106 | The result is `LatestCommit`: the `Outcome` of sending the endpoint request with the request headers. A response that is not ok fails with the ladder's message. |
| `Background.CheckAll` | background.js:121-147 | There is one result per project, in order. Each copies its project's path and branch. Each succeeds with the commit exactly when that project's own call produced one, and otherwise carries its error message. |
| `Background.CheckAllAt` | background.js:121-145 | Entry i is `CheckOne` of project i through call i. |
| `Background.BatchIsolation` | background.js:121-145 | An entry depends only on its own project's call. What the other calls answer does not change it. |
| `Background.DuplicateTargetsFetchedApart` | background.js:121-129 | The same project listed twice is fetched twice: one call can fail while the other succeeds, and the two entries differ. |
| `Background.CheckAllAppend` | background.js:121-147 | Checking a concatenation gives the check of the first list on its own, followed by each project of the second list checked through the call numbered on from the first. |
| `Background.HandleCheckCommits` | background.js:109-157 | Gives one result per project, in order: entry i names project i and is its check with the cookie string of the lookup and the page headers of `BatchHeaders`. The page headers are `{}` for a falsy tab id, and the cookie string is `""` when the lookup failed. |
| `Content.SelectMetaOrdered` | content.js:9 | `SelectMeta` keeps document order: its result is a subsequence of the tags. |
| `Content.SelectMetaCounted` | content.js:9 | `SelectMeta` keeps every tag whose name starts with `csrf` or `token`, as often as it occurs, and no other tag. |
| `Content.LastContentIsLast` | content.js:10-21 | `LastContent`, the value taken, is the content of a tag of that kind that no later tag of the kind follows. There is none exactly when no tag is of the kind. |
| `Content.ValuelessTagIgnored` | content.js:13-20 | A tag without a name or without content changes nothing, wherever it stands. |
| `Content.MetaHeadersSnoc` | content.js:15-19 | `MetaHeaders`: one more tag sets `X-CSRF-Token` when its name contains `csrf`. Otherwise it sets `Authorization` to `Bearer ` + content when its name contains `token`. Otherwise nothing changes. |
| `Content.StorageToken` | content.js:25-27 | Gives the first non-empty value of `gl-token`, `gitlab_token`, `token`, and nothing when all three are missing or empty. |
| `Content.PageHeaders` | content.js:2-48 | The only keys are `X-CSRF-Token` and `Authorization`. The CSRF header is the last CSRF tag's content. `Authorization` is `Bearer ` + the chosen token, and is present exactly when a token was found. |
| `Content.AuthorizationPrecedence` | content.js:23-45 | `AuthToken`: a local-storage token always wins. A meta token beats a session-storage token, which is used only when nothing else set `Authorization`. |
| `Content.StorageFailureHarmless` | content.js:31-45 | A storage that throws acts like one holding none of the keys. |
| `Content.StorageSteps` | content.js:24-45 | The two storage steps after the meta tags give the declared precedence. |
| `Content.GetPageHeaders` | content.js:2-48 | The loop over the tags and the two storage steps produce exactly `PageHeaders`. |

## Left out

- The DOM is left out: rendering results and history, loading and error states, `escapeHtml`, and event listeners. These are presentation.
- Chrome APIs are left out: `chrome.tabs`, `chrome.runtime` messaging, `chrome.storage.local`, `chrome.cookies.getAll` and `chrome.action`. Their results are parameters. A failed cookie lookup is `None`, and a failed or empty tab reply is a `HeaderReply`.
- `fetch` is a parameter. `GetLatestCommit` takes the transport of its one call, `Request -> FetchReply`. The batch takes `fetch: nat -> Request -> FetchReply`, where `fetch(i)` answers project i's own call, so equal requests in one batch can be answered differently. A response is its status, the outcome of reading it as JSON, and its text. The request method and `credentials: 'include'` are not modelled.
- Background.ErrorMessage: this is the ladder as written, and it assumes the text body can still be read after `response.json()`. A real response refuses a second read. `ConsumedBodyFailure` models that case (see Findings).
- `Promise.all` concurrency is left out. The batch is a sequential map, so completion order cannot matter.
- The outer `catch` of handleCheckCommits (background.js:150-156) is left out. Neither lookup before it can throw in the model, so the batch always returns results.
- `Date` is left out: parsing a time string, the local time zone and `new Date()`. `FormatTime` takes a string that is present or absent, a parsed date that is present or absent, and the current instant as epoch milliseconds plus local calendar fields.
- Panel.FormatTime: `isToday` compares the year, month and day fields it is given rather than building midnight instants.
- JSON numbers are integers only. Floating point is not modelled, nor is `String` of a fractional number.
- `encodeURIComponent` is a parameter `enc`. The endpoint lemma states what it needs from it: one-to-one, and never outputs `/`.
- `new URL(url).hostname` happens inside the cookie lookup, which is an input.
- Characters are Unicode scalar values. JavaScript's `substring(0, 100)` and `length` count UTF-16 code units, so text with characters outside the Basic Multilingual Plane is measured differently.
- The tab-matching heuristic in checkCommits (panel.js:192-200) is left out. It needs hostname extraction and the open tabs.
- checkCommits' input checks, its UI flow, rendering and the `success: false` reply are left out.
- `setTimeout`, `window.close`, `confirm` and `alert` are left out.
- The storage `try/catch` in saveHistory and the write back to storage are left out. `HistoryStore` holds the list that would be written.
- Panel.UrlProjectsLines: the line structure is stated only for a parameter without newlines. A newline inside the parameter produces extra lines, a case the lemma does not cover.
- Panel.SavedBounded and Panel.HistoryStore.Save: the bounds are stated for a stored history of at most 50 entries. A longer list from storage keeps all but one of its entries, as the source does.

## Findings

| source | as written | input that shows it | evidently intended | confidence | as-written member | corrected member |
|---|---|---|---|---|---|---|
| background.js:69-90 | After `response.json()` fails, or returns `null`, the handler calls `response.text()` on a body that has already been read. That call rejects with a TypeError, which escapes before the fixed 401/403/404 messages are applied. | status 404 with the HTML body `<html>Not Found</html>` | read the body once as text and parse it, so every 401/403/404 gives its fixed message | high, not executed | `Background.ConsumedBodyLosesFriendlyMessage` | `Background.FriendlyOverrides` |
