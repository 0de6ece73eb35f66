# Invoices list client: a verified model

A small React client for the SAP Business One Service Layer. It lists one
customer's invoices. It has two components, and this project models their
logic in Dafny.

- **`SAPInvoicesComponent`** runs a login-then-fetch cycle.
  - It logs in, tries to read the session cookies from the login response's `set-cookie` header, and waits five seconds.
  - It then fetches the customer's invoices with `credentials: "include"`, and also sets a `Cookie` header built from the session id and the route cookie.
  - In a browser neither header reaches the script: the Fetch standard hides `Set-Cookie` from every response a script reads and drops a script-set `Cookie` request header, so the session travels through the browser's own cookie store. Under a non-browser `fetch` both headers are used as written; the model follows that reading (see "## Left out").
  - Login failure shows `LOGIN FAILED` and fetch failure shows `LOADING INVOICES FAILED`.
- **`InvoicesList`** (in `Components.jsx`) fetches once on mount.
  - Any failure is reported as `Failed to load invoice data: ` followed by the reason.
  - It renders one of four screens: an error alert, a loading skeleton, a "No invoices found" row, or the invoice rows. When there are rows it adds a summary footer with the total.

The model is functional throughout:

- **Network answers are data.** `Backend.Response` is a transport failure, or a response with an `ok` flag, a `set-cookie` header and a body that parsed or did not.
- **React state is an immutable record.** Each state setter becomes an update of one of its fields.
- **The delay is an event.** The SAP cycle is a state machine (`SessionClient.Step`) over three events: the login answer, the timer firing, and the invoice answer.
- **Locale formatting is symbolic.** `Formatting.Display` records which rendering of which input is shown. Only the placeholder branches are spelled out.

Modules:

- `Maybe`: `Option` and `Result`.
- `JsString`: `String.prototype.trim` and one-character `split`, as ECMAScript defines them.
- `Cookies`: `extractSessionCookies`, and the `Cookie` header with a reader for it.
- `CookieExamples`: the header shapes the parser meets.
- `Backend`: invoices, responses and the request URL.
- `Formatting`: the formatters and the summary total.
- `SessionClient`: the SAP cycle.
- `InvoicesList`: the single-fetch list and its view.

Three behaviours of the code shape the model:

- **A route cookie after `;` is not read.** For the header `B1SESSION=abc; ROUTEID=xyz, Path=/` the code keeps only the text before the first `;` of each comma-separated segment. The result is `{B1SESSION: abc, Path: /}`: `ROUTEID` is dropped and `Path` is kept. See `CookieExamples.RouteAfterSemicolonDropped`.
- **The session id is never checked.** A login body without `SessionId`, or with a `null` one, still counts as success. The header then reads `B1SESSION=undefined` or `B1SESSION=null` (`Backend.SessionField`, `Cookies.SessionText`).
- **The delayed fetch cannot be cancelled.** Nothing in the component discards a superseded cycle, so the model has one cycle per mount and no cancellation.

## Model

| member | source | states |
|---|---|---|
| JsString.Trim | SAPInvoicesComponent.jsx:17 | `trim()` gives a string with no whitespace at either end |
| JsString.TrimPadded | SAPInvoicesComponent.jsx:17 | a trimmed core with any whitespace before and after trims to exactly that core |
| JsString.TrimSplitsPadding | SAPInvoicesComponent.jsx:17 | every string is its trimmed text with only whitespace before and after it |
| JsString.TrimEmptyIffBlank | SAPInvoicesComponent.jsx:17 | `trim()`, and each of its two halves, gives the empty string if and only if the input is all whitespace |
| JsString.TrimEndThenTrim | SAPInvoicesComponent.jsx:20 | trimming the end of a value before `trim()` changes nothing |
| JsString.TrimIdempotent | SAPInvoicesComponent.jsx:20 | trimming a trimmed key or value again changes nothing |
| JsString.Split | SAPInvoicesComponent.jsx:15 | `split(c)` gives at least one piece, and no piece contains the separator |
| JsString.JoinSplit | SAPInvoicesComponent.jsx:15 | joining the pieces of a split with the separator gives the original string back |
| JsString.SplitJoin | SAPInvoicesComponent.jsx:15 | splitting a join of separator-free pieces gives the same pieces back |
| Cookies.NameValue | SAPInvoicesComponent.jsx:17 | the `name=value` part of a segment is the prefix of the trimmed segment before its first `;`, and holds no `;` |
| Cookies.PairEntry | SAPInvoicesComponent.jsx:18-20 | an entry is produced only from a non-empty text; its name and value are trimmed and hold no `=`; its name is non-empty when the text does not start with whitespace |
| Cookies.SegmentEntry | SAPInvoicesComponent.jsx:16-21 | every entry a segment yields has a non-empty trimmed name and a trimmed value, neither holding `=` or `;` |
| Cookies.ParseSegments | SAPInvoicesComponent.jsx:15-21 | one result per comma-separated segment, in order |
| Cookies.Collect | SAPInvoicesComponent.jsx:11-22 | the map holds no more names than there were entries, and every stored pair is one of the entries found |
| Cookies.ExtractSessionCookies | SAPInvoicesComponent.jsx:10-26 | no header or an empty header gives `{}`; each segment adds at most one name; every stored pair has a non-empty trimmed name and a trimmed value with no `=` or `;` |
| Cookies.CollectKeys | SAPInvoicesComponent.jsx:16-22 | a name is stored if and only if some entry found has it |
| Cookies.CollectLastWins | SAPInvoicesComponent.jsx:20 | a stored name holds the value of the last entry with that name |
| Cookies.ExtractKeepsDefined | SAPInvoicesComponent.jsx:19-20 | every name some segment defines is stored |
| Cookies.ExtractKeysDefined | SAPInvoicesComponent.jsx:15-21 | every stored name is defined by some segment |
| Cookies.ExtractKeys | SAPInvoicesComponent.jsx:15-21 | a name is stored if and only if some comma-separated segment of the header defines it |
| Cookies.ExtractLastWins | SAPInvoicesComponent.jsx:16-20 | a stored name holds the value of the last segment that defines it, so a later segment overwrites an earlier one |
| Cookies.AttributesIgnored | SAPInvoicesComponent.jsx:17 | whatever follows the first `;` of a segment, even `ROUTEID=x`, does not change its entry |
| Cookies.NameValueBeforeSemicolon | SAPInvoicesComponent.jsx:17 | the `name=value` part of `cookie;attributes` is `cookie` without its leading whitespace |
| Cookies.ParseRendered | SAPInvoicesComponent.jsx:15-20 | a well-formed `name=value;attributes` segment yields exactly that pair |
| Cookies.PairEntryOf | SAPInvoicesComponent.jsx:18-20 | `name=value`, followed by nothing or by another `=`, stores `name.trim()` under `value.trim()` whenever both are non-empty before trimming |
| Cookies.SegmentEntryOf | SAPInvoicesComponent.jsx:16-20 | a segment `name=value;attributes` stores `name.trim()` under `value.trim()` when the name has non-whitespace text and the value is non-empty |
| Cookies.SegmentEntryOfPlain | SAPInvoicesComponent.jsx:16-20 | a segment `name=value` without `;` stores `name.trim()` under `value.trim()` when both have non-whitespace text |
| Cookies.PairOfWellFormed | SAPInvoicesComponent.jsx:18-20 | a well-formed pair followed by nothing, or by another `=`, yields exactly that pair |
| Cookies.PaddingIgnored | SAPInvoicesComponent.jsx:17 | whitespace in front of a segment, as after `, `, does not change its entry |
| Cookies.ParsePlain | SAPInvoicesComponent.jsx:17-20 | a well-formed `name=value` with no attributes yields exactly that pair |
| Cookies.CollectRendered | SAPInvoicesComponent.jsx:16-22 | parsing rendered well-formed cookies gives their map, the last of equal names winning |
| Cookies.HeaderRoundTrip | SAPInvoicesComponent.jsx:10-26 | a `set-cookie` header listing well-formed cookies, with comma-free attributes, parses to exactly the map of those cookies |
| Cookies.RouteId | SAPInvoicesComponent.jsx:78 | the route is sent if and only if `ROUTEID` is stored with a non-empty value, and it is that value |
| Cookies.SessionText | SAPInvoicesComponent.jsx:77 | the template literal shows a string session id as itself, an absent one as `undefined` and a `null` one as `null` |
| Cookies.CookieHeader | SAPInvoicesComponent.jsx:77-80 | the `Cookie` header starts with `B1SESSION=` followed by the id's template-literal text: the id itself, `undefined` when absent, `null` when `null` |
| Cookies.CookieHeaderRoundTrip | SAPInvoicesComponent.jsx:77-80 | the header reads back as the session id, plus `; ROUTEID=<route>` if and only if the route cookie is truthy, carrying exactly that route |
| Cookies.ExtractedRouteRoundTrip | SAPInvoicesComponent.jsx:77-80 | for cookies taken from a `set-cookie` header, the round trip needs only a `;`-free session id |
| CookieExamples.TwoSegments | SAPInvoicesComponent.jsx:15-22 | a header of two segments stores the first pair, then the second, which overwrites on an equal name |
| CookieExamples.AttributeCookieDropped | SAPInvoicesComponent.jsx:15-21 | a cookie written after `;` is dropped; the next comma-separated segment is kept |
| CookieExamples.RouteAfterSemicolonDropped | SAPInvoicesComponent.jsx:10-26 | `B1SESSION=abc; ROUTEID=xyz, Path=/` gives `{B1SESSION: abc, Path: /}` |
| CookieExamples.ServiceLayerHeader | SAPInvoicesComponent.jsx:10-26 | session and route cookies in separate segments are both stored, and the `Cookie` header is `B1SESSION=<v>; ROUTEID=<r>` |
| CookieExamples.SpacedPairTrimmed | SAPInvoicesComponent.jsx:17-20 | spaces around the name and the value, as in ` a = b `, are trimmed off both |
| CookieExamples.SpaceBeforeAttributesTrimmed | SAPInvoicesComponent.jsx:17-20 | a space before the `;`, as in `B1SESSION=abc ;Path=/`, is trimmed off the value |
| CookieExamples.BlankValueStoredEmpty | SAPInvoicesComponent.jsx:19-20 | a whitespace-only value is truthy, so the name is stored with the empty value |
| CookieExamples.BlankPair | SAPInvoicesComponent.jsx:18-20 | `name=<whitespace>` yields the name with an empty value |
| CookieExamples.BlankRouteNotSent | SAPInvoicesComponent.jsx:78 | a stored empty route is not sent |
| CookieExamples.MissingSessionIdSent | SAPInvoicesComponent.jsx:77 | with no route, a `null` session id gives the header `B1SESSION=null` and an absent one `B1SESSION=undefined` |
| CookieExamples.ValueEndsAtSecondEquals | SAPInvoicesComponent.jsx:18 | in `name=value=rest` the value stops at the second `=` |
| CookieExamples.EmptyNameSkipped | SAPInvoicesComponent.jsx:19 | a `name=value` part starting with `=` yields nothing |
| CookieExamples.EmptyValueSkipped | SAPInvoicesComponent.jsx:19 | `name=` and `name==rest` yield nothing |
| CookieExamples.NoEqualsSkipped | SAPInvoicesComponent.jsx:18-19 | a segment without `=` yields nothing and causes no error |
| Backend.ValueOrEmpty | SAPInvoicesComponent.jsx:96 | `data.value || []`: the list when `value` is present, otherwise the empty list |
| Backend.InvoicesUrl | SAPInvoicesComponent.jsx:75 | the URL is the invoice query with the customer code between the filter's quotes |
| Formatting.SessionFormatDate | SAPInvoicesComponent.jsx:104-108 | the empty string exactly for a missing or empty date, otherwise the browser-default rendering of it |
| Formatting.SessionFormatCurrency | SAPInvoicesComponent.jsx:111-116 | always a currency rendering, never a placeholder; a present amount is rendered as itself |
| Formatting.MissingCurrencyIsZero | SAPInvoicesComponent.jsx:115 | a missing amount is rendered like an amount of zero |
| Formatting.ListFormatDate | Components.jsx:52-59 | `-` exactly for a missing or empty date, otherwise the `en-US` short-month rendering |
| Formatting.FormatAmount | Components.jsx:61-68 | `-` if and only if the amount is missing; every present amount is rendered as a currency |
| Formatting.ZeroAmountIsFormatted | Components.jsx:53-62 | an amount of 0 is rendered, while an empty date gives `-` |
| Formatting.Amount | Components.jsx:227 | the `DocTotal`-or-zero of the reduce: a missing amount counts as 0, a present one as itself, just as `formatCurrency` of the SAP component renders it |
| Formatting.Total | Components.jsx:227 | the total is 0 for no invoices, and never negative when no amount is |
| Formatting.SumTotals | Components.jsx:227 | the left-to-right `reduce` loop computes `Total` |
| Formatting.TotalAppend | Components.jsx:227 | the total of a concatenation is the sum of the two totals |
| Formatting.TotalPermutation | Components.jsx:227 | any reordering of the invoices has the same total |
| Formatting.TotalExample | Components.jsx:227 | 10.50, a missing amount, and 5.00 total 15.50 |
| SessionClient.Login | SAPInvoicesComponent.jsx:29-70 | login fails, with the single message `LOGIN FAILED`, exactly when the answer is not an ok response with a parsed body; otherwise it yields the body's session id and the cookies extracted from `set-cookie` |
| SessionClient.FetchInvoices | SAPInvoicesComponent.jsx:73-101 | the fetch fails, with the single message `LOADING INVOICES FAILED`, exactly when the answer is not an ok response with a parsed body; otherwise it yields `value` or `[]` |
| SessionClient.InvoicesRequest | SAPInvoicesComponent.jsx:75-89 | the URL's filter carries the customer code, and the `Cookie` header starts with `B1SESSION=` and reads back as the session id and, exactly when the route cookie is truthy, the route |
| SessionClient.Mount | SAPInvoicesComponent.jsx:4-7 | the initial state satisfies the cycle invariant, with `loading` off |
| SessionClient.Step | SAPInvoicesComponent.jsx:119-150 | an event the phase does not wait for changes nothing; the invariant is preserved; invoices change only on a successful invoice answer; the invoice request, carrying the login's session cookies, is sent only by the timer after a successful login |
| SessionClient.Run | SAPInvoicesComponent.jsx:119-150 | every sequence of events preserves the invariant and the customer code |
| SessionClient.SettledIsFinal | SAPInvoicesComponent.jsx:119-150 | after the cycle ends, nothing changes and no request is sent |
| SessionClient.FetchingSendsNothing | SAPInvoicesComponent.jsx:129-141 | once the invoice request is out, no second one is sent |
| SessionClient.WaitingSendsOne | SAPInvoicesComponent.jsx:129-141 | from the delay, at most the one request built from the login's data is sent |
| SessionClient.LoggingInSendsAtMostOne | SAPInvoicesComponent.jsx:123-146 | while logging in, the component sends either nothing or the one request built from a successful login answer |
| SessionClient.AtMostOneRequest | SAPInvoicesComponent.jsx:119-150 | for any order of events, at most one invoice request is sent, and only after a successful login whose session it carries |
| SessionClient.FailedLoginNeverFetches | SAPInvoicesComponent.jsx:123-146 | after a failed login, status and error are both `LOGIN FAILED`, no invoices are loaded, and no invoice request is ever sent |
| SessionClient.LoadingOnlyWhileFetching | SAPInvoicesComponent.jsx:129-141 | in every reachable state `loading` is on exactly while the invoice request is out, and every finished cycle has `loading` off |
| SessionClient.FetchAnswerSettles | SAPInvoicesComponent.jsx:130-140 | an invoice answer always switches `loading` off; a failure sets `LOADING INVOICES FAILED` and leaves the invoices unchanged; a success stores `value` or `[]` |
| SessionClient.FullCycle | SAPInvoicesComponent.jsx:119-150 | login answer, delay, invoice answer: the screen ends on the outcome determined by the two answers, and exactly one request with the login's cookies is sent if and only if the login succeeded |
| InvoicesList.Outcome | Components.jsx:39-46 | the fetch succeeds exactly for an ok response with a parsed body, giving `value` or `[]`; a non-ok status throws `Failed to fetch invoices` |
| InvoicesList.Begin | Components.jsx:25-26 | every fetch starts with `loading` on and the error cleared, invoices untouched |
| InvoicesList.Fetch | Components.jsx:24-50 | after a fetch `loading` is off; the error is set exactly on failure, always with the `Failed to load invoice data: ` prefix, and the invoices are then unchanged; on success they become `value` or `[]` |
| InvoicesList.NotOkMessageIsFixed | Components.jsx:39-46 | a non-ok status gives exactly `Failed to load invoice data: Failed to fetch invoices` and leaves the invoices unchanged |
| InvoicesList.MissingValueIsEmpty | Components.jsx:43-44 | an ok answer with no `value`, or with an empty one, leaves an empty list and no error |
| InvoicesList.RowOf | Components.jsx:184-200 | the date cell is `-` exactly for a missing date, the number is shown as is, and the amount cell is `-` exactly for a missing amount and otherwise shows what the invoice adds to the total |
| InvoicesList.RowsOf | Components.jsx:176-202 | one row per invoice, in order |
| InvoicesList.Render | Components.jsx:70-233 | the alert is shown if and only if a non-empty error is set (`if (error)`); otherwise the skeleton if and only if loading, the "No invoices found" row if and only if not loading with an empty list, and the footer with the total if and only if the list is non-empty and not loading |
| InvoicesList.LoadingShowsSkeleton | Components.jsx:126 | the first render, and every render during a fetch, shows the skeleton and no footer |
| InvoicesList.FailedFetchShowsAlert | Components.jsx:70 | after a failed fetch only the alert is shown, with the prefixed message |
| InvoicesList.SucceededFetchShowsList | Components.jsx:163 | after a successful fetch there is no alert; "No invoices found" appears exactly when nothing came back; otherwise one row per invoice and the footer with the total |
| InvoicesList.SummaryIgnoresOrder | Components.jsx:213-227 | the footer does not depend on the order of the invoices |

## Left out

- Network calls (`fetch`, `response.json()`, credentials mode) are not modelled. Their results are the values of `Backend.Response`.
- Backend.Response: a browser's `fetch` never exposes `Set-Cookie` to the script (there `extractSessionCookies` always returns `{}`) and drops a script-set `Cookie` header. The model treats both headers as plain data, as a non-browser `fetch` would; the browser's cookie store behind `credentials: "include"` is not modelled.
- The HTTP status and status text in the messages thrown by the SAP component's `login` and `fetchInvoices` are left out. Both functions replace their messages with `LOGIN FAILED` and `LOADING INVOICES FAILED` before anything shows them.
- Locale rendering (`toLocaleDateString`, `Intl.NumberFormat`) is a browser library. `Formatting.Display` names the rendering and its input but does not compute the text.
- Floating-point arithmetic is not modelled: amounts are `real`.
- Formatting.Total: does not model JavaScript's floating-point rounding or `NaN` (`NaN || 0` is 0), because amounts are exact reals.
- The five-second `setTimeout` is the `TimerFired` event, with no clock.
- The effect's re-run when `customerCode` changes is not modelled: `SessionClient.Mount` starts only the first run. A second run would not be independent of the first. It writes the same four state variables and resets none of `error`, `invoices` or `loginStatus`, so it starts from the screen the first run left. The first run's pending `setTimeout` still fetches for the old `customerCode` and can call `setInvoices` after the second run has finished, overwriting its invoices.
- JSX markup, animation, styling and `console.log` are left out.
- The fixed `Cookie` constant of the list component and its hard-coded customer code are left out, as are the login credentials. The SAP component's default prop `customerCode = 'C20000'` is not fixed either: `SessionClient.Mount` takes the customer code as a parameter.
- The view of the SAP component (the banners, spinner and table conditions) is not modelled. For example, it shows "No invoices found" during the delay after a successful login.
- Cookies.ExtractSessionCookies: a pair named `__proto__` is stored here. In the source, `cookies["__proto__"] = value` runs the inherited `__proto__` setter, which ignores a string, so the pair is silently dropped.
- JsString.Trim: works on Unicode scalar values rather than UTF-16 code units, so lone surrogates cannot occur.
- Cookies.SessionText: a `SessionId` that is a number, a boolean or an object, rendered by its own `toString`, is not modelled. The field is absent, `null` or a string.
- SessionClient.Login: a body that parses as JSON `null` makes `data.SessionId` throw in the source, which also ends as `LOGIN FAILED`. The model's parsed body is always an object.
- SessionClient.FetchInvoices: a parsed `value` is always a list here; a non-array truthy `value`, or a `null` body, is not modelled.
- InvoicesList.Fetch: the same restriction on `value` and a `null` body applies.
- `Invoice.jsx` is not part of this model: it is a page wrapper with no logic.
