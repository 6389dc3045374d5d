# Lelang monitor and bid bot: a Dafny model of the core logic

The system is a browser extension plus a Telegram bot server for the Indonesian government
auction site lelang.go.id. This project models the deterministic logic inside it and proves
properties of that logic:

- **The content script** (`extension/content.js`, `extension/content-scraper.js`) turns the
  auction page into a lot snapshot. It reads:
  - the highest bid as an `Rp…` amount, and the `(Anda)` own-bid flag;
  - the bid history, the lot code and the limit price;
  - the login flag taken from the user button, and the auction id in the URL;
  - the six-digit bidding PIN.

  Every 5 seconds it sends the snapshot to the service worker. It also sends a logout message
  when the login flag goes from true to false.
- **The service worker** (`extension/background.js`) keeps one previous snapshot. It compares
  each new snapshot with it and raises three alerts: new higher bid, outbid, and auction
  ending within ten minutes. A logout empties the slot.
- **The popup** (`extension/popup.js`) does four things:
  - decides the login status from the decoded session cookie, with a fixed field priority;
  - combines that status with the page's own flag and detects logged-in → logged-out;
  - reads the page countdown `DD:HH:MM:SS` as an offset in milliseconds;
  - shows a once-a-second countdown, highlighted under ten minutes.
- **The bot server** (`server/server.js`) has:
  - `axiosRetry`, an exponential-backoff retry loop;
  - a per-chat session map, filled by four setter commands;
  - `/status`, guarded by the stored auction id, which fetches and formats the auction status;
  - `sendBidToAPI`: start a bid session, then submit the bid.

Browser, DOM, clock and network are parameters:

- a DOM query is the text (or list of texts) it returns, `None` when there is no element;
- a decoded cookie or JSON body is a `JsValue`, and `undefined` is `Option.None`;
- a request's transport is a function from the attempt number to that attempt's outcome;
- the countdown's `targetEndTime - now` is the integer `diff`.

JavaScript semantics that matter here are written out:

- truthiness and `String()`;
- `parseInt` with leading white space, sign, `0x` prefix and `NaN` (ECMAScript section 19.2.5);
- `trim`, `split` and `join`;
- the regular expressions `Rp([\d.,]+)`, `detail-open-bidding\/([a-f0-9-]+)`, `(\d{6})` and
  `\/setauction ([a-f0-9-]+)`, each with the leftmost match and the greedy run.

The modules follow the program's files:

| module | file | models |
|---|---|---|
| `Wrappers` | `wrappers.dfy` | the `Option` type |
| `Text` | `text.dfy` | string functions and the regular-expression shapes |
| `Js` | `js.dfy` | JavaScript values, `String()` and `parseInt` |
| `Content` | `content.dfy` | the page scrape and the 5-second loop |
| `Scraper` | `scraper.dfy` | `getPasskey`, `getCurrentPrice` and `getLotCode` |
| `Background` | `background.dfy` | the change detector |
| `Countdown` | `countdown.dfy` | the popup countdown |
| `LoginStatus` | `login_status.dfy` | the popup's login logic |
| `Retry` | `retry.dfy` | `axiosRetry` |
| `Sessions` | `sessions.dfy` | the session map and the setter commands |
| `Bidding` | `bidding.dfy` | `sendBidToAPI` |
| `AuctionStatus` | `auction_status.dfy` | `/status` |

Every operation is a total function of its inputs, so the alerts, statuses and replies are
deterministic by construction. `getAuctionUuid` in `content-scraper.js` uses the same
expression as the content script and is modelled by `Content.AuctionUuid`.

A highest-bid text with `(Anda)` and no `Rp` amount gives an own bid without a price (see
`Content.OwnBidWithoutPrice`). The countdown's round trip holds for any number of days:
`padStart` only ever adds zeros, and `parseInt` ignores them. Every failed request attempt
is retried alike.

Snapshots pass through the JSON encoding of runtime messages on their way to the service
worker, so a `NaN` price or limit arrives as `null` (`Background.Received`). The listener
is modelled twice, as the source writes it (`AsWritten`) and with the outbid notice guarded
(`Corrected`); see "## Findings".

## Model

| member | source | states |
|---|---|---|
| Background.LotLabel | extension/background.js:58 | the lot label is the code when it is non-empty, and Unknown otherwise |
| Background.EndingSoonMinutes | extension/background.js:73-77 | minutes are defined exactly for four colon-separated parts; the value is days·1440 + hours·60 + minutes, each part read as the number its digits form (0 without digits); seconds are ignored |
| Background.EndingSoonSimplified | extension/background.js:73-86 | the ending-soon test fires iff the countdown is in the 1..10 minute window and differs from the previous countdown; the emptiness checks add nothing |
| Background.Shown | extension/background.js:51-88 | the notifications shown are exactly the alerts raised, at most three |
| Background.Detect | extension/background.js:51-88 | new higher bid iff both prices are truthy, the new one is greater and the bid is not the user's; outbid iff the previous snapshot was the user's bid and the new one is not, whatever the prices; ending soon iff the new countdown is in the window and differs from the previous one; each alert carries the values its message shows |
| Background.DetectAsWritten | extension/background.js:64-70 | as written, the comparison throws exactly when an outbid meets a snapshot without a price; then nothing is shown; otherwise it agrees with Detect |
| Background.JsonNumber | extension/content.js:223-226 | a number survives the message's JSON encoding iff it is an integer; NaN and a missing number both arrive as null |
| Background.Received | extension/background.js:7-16 | the listener sees the price and limit after JSON encoding, and every other field the detector reads as sent |
| Background.Check | extension/background.js:45-91 | the slot always ends up holding the new snapshot; the first snapshot is a silent baseline; a later one shows the alerts of comparing it with the stored one |
| Background.CheckAsWritten | extension/background.js:45-91 | as written, the first snapshot is a silent baseline; a comparison that throws at the outbid notice shows nothing and leaves the stored snapshot unchanged; otherwise it agrees with Check |
| Background.Handle | extension/background.js:6-40 | a logout shows the session-ended notice and empties the slot; other actions change nothing; as written, a received snapshot whose outbid notice throws changes nothing and shows nothing; otherwise the received snapshot is stored, silently when the slot was empty and with the detector's alerts against the stored one otherwise |
| Background.Run | extension/background.js:6-25 | after any run of messages the slot holds what it started with, nothing, or one of the snapshots received in the run |
| Background.RunAppend | extension/background.js:6-25 | handling two message lists in turn equals handling their concatenation |
| Background.RunStoresLastSnapshot | extension/background.js:45-90 | after the last snapshot message, followed only by other actions, the slot holds that snapshot as received; as written, it keeps the snapshot before it when that comparison threw |
| Background.RunIdle | extension/background.js:6-25 | other messages leave the slot alone and show nothing |
| Background.LogoutThenBaseline | extension/background.js:19-21 | in both versions, after a logout the next snapshot is stored, as received, silently as a new baseline, and only the session-ended notice is shown |
| Background.ContentLogoutTick | extension/content.js:209-229 | a content-script tick that sees true → LOGIN makes the service worker show only the session-ended notice and keep the new snapshot as baseline |
| Background.OutbidWithoutPriceAsWritten | extension/background.js:65-70 | as written, an outbid against a snapshot without a price raises no outbid alert and keeps the stale snapshot; the corrected detector raises it and stores the new snapshot |
| Background.CommaPriceIsNaN | extension/content.js:43-46 | the highest-bid text `Rp,5` parses to NaN and is not an own bid |
| Background.NaNPriceThrowsAsWritten | extension/background.js:64-70 | after an own bid, a highest-bid text `Rp,5` scrapes as NaN and reaches the worker as null; as written the listener then keeps the old snapshot and shows nothing, while the corrected one reports the outbid without a price |
| Content.PriceOf | extension/content.js:43-46 | null iff no `Rp` is followed by a digit, dot or comma; otherwise the leftmost such run, dots removed, read up to the first comma; NaN when the run has no leading digit; never negative |
| Content.PriceOfGrouped | extension/content.js:43-46 | the price parser inverts the page's dot-grouped thousands format: `Rp` + grouped n reads back as n |
| Content.IsYourBid | extension/content.js:41-48 | the own-bid flag is true iff the highest-bid text exists and contains `(Anda)` |
| Content.CurrentPriceOf | extension/content.js:40-46 | the current price is null without a highest-bid text, and otherwise the Rp parse of that text |
| Content.EntryOf | extension/content.js:53-61 | a history row gives an entry iff its trimmed text has an Rp price; the entry's price is that text's Rp parse and its flag is that row's own `(Anda)` |
| Content.BidHistory | extension/content.js:51-62 | the history has at most one entry per row, is empty iff no row has a price, and every entry is the entry of some row |
| Content.BidHistoryAppend | extension/content.js:51-62 | the history of concatenated rows is the concatenation of their histories, so order is kept |
| Content.BidHistorySingle | extension/content.js:53-61 | one row contributes exactly its entry, or nothing when it has no price |
| Content.DetailRows | extension/content.js:80-93 | the primary rows are used when there are any, else the alternative rows, else the disclosure panel's rows |
| Content.LotDetailsKode | extension/content.js:95-106 | the lot code is the trimmed value of the last row captioned Kode that has a value |
| Content.LotDetailsLimitText | extension/content.js:118-121 | the limit text is the trimmed value of the last row captioned Nilai Limit |
| Content.LotDetailsLimitPrice | extension/content.js:118-121 | the limit price is always the Rp parse of the limit text kept beside it, and null without a limit row |
| Content.LoginOf | extension/content.js:156-161 | false iff the user name is exactly LOGIN; true iff it is another non-empty name; no element and an empty name give two distinct non-boolean values |
| Content.AuctionUuid | extension/content.js:163-165 | null iff no `detail-open-bidding/` is followed by a hex digit or hyphen; otherwise a non-empty run of those characters; getAuctionUuid in the scraper uses the same expression |
| Content.AuctionUuidOfUrl | extension/content.js:164-165 | the id written after the first `detail-open-bidding/` of a URL is the one extracted |
| Content.ScrapeLotData | extension/content.js:18-204 | a price implies a highest-bid text; the own-bid flag implies `(Anda)` in it; the login flag is false iff the trimmed user name is LOGIN |
| Content.OwnBidWithoutPrice | extension/content.js:40-48 | a highest-bid text `(Anda)` gives an own bid without a price |
| Content.ContentTick | extension/content.js:209-229 | one tick sends the logout message iff the last flag was true and the trimmed user name is LOGIN; it always sends the snapshot last and remembers the new flag |
| Content.ContentRun | extension/content.js:207-229 | a run of ticks sends one or two messages per page, and the last message sent is a snapshot |
| Content.ContentRunRemembersLast | extension/content.js:207-221 | after any run of ticks, the remembered flag is the last page's, whatever came before |
| Scraper.PinOf | extension/content-scraper.js:26-32 | an element gives a PIN only when its text mentions PIN Bidding, and then exactly the first six consecutive digits of that text; a PIN has exactly six digits |
| Scraper.LastPin | extension/content-scraper.js:25-33 | one selector gives no PIN iff none of its elements does; otherwise the PIN of the last element that gives one |
| Scraper.SelectorPin | extension/content-scraper.js:24-33 | the forEach loop over one selector's elements computes LastPin |
| Scraper.FirstCopyButton | extension/content-scraper.js:39-40 | the button found is the first whose text mentions Salin PIN Bidding, and none iff there is none |
| Scraper.CopyButtonPin | extension/content-scraper.js:38-52 | a fallback PIN needs a first copy button inside a detail row, and then is exactly the first six digits of that row's text, whether or not it mentions PIN Bidding; it has six digits |
| Scraper.GetPasskey | extension/content-scraper.js:12-55 | the first selector that gives a PIN decides, the earlier ones having given none; only when no selector gives one is the copy-button fallback used; any result has six digits |
| Scraper.GetCurrentPrice | extension/content-scraper.js:57-68 | null without an element; otherwise the Rp parse of the trimmed text |
| Scraper.CurrentPriceAgrees | extension/content-scraper.js:57-68 | the scraper's price equals the content script's for every element, the empty text included |
| Scraper.GetLotCode | extension/content-scraper.js:75-91 | null iff no row is captioned Kode with a value container; otherwise the trimmed value of the last such row |
| Scraper.LotCodeAgrees | extension/content-scraper.js:75-91 | when the primary rows exist, the scraper's lot code equals the content script's |
| Countdown.ParseCountdown | extension/popup.js:250-266 | null for a missing or empty text, or without exactly four parts; otherwise ((d·24 + h)·60 + m)·60 + s seconds in milliseconds, each part read as its digits' number |
| Countdown.Decompose | extension/popup.js:288-291 | days ≥ 0, hours < 24, minutes < 60, seconds < 60, and d·86400000 + h·3600000 + m·60000 + s·1000 = diff − diff mod 1000 |
| Countdown.Pad2 | extension/popup.js:293-297 | a padded field has at least two characters and is the number with zeros in front |
| Countdown.CountdownTick | extension/popup.js:281-305 | expired iff diff ≤ 0; a running tick is highlighted iff fewer than ten minutes are left |
| Countdown.WarningWindow | extension/popup.js:302 | days = 0 ∧ hours = 0 ∧ minutes < 10 holds iff diff < 10 minutes |
| Countdown.Format | extension/popup.js:293-297 | the display text is non-empty and splits on `:` into four parts that read back as the clock's days, hours, minutes and seconds |
| Countdown.Display | extension/popup.js:276-298 | the text after a tick: the zero clock `00:00:00:00` once expired, otherwise the format of the decomposed difference |
| Countdown.ParseFormat | extension/popup.js:250-266 | parsing a formatted clock gives its weighted sum in milliseconds |
| Countdown.ZeroFormat | extension/popup.js:281-282 | the expired text is the formatted zero clock |
| Countdown.DisplayRoundTrip | extension/popup.js:250-297 | parsing the displayed text gives the time left rounded down to the second, for any number of days, and 0 after expiry |
| Countdown.RunningParse | extension/popup.js:250-297 | while the countdown runs, parsing its text gives the time left rounded down to the second |
| Countdown.DisplayMinutes | extension/background.js:73-77 | the service worker reads a displayed countdown as the whole minutes left |
| Countdown.EndingWindowOfDisplay | extension/background.js:79 | on a displayed countdown, the service worker's alert window is from one to eleven minutes left |
| LoginStatus.ResolveLoginStatus | extension/popup.js:80-117 | null for a falsy input; a string always counts as logged in; false only from a record's status field; throws exactly for a record without status fields whose truthy raw is not a string |
| LoginStatus.IsLoggedInFirst | extension/popup.js:83-86 | a defined isLoggedIn decides by its truthiness, whatever other fields the record holds |
| LoginStatus.StatusLoginSecond | extension/popup.js:87-93 | without isLoggedIn, a defined statusLogin decides by the five accepted values, whatever other fields say |
| LoginStatus.StatusThird | extension/popup.js:94-97 | with neither earlier field, status decides: true iff its lower-cased text is login, loggedin, true, 1 or active |
| LoginStatus.LowerIsNotUpper | extension/popup.js:95-96 | the upper-case LOGIN in the status list can never match a lower-cased text |
| LoginStatus.CaseAsymmetry | extension/popup.js:87-97 | statusLogin is compared case-sensitively and status is not: `login` is refused in the first and accepted in the second, and `LOGIN` is accepted in both |
| LoginStatus.RawSessionLogin | extension/popup.js:108-116 | a non-empty raw value gives true and an empty one null; the raw branch never gives false |
| LoginStatus.CheckLoginStatus | extension/popup.js:167-194 | null iff resolving throws or the tab is not on the auction site; otherwise the boolean cookieLogin ∨ pageLogin; logout iff the last status was true and the current one false; the remembered status is overwritten only by a boolean |
| LoginStatus.Checks | extension/popup.js:231-246 | the 10-second checks run at most one per observation until one handles a logout, which clears the interval: no check before the last handles a logout, and the run stops early only at a logout |
| LoginStatus.ChecksFollowObservations | extension/popup.js:167-194 | the k-th check is checkLoginStatus on the k-th observation, starting from the status the previous check left remembered, or from the initial one for the first check |
| LoginStatus.ChecksRememberLastResult | extension/popup.js:180-188 | over the checks made, the remembered status is the most recent non-null result; a logout is handled exactly when it was true and the check returns false |
| Retry.TotalWait | server/server.js:233-238 | the waits after the first k failed attempts add up to (2^k − 1)·1000 ms |
| Retry.RetryFrom | server/server.js:211-231 | a run with attempts left makes at least one more attempt, within the bound, and settles with a response or an error |
| Retry.RetryFromSpec | server/server.js:211-231 | the first success ends the run with its response; without one, every allowed attempt is made and the last error is rethrown |
| Retry.AxiosRetry | server/server.js:205-241 | with maxRetries ≤ 0 no attempt and undefined; otherwise 1..maxRetries attempts, all but the last failed; the first response is returned; a throw happens only after maxRetries attempts and carries the last error; wait i is 2^i·1000 ms and, after a throw, the waits add up to (2^(n−1) − 1)·1000 ms |
| Sessions.With | server/server.js:558-560 | a setter's assignment sets its own field and leaves the other three alone |
| Sessions.Set | server/server.js:554-560 | a setter creates the session if absent, sets its field, keeps the session's other fields, and leaves every other chat's session unchanged |
| Sessions.SetCommutes | server/server.js:550-608 | setting two different fields, or fields of two different chats, commutes |
| Sessions.SetOverwrites | server/server.js:550-563 | setting a field twice keeps only the second value |
| Sessions.Argument | server/server.js:580-582 | a handler runs iff its expression matches the message; `/setauction` only ever stores a non-empty run of `[a-f0-9-]` |
| Sessions.HandleSetter | server/server.js:550-608 | without a match the sessions are unchanged; with one, only the command's field of the sender's session changes, to the trimmed capture |
| Sessions.HandleMessage | server/server.js:550-608 | every handler whose expression matches runs on the message: each field of the sender's session holds its command's argument when that command matches and is kept otherwise; no other chat's session changes |
| Sessions.HandlersCommute | server/server.js:550-608 | two different setter handlers commute on any message |
| Sessions.HandlerOrderIrrelevant | server/server.js:550-608 | running the four handlers in reverse registration order gives the same sessions |
| Sessions.SetAuctionStores | server/server.js:580-592 | `/setauction ` followed by an id stores exactly that id |
| Sessions.StatusAfterSetters | server/server.js:610-617 | after `/setauction` stores an id, `/status` proceeds; the other setters never change whether it does |
| Bidding.Headers | server/server.js:344-351 | both bid requests carry the three fixed headers, Authorization iff the token is truthy, Cookie iff the cookies are truthy, and nothing else |
| Bidding.BidPayloadFields | server/server.js:358-379 | the bid body has exactly four keys; the id and passkey are stringified and the id is the one of the start body; an integer amount is carried unchanged, a digit string as its decimal value, and a missing amount as null |
| Bidding.SendBid | server/server.js:334-403 | success iff both retried requests return; the bid is sent only after the session started; a failure carries the failing step's last error; the requests are the start attempts followed by the bid attempts, all with the same headers; each start attempt carries the start body and each bid attempt the bid body |
| Bidding.NoPresenceCheck | server/server.js:334-392 | with no passkey, token or cookies the bid is still sent once the session starts, and it succeeds when the transport does |
| AuctionStatus.StatusHeaders | server/server.js:302-308 | the status request carries Origin and Referer, Cookie iff the cookies are set, Authorization iff the token is set, and no Content-Type |
| AuctionStatus.FetchAuctionStatus | server/server.js:294-332 | fetched iff one of the three attempts succeeds, with the body of the first success; otherwise the error of the third attempt |
| AuctionStatus.NilaiLimitAsWritten | server/server.js:410-422 | as written, the limit read throws exactly when there is no lot or the lot is null; a lot without a truthy limit gives 0 |
| AuctionStatus.NilaiLimit | server/server.js:422 | with `lot?.nilaiLimit`, agrees with the source wherever the source does not throw |
| AuctionStatus.LimitOfDigits | server/server.js:422 | the limit is 0 when the field is missing or falsy, NaN for a truthy field without digits, and otherwise the number its digits form |
| AuctionStatus.LimitOfNumber | server/server.js:422 | a non-negative integer limit is shown as itself |
| AuctionStatus.FormatAsWritten | server/server.js:405-431 | as written, the data-unavailable text iff the body is falsy; the format throws iff the body is truthy and has no lot or a null lot |
| AuctionStatus.Format | server/server.js:405-431 | the data-unavailable text iff the body is falsy; never throws; equals the source wherever the source does not throw |
| AuctionStatus.MissingLotThrows | server/server.js:410-422 | the body `{"data": {}}` makes the source throw, while the corrected version reports limit 0 and a NaN bid step |
| AuctionStatus.StatusCommand | server/server.js:610-634 | refused, with no request sent, iff the chat has no stored auction id; otherwise one status request per attempt, to that id's URL with the session's headers, and the fetch error or the formatted status |
| AuctionStatus.StatusAfterSetAuction | server/server.js:580-625 | after `/setauction` with an id, `/status` is not refused and fetches that id's status at least once |
| Js.ParseInt | server/server.js:376 | after leading white space, a text starting with a digit and no `0x` reads as the decimal value of its leading digits; a text starting with neither a digit nor a sign is NaN |
| Js.ParseIntSigned | server/server.js:376 | after a sign, NaN without a digit and otherwise the signed decimal value of the leading digits; after `0x` or `0X`, with or without a sign, the signed value of the leading hex digits, NaN when there is none |
| Js.ParseIntRoundTrip | server/server.js:376 | parseInt inverts String on integers |
| Js.ParseIntDigits | server/server.js:422 | parseInt of a non-empty digit string is its decimal value, and of the empty string NaN |
| Js.FieldValueAgrees | extension/popup.js:253 | `parseInt(p.replace(/\D/g, '')) \|\| 0` is the number the part's digits form, and 0 without digits |
| Text.Capture | extension/content.js:43 | a match's group is null iff the literal followed by a class character occurs nowhere; otherwise it is the greedy run after the leftmost occurrence |
| Text.SixDigits | extension/content-scraper.js:28 | `(\d{6})` finds the leftmost six consecutive digits, and nothing iff there are none |
| Text.TrimSpec | extension/content.js:22 | trim removes exactly a white-space prefix and suffix and leaves no white space at either end |
| Text.SplitJoin | extension/popup.js:253 | splitting joined parts that contain no separator gives the parts back |
| Text.JoinSplit | extension/popup.js:253 | joining the parts of a split gives the text back |

## Left out

- The `chrome.*` APIs are inputs or are left out: storage, notifications, tabs, cookies,
  runtime messaging and its retries. So are the storage writes beside the detector and the
  hourly cleanup (`extension/background.js:9-13, 104-128`).
- DOM querying is left out. Each query is the texts it returns, and the detail rows are caption
  and value texts.
- `parseSessionCookie` and `getSessionInfo` (`extension/popup.js:67-133`) are left out. They
  call `decodeURIComponent`, `JSON.parse` and the cookie API. Their result is the `JsValue`
  given to the login check, and `RawSession` is the `{ raw }` record they fall back to.
- The popup's display code is left out: `updateStatusFromSession`, `updateLotDisplay` and the
  UI text, styling, notification and storage removal in `handleLogout`. Of `handleLogout`, the
  model keeps that it clears the login-check interval: `LoginStatus.Checks` ends at the
  check that handles the logout. That it also clears the countdown interval is not modelled;
  `Countdown.CountdownTick` is one tick of that interval, whatever stops it.
- Timers and `Date` are parameters: the 5 s and 10 s intervals and the countdown's `now`. The
  time between ticks is not modelled.
- The scrape fallbacks that match `document.body.innerText` for the code and the KPKNL office
  are left out (`extension/content.js:139-150`). Their expressions chain two character-class
  runs, which the one-run matcher does not cover. The model's code is the detail-row value.
- The snapshot fields nothing downstream reads are left out: title, KPKNL, bidding method,
  deposit deadline, dates, PIN text, detail link, bid input, amount in words and server time.
- `toLocaleString`, the Markdown text of the bot's replies and the notification texts are left
  out. An alert or report is the values it shows.
- Telegram, Express, the axios interceptors, debug logging and the diagnostic commands are left
  out (`/start`, `/help`, `/diagnose`, `/testdns`, `/testtcp`, `/testapi`). All of them are
  network I/O. `fetchBidHistory` has no caller in the modelled commands.
- The waits of `axiosRetry` are recorded, not slept. The transport is a total function from the
  attempt number to an outcome, so a request that never settles is not modelled.
- The bid time is a parameter, because it comes from `new Date().toISOString()`.
- `server/test-monitor.js` is not part of this model. It is an interactive diagnostic that
  prints advice.
- Js.ParseInt: numbers are integers, so fractional JSON numbers and the rounding of parseInt
  results above 2^53 to the nearest double are not modelled.
- Js.IntToString: writes every integer in plain decimal digits. JavaScript's `String` writes
  numbers of magnitude 10^21 and above in exponent form (`1e+21`), so for them the model's
  `String` and the `parseInt(String(n)) == n` round trip differ from the source.
- Text.ToLower: lower-cases ASCII letters only. None of the words compared with contains a
  letter whose lower case is outside ASCII, but a non-ASCII input letter keeps its case in the
  model.
- Content.ScrapeLotData: its contract states only the relations between fields. Each field's
  value is stated by the member that computes it: PriceOf, IsYourBid, EntryOf, LotDetailsKode,
  LoginOf and AuctionUuid.
- Content.ContentRun: states the shape of the message list, not that its last message is the
  last page's snapshot; `Content.ContentTick` states that for each tick.
- Content.LotDetails: its own contract states only that a limit price comes with a limit
  text; the field values are stated by LotDetailsKode, LotDetailsLimitText and
  LotDetailsLimitPrice.

## Findings

| source | as written | input that shows it | evidently intended | confidence | as-written member | corrected member |
|---|---|---|---|---|---|---|
| extension/background.js:65-70 | the outbid notice calls `newData.currentPrice.toLocaleString` with no guard | previous snapshot is the user's bid; new snapshot has no highest-bid element (price null), or has the highest-bid text `Rp,5` (price NaN, sent as null); its own-bid flag is false: the call throws a TypeError, so no notice is shown, the ending-soon check is skipped and the stale snapshot stays stored | show the outbid notice even without a price, and store the new snapshot | not executed | Background.DetectAsWritten, Background.OutbidWithoutPriceAsWritten, Background.NaNPriceThrowsAsWritten, Background.Handle (AsWritten) | Background.Detect, Background.Check, Background.Handle (Corrected) |
| server/server.js:422 | `lot.nilaiLimit` reads the field of a lot that every other line reads with `lot?.` | status body `{"data": {}}` has no `data.lotLelang`: the read throws a TypeError inside the async /status handler after the fetch, so no status report is sent; the server installs no unhandledRejection handler (only SIGINT, at server/server.js:695), so on Node 15 and later the rejection ends the bot process, while older Node versions only print a warning | `lot?.nilaiLimit`, giving a limit of 0 | not executed | AuctionStatus.FormatAsWritten, AuctionStatus.MissingLotThrows | AuctionStatus.Format, AuctionStatus.NilaiLimit |
