# Landing-page cookie lifecycle and Chatwoot debug monitor, in Dafny

This project models two scripts of a marketing landing page.

- `script.js`:
  - **`CookieManager`** builds the strings that `set`, `delete` and `deleteAll` assign to `document.cookie`, and `get` reads a value back out of the `document.cookie` string.
  - **`setupCookieAutoDelete`** registers handlers that apply a session policy:
    - on setup, a session flag is written;
    - on `beforeunload`, every cookie is deleted;
    - when the tab becomes hidden, the time is recorded;
    - when it becomes visible after more than thirty minutes hidden, everything is cleared;
    - on `focus`, the session flag is restored;
    - every five minutes, a heartbeat is written.
- `chatwoot-debug.js`:
  - `waitForChatwoot` waits for the Chatwoot SDK, with a bounded number of retries.
  - A `fetch` wrapper counts message-send calls to the widget API. It flags a call that comes less than two seconds after the previous one as a potential duplicate. Every call is still forwarded.
  - A one-second poll tracks whether the widget is open or closed.

Files:

- `wrappers.dfy`: the `Option` type.
- `js_string.dfy`: module `JsString`, the JavaScript string primitives the scripts use.
  - `split` with a one-character separator, `join`, `indexOf` and `includes`.
  - `trim`, with the ECMAScript white-space set.
  - The leading-blank loop of `get`.
  - The split/join round trips.
- `js_number.dfy`: module `JsNumber`.
  - `Date.now().toString()` on integers.
  - `parseInt` with no radix: leading white space, sign, `0x` prefix, the longest digit run, and NaN as `None`.
  - The lemma that `parseInt` reads back what `toString` wrote.
- `cookie_manager.dfy`: module `CookieManager`.
  - The write strings as functions.
  - What `get` returns, as a function.
  - The writes of `deleteAll`, as a function.
  - A `CookieDocument` class whose methods mirror `set`, `get`, `delete` and `deleteAll` statement by statement, loops included. Each method is proved against those functions.
- `cookie_properties.dfy`: module `CookieProperties`.
  - What `get` finds.
  - The round trip of `get` on a well-formed `document.cookie` string.
  - `set` then `get`.
  - The exact attribute lists of the writes.
  - Exactly which deletes `deleteAll` issues.
- `session_lifecycle.dfy`: module `SessionLifecycle`, the handlers of `setupCookieAutoDelete`. They are methods over a `CookieDocument` that the clock and hostname are passed to, plus the properties of the policy.
- `chatwoot_debug.dfy`: module `ChatwootDebug`.
  - A `Monitor` class holding the closure variables of `setupChatwootMonitoring`.
  - A `DebugScript` class holding the retry counter.
  - Pure replays of call sequences, poll sequences and retry chains, with their lemmas.

How the browser is represented:

- A `CookieDocument` has two fields.
  - `cookie` is the string that reading `document.cookie` returns.
  - `written` is the log of every string assigned to `document.cookie`. Each write appends to it.
- The browser's cookie jar, which would turn those writes into a new `cookie` string, is not modelled. `cookie` therefore never changes.
- The clock (`Date.now()`), `location.hostname`, `document.visibilityState`, the presence of `window.chatwootSDK`, the widget element's `style.display` and the outcome of the real `fetch` are parameters.
- `Date.prototype.toUTCString` is a function `utc` that the environment gives.

## Model

| member | source | states |
|---|---|---|
| `CookieManager.CookieDocument.Set` | script.js:270-278 | appends exactly `name=` + (value or "") + an `expires` attribute when `days` is nonzero + `; path=/; SameSite=Strict`, with expiry `now + days*24*60*60*1000` |
| `CookieManager.CookieDocument.Get` | script.js:281-290 | returns exactly what `CookieValue` gives for the current `document.cookie`; the outer loop and the blank-stripping loop are proved against it |
| `CookieManager.CookieDocument.Delete` | script.js:293-295 | appends exactly `name=; expires=Thu, 01 Jan 1970 00:00:01 GMT; path=/; SameSite=Strict` and nothing else |
| `CookieManager.CookieDocument.DeleteAll` | script.js:297-320 | the log grows by exactly `DeleteAllWrites(cookie, host)`: each `;`-segment's deletes, in segment order |
| `CookieManager.CookieDocument.DeleteSegment` | script.js:302-306 | one loop iteration: the name is the trimmed text before the first `=` (or the whole trimmed segment); an empty name writes nothing |
| `CookieManager.CookieDocument.DeleteName` | script.js:306-318 | for a name: two identical root-path deletes, one for `domain=host`, and one for the parent domain iff the host has more than two labels |
| `CookieProperties.FirstMatchAt` | script.js:284-287 | if segment `k` is the first whose blank-stripped form starts with `name=`, then `get` returns the text after `name=` in it, not decoded |
| `CookieProperties.FirstMatchNone` | script.js:284-289 | `get` returns `null` iff no blank-stripped segment starts with `name=` |
| `CookieProperties.NameKeyMatch` | script.js:282-286 | `n=v` starts with `m=` iff `n == m`: a name that is a proper prefix of another never matches it |
| `CookieProperties.JarSegments` | script.js:283-285 | the segments of a `"; "`-joined jar, blank-stripped, are exactly its `name=value` texts |
| `CookieProperties.GetOfJar` | script.js:282-287 | round trip: in a jar of distinct plain names with no `;` in any value, `get(n_k)` returns `v_k` |
| `CookieProperties.GetAbsentFromJar` | script.js:282-289 | in such a jar, a name that is not present reads as `null` |
| `CookieProperties.SetCookieSegments` | script.js:270-278 | a `set` write splits into `name=value`, then ` expires=<utc(now + days*86400000)>` iff `days != 0`, then ` path=/` and ` SameSite=Strict` |
| `CookieProperties.SetThenGet` | script.js:277-287 | reading the `set` write back with `get(name)` gives `value || ""` |
| `CookieProperties.DeleteCookieSegments` | script.js:294 | a `delete` write splits into `name=`, the 1970 expiry, ` path=/` and ` SameSite=Strict` |
| `CookieProperties.DomainDeleteSegments` | script.js:312-317 | a domain-scoped delete splits into `name=`, the 1970 expiry, ` path=/`, ` domain=<d>` and ` SameSite=Strict` |
| `CookieProperties.ParentDomainOfLabels` | script.js:314-316 | a host of dot-free labels is a subdomain iff it has more than two labels, and its parent domain is `.` + the last two labels joined by `.` |
| `CookieProperties.ParentDomainOfHost` | script.js:314-316 | on any host with more than two labels, the parent domain is `.` followed by text that splits on `.` into exactly the host's last two labels |
| `CookieProperties.NameDeletesFacts` | script.js:308-318 | one name gets 3 writes, or 4 on a subdomain, and a write is among them iff it is one of that name's delete variants |
| `CookieProperties.SegmentsWritesCount` | script.js:300-318 | the loop writes `WritesPerName(host)` strings per segment with a nonempty name, and none for the others |
| `CookieProperties.SegmentsWritesSound` | script.js:300-318 | every write deletes some nonempty segment name |
| `CookieProperties.SegmentsWritesComplete` | script.js:300-318 | every delete variant of every nonempty segment name is written |
| `CookieProperties.DeleteAllCoversNames` | script.js:297-320 | `deleteAll` on any `document.cookie` string: the exact count, plus both directions of coverage |
| `CookieProperties.SegmentNameShape` | script.js:303-304 | the name taken from any segment has no `=` and neither starts nor ends with white space; a segment without `=` gives its trim |
| `CookieProperties.SegmentNameBeforeEquals` | script.js:303-304 | for `a=v` with `=`-free `a`, the name taken is `a.trim()` |
| `CookieProperties.SegmentNameOfPair` | script.js:303-304 | the name `deleteAll` extracts from `n=v` (with or without a leading blank) is `n` when `n` is trimmed and has no `=` |
| `CookieProperties.JarSegmentNames` | script.js:298-303 | on a `"; "`-joined jar of such names, the names the loop sees are the jar's names, in order |
| `CookieProperties.DeleteAllOfJar` | script.js:297-320 | round trip: on such a jar `deleteAll` issues each name's deletes in jar order, `|pairs| * WritesPerName(host)` writes in all |
| `JsString.IndexOf` | script.js:287 | `indexOf` returns the first position where the pattern occurs, or -1 iff it occurs nowhere; 0 iff the string starts with the pattern |
| `JsString.Split` | script.js:283 | `split(d)` returns at least one piece, and no piece contains `d` |
| `JsString.SplitBlankJoined` | script.js:283 | splitting a `"; "`-joined list on `;` gives its first piece, then every later piece with one leading blank |
| `JsString.StripLeadingSpaces` | script.js:286 | the blank-stripping loop removes a prefix made only of blanks and leaves a suffix of the segment that does not start with a blank |
| `JsString.TrimStart` | script.js:304 | removes exactly the leading white space |
| `JsString.TrimEnd` | script.js:304 | removes exactly the trailing white space |
| `JsString.TrimInnerSlice` | script.js:304 | `trim()` leaves the slice of the string between its leading and its trailing white space, and that slice neither starts nor ends with white space |
| `JsString.Includes` | chatwoot-debug.js:46 | `url.includes(p)` holds iff `p` occurs at some position of `url` |
| `JsString.JoinEnds` | script.js:316 | `join(sep)` starts with the first part followed by `sep` and ends with the last part |
| `JsString.SplitJoin` | script.js:316 | `split(d)` of a `d`-join of `d`-free parts gives back exactly those parts |
| `JsString.JoinSplit` | script.js:283 | joining the pieces of `split(d)` with `d` gives back the original string, so `split` loses nothing |
| `JsNumber.NatToDecimal` | script.js:354 | decimal text: nonempty, all digits, and no leading zero unless the number is 0 |
| `JsNumber.DigitRun` | script.js:359 | the length of the longest digit prefix that `parseInt` reads |
| `JsNumber.ParseIntOfIntToString` | script.js:354-359 | `parseInt(n.toString()) == n`, so the hidden time reads back as written |
| `JsNumber.DecimalValue` | script.js:354 | the digits of `NatToDecimal(n)` denote `n` in radix 10 |
| `JsNumber.IntToStringValue` | script.js:354 | `n.toString()` is a `-` exactly when `n < 0`, then at least one decimal digit, and those digits denote `|n|` |
| `JsNumber.ParseIntDecimal` | script.js:359 | `parseInt` of white space, an optional sign, decimal digits and then a non-digit is the signed value of those digits (except a lone `0` before `x`/`X`) |
| `JsNumber.ParseIntHex` | script.js:359 | `parseInt` of white space, an optional sign, `0x`/`0X`, hexadecimal digits and then a non-digit is the signed radix-16 value of those digits |
| `JsNumber.ParseIntNoDigits` | script.js:359 | white space and an optional sign followed by no digit give NaN (`None`) |
| `SessionLifecycle.Setup` | script.js:337 | writes exactly the session cookie `mtb_session_active=true`, with no expiry |
| `SessionLifecycle.OnBeforeUnload` | script.js:340-347 | issues every `deleteAll` write and returns the leave-confirmation text |
| `SessionLifecycle.OnVisibilityChange` | script.js:351-368 | writes exactly `VisibilityWrites`: hidden records `now`; visible runs `deleteAll` iff a non-empty stored time parses and is more than 30 minutes old; otherwise nothing |
| `SessionLifecycle.OnFocus` | script.js:371-378 | writes `mtb_session_active=true` iff the flag reads as absent or empty |
| `SessionLifecycle.OnHeartbeat` | script.js:381-385 | writes `mtb_last_activity=now` only while the page is visible; otherwise nothing changes |
| `SessionLifecycle.HiddenRecordsNow` | script.js:352-359 | becoming hidden writes one session cookie whose value `get` returns as `now` in decimal, which `parseInt` reads back as `now` |
| `SessionLifecycle.HiddenTooLongOfJar` | script.js:357-362 | with hidden time `t0` stored in a well-formed jar, the visible-again test holds at `now` iff `now - t0 > 30*60*1000` |
| `SessionLifecycle.HiddenTooLongLater` | script.js:357-362 | once the stored time is more than thirty minutes old, it stays so at every later time |
| `SessionLifecycle.HiddenThenVisible` | script.js:351-366 | hidden at `t0`, then visible at `t1`: every `deleteAll` write iff `t1 - t0 > 1800000` (strict), and no write otherwise |
| `SessionLifecycle.VisibleWithoutHiddenTime` | script.js:355-358 | with no stored hidden time, becoming visible writes nothing |
| `SessionLifecycle.FocusRestoresFlag` | script.js:371-378 | on focus, nothing is written iff the flag is present and non-empty; otherwise exactly the flag is written again |
| `ChatwootDebug.Monitor.Fetch` | chatwoot-debug.js:43-87 | a message send bumps the count by one and sets the last time to `now`; any other call changes neither; flagged iff a message send with `now - last < 2000`; every call is forwarded and its outcome returned unchanged |
| `ChatwootDebug.Observe` | chatwoot-debug.js:46-64 | one call: the record changes iff the call is a message send; the count never decreases; a send adds one and sets the last time to `now` |
| `ChatwootDebug.ReplayCountsSends` | chatwoot-debug.js:46-64 | after any run of calls, the count has grown by exactly the number of message sends, and the last time is the latest send's time (unchanged if there was none) |
| `ChatwootDebug.OtherCallsIgnored` | chatwoot-debug.js:46-86 | a run with no message sends leaves both counters unchanged |
| `ChatwootDebug.FlaggedAfterSend` | chatwoot-debug.js:57-64 | right after a message send, a call is flagged iff it is a message send less than 2000 ms later: the window runs from the previous send, flagged or not |
| `ChatwootDebug.BurstFlagged` | chatwoot-debug.js:57-64 | in a burst whose consecutive gaps are under 2000 ms, every send after the first is flagged, however long the burst lasts |
| `ChatwootDebug.FirstSendFlagged` | chatwoot-debug.js:37-57 | from the initial record, the first message send is flagged iff it happens before time 2000 |
| `ChatwootDebug.PolledState` | chatwoot-debug.js:101-103 | an absent element leaves the state unchanged; otherwise the state is `closed` iff `display` is `none` |
| `ChatwootDebug.Monitor.PollWidget` | chatwoot-debug.js:100-109 | one poll: a change is reported only when the polled state differs from the current one; keeps the invariant that the reports alternate starting from `closed` |
| `ChatwootDebug.ChangesAlternate` | chatwoot-debug.js:99-108 | over any run of polls, the reports alternate, and the final state is the start state iff their number is even |
| `ChatwootDebug.DebugScript.WaitForChatwoot` | chatwoot-debug.js:21-33 | one call: the attempt count goes up by one; finding the SDK runs setup (a fresh monitor); otherwise a retry is due iff attempts < 5 |
| `ChatwootDebug.WaitStep` | chatwoot-debug.js:21-33 | one check: attempts go up by one, setup runs iff the SDK is there, and a retry is due iff the SDK is absent and attempts < 5 |
| `ChatwootDebug.RunFrom` | chatwoot-debug.js:21-33 | starting with a check due after `a < 5` attempts: the number of checks made, whether setup ran, and whether a check is still due |
| `ChatwootDebug.LoaderBounded` | chatwoot-debug.js:18-33 | the SDK is checked at most 5 times; setup runs at most once, and runs iff one of the first five checks finds the SDK |

## Left out

- The browser's cookie jar: how path and domain scoping and expired writes change what `document.cookie` returns. The model records each write, and `cookie` stays as given.
- `Date.prototype.toUTCString` formatting. It is the parameter `utc`.
- `set` with a fractional or non-numeric `days`. `days` is an integer, and "truthy" means nonzero.
- Floating-point arithmetic, everywhere in the model. JavaScript numbers are doubles; here every number is a mathematical integer. This covers `parseInt` and `toString` on non-integers, on values outside the exactly representable range, and on `toString`'s exponent forms (1e21 and above). It also covers `messageSendCount++`, `currentTime - lastMessageTimestamp`, `Date.now() - parseInt(hiddenTime)` and `days * 24*60*60*1000`, which are computed exactly.
- The `localStorage` and `sessionStorage` clearing (script.js:322-328), its `try`/`catch` and the log line. The storage API is foreign and is not part of this model.
- `showNotification` calls (script.js:364, 375) and the other DOM and animation code of `script.js` (navigation, scrolling, observers, counters, ripples). These are screen effects with nothing to state.
- Timers. `setInterval` and `setTimeout` are not modelled. `OnHeartbeat` is one tick of the five-minute interval, `Monitor.PollWidget` one tick of the one-second poll, and `ChatwootDebug.Run` is the chain of retries one second apart.
- `event.returnValue` in `beforeunload`, and whether a browser shows the dialog. `OnBeforeUnload` returns the message only.
- The `fetch` arguments after the URL, the `this` binding, the Promise chain and its logging. `Monitor.Fetch` is given the outcome of the original `fetch` and returns it. A network error is passed through as the re-thrown failure.
- The `chatwoot:ready` and `chatwoot:error` listeners, performance-memory polling (which uses floating point), online/offline listeners and error reporting (chatwoot-debug.js:89-96, 114-159). They only log.
- The `window.chatwootDebug` getters (chatwoot-debug.js:172-173). They refer to `messageSendCount` and `widgetState`, which are local to `setupChatwootMonitoring` and not in scope there, so calling them throws. They are not modelled as returning the counters.
- `forceReload` (chatwoot-debug.js:174-182), a thin wrapper over the third-party SDK.
- Content-based deduplication of messages, suppression of duplicates, synthesized responses and sweeps for duplicate DOM nodes. `chatwoot-debug.js` contains none of these: the flag is advisory and every call is forwarded.
