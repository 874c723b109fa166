# Keka attendance extension: summary and token search, modelled in Dafny

This project models the two pieces of logic in the Keka attendance browser
extension.

The first is the attendance summary that `background.js` computes when the
popup asks for it (the `FETCH_ATTENDANCE` message). From the attendance
payload the handler:

- picks the last day record, failing with "No attendance data returned by
  Keka API." when there is none;
- takes a time-ascending, stable copy of that day's punches;
- drops repeated punches, keyed on the raw timestamp text and the status
  code, keeping the first of each;
- walks the sorted punches as an IN/OUT state machine to total the worked
  milliseconds, extending a session still open to the current time;
- clamps the time remaining against an 8-hour target at zero;
- projects an out time from the last IN;
- reports the raw timestamp of the last OUT and renders the total as
  `hh:mm:ss`.

The second is the access-token search of `content_extract_token.js`. It
scans localStorage and then sessionStorage for the first entry that yields a
JWT-looking token, and reports where the token came from.

Modules:

| file | module | what it holds |
|---|---|---|
| `wrappers.dfy` | `Wrappers` | `Option` and `Result` |
| `text.dfy` | `Text` | `startsWith`, `includes`, ASCII `toLowerCase`, `Number.prototype.toString`, `padStart`, plus a splitter and a decimal reader used to state round trips |
| `duration.dfy` | `Duration` | `msToDuration` and `pad`, with JavaScript's `Math.floor` and truncating `%` written out |
| `punches.dfy` | `Punches` | the punch record and the stable sort by instant |
| `dedup.dfy` | `Dedup` | the `seen`-set loop that builds `entriesFormatted` |
| `work_scan.dfy` | `WorkScan` | the loop over `inTime`, `lastInTime` and `totalWorkedMs` |
| `attendance.dfy` | `Attendance` | day selection, open-session extension, remaining time, projected out time, last OUT, and the whole handler |
| `token.dfy` | `TokenExtract` | the two storage loops and the selection rule they implement |

Timestamps appear twice in a punch:

- as the raw `actualTimestamp` text, which the de-duplication key and
  `lastOut` use;
- as the integer millisecond instant it parses to, which the sort and the
  arithmetic use.

The first-occurrence functions of `Dedup` take the key function as a
parameter, so their lemmas hold for any key. The handler's key is `KeyOf`,
the template literal `${actualTimestamp}-${punchStatus}`.

The current time is a parameter `now`. The loops are `for` loops in methods
(`DedupEntries`, `WorkedTime`, `TotalAndExpectedOut`, `ExtractToken`), each
proved equal to a function, and the lemmas are stated about those functions.

Three behaviours of the code are easy to mistake for a stricter variant,
and this model follows the code:

- the de-duplication key is the exact timestamp text, not the timestamp
  truncated to the minute;
- an open session is extended to `now` whatever day it started on;
- the projected out time is taken from the last IN, not from `now`, and is
  produced whenever there was an IN and time remains, not only while a
  session is open.

## Model

| member | source | states |
|---|---|---|
| Attendance.SummaryOfLatestDay | background.js:101-129 | An empty day list gives the failure "No attendance data returned by Keka API.". Otherwise the summary is of the last day record. Its entries are the formatted first occurrences of that day's time-ordered punches: kept in time order, with pairwise distinct `ts-status` keys, no more than the day's punches, and covering every punch's key. |
| Attendance.DayEntries | background.js:110-129 | The formatted first occurrences of a day's time-ordered punches are in time order, have pairwise distinct `ts-status` keys, are no more than the punches, and cover every punch's key. |
| Attendance.DedupCoverage | background.js:116-129 | De-duplication keeps at most as many punches as it is given, and every given punch's key is the key of a kept punch. |
| Attendance.FetchAttendanceSummary | background.js:101-181 | The handler body (day check, sort, de-duplication loop, scan loop, in-place updates, last OUT) produces exactly the summary `SummaryOf`, whose properties the other lemmas state. |
| Attendance.TotalAndExpectedOut | background.js:132-165 | The scan loop plus the open-session extension and the remaining-time clamp give the worked total `WorkedMs` and the projection `ExpectedOut` of the sorted punches. |
| Attendance.RemainingMs | background.js:155-160 | The remaining time is never negative. It is zero exactly when the total reaches 8 h (28,800,000 ms). When positive, total plus remaining is exactly 8 h. For a non-negative total it is at most 8 h. |
| Attendance.WorkedMsClosed | background.js:148-152 | With no IN open after the scan, the worked total is the closed-pair sum alone. |
| Attendance.WorkedMsOpen | background.js:148-152 | With an IN open after the scan, the total is the closed-pair sum plus `now` minus that IN's instant. There is no day condition. |
| Attendance.WorkedMsNonNegative | background.js:132-152 | For time-ordered punches none of which lies after `now`, the worked total is not negative. |
| Attendance.ExpectedOutCharacterization | background.js:161-165 | The projection exists iff some IN was punched and the total is below 8 h. It then equals the last IN's instant plus the remaining time. |
| Attendance.OutPunches | background.js:168 | The filtered list holds exactly the status-1 punches. |
| Attendance.LastOutAbsent | background.js:168-171 | `lastOut` is null iff there is no status-1 punch. |
| Attendance.LastOutValue | background.js:168-171 | When a status-1 punch exists, `lastOut` is the raw timestamp of the last one in sorted order. |
| Attendance.CompletedDayExample | background.js:132-171 | IN 09:00, OUT 13:00, IN 13:30, OUT 17:45 gives 8h15m worked, no projection, and 17:45 as last OUT. |
| Attendance.StaleOpenSessionExample | background.js:148-152 | An IN open since 09:00 the day before, asked at 09:00, counts 24 hours and leaves no projection. |
| Attendance.ExpectedOutFallsShort | background.js:161-165 | As written, while a session is open, staying in until the projected instant totals only 8 h minus the time already spent in that session. |
| Attendance.ExpectedOutFallsShortExample | background.js:161-165 | IN at 09:00 and asked at 09:30 projects 16:30, and working until 16:30 gives 7.5 h. |
| Attendance.IntendedExpectedOut | background.js:161-165 | The corrected projection (`now` plus the remaining time while a session is open) exists exactly when the as-written one does. |
| Attendance.IntendedExpectedOutReachesTarget | background.js:161-165 | With the corrected projection, staying in until the projected instant totals exactly 8 h. |
| Attendance.IntendedExpectedOutExample | background.js:161-165 | IN at 09:00 and asked at 09:30, the corrected projection is 17:00, and working until then gives exactly 8 h. |
| Punches.InsertByInstant | background.js:110-114 | Inserting one punch into a time-ordered list keeps it ordered, adds exactly that punch to the multiset and nothing else. |
| Punches.InsertKeepsInstantOrder | background.js:110-114 | Insertion puts the new punch first among those at its instant and leaves other instants' punches unchanged. |
| Punches.SortByInstant | background.js:110-114 | The sorted copy is non-decreasing by instant, is a permutation of the day's punches, and at every instant keeps the punches in arrival order (stability). |
| Punches.StableOrderIsUnique | background.js:110-114 | Two time-ordered lists that agree on the order of punches at every instant are equal. |
| Punches.AnyStableSortAgrees | background.js:110-114 | Any stable time-ascending sort of the punches gives exactly `SortByInstant`, so the engine's sort algorithm does not matter. |
| Dedup.FirstOccurrences | background.js:116-129 | The kept punches have pairwise distinct keys, cover exactly the keys of the input, and are all drawn from the input. |
| Dedup.FirstOccurrencesSnoc | background.js:120-128 | One more punch is kept exactly when its key has not been seen before, and is then appended. |
| Dedup.FirstOccurrencesSorted | background.js:116-129 | De-duplicating a time-ordered list keeps it time-ordered. |
| Dedup.KeptPositions | background.js:116-129 | The kept punches sit at strictly increasing positions of the input (a subsequence), and each is the first occurrence of its key. |
| Dedup.KeptPositionsCover | background.js:116-129 | Every first occurrence of a key in the input is kept. |
| Dedup.KeptOncePerKey | background.js:116-129 | For every input punch, exactly one kept punch has its key, and that kept punch is the key's first occurrence. |
| Dedup.KeysOfMembers | background.js:116-129 | The set of seen keys holds the key of every punch walked over, and nothing else. |
| Dedup.Formatted | background.js:124-127 | Each pushed entry is `{ts: actualTimestamp, punchStatus}` of its punch, in order. |
| Dedup.DedupEntries | background.js:116-129 | The loop over the `seen` set builds the formatted first occurrences, and no two of its entries share a `ts-status` key. |
| Dedup.FormattedKeysDistinct | background.js:121-127 | Punches with pairwise distinct keys format to entries whose `ts-status` keys are pairwise distinct. |
| Dedup.KeyInjective | background.js:121 | For non-negative status codes, two punches share the template-literal key iff they share the timestamp text and the status. |
| Dedup.KeyCollisionWithNegativeStatus | background.js:121 | With a negative status the key is ambiguous: (`A`, -1) and (`A-`, 1) give the same key. |
| Dedup.KeptOncePerPair | background.js:116-129 | For non-negative statuses, the kept punches have pairwise distinct (timestamp text, status) pairs, and every input pair appears among them. |
| WorkScan.WorkedTime | background.js:132-146 | The loop leaves `inTime`, `lastInTime` and `totalWorkedMs` equal to the fold `Scan` of the sorted punches. |
| WorkScan.ScanMatchesPairs | background.js:132-146 | The scan total is the sum over every OUT that meets an open IN of (OUT instant − that IN's instant). An OUT with no open IN and any other status adds nothing. `inTime` is set iff an IN is still open, and holds its instant. |
| WorkScan.OpenAtNext | background.js:136-145 | An IN opens a session, an OUT closes it, and any other status code leaves the open IN as it was. |
| WorkScan.OpenAtUnique | background.js:136-145 | At most one IN is open at a time. |
| WorkScan.LastInMatches | background.js:136-140 | `lastInTime` is set iff some IN was seen, and then holds the last IN's instant. |
| WorkScan.OpenInIsLastInTime | background.js:136-145 | While `inTime` is set, `lastInTime` holds the same instant. |
| WorkScan.ClosedPairSumNonNegative | background.js:132-146 | On time-ordered punches the closed-pair sum is not negative. |
| WorkScan.ScanTotalNonNegative | background.js:132-146 | On time-ordered punches the scan total is not negative. |
| WorkScan.OpenInIsLatestStart | background.js:132-146 | On time-ordered punches, an IN still open after the scan is an IN of the list, and no OUT lies after it. |
| WorkScan.ScanSnoc | background.js:133-146 | Each further punch advances the scan by exactly one loop iteration. |
| Duration.FloorDiv | background.js:192-194 | `Math.floor(a / d)` is the q with q·d ≤ a < q·d + d. |
| Duration.JsRemainder | background.js:194-195 | JavaScript's `%` has the sign of the dividend, magnitude below the divisor, and agrees with the mathematical remainder for a non-negative dividend. |
| Duration.Pad | background.js:198-200 | A padded field is at least two characters. |
| Duration.PadDigits | background.js:198-200 | Padding a non-negative number gives digits denoting that number, exactly two of them below 100. |
| Duration.ClockArithmetic | background.js:191-197 | For ms ≥ 0: 0 ≤ mm < 60, 0 ≤ ss < 60, and hh·3600 + mm·60 + ss = ⌊ms/1000⌋. |
| Duration.ClockTextFields | background.js:196-199 | For non-negative fields with minutes and seconds below 60, the text is three colon-separated digit fields denoting them, the last two exactly two wide. |
| Duration.ClockFields | background.js:191-197 | For ms ≥ 0 the text is three colon-separated digit fields. Each is at least two wide, minutes and seconds exactly two and below 60, and together they recombine to ⌊ms/1000⌋. |
| Duration.DurationRoundTrip | background.js:191-197 | Reading the `hh:mm:ss` text back gives ⌊ms/1000⌋ seconds. |
| Duration.SplitClock | background.js:196 | The colon-separated pieces of the template literal are exactly the three padded fields. |
| Text.NatToDecimal | background.js:199 | `toString` of a non-negative integer is a non-empty string of digits, one digit exactly for values below 10. |
| Text.IntToString | background.js:121 | `toString` of an integer is its digits, preceded by '-' when negative. |
| Text.DecimalRoundTrip | background.js:199 | The decimal rendering reads back as the same number. |
| Text.NatToDecimalInjective | background.js:121 | Distinct non-negative numbers render differently. |
| Text.PadStart | background.js:199 | `padStart` reaches the requested width, ends with the original text, and fills the front with the pad character. |
| Text.Lower | content_extract_token.js:10 | `toLowerCase` keeps the length and maps each character, ASCII letters to lower case. |
| TokenExtract.ParsedToken | content_extract_token.js:33-48 | A value yields a parsed token iff its `accessToken` string starts with "eyJ", and the token is that string. |
| TokenExtract.LocalCandidate | content_extract_token.js:5-48 | A localStorage entry with an empty value or an `id_token` key yields nothing. Otherwise it yields a token starting with "eyJ". A raw value is accepted only under a key containing "access", and is preferred there. Any other token is the parsed `accessToken`. |
| TokenExtract.SessionCandidate | content_extract_token.js:57-75 | A sessionStorage entry yields only a parsed `accessToken` starting with "eyJ", and never from an empty value or an `id_token` key. |
| TokenExtract.FirstMatch | content_extract_token.js:4-49 | The search stops at the first accepted entry in iteration order, all earlier entries being rejected. It finds nothing iff every entry is rejected. |
| TokenExtract.FirstMatchIsFirstAccepted | content_extract_token.js:3-83 | The first accepted entry is the one the search reports. |
| TokenExtract.SelectToken | content_extract_token.js:3-83 | A found token starts with "eyJ". It comes from an entry with a non-empty value and no `id_token` key. It is the raw value only under a localStorage key containing "access", and otherwise the parsed `accessToken`. Its source is "localStorage:" or "sessionStorage:" followed by that entry's key. |
| TokenExtract.SearchOrder | content_extract_token.js:3-83 | The first qualifying localStorage entry wins. sessionStorage is used only when no localStorage entry qualifies, and then its first qualifying entry wins. Nothing is found (`{token: null, source: null}`) iff no entry of either storage qualifies. |
| TokenExtract.ExtractToken | content_extract_token.js:3-83 | The two index loops with their `continue` skips and early returns compute exactly `SelectToken`. |

## Left out

- popup.js is not part of this model. It covers DOM wiring, theme and settings, reminders and locale formatting.
- Browser and network plumbing in background.js is left out: the tab query, script injection, the in-page `fetch`, the HTTP status check, `sendResponse` and logging. The model starts from the already-decoded list of day records.
- The ambient clock `new Date()` is left out. It is the parameter `now`.
- Date parsing is left out. Every `actualTimestamp` is assumed to parse to a valid instant, which the punch carries as integer milliseconds.
- Attendance.ExpectedOut: `toISOString()` is not modelled. The projection is the instant itself, and the RangeError that an invalid date would raise in the outer `catch` cannot occur.
- `JSON.parse` is left out. It is the parameter `accessTokenOf`, which gives the `accessToken` string of a value that parses to an object holding one. A parse error or a missing or non-string field becomes "no token", as the empty `catch` blocks make it.
- Text.Lower: `toLowerCase` is modelled for ASCII letters only. Non-ASCII case mapping is not captured.
- Storage access errors are left out. The outer `try`/`catch` around each storage scan (for example, storage being unavailable) is not modelled. Each storage is a plain list of (key, value) pairs.
- Duration.MsToDuration: the properties are proved for ms ≥ 0 only. The function itself follows JavaScript's floor and truncating remainder for every integer.
- Console output is left out.

## Findings

| source | as written | input that shows it | evidently intended | confidence | as-written member | corrected member |
|---|---|---|---|---|---|---|
| background.js:161-165 | The projected out time is `lastInTime + remainingMs`. While a session is open, `remainingMs` already subtracts the time since that IN, so that time is counted twice and the projection is early by (now − last IN). | A single IN at 09:00 with `now` at 09:30 projects 16:30. Working until then totals 7.5 h. | The instant at which staying in reaches 8 h: `now + remainingMs` while a session is open (17:00 here). | high; not executed | Attendance.ExpectedOutFallsShortExample | Attendance.IntendedExpectedOutReachesTarget |

The handler model `FetchAttendanceSummary` keeps the as-written projection,
because that is what the extension reports. `IntendedExpectedOut` is the
corrected definition, and `IntendedExpectedOutReachesTarget` proves that it
meets the target.
