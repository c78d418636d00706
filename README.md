# QR access control: a Dafny model of its event handlers

The system is an event check-in screen. An operator registers attendees, and
each attendee gets a textual access code. When a code is presented, the screen
decides whether to let the person in and writes the decision to an access log.
This project models the logic behind that screen as Dafny:

- the user directory `users`;
- the access log `accessLog`, most recent entry first and at most 100 entries
  after each decision;
- the two input fields and the scan result on screen;
- the two storage keys `qr-users` and `qr-access-log`.

State and handlers are in the class `App.AccessControl`:

- the constructor is the mount/load effect;
- `AddUser`, `ToggleUserStatus` and `ProcessQRCode` are the three handlers;
- `SetNewUserName` and `SetNewUserEmail` are the two input `onChange`s.

Each handler's new state is tied to pure functions. The properties are proved
about those functions:

| module | file | what it holds |
|---|---|---|
| `Directory` | `directory.dfy` | `FindActive` (the `users.find` lookup), `ToggleStatus` (the `users.map`), `NewUser` (the user `addUser` builds) |
| `AccessLog` | `access_log.dfy` | `Record` (the bounded prepend), `GrantedCount` (the "granted" statistic) |
| `Decision` | `decision.dfy` | `Evaluate` (the log entry `processQRCode` builds), `ScanOf` (the result it shows) |
| `AccessCode` | `access_code.dfy` | the code string of a new user |
| `JsString` | `js_string.dfy` | `trim`, `Number#toString`, `slice(0, k)`, and `slice(-k)` for `k >= 1` |
| `Base64` | `base64.dfy` | `btoa`: Latin-1 bytes encoded with the alphabet of section 4 of RFC 4648, plus a strict decoder that is its inverse in both directions |
| `QrGrid` | `qr_grid.dfy` | the integer part of `generateQRCode`: the finder-pattern predicate and the nested row/column loop that collects dark modules |
| `Arith` | `arith.dfy` | division facts used by the encoders |
| `Wrappers` | `wrappers.dfy` | `Option` and `Result` |

Some behaviour comes from JavaScript and is modelled exactly as the code
behaves:

- `newUserEmail || newUserName` picks the name only when the email is the
  empty string. The email is not trimmed first.
- `btoa` throws on a character above U+00FF. That happens before any state
  changes, so `AddUser` then changes nothing and reports `InvalidCharacter`.
- `user?.id || null` and `user?.name || 'Desconocido'` replace an empty id or
  name. A grant is therefore proved to carry the user's own id and name only in
  a `WellFormed` directory, where every id and name is non-empty.
- `WellFormed` holds for the demo users. `AddUser` and `ToggleUserStatus`
  preserve it.

Three further facts about the code shape the model:

- The log keeps at most 100 entries.
- The unknown-user name is `Desconocido`.
- Nothing makes ids or codes unique. Both come from the clock and nothing
  checks for collisions, so the model claims no uniqueness.

## Model

| member | source | states |
|---|---|---|
| `Directory.FindActive` | src/App.js:165 | the user found has exactly the presented code and is active; no earlier user in list order matches; none is found exactly when no user is both active and carrying the code |
| `Decision.Evaluate` | src/App.js:164-175 | the entry's id is the clock's digits, its `qrCode` is the presented string unchanged, its timestamp is the clock; it is a grant exactly when some active user has that code; a denial has `userId == null` and name `Desconocido` |
| `Decision.EvaluateGranted` | src/App.js:165-174 | in a well-formed directory a grant carries the id and name of the first active user in list order with the presented code |
| `Decision.InactiveNeverGranted` | src/App.js:165 | a code that only inactive users carry, or that no user carries, is denied with the unknown-user entry, even when an inactive user's code is equal |
| `Decision.ScanOf` | src/App.js:181-185 | the on-screen result is a success exactly when the decision is a grant; it names a user exactly then, and the name is that of the first active user in list order with the presented code; it carries the clock |
| `Decision.ActiveUsers` | src/App.js:339 | `filter(u => u.active)` keeps users of the directory that are active, and keeps every active user |
| `Decision.ActiveUsersOne` | src/App.js:339 | the filter keeps a single user exactly when that user is active |
| `Decision.ActiveUsersConcat` | src/App.js:339 | the filter of a joined directory is the filter of each part, joined in the same order; with `ActiveUsersOne` this fixes the result as the active users in list order |
| `Decision.ScanButtons` | src/App.js:339 | the simulated-scan users are the first `min(4, number of active users)` active users, in list order, each active and in the directory |
| `Decision.ScanButtonGranted` | src/App.js:339-342 | pressing a simulated-scan button is always granted |
| `Decision.Scenario` | src/App.js:164-175 | with one active and one inactive attendee: the active one's code is granted under their name; the inactive one's code is denied; an unknown code is logged as `Desconocido` |
| `AccessLog.Record` | src/App.js:177 | the new log has length `min(old length + 1, 100)`, never more than 100; its head is the new entry; the rest is the old log's prefix in the same order |
| `AccessLog.RecordAllRetains` | src/App.js:177 | after any non-empty run of decisions the log is the new entries, newest first, followed by the old log, cut to `min(total, 100)` |
| `AccessLog.RecordAllBounded` | src/App.js:177 | after 100 or more decisions the log holds exactly the newest 100 of them, most recent first |
| `AccessLog.GrantedCount` | src/App.js:248 | the granted count never exceeds the log length |
| `AccessLog.GrantedCountConcat` | src/App.js:248 | the granted count of two logs joined is the sum of their counts |
| `AccessLog.GrantedCountExtremes` | src/App.js:248 | the count equals the log length exactly when every entry is a grant, and is zero exactly when every entry is a denial |
| `AccessLog.RecordGrantedCount` | src/App.js:177-178 | one decision adds one to the count when it is a grant, and drops the grants among the entries pushed past 100 |
| `Directory.Matches` | src/App.js:165 | the `find` predicate `u.qrCode === code && u.active`; `FindActive` states what searching with it gives |
| `Directory.Toggle` | src/App.js:124 | the `map` callback; `ToggleStatusAt` states its effect at every position |
| `Directory.ToggleStatus` | src/App.js:123-125 | the toggled directory has the same length as before |
| `Directory.ToggleStatusAt` | src/App.js:123-125 | position by position, `active` flips on exactly the users with the given id; every other field and every other user is unchanged |
| `Directory.ToggleStatusTwice` | src/App.js:123-125 | toggling the same id twice restores the original directory |
| `Directory.ToggleStatusAbsent` | src/App.js:123-125 | an id that no user has leaves the directory unchanged |
| `Directory.ToggleStatusWellFormed` | src/App.js:123-125 | toggling keeps every id and name non-empty |
| `Directory.NewUser` | src/App.js:96-110 | a name that is empty or only whitespace is rejected with `EmptyName`, and only such a name is; a new user has the trimmed name, the trimmed email, is active and is created at the clock reading |
| `Directory.NewUserInvalidCharacter` | src/App.js:101 | the only other rejection is a name that is not blank while the field `btoa` encodes holds a character above U+00FF |
| `Directory.NewUserIdentity` | src/App.js:101-107 | a new user's id reads back as the clock, and its code is the code string built from the untrimmed fields |
| `Directory.NewUserWellFormed` | src/App.js:103-112 | appending a new user keeps every id and name non-empty |
| `AccessCode.CodeSource` | src/App.js:101 | the falsy fallback of the encoded field: the email unless it is empty, else the name; its role in the code is stated by `MakeCodeDefined` and `MakeCodeParts` |
| `AccessCode.ClockSegment` | src/App.js:101 | `Date.now().toString().slice(-6)`; its digits and value are stated by `ClockSegmentValue` |
| `AccessCode.MakeCode` | src/App.js:101 | the code template `ACC-${…}-${…}`, or nothing when `btoa` throws; its properties are stated by `MakeCodeDefined`, `MakeCodePrefix`, `MakeCodeSplit` and `MakeCodeParts` |
| `Base64.Btoa` | src/App.js:101 | `btoa`: the Latin-1 bytes of the string encoded by `Encode`, or nothing on a character above U+00FF; stated by `Latin1`, `Encode`, `DecodeEncode` and `EncodeDecode` |
| `AccessCode.MakeCodeDefined` | src/App.js:101 | a code is built exactly when every character of `email || name` is at most U+00FF |
| `AccessCode.MakeCodePrefix` | src/App.js:101 | every built code is longer than `ACC-` and starts with it |
| `AccessCode.ClockSegmentValue` | src/App.js:101 | the clock segment has one to six digits and denotes the clock modulo one million |
| `AccessCode.SplitBuilt` | src/App.js:101 | since the digit segment holds no `-`, the first `-` after the prefix separates clock segment and fragment |
| `AccessCode.MakeCodeSplit` | src/App.js:101 | a built code splits back into its clock segment and its `btoa` fragment |
| `AccessCode.FragmentDecodes` | src/App.js:101 | the first eight characters of an encoding decode to the first `min(6, n)` bytes |
| `AccessCode.FragmentOfSource` | src/App.js:101 | the fragment has `min(8, 4*ceil(n/3))` characters and decodes to the Latin-1 codes of the first `min(6, n)` characters of the encoded field |
| `AccessCode.MakeCodeParts` | src/App.js:101 | a built code splits into a 1-6 digit segment worth the clock modulo one million, and a fragment of `min(8, 4*ceil(n/3))` characters that decodes to the first `min(6, n)` characters of the untrimmed email, or of the name when the email is empty |
| `Base64.Encode` | src/App.js:101 | an encoding of `n` bytes has `4*ceil(n/3)` characters |
| `Base64.DecodeEncode` | src/App.js:101 | decoding an encoding gives back the bytes |
| `Base64.EncodeDecode` | src/App.js:101 | every string the strict decoder accepts is the encoding of what it decodes to |
| `Base64.EncodePrefix` | src/App.js:101 | the first `4k` characters of an encoding depend only on the first `3k` bytes |
| `Base64.EncodeChars` | src/App.js:101 | an encoding uses only the alphabet and `=` |
| `Base64.Latin1` | src/App.js:101 | a string converts exactly when all its characters are at most U+00FF; each byte is its character's code |
| `Base64.ValueOf` | src/App.js:101 | an alphabet character's 6-bit value maps back to that same character |
| `JsString.Trim` | src/App.js:96 | the trimmed string is a contiguous piece of the input; everything around it is whitespace or a line terminator; it is empty exactly when the input is all such characters; otherwise it neither starts nor ends with one |
| `JsString.TrimIdempotent` | src/App.js:105 | trimming a trimmed string changes nothing |
| `JsString.LeadingSpace` | src/App.js:96 | the counted prefix is all trimmable, and the character after it is not |
| `JsString.TrailingSpace` | src/App.js:96 | the counted suffix is all trimmable, and the character before it is not |
| `JsString.NatToString` | src/App.js:104 | `toString` of a non-negative integer is a non-empty run of decimal digits with no leading zero |
| `JsString.NatToStringValue` | src/App.js:104 | the digits read back as the number |
| `JsString.SliceLastValue` | src/App.js:101 | the last `k` digits of the number's string denote the number modulo `10^k` |
| `JsString.SliceLast` | src/App.js:101 | for `k >= 1`, `slice(-k)` keeps the last `min(k, n)` characters |
| `JsString.SliceFirst` | src/App.js:101 | `slice(0, k)` keeps the first `min(k, n)` characters |
| `QrGrid.InFinder` | src/App.js:64-67 | `isFinderPattern`; `InFinderSquares` states it is the three corner squares |
| `QrGrid.Local` | src/App.js:71-72 | `fx` and `fy`; used by `FinderDark` |
| `QrGrid.FinderDark` | src/App.js:73-74 | the dark cells of a finder square; `FinderDarkPattern` states it is the ring and the centre |
| `QrGrid.IsDark` | src/App.js:69-77 | the finder picture inside the corner squares and the fill elsewhere; `DarkModules` collects exactly the cells where it holds |
| `QrGrid.InFinderSquares` | src/App.js:64-67 | inside the grid, `isFinderPattern` holds exactly in the three 7×7 squares centred at (3,3), (25,3) and (3,25) |
| `QrGrid.FinderDarkPattern` | src/App.js:64-74 | a finder cell is dark exactly where one of three reference patterns is dark: at Chebyshev distance 3 (border) or at most 1 (centre 3×3) from its square's centre |
| `QrGrid.DarkModules` | src/App.js:61-83 | the nested loops collect every dark cell of the 29×29 grid and nothing else, each once, in row-major order |
| `App.DemoUsers` | src/App.js:23-40 | the seeded directory has two users, both active, with non-empty ids and names |
| `App.FragmentOfSix` | src/App.js:28 | for a Latin-1 string of six or more characters, the `btoa` fragment is the encoding of its first six characters |
| `App.JuanCode` | src/App.js:28 | the first demo code is `'ACC-001-' + btoa(email).slice(0, 8)` of its email |
| `App.MariaCode` | src/App.js:36 | the second demo code is `'ACC-002-' + btoa(email).slice(0, 8)` of its email |
| `App.DemoCodes` | src/App.js:28-36 | both written-out demo codes are the ones the source computes from the demo emails |
| `App.AccessControl.constructor` | src/App.js:16-48 | the saved directory, or else the demo users, which are then stored; the saved log, or else an empty one that is not stored; empty fields and no scan result |
| `App.AccessControl.SetNewUserName` | src/App.js:390 | only the name field changes |
| `App.AccessControl.SetNewUserEmail` | src/App.js:398 | only the email field changes |
| `App.AccessControl.AddUser` | src/App.js:95-120 | the outcome is `NewUser` of the two fields; on success exactly one user is appended and stored, and both fields are cleared; on either rejection the directory and the fields are unchanged; the log is never touched |
| `App.AccessControl.AppendUser` | src/App.js:112-118 | the success path of `addUser`: the directory grows by exactly the new user, it is stored, both fields are cleared, and the log, the scan result and the stored log are untouched |
| `App.AccessControl.ToggleUserStatus` | src/App.js:122-128 | the directory becomes `ToggleStatus` of the old directory and is stored; nothing else changes |
| `App.AccessControl.ProcessQRCode` | src/App.js:164-185 | the log becomes `Record` of the old log and the decision, and is stored; the scan result is shown; the users and the fields are unchanged |
| `App.AccessControl.GrantedStat` | src/App.js:248 | the "Permitidos" figure never exceeds the log length |

## Left out

- Camera handling (`startCamera`, `stopCamera`, the unmount effect): asynchronous browser media I/O.
- JSON encoding and decoding of the two storage keys. Storage is modelled as two fields, each holding the whole collection and written after every change.
- The constructor takes the saved collections as already parsed. A saved directory is taken as it is, with no check, so `WellFormed` is a hypothesis and not an invariant.
- `exportData`: Blob, object URL and download anchor.
- The pseudo-random fill of `generateQRCode` (`Math.sin` floating point, and the seed summed from character codes). It is the parameter `fill`, read at index `x * qrSize + y` as in the source.
- The SVG output and the scaling of cells by `200 / 29` pixels (floating point). Cells are grid coordinates.
- The "Hoy" count and all `toLocaleDateString`/`toLocaleTimeString`/`toISOString` formatting, which depend on time zone and locale. Timestamps are the clock reading as a number.
- `alert`, `navigator.vibrate`, and the `setTimeout` that clears the scan result: presentation side effects. `AddUser`'s outcome stands for what the alert reports or for the thrown error.
- JSX rendering, tab switching and the `scanning` flag.
- `AddUser` and `ProcessQRCode` read the clock once. The source reads `Date.now()`/`new Date()` two or three times per handler, and those readings can differ by a millisecond.
- `DemoUsers`, used by the constructor, gives both seeded users one clock reading as `createdAt`. The source calls `new Date()` once per user, and the two readings can differ.
- `JsString.SliceLast`: at `k = 0` it returns the empty string, while `slice(-0)` returns the whole string. The source only uses `k = 6`.
- `NatToString` does not model the exponential notation `Number#toString` switches to at 10^21, or negative clock values. `Date.now()` is a non-negative integer far below that bound.
- JavaScript strings are UTF-16 code units, and Dafny's `char` is a Unicode scalar value. `btoa` fails on any character above U+00FF either way, so its model is unaffected, and no other modelled operation depends on string length.
- `Directory.NewUser`: does not state that the new code or id differs from existing ones, because the source does not ensure it.
