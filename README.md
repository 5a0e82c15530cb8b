# OTP store of the e-mail verification API

The server keeps, in memory, one pending verification challenge per e-mail
address: the six-digit code it mailed, the instant the code expires, a purpose
tag and the number of failed attempts. Three request handlers act on that map
(generate, verify, status) and a timer sweeps expired entries once a minute.
This project models the map and the four operations and proves the rules that
govern a challenge's life: created (or replaced) by a successful generation,
bumped by a wrong code, removed by a match, by expiry or by the third wrong
code, and reclaimed by the sweep.

Layout:

- `email.dfy` (module `Email`): the e-mail check `^[^\s@]+@[^\s@]+\.[^\s@]+$`.
  `IsValidEmail` computes it by splitting at the first "@". Its contract says it
  accepts exactly what the pattern read literally (`MatchesPattern`) accepts. A
  lemma proves it equal to the pattern's language described in words
  (`IsPlainAddress`).
- `decimal.dfy` (module `Decimal`): `Number#toString()` for the drawn code,
  with its inverse, injectivity and the six-digit length.
- `otp_store.dfy` (module `OtpStore`): the records, the outcomes, and each
  operation as a function from the old map to the outcome and the new map.
  This is the specification.
- `otp_service.dfy` (module `OtpService`): class `OtpServer` holding the map
  as a field. Its methods change the map in place as the handlers do. The
  sweep is a loop over the entries that deletes and counts. Each method is
  proved to produce exactly the specification's result, and to keep the store
  invariant `WellFormed`.
- `properties.dfy` (module `OtpProperties`): lemmas over several operations,
  and the invariant for every store reachable by any sequence of requests.

External inputs are parameters:

- `now` stands for `Date.now()`.
- `draw` is the value of `crypto.randomInt(100000, 999999)`, with
  `requires 100000 <= draw < 999999`.
- `sent` says whether `sendMail` resolved.

Request fields are `Option<string>`. `None` is an absent field. A field counts
as missing, as JavaScript's `!field` decides, when it is `None` or `""`.

Points where the model follows the code:

- The map's key is the raw e-mail string. There is no normalisation.
- The upper bound of `crypto.randomInt` is exclusive, so codes lie in
  [100000, 999998].
- Expiry is strict (`now > expiresAt`) in both verify and the sweep. A
  challenge is still live at `now == expiresAt`.
- Status does not purge an expired record. It reports it with zero or
  negative minutes.
- `Math.round((expiresAt - now) / 1000 / 60)` is modelled on integer
  milliseconds as `(ms + 30000) / 60000` (floor division). That value is the
  nearest whole minute with halves rounded up. The two floating-point
  divisions give the same rounded result. A tie (a difference of k·60000 +
  30000 ms) divides exactly. Any other difference lies at least 1/60000 minute
  from a half, and the divisions' rounding error stays far below that while
  `|expiresAt - now|` is far below 2^53 ms, as it is for any real clock.

## Model

| member | source | states |
|---|---|---|
| Email.IsValidEmail | server.js:39-40 | `emailRegex.test(email)`: accepts a string exactly when the pattern `^[^\s@]+@[^\s@]+\.[^\s@]+$` matches it as a whole (both directions), read literally as A "@" B "." C with non-empty runs of `[^\s@]` |
| Email.FirstAtSplitIffPattern | server.js:39-40 | splitting at the first "@" into a `[^\s@]+` local part and a domain with an interior "." succeeds exactly when the pattern matches |
| Email.ValidEmailIffPlainAddress | server.js:39-40 | the check accepts exactly the strings with no whitespace, exactly one "@", a non-empty local part, and a "." in the domain that is neither its first nor its last character |
| Email.FirstIndexOf | server.js:39 | returns the position of the first "@" (no earlier one exists), or the length when there is none |
| Decimal.ToDecimal | server.js:48 | the rendering of a number is a non-empty string of decimal digits with a leading "0" only for zero |
| Decimal.FromToDecimal | server.js:48 | reading the rendering back gives the number |
| Decimal.ToDecimalInjective | server.js:48 | two draws render to the same code string exactly when they are equal |
| Decimal.DecimalLength | server.js:48 | a number in [10^k, 10^(k+1)) renders as k + 1 digits |
| Decimal.SixDigits | server.js:47-48 | every value in [100000, 999999] renders as six digits without a leading zero |
| OtpStore.Generate | server.js:29-57 | missing e-mail gives InvalidInput, a failed pattern gives InvalidFormat, both leave the store as it was; otherwise the store gains (or replaces) exactly the key `email` with attempts 0, expiry now + 600000, the given or default purpose and a six-digit code whose value is the draw, every other record unchanged; Sent or DeliveryFailed follows the mail outcome and the record stays in both cases; the store invariant is preserved |
| OtpStore.Verify | server.js:102-154 | missing e-mail or code gives InvalidInput with no change; NotFound exactly when there is no record (no change); Expired exactly when the record is past its expiry, whatever the code, and the key is removed; Verified exactly when live and the code equals the stored one, and the key is removed; InvalidInput only for a missing field; for a wrong code on a live record, whatever its earlier count, attempts goes up by exactly one, giving TooManyAttempts and removal when it reaches 3, else InvalidCode with 3 minus the new count (1 or 2 for a well-formed store) and only that record changed; the store invariant is preserved |
| OtpStore.RoundedMinutes | server.js:177 | the result is the whole number of minutes nearest to the millisecond difference, halves rounded up |
| OtpStore.Status | server.js:167-183 | NoActiveOtp exactly when the key is absent; otherwise the stored attempts and the rounded minutes to expiry, with no expiry test |
| OtpStore.Sweep | server.js:195-203 | the swept store holds exactly the records not past their expiry, each unchanged; the removed keys are `ExpiredKeys`, the records strictly past their expiry at the sweep's time; the number removed plus the number kept is the original size; the store invariant is preserved |
| OtpService.OtpServer.constructor | server.js:15 | the store starts empty and well formed |
| OtpService.OtpServer.Generate | server.js:29-95 | the in-place handler leaves the outcome and the map that OtpStore.Generate gives, writing the record before the mail outcome is consulted, and keeps the invariant |
| OtpService.OtpServer.Verify | server.js:102-154 | the in-place handler, including the in-place attempt increment before the limit test, leaves the outcome and map that OtpStore.Verify gives, and keeps the invariant |
| OtpService.OtpServer.Sweep | server.js:195-203 | the deleting loop over all entries leaves the map OtpStore.Sweep gives, and its counter equals both the number of expired keys and the drop in size |
| OtpProperties.FreshChallengeStatus | server.js:48-57 | right after an accepted generation, status reports 10 minutes and 0 attempts |
| OtpProperties.VerifiedIsConsumed | server.js:130-135 | after a successful verification any later verification of that e-mail gives NotFound |
| OtpProperties.ExpiryPrecedesMatch | server.js:120-127 | past its expiry, a right and a wrong code give the same Expired outcome and the same store |
| OtpProperties.ThreeWrongCodes | server.js:137-153 | three wrong codes against a live record with no attempts give InvalidCode with 2 left, then 1, then TooManyAttempts with the record removed; a fourth try gives NotFound |
| OtpProperties.RegenerateReplaces | server.js:52-57 | a second generation resets attempts to 0, and the first code verifies afterwards only if the second draw equals the first |
| OtpProperties.StatusOfExpiredRecord | server.js:170-183 | a record past its expiry is still reported as active, with zero or fewer minutes |
| OtpProperties.SweepIsTransparent | server.js:194-203 | a sweep at time t does not change what a verification at a later time reports, except that a reclaimed challenge reads NotFound instead of Expired |
| OtpProperties.SweepIdempotent | server.js:198-202 | a second sweep at the same time removes nothing |
| OtpProperties.RunPreservesWellFormed | server.js:15 | from a well-formed store, any sequence of generate, verify, status and sweep requests keeps every record's code six digits and its attempts below 3 |
| OtpProperties.ReachableIsWellFormed | server.js:15 | every store reachable from the empty one is well formed |

## Left out

- HTTP wiring: Express routing, CORS, JSON parsing and the status codes. Only the outcome kind is kept (server.js:1-12, 218-220).
- The mail transport and the HTML body (server.js:18-24, 60-77). Sending is the boolean parameter `sent`.
- `crypto.randomInt` and `Date.now()`. They are parameters; their randomness and monotonicity are not modelled.
- The `setInterval` scheduling (server.js:194, 208). One tick is one call of `Sweep`. Map iteration order is left open; the result does not depend on it.
- Concurrency. While Generate awaits `sendMail`, other requests can interleave; the model runs requests one at a time.
- Console logging, the health endpoint (server.js:211-216) and the catch-all 500 paths for unexpected faults (server.js:155-161, 184-190).
- Request fields that are not strings (numbers, `null`, objects). JavaScript's truthiness and `===` are modelled for strings only. A `null` purpose, which the destructuring default would keep, is not modelled.
- Strings are sequences of Unicode scalar values rather than UTF-16 code units. The e-mail pattern treats both alike, because every character it excludes lies in the Basic Multilingual Plane.
- In-place update of the record object: the `attempts += 1` on the record object is modelled as replacing the map entry. Nothing but the map holds the record, so no aliasing is lost.
