/** The OTP store: a map from the raw e-mail string to the one pending
    challenge for that address, and the four operations on it written as
    functions from the old map (and the request, the clock value, the random
    draw and the mail outcome) to the outcome and the new map. */
module OtpStore {
  import opened Email
  import opened Decimal

  /** Failed verifications that exhaust a challenge. */
  const MaxAttempts: nat := 3
  /** Lifetime of a challenge: ten minutes, in milliseconds. */
  const LifetimeMs: int := 10 * 60 * 1000
  const MsPerMinute: int := 60 * 1000
  const DefaultPurpose: string := "email-verification"
  /** The bounds passed to the random source; the upper one is exclusive. */
  const CodeMin: int := 100000
  const CodeMax: int := 999999

  datatype Option<T> = None | Some(value: T)

  /** One pending verification: the code, its absolute expiry in milliseconds,
      the caller's tag, and the failed attempts made so far. */
  datatype Challenge = Challenge(otp: string, expiresAt: int, purpose: string, attempts: nat)

  type Store = map<string, Challenge>

  /** The kinds of result the generate and verify operations report. */
  datatype Outcome =
    | Sent                           // code stored and mail handed over
    | DeliveryFailed                 // code stored, mail transport failed
    | InvalidInput                   // a required field is missing or empty
    | InvalidFormat                  // the e-mail fails the pattern
    | NotFound                       // no challenge for this e-mail
    | Expired                        // the challenge was past its expiry
    | Verified                       // the code matched
    | InvalidCode(attemptsLeft: int) // wrong code, challenge kept
    | TooManyAttempts                // wrong code, attempts used up

  /** What the status operation reports. */
  datatype StatusReport =
    | NoActiveOtp
    | ActiveOtp(expiresInMinutes: int, attempts: nat)

  /** A request field that JavaScript's `!field` treats as absent. */
  predicate IsMissing(field: Option<string>) {
    field.None? || field.value == ""
  }

  /** A challenge is live up to and including its expiry instant. */
  predicate IsExpired(c: Challenge, now: int) {
    now > c.expiresAt
  }

  /** A code as the generator writes it: six decimal digits. */
  predicate IsOtpCode(s: string) {
    |s| == 6 && IsDigits(s)
  }

  /** What every reachable store satisfies: each record has a six-digit code
      and fewer than MaxAttempts failed attempts. */
  predicate WellFormed(m: Store) {
    forall e :: e in m ==> m[e].attempts < MaxAttempts && IsOtpCode(m[e].otp)
  }

  /** The generate request passes both input checks. */
  predicate Accepts(email: Option<string>) {
    !IsMissing(email) && IsValidEmail(email.value)
  }

  /** The generate handler: check the e-mail, store a fresh challenge under it
      (replacing any earlier one), then report the mail outcome. The new
      record is in the store whether or not sending succeeds. */
  function Generate(m: Store, email: Option<string>, purpose: Option<string>,
                    now: int, draw: int, sent: bool): (r: (Outcome, Store))
    requires CodeMin <= draw < CodeMax
    ensures IsMissing(email) ==> r == (InvalidInput, m)
    ensures !IsMissing(email) && !IsValidEmail(email.value) ==> r == (InvalidFormat, m)
    ensures r.0 == Sent <==> Accepts(email) && sent
    ensures r.0 == DeliveryFailed <==> Accepts(email) && !sent
    ensures Accepts(email) ==>
      && r.1.Keys == m.Keys + {email.value}
      && r.1[email.value].attempts == 0
      && r.1[email.value].expiresAt == now + LifetimeMs
      && r.1[email.value].purpose == (if purpose.Some? then purpose.value else DefaultPurpose)
      && IsOtpCode(r.1[email.value].otp)
      && FromDecimal(r.1[email.value].otp) == draw
      && forall e :: e in m && e != email.value ==> r.1[e] == m[e]
    ensures WellFormed(m) ==> WellFormed(r.1)
  {
    if IsMissing(email) then (InvalidInput, m)
    else if !IsValidEmail(email.value) then (InvalidFormat, m)
    else
      var code := ToDecimal(draw);
      SixDigits(draw);
      FromToDecimal(draw);
      var c := Challenge(code, now + LifetimeMs,
                         if purpose.Some? then purpose.value else DefaultPurpose, 0);
      (if sent then Sent else DeliveryFailed, m[email.value := c])
  }

  /** The verify handler: missing input, no record, expiry (removes), match
      (removes), otherwise count a failed attempt and remove the record once
      MaxAttempts is reached. */
  function Verify(m: Store, email: Option<string>, otp: Option<string>, now: int): (r: (Outcome, Store))
    ensures r.0 in {InvalidInput, NotFound, Expired, Verified, TooManyAttempts} || r.0.InvalidCode?
    ensures IsMissing(email) || IsMissing(otp) ==> r == (InvalidInput, m)
    ensures r.0 == InvalidInput <==> IsMissing(email) || IsMissing(otp)
    ensures !IsMissing(email) && !IsMissing(otp) ==>
      var e := email.value;
      && (r.0 == NotFound <==> e !in m)
      && (r.0 == Expired <==> e in m && IsExpired(m[e], now))
      && (r.0 == Verified <==> e in m && !IsExpired(m[e], now) && m[e].otp == otp.value)
      && (r.0 == NotFound ==> r.1 == m)
      && (r.0 in {Expired, Verified, TooManyAttempts} ==> r.1 == m - {e})
      && (r.0.InvalidCode? ==>
            && e in m && m[e].attempts + 1 < MaxAttempts
            && r.1 == m[e := m[e].(attempts := m[e].attempts + 1)]
            && r.0.attemptsLeft == MaxAttempts - r.1[e].attempts)
      && (r.0 == TooManyAttempts ==> e in m && m[e].attempts + 1 >= MaxAttempts)
    ensures !IsMissing(email) && !IsMissing(otp) && email.value in m &&
            !IsExpired(m[email.value], now) && m[email.value].otp != otp.value ==>
      var e := email.value;
      var tried := m[e].attempts + 1;
      r == if tried >= MaxAttempts then (TooManyAttempts, m - {e})
           else (InvalidCode(MaxAttempts - tried), m[e := m[e].(attempts := tried)])
    ensures WellFormed(m) && r.0.InvalidCode? ==> 1 <= r.0.attemptsLeft < MaxAttempts
    ensures WellFormed(m) ==> WellFormed(r.1)
  {
    if IsMissing(email) || IsMissing(otp) then (InvalidInput, m)
    else
      var e := email.value;
      if e !in m then (NotFound, m)
      else
        var c := m[e];
        if IsExpired(c, now) then (Expired, m - {e})
        else if c.otp == otp.value then (Verified, m - {e})
        else
          var tried := c.attempts + 1;
          if tried >= MaxAttempts then (TooManyAttempts, m - {e})
          else (InvalidCode(MaxAttempts - tried), m[e := c.(attempts := tried)])
  }

  /** Math.round(ms / 60000) for an integer ms: the nearest whole minute,
      halves rounded up. */
  function RoundedMinutes(ms: int): (k: int)
    ensures MsPerMinute * k - MsPerMinute / 2 <= ms < MsPerMinute * k + MsPerMinute / 2
  {
    (ms + MsPerMinute / 2) / MsPerMinute
  }

  /** The status handler: a read of the store that reports the attempts and
      the rounded minutes left, even for a record already past its expiry. */
  function Status(m: Store, email: string, now: int): (r: StatusReport)
    ensures r.NoActiveOtp? <==> email !in m
    ensures r.ActiveOtp? ==>
      && r.attempts == m[email].attempts
      && MsPerMinute * r.expiresInMinutes - MsPerMinute / 2 <= m[email].expiresAt - now
      && m[email].expiresAt - now < MsPerMinute * r.expiresInMinutes + MsPerMinute / 2
  {
    if email !in m then NoActiveOtp
    else ActiveOtp(RoundedMinutes(m[email].expiresAt - now), m[email].attempts)
  }

  /** The keys a sweep at time now removes. */
  function ExpiredKeys(m: Store, now: int): (ks: set<string>)
    ensures ks <= m.Keys
    ensures forall e :: e in ks <==> e in m && IsExpired(m[e], now)
  {
    set e | e in m && IsExpired(m[e], now)
  }

  /** The store after a sweep at time now: exactly the live records, each
      unchanged. */
  function Sweep(m: Store, now: int): (r: Store)
    ensures forall e :: e in r <==> e in m && !IsExpired(m[e], now)
    ensures forall e :: e in r ==> r[e] == m[e]
    ensures r.Keys == m.Keys - ExpiredKeys(m, now)
    ensures |r| + |ExpiredKeys(m, now)| == |m|
    ensures WellFormed(m) ==> WellFormed(r)
  {
    var r := map e | e in m && !IsExpired(m[e], now) :: m[e];
    var gone := ExpiredKeys(m, now);
    assert r.Keys + gone == m.Keys && r.Keys !! gone;
    assert |r.Keys + gone| == |r.Keys| + |gone|;
    r
  }
}
