/** Properties of the OTP store that relate several operations: the life of
    one challenge from generation to removal, and the invariant every
    reachable store keeps. */
module OtpProperties {
  import opened Decimal
  import opened OtpStore

  /** A freshly generated challenge reports ten minutes and no attempts. */
  lemma FreshChallengeStatus(m: Store, email: Option<string>, purpose: Option<string>,
                             now: int, draw: int, sent: bool)
    requires CodeMin <= draw < CodeMax
    requires Accepts(email)
    ensures Status(Generate(m, email, purpose, now, draw, sent).1, email.value, now) == ActiveOtp(10, 0)
  {
  }

  /** A successful verification consumes the challenge: any later attempt
      for the same e-mail finds nothing. */
  lemma VerifiedIsConsumed(m: Store, email: Option<string>, otp: Option<string>, now: int,
                           later: Option<string>, laterNow: int)
    requires Verify(m, email, otp, now).0 == Verified
    requires !IsMissing(later)
    ensures Verify(Verify(m, email, otp, now).1, email, later, laterNow).0 == NotFound
  {
  }

  /** Once past its expiry a challenge is removed and reported expired,
      whatever code is submitted. */
  lemma ExpiryPrecedesMatch(m: Store, email: Option<string>, a: Option<string>, b: Option<string>, now: int)
    requires !IsMissing(email) && !IsMissing(a) && !IsMissing(b)
    requires email.value in m && IsExpired(m[email.value], now)
    ensures Verify(m, email, a, now) == Verify(m, email, b, now) == (Expired, m - {email.value})
  {
  }

  /** Three wrong codes against a fresh live challenge: two attempts left,
      then one, then the challenge is gone; a fourth try finds nothing. */
  lemma ThreeWrongCodes(m: Store, email: Option<string>,
                        g1: Option<string>, g2: Option<string>, g3: Option<string>, g4: Option<string>,
                        t1: int, t2: int, t3: int, t4: int)
    requires !IsMissing(email) && email.value in m
    requires m[email.value].attempts == 0
    requires !IsExpired(m[email.value], t1) && !IsExpired(m[email.value], t2) && !IsExpired(m[email.value], t3)
    requires !IsMissing(g1) && !IsMissing(g2) && !IsMissing(g3) && !IsMissing(g4)
    requires g1.value != m[email.value].otp && g2.value != m[email.value].otp && g3.value != m[email.value].otp
    ensures var v1 := Verify(m, email, g1, t1);
            var v2 := Verify(v1.1, email, g2, t2);
            var v3 := Verify(v2.1, email, g3, t3);
            var v4 := Verify(v3.1, email, g4, t4);
            && v1.0 == InvalidCode(2) && v2.0 == InvalidCode(1)
            && v3.0 == TooManyAttempts && v4.0 == NotFound
            && v3.1 == m - {email.value}
  {
  }

  /** Generating again replaces the earlier challenge: the earlier code is
      accepted afterwards only if the new draw happens to equal it, and the
      attempt count starts over. */
  lemma RegenerateReplaces(m: Store, email: Option<string>, p1: Option<string>, p2: Option<string>,
                           t1: int, t2: int, d1: int, d2: int, s1: bool, s2: bool, now: int)
    requires CodeMin <= d1 < CodeMax && CodeMin <= d2 < CodeMax
    requires Accepts(email)
    requires now <= t2 + LifetimeMs
    ensures var first := Generate(m, email, p1, t1, d1, s1).1;
            var second := Generate(first, email, p2, t2, d2, s2).1;
            && second[email.value].attempts == 0
            && (Verify(second, email, Some(ToDecimal(d1)), now).0 == Verified <==> d1 == d2)
  {
  }

  /** Status does not purge: a record past its expiry is still reported as
      active, with zero or negative minutes left. */
  lemma StatusOfExpiredRecord(m: Store, email: string, now: int)
    requires email in m && IsExpired(m[email], now)
    ensures Status(m, email, now).ActiveOtp?
    ensures Status(m, email, now).expiresInMinutes <= 0
  {
  }

  /** A sweep at time t never changes what a verification at a later time
      reports, except that a challenge it reclaimed is reported missing
      rather than expired. */
  lemma SweepIsTransparent(m: Store, t: int, email: Option<string>, otp: Option<string>, now: int)
    requires t <= now
    ensures var before := Verify(m, email, otp, now).0;
            var after := Verify(Sweep(m, t), email, otp, now).0;
            before == after || (before == Expired && after == NotFound)
  {
  }

  /** Sweeping twice at the same time removes nothing more. */
  lemma SweepIdempotent(m: Store, t: int)
    ensures Sweep(Sweep(m, t), t) == Sweep(m, t)
  {
  }

  /** A request as it reaches the server, with the clock value and, for a
      generation, the random draw and the mail outcome. */
  datatype Request =
    | GenerateRequest(email: Option<string>, purpose: Option<string>, now: int, draw: int, sent: bool)
    | VerifyRequest(email: Option<string>, otp: Option<string>, now: int)
    | StatusRequest(address: string, now: int)
    | SweepTick(now: int)

  predicate DrawInRange(q: Request) {
    q.GenerateRequest? ==> CodeMin <= q.draw < CodeMax
  }

  /** The store after one request. */
  function Apply(m: Store, q: Request): Store
    requires DrawInRange(q)
  {
    match q
    case GenerateRequest(email, purpose, now, draw, sent) => Generate(m, email, purpose, now, draw, sent).1
    case VerifyRequest(email, otp, now) => Verify(m, email, otp, now).1
    case StatusRequest(_, _) => m
    case SweepTick(now) => Sweep(m, now)
  }

  /** The store after a sequence of requests, served one at a time. */
  function Run(m: Store, qs: seq<Request>): Store
    requires forall k :: 0 <= k < |qs| ==> DrawInRange(qs[k])
    decreases |qs|
  {
    if qs == [] then m else Run(Apply(m, qs[0]), qs[1..])
  }

  /** Every store reachable from the empty one, by any interleaving of the four
      operations, holds six-digit codes and fewer than three failed attempts
      per record. */
  lemma {:induction false} RunPreservesWellFormed(m: Store, qs: seq<Request>)
    requires forall k :: 0 <= k < |qs| ==> DrawInRange(qs[k])
    requires WellFormed(m)
    ensures WellFormed(Run(m, qs))
    decreases |qs|
  {
    if qs != [] {
      assert DrawInRange(qs[0]);
      RunPreservesWellFormed(Apply(m, qs[0]), qs[1..]);
    }
  }

  lemma ReachableIsWellFormed(qs: seq<Request>)
    requires forall k :: 0 <= k < |qs| ==> DrawInRange(qs[k])
    ensures WellFormed(Run(map[], qs))
  {
    RunPreservesWellFormed(map[], qs);
  }
}
