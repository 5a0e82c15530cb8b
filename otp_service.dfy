/** The server's shared `otpStore` Map and the handlers that change it in
    place. Each method is proved to leave the store the corresponding
    function of OtpStore describes. */
module OtpService {
  import opened Email
  import opened Decimal
  import opened OtpStore

  class OtpServer {
    var store: Store

    ghost predicate Valid()
      reads this
    {
      WellFormed(store)
    }

    /** The store starts empty when the process starts. */
    constructor ()
      ensures Valid() && store == map[]
    {
      store := map[];
    }

    /** POST /api/otp/generate. `now` is Date.now(), `draw` the value of
        crypto.randomInt(100000, 999999), `sent` whether sendMail resolved. */
    method Generate(email: Option<string>, purpose: Option<string>, now: int, draw: int, sent: bool)
      returns (outcome: Outcome)
      requires Valid()
      requires CodeMin <= draw < CodeMax
      modifies this
      ensures Valid()
      ensures (outcome, store) == OtpStore.Generate(old(store), email, purpose, now, draw, sent)
    {
      if IsMissing(email) {
        return InvalidInput;
      }
      if !IsValidEmail(email.value) {
        return InvalidFormat;
      }
      var otp := ToDecimal(draw);
      SixDigits(draw);
      var expiresAt := now + LifetimeMs;
      var tag := if purpose.Some? then purpose.value else DefaultPurpose;
      store := store[email.value := Challenge(otp, expiresAt, tag, 0)];
      if !sent {
        return DeliveryFailed;
      }
      return Sent;
    }

    /** POST /api/otp/verify, with `now` the clock value read at the expiry test. */
    method Verify(email: Option<string>, otp: Option<string>, now: int) returns (outcome: Outcome)
      requires Valid()
      modifies this
      ensures Valid()
      ensures (outcome, store) == OtpStore.Verify(old(store), email, otp, now)
    {
      if IsMissing(email) || IsMissing(otp) {
        return InvalidInput;
      }
      var key := email.value;
      if key !in store {
        return NotFound;
      }
      var stored := store[key];
      if now > stored.expiresAt {
        store := store - {key};
        return Expired;
      }
      if stored.otp == otp.value {
        store := store - {key};
        return Verified;
      }
      stored := stored.(attempts := stored.attempts + 1);
      store := store[key := stored];
      if stored.attempts >= MaxAttempts {
        store := store - {key};
        assert store == old(store) - {key};
        return TooManyAttempts;
      }
      return InvalidCode(MaxAttempts - stored.attempts);
    }

    /** One run of the periodic clean-up: visit every entry, delete those past
        their expiry at `now`, and count the deletions. */
    method Sweep(now: int) returns (deletedCount: nat)
      requires Valid()
      modifies this
      ensures Valid()
      ensures store == OtpStore.Sweep(old(store), now)
      ensures deletedCount == |ExpiredKeys(old(store), now)|
      ensures deletedCount == |old(store)| - |store|
    {
      ghost var start := store;
      ghost var gone: set<string> := {};
      var pending := store.Keys;
      deletedCount := 0;
      while pending != {}
        invariant pending <= start.Keys
        invariant forall e :: e in store <==> e in start && (e in pending || !IsExpired(start[e], now))
        invariant forall e :: e in store ==> store[e] == start[e]
        invariant forall e :: e in gone <==> e in start && e !in pending && IsExpired(start[e], now)
        invariant deletedCount == |gone|
        decreases pending
      {
        var key :| key in pending;
        if now > store[key].expiresAt {
          store := store - {key};
          deletedCount := deletedCount + 1;
          gone := gone + {key};
        }
        pending := pending - {key};
      }
      assert gone == ExpiredKeys(start, now);
      assert store == OtpStore.Sweep(start, now);
    }
  }
}
