/** The collaborators of the restore-password service that are not part of
    the repository, as uninterpreted functions the service is given: the
    time-limited data protector and the JSON form of the token payload. */
module Sealing {
  import opened Wrappers

  /** A point in time, in seconds. */
  type Instant = int

  /** An `ITimeLimitedDataProtector`. `protect(purpose, text, expiration,
      nonce)` seals `text` under the protector purpose; `nonce` stands for
      the fresh random key material each call draws, so sealing is not a
      function of the text alone. `unprotect(purpose, sealed)`
      recovers the text and its embedded expiration, or fails on a forged,
      tampered or foreign-purpose input. The expiry check against the clock
      is done by `Unprotect` below. */
  datatype TimeLimitedProtector = TimeLimitedProtector(
    protect: (string, string, Instant, nat) -> string,
    unprotect: (string, string) -> Option<(string, Instant)>)

  /** The JSON form of `RestorePasswordToken { UserId }`: `deserialize`
      fails on malformed input or on a payload without a user id. */
  datatype TokenSerializer = TokenSerializer(
    serialize: string -> string,
    deserialize: string -> Option<string>)

  /** `Unprotect(sealed)` at time `now`: the text, unless unsealing fails or
      the embedded expiration has passed. */
  function Unprotect(p: TimeLimitedProtector, purpose: string, sealed: string, now: Instant): (r: Option<string>)
    ensures r.Some? ==> p.unprotect(purpose, sealed).Some? && now <= p.unprotect(purpose, sealed).value.1
    ensures r.Some? ==> r.value == p.unprotect(purpose, sealed).value.0
  {
    match p.unprotect(purpose, sealed)
    case None => None
    case Some((text, expiration)) => if now <= expiration then Some(text) else None
  }

  /** Unsealing returns what was sealed, with its expiration. */
  ghost predicate RoundTrips(p: TimeLimitedProtector) {
    forall purpose, text, expiration, nonce ::
      p.unprotect(purpose, p.protect(purpose, text, expiration, nonce)) == Some((text, expiration))
  }

  /** Two seals drawn with different nonces differ, whatever they seal:
      the protector's output is randomised per call. */
  ghost predicate NonceSeparates(p: TimeLimitedProtector) {
    forall purpose, text1, text2, expiration1, expiration2, nonce1, nonce2 ::
      nonce1 != nonce2 ==>
        p.protect(purpose, text1, expiration1, nonce1) != p.protect(purpose, text2, expiration2, nonce2)
  }

  ghost predicate SerializerRoundTrips(j: TokenSerializer) {
    forall id :: j.deserialize(j.serialize(id)) == Some(id)
  }

  /** A sealed text is readable up to its expiration and not after it. */
  lemma SealedLifetime(p: TimeLimitedProtector, purpose: string, text: string, expiration: Instant, nonce: nat,
                       now: Instant)
    requires RoundTrips(p)
    ensures Unprotect(p, purpose, p.protect(purpose, text, expiration, nonce), now) ==
              (if now <= expiration then Some(text) else None)
  {
    assert p.unprotect(purpose, p.protect(purpose, text, expiration, nonce)) == Some((text, expiration));
  }
}
