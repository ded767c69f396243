/**
 * LoginRequest: before validating, authorize() refuses a client whose key has
 * reached the failure limit (429, with the seconds until the next try); a
 * validation failure counts as a failed login attempt and replies 422.  The key
 * is built from the client address, `ip()`.  The seconds left are a parameter,
 * since they come from the limiter's clock.
 */
module LoginRequests {
  import opened Php
  import opened Validation
  import opened Http
  import opened FormRequests
  import opened RateLimiting

  class LoginRequest {
    /** $this->ip() */
    const clientIp: string
    const input: Input
    const limiter: RateLimiter

    constructor(ip: string, attrs: Input, l: RateLimiter)
      ensures clientIp == ip && input == attrs && limiter == l
    {
      clientIp := ip;
      input := attrs;
      limiter := l;
    }

    /** The throttle key, the same in ensureIsNotRateLimited and failedValidation. */
    function Key(): string {
      ThrottleKey(clientIp)
    }

    /**
     * ensureIsNotRateLimited(): a 429 halt exactly when the key has reached
     * the limit; it never records a hit.
     */
    method EnsureIsNotRateLimited(secondsLeft: nat) returns (halt: Option<Resolution>)
      ensures halt.Some? <==> limiter.Attempts(ThrottleKey(clientIp)) >= MaxLoginAttempts
      ensures halt.Some? ==> halt.value == Halt(TOO_MANY_REQUESTS, TooManyAttempts(secondsLeft))
    {
      var key := Key();
      if limiter.TooManyAttempts(key, MaxLoginAttempts) {
        return Some(Halt(TOO_MANY_REQUESTS, TooManyAttempts(secondsLeft)));
      }
      return None;
    }

    /** authorize(): the rate-limit check, after which every client is allowed. */
    method Authorize(secondsLeft: nat) returns (halt: Option<Resolution>)
      ensures halt.Some? <==> limiter.Attempts(ThrottleKey(clientIp)) >= MaxLoginAttempts
      ensures halt.Some? ==> halt.value == Halt(TOO_MANY_REQUESTS, TooManyAttempts(secondsLeft))
    {
      halt := EnsureIsNotRateLimited(secondsLeft);
    }

    /** failedValidation(): one more failure on this client's key, then a 422 halt. */
    method FailedValidation(errors: Errors) returns (r: Resolution)
      modifies limiter
      ensures limiter.hits == old(limiter.hits)[Key() := old(limiter.Attempts(Key())) + 1]
      ensures r == Halt(UNPROCESSABLE, InvalidInput(errors))
    {
      limiter.Hit(Key(), DecaySeconds);
      r := FormRequests.FailedValidation(errors);
    }

    /**
     * The framework's validateResolved(): authorize, then validate against the
     * rules.  A throttled client gets 429 and its count stays; a failing input
     * gets 422 and adds one failure; a passing input proceeds with the count
     * unchanged.
     */
    method ValidateResolved(checks: Checks, secondsLeft: nat) returns (r: Resolution)
      modifies limiter
      ensures old(limiter.Attempts(Key())) >= MaxLoginAttempts ==>
                r == Halt(TOO_MANY_REQUESTS, TooManyAttempts(secondsLeft)) && unchanged(limiter)
      ensures old(limiter.Attempts(Key())) < MaxLoginAttempts && Validate(LoginRules(), input, checks).Passed? ==>
                r == Proceed(Validate(LoginRules(), input, checks).validated) && unchanged(limiter)
      ensures old(limiter.Attempts(Key())) < MaxLoginAttempts && Validate(LoginRules(), input, checks).Failed? ==>
                && r == Halt(UNPROCESSABLE, InvalidInput(Validate(LoginRules(), input, checks).errors))
                && limiter.hits == old(limiter.hits)[Key() := old(limiter.Attempts(Key())) + 1]
    {
      var halt := Authorize(secondsLeft);
      if halt.Some? {
        return halt.value;
      }
      match Validate(LoginRules(), input, checks)
      case Passed(v) =>
        r := Proceed(v);
      case Failed(e) =>
        r := FailedValidation(e);
    }
  }
}
