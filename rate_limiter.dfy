/**
 * Laravel's RateLimiter as the login code uses it: a failure counter per key.
 * tooManyAttempts(key, max) holds exactly when the counter has reached max;
 * hit(key, decay) adds one.  The decay window is not modelled: a counter never
 * expires here.
 */
module RateLimiting {
  import opened Php

  /** The limit both login paths pass to tooManyAttempts. */
  const MaxLoginAttempts: nat := 5

  /** The decay both login paths pass to hit, in seconds. */
  const DecaySeconds: nat := 60

  /** `'login:' . Str::lower($ip)`: the key of a client address. */
  function ThrottleKey(ip: string): (key: string)
    ensures |key| == 6 + |ip| && key[..6] == "login:"
  {
    "login:" + Lower(ip)
  }

  /** Two addresses share a key exactly when they are equal up to ASCII case. */
  lemma ThrottleKeyInjective(a: string, b: string)
    ensures ThrottleKey(a) == ThrottleKey(b) <==> Lower(a) == Lower(b)
  {
    if ThrottleKey(a) == ThrottleKey(b) {
      assert Lower(a) == ThrottleKey(a)[6..];
      assert Lower(b) == ThrottleKey(b)[6..];
    }
  }

  class RateLimiter {
    /** The recorded failures of each key; a key never hit has none. */
    var hits: map<string, nat>

    constructor()
      ensures hits == map[]
    {
      hits := map[];
    }

    /** attempts($key) */
    function Attempts(key: string): nat
      reads this
    {
      if key in hits then hits[key] else 0
    }

    /** tooManyAttempts($key, $max) */
    predicate TooManyAttempts(key: string, max: nat)
      reads this
    {
      Attempts(key) >= max
    }

    /** hit($key, $decay): one more failure on this key and no other. */
    method Hit(key: string, decay: nat)
      modifies this
      ensures Attempts(key) == old(Attempts(key)) + 1
      ensures forall k :: k != key ==> Attempts(k) == old(Attempts(k))
      ensures hits == old(hits)[key := old(Attempts(key)) + 1]
    {
      hits := hits[key := Attempts(key) + 1];
    }
  }
}
