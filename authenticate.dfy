/**
 * The Authenticate middleware: a request passes when the first of the route's
 * guards (the default guard when none is named) that recognises it is found,
 * and that guard becomes the default; otherwise an authentication exception
 * carrying the guards ends the request.  Which guard recognises the request is
 * left abstract, as the auth manager's `check` function.
 */
module Middleware {
  import opened Php

  /** A guard name as a route names it; null stands for the default guard. */
  type GuardName = Option<string>

  /** `$name ?: $default`: a falsy name selects the default guard. */
  function Resolved(name: GuardName, default: string): string {
    if Truthy(name) then name.value else default
  }

  class AuthManager {
    /** The default guard's name. */
    var defaultGuard: string
    /** guard($name)->check(), for the guard of that name. */
    const check: string -> bool

    constructor(initial: string, c: string -> bool)
      ensures defaultGuard == initial && check == c
    {
      defaultGuard := initial;
      check := c;
    }

    /** Whether the guard `name` selects recognises the request. */
    function Passes(name: GuardName): bool
      reads this
    {
      check(Resolved(name, defaultGuard))
    }

    /** shouldUse($name): the named guard, or the current default for a falsy name, becomes the default. */
    method ShouldUse(name: GuardName)
      modifies this
      ensures defaultGuard == Resolved(name, old(defaultGuard))
    {
      defaultGuard := Resolved(name, defaultGuard);
    }
  }

  /** The guards authenticate() tries: those given, or the default guard alone when none are. */
  function Tried(guards: seq<GuardName>): (gs: seq<GuardName>)
    ensures gs != []
    ensures guards == [] ==> gs == [None]
    ensures guards != [] ==> gs == guards
  {
    if guards == [] then [None] else guards
  }

  /** The index of the first guard in gs[k..] that passes, given each guard's check and the default guard. */
  function FirstPassingFrom(gs: seq<GuardName>, k: nat, check: string -> bool, default: string): (r: Option<nat>)
    requires k <= |gs|
    decreases |gs| - k
    ensures r.Some? ==> k <= r.value < |gs| && check(Resolved(gs[r.value], default))
                        && forall j :: k <= j < r.value ==> !check(Resolved(gs[j], default))
    ensures r.None? ==> forall j :: k <= j < |gs| ==> !check(Resolved(gs[j], default))
  {
    if k == |gs| then None
    else if check(Resolved(gs[k], default)) then Some(k)
    else FirstPassingFrom(gs, k + 1, check, default)
  }

  /** What authenticate() ends in: the guard chosen, or the exception with the guards tried. */
  datatype AuthOutcome = Authenticated(guard: GuardName) | Unauthenticated(guards: seq<GuardName>)

  /** What handle() does with the request: hand it to the next handler, or stop it. */
  datatype Handled = Next(guard: GuardName) | Rejected(guards: seq<GuardName>)

  /** The class name `using()` prefixes. */
  const ClassName: string := "App\\Http\\Middleware\\Authenticate"

  /** using($guard, ...$others): the class name, ':', then the guards joined by ','. */
  function Using(guard: string, others: seq<string>): string {
    ClassName + ":" + Implode([guard] + others)
  }

  /** A `using()` string splits back into the class name and the guards, when no guard name holds a comma. */
  lemma UsingSplits(guard: string, others: seq<string>)
    requires ',' !in guard && forall i :: 0 <= i < |others| ==> ',' !in others[i]
    ensures var u := Using(guard, others);
            var n := |ClassName|;
            && |u| > n && u[..n] == ClassName && u[n] == ':'
            && Explode(u[n + 1..]) == [guard] + others
  {
    var u := Using(guard, others);
    var n := |ClassName|;
    var gs := [guard] + others;
    forall i | 0 <= i < |gs|
      ensures ',' !in gs[i]
    {
      if i > 0 {
        assert gs[i] == others[i - 1];
      }
    }
    ExplodeImplode(gs);
    assert u[n + 1..] == Implode(gs);
  }

  class Authenticate {
    const auth: AuthManager

    constructor(a: AuthManager)
      ensures auth == a
    {
      auth := a;
    }

    /**
     * authenticate(): the first guard tried that passes is chosen and becomes
     * the default, and no later guard is consulted; when none passes, the
     * outcome carries the guards tried and nothing changes.
     */
    method Authenticate(guards: seq<GuardName>) returns (r: AuthOutcome)
      modifies auth
      ensures var first := FirstPassingFrom(Tried(guards), 0, auth.check, old(auth.defaultGuard));
              && (r.Authenticated? <==> first.Some?)
              && (first.Some? ==> r.guard == Tried(guards)[first.value]
                                  && auth.defaultGuard == Resolved(r.guard, old(auth.defaultGuard)))
              && (first.None? ==> r == Unauthenticated(Tried(guards)) && unchanged(auth))
    {
      var gs := Tried(guards);
      var i := 0;
      while i < |gs|
        invariant 0 <= i <= |gs|
        invariant unchanged(auth)
        invariant FirstPassingFrom(gs, 0, auth.check, auth.defaultGuard) == FirstPassingFrom(gs, i, auth.check, auth.defaultGuard)
      {
        if auth.Passes(gs[i]) {
          auth.ShouldUse(gs[i]);
          return Authenticated(gs[i]);
        }
        i := i + 1;
      }
      return Unauthenticated(gs);
    }

    /** handle(): the request reaches the next handler only after a guard has passed. */
    method Handle(guards: seq<GuardName>) returns (r: Handled)
      modifies auth
      ensures var first := FirstPassingFrom(Tried(guards), 0, auth.check, old(auth.defaultGuard));
              && (r.Next? <==> first.Some?)
              && (r.Next? ==> r.guard == Tried(guards)[first.value])
              && (r.Rejected? ==> r.guards == Tried(guards) && unchanged(auth))
    {
      var outcome := Authenticate(guards);
      match outcome
      case Authenticated(g) =>
        r := Next(g);
      case Unauthenticated(gs) =>
        r := Rejected(gs);
    }
  }
}
