/**
 * AuthController: registration, login by user name with a failure counter per
 * throttle key, and the current user's name.  Each handler turns a validation
 * exception into 422 and any other exception into a generic 500; where such an
 * exception strikes is the `fault` parameter.  The hasher, the clock (`now`),
 * the token secret and the limiter's seconds-until-retry are parameters or
 * fields.
 */
module AuthControllers {
  import opened Php
  import opened Validation
  import opened Http
  import opened FormRequests
  import opened RateLimiting
  import opened Accounts
  import opened AuthServices

  /** The rules login() validates inline. */
  function LoginFieldRules(): RuleTable {
    [("name", [Required]),
     ("password", [Required])]
  }

  /** What `required` accepts: a file, or a string that is not blank. */
  predicate Present(v: Value) {
    v.File? || FilledText(v)
  }

  /** `required` alone fails exactly on a missing, null or blank value. */
  lemma RequiredOnly(attr: string, input: Input, checks: Checks)
    ensures FailedRules(attr, [Required], input, checks) == [] <==> Present(Lookup(input, attr))
  {
    if Present(Lookup(input, attr)) {
      assert attr in input;
      assert FailedFrom(attr, [Required], 1, false, input, checks) == [];
    }
  }

  /** login()'s validation passes exactly when both a name and a password are present. */
  lemma LoginFieldsPass(input: Input, checks: Checks)
    ensures Validate(LoginFieldRules(), input, checks).Passed?
            <==> Present(Lookup(input, "name")) && Present(Lookup(input, "password"))
  {
    PassesIffEveryAttributePasses(LoginFieldRules(), input, checks);
    RequiredOnly("name", input, checks);
    RequiredOnly("password", input, checks);
  }

  /** The unique rule of register(), answered from the users table. */
  function RegistrationChecks(checks: Checks, users: map<nat, User>): Checks {
    checks.(taken := (e: string) => exists id :: id in users && users[id].email == e)
  }

  /**
   * `$request->ip`: the request's `ip` input attribute, which Str::lower turns
   * into "" when it is missing or null.
   */
  function IpAttribute(input: Input): string {
    match Lookup(input, "ip")
    case Text(s) => s
    case _ => ""
  }

  /** login()'s throttle key as written: built from the `ip` input attribute, not the client address. */
  function LoginKeyAsWritten(input: Input): (key: string)
    ensures "ip" !in input ==> key == "login:"
  {
    ThrottleKey(IpAttribute(input))
  }

  /**
   * Two login requests from different client addresses, neither sending an
   * `ip` field, share one throttle key, so one client's failures count against
   * the other; keyed by the client addresses, they do not share a key.
   */
  lemma AsWrittenKeyIsShared(fromAlice: Input, aliceIp: string, fromBob: Input, bobIp: string)
    requires "ip" !in fromAlice && "ip" !in fromBob
    requires Lower(aliceIp) != Lower(bobIp)
    ensures LoginKeyAsWritten(fromAlice) == LoginKeyAsWritten(fromBob) == "login:"
    ensures ThrottleKey(aliceIp) != ThrottleKey(bobIp)
  {
    ThrottleKeyInjective(aliceIp, bobIp);
  }

  /**
   * The user a login request authenticates as: the first user, by id, with the
   * given name, when the password checks against that user's hash.
   */
  function Credentials(input: Input, users: map<nat, User>, bound: nat, hasher: Hasher): (r: Option<nat>)
    ensures r.Some? ==> && r.value in users
                        && Lookup(input, "name") == Text(users[r.value].name)
                        && Lookup(input, "password").Text?
                        && hasher.check(Lookup(input, "password").s, users[r.value].password)
  {
    var name := Lookup(input, "name");
    var password := Lookup(input, "password");
    if !name.Text? || !password.Text? then None
    else
      match FirstFrom(users, Name, name.s, 0, bound)
      case None => None
      case Some(id) => if hasher.check(password.s, users[id].password) then Some(id) else None
  }

  /**
   * A login matches user id exactly when id is the lowest id below the bound
   * carrying the given name and the password checks against its hash.
   */
  lemma CredentialsIff(input: Input, users: map<nat, User>, bound: nat, hasher: Hasher, id: nat)
    ensures var name := Lookup(input, "name");
            var password := Lookup(input, "password");
            Credentials(input, users, bound, hasher) == Some(id)
            <==> && name.Text? && password.Text?
                 && id in users && id < bound && users[id].name == name.s
                 && (forall j :: 0 <= j < id && j in users ==> users[j].name != name.s)
                 && hasher.check(password.s, users[id].password)
  {
    var name := Lookup(input, "name");
    var password := Lookup(input, "password");
    if name.Text? && password.Text? {
      var found := FirstFrom(users, Name, name.s, 0, bound);
      if found.Some? && found.value != id && id in users && id < bound && users[id].name == name.s {
        if found.value < id {
          assert users[found.value].name == name.s;
        }
      }
    }
  }

  /**
   * Names are not unique: of two users with the same name, only the one with
   * the lower id can ever log in.
   */
  lemma OnlyFirstNamesakeLogsIn(input: Input, users: map<nat, User>, bound: nat, hasher: Hasher, a: nat, b: nat)
    requires a in users && b in users && a < b && users[a].name == users[b].name
    ensures Credentials(input, users, bound, hasher) != Some(b)
  {
    var name := Lookup(input, "name");
    if name.Text? && Lookup(input, "password").Text? {
      var found := FirstFrom(users, Name, name.s, 0, bound);
    }
  }

  /** The body of a successful login reply. */
  datatype LoginReply = LoginReply(token: string, name: Value)

  /** A 500 reply of register() and login(). */
  function Unexpected<T>(): (r: Response<T>)
    ensures r.status == SERVER_ERROR && r.message == UnexpectedError && r.data == None
  {
    Response(SERVER_ERROR, UnexpectedError, None)
  }

  class AuthController {
    const store: UserStore
    const limiter: RateLimiter
    const hasher: Hasher

    constructor(s: UserStore, l: RateLimiter, h: Hasher)
      ensures store == s && limiter == l && hasher == h
    {
      store := s;
      limiter := l;
      hasher := h;
    }

    /**
     * register(): 422 with the field errors and no user stored when the input
     * fails the inline rules (those of RegisterRequest); otherwise one new user
     * with the given name and e-mail and the hash of the password, and 201.
     */
    method Register(input: Input, checks: Checks, fault: Fault) returns (r: Response<()>)
      requires store.Valid()
      modifies store
      ensures store.Valid()
      ensures var v := Validate(RegisterRules(), input, RegistrationChecks(checks, old(store.users)));
              v.Failed? ==> r == Response(UNPROCESSABLE, InvalidInput(v.errors), None) && unchanged(store)
      ensures var v := Validate(RegisterRules(), input, RegistrationChecks(checks, old(store.users)));
              v.Passed? && fault.NoFault? ==>
                && Lookup(input, "name").Text? && Lookup(input, "email").Text? && Lookup(input, "password").Text?
                && r == Response(CREATED, Registered, None)
                && var id := old(store.nextUserId);
                   && id !in old(store.users)
                   && store.users == old(store.users)[id := User(id, Lookup(input, "name").s, Lookup(input, "email").s,
                                                                 hasher.make(Lookup(input, "password").s))]
                   && store.tokens == old(store.tokens)
      ensures var v := Validate(RegisterRules(), input, RegistrationChecks(checks, old(store.users)));
              v.Passed? && fault.Raises? ==> r == Unexpected()
      ensures var v := Validate(RegisterRules(), input, RegistrationChecks(checks, old(store.users)));
              v.Passed? && fault == Raises(true) ==>
                && Lookup(input, "name").Text? && Lookup(input, "email").Text? && Lookup(input, "password").Text?
                && var id := old(store.nextUserId);
                   && id !in old(store.users)
                   && store.users == old(store.users)[id := User(id, Lookup(input, "name").s, Lookup(input, "email").s,
                                                                 hasher.make(Lookup(input, "password").s))]
                   && store.tokens == old(store.tokens)
      ensures fault == Raises(false) ==> unchanged(store)
      ensures r.status == CREATED ==> |store.users.Keys| == |old(store.users).Keys| + 1
      ensures r.status == SERVER_ERROR ==> r == Unexpected()
      ensures r.status in {CREATED, UNPROCESSABLE, SERVER_ERROR}
    {
      var rulesChecks := RegistrationChecks(checks, store.users);
      var outcome := Validate(RegisterRules(), input, rulesChecks);
      if outcome.Failed? {
        return Response(UNPROCESSABLE, InvalidInput(outcome.errors), None);
      }
      if fault == Raises(false) {
        return Unexpected();
      }
      ResolveProceedsIff(RegisterRules(), input, rulesChecks);
      PassesIffEveryAttributePasses(RegisterRules(), input, rulesChecks);
      RegisterResolves(input, rulesChecks);
      var name := Lookup(input, "name").s;
      var email := Lookup(input, "email").s;
      var password := Lookup(input, "password").s;
      var user := store.Insert(name, email, hasher.make(password));
      if user.None? {
        // unreachable: the unique rule passed, so the e-mail is free
        return Unexpected();
      }
      if fault.Raises? {
        return Unexpected();
      }
      r := Response(CREATED, Registered, None);
    }

    /**
     * login(): 422 when a name or password is missing, with the counter
     * untouched; 429 with no lookup and no hit once the key has 5 failures;
     * 401 and exactly one more failure on the key when the name is unknown or
     * the password does not check; otherwise a token of that user expiring 600
     * seconds after `now`, and 200 with the token and the request's name.  The
     * counter is never cleared.  `throttleSource` is the text the key is built
     * from; as written it is IpAttribute(input).
     */
    method Login(input: Input, throttleSource: string, checks: Checks, secondsLeft: nat, now: int, secret: string,
                 fault: Fault) returns (r: Response<LoginReply>)
      requires store.Valid()
      modifies store, limiter
      ensures store.Valid()
      ensures Validate(LoginFieldRules(), input, checks).Failed? ==>
                && r == Response(UNPROCESSABLE, InvalidInput(Validate(LoginFieldRules(), input, checks).errors), None)
                && unchanged(store) && unchanged(limiter)
      ensures (&& Validate(LoginFieldRules(), input, checks).Passed? && fault != Raises(false)
               && old(limiter.Attempts(ThrottleKey(throttleSource))) >= MaxLoginAttempts) ==>
                r == Response(TOO_MANY_REQUESTS, TooManyAttempts(secondsLeft), None)
      ensures r.status in {TOO_MANY_REQUESTS, UNPROCESSABLE} || fault == Raises(false) ==>
                unchanged(store) && unchanged(limiter)
      ensures (&& Validate(LoginFieldRules(), input, checks).Passed? && fault.NoFault?
               && old(limiter.Attempts(ThrottleKey(throttleSource))) < MaxLoginAttempts
               && old(Credentials(input, store.users, store.nextUserId, hasher)).None?) ==>
                r == Response(UNAUTHORIZED, LoginFailed, None)
      ensures r.status == UNAUTHORIZED ==>
                && limiter.hits == old(limiter.hits)[ThrottleKey(throttleSource) := old(limiter.Attempts(ThrottleKey(throttleSource))) + 1]
                && unchanged(store)
      ensures (&& Validate(LoginFieldRules(), input, checks).Passed? && fault.NoFault?
               && old(limiter.Attempts(ThrottleKey(throttleSource))) < MaxLoginAttempts
               && old(Credentials(input, store.users, store.nextUserId, hasher)).Some?) ==>
                r.status == OK
      ensures r.status == OK ==>
                && old(Credentials(input, store.users, store.nextUserId, hasher)).Some?
                && var id := old(Credentials(input, store.users, store.nextUserId, hasher)).value;
                   var t := old(store.nextTokenId);
                   && r == Response(OK, LoggedIn, Some(LoginReply(PlainTextToken(t, secret), Lookup(input, "name"))))
                   && store.tokens == old(store.tokens)[t := AccessToken(t, id, "react", Some(now + TokenLifetime), now)]
                   && store.users == old(store.users)
                   && unchanged(limiter)
      ensures Validate(LoginFieldRules(), input, checks).Passed? && fault == Raises(false) ==> r == Unexpected()
      ensures (&& Validate(LoginFieldRules(), input, checks).Passed? && fault.Raises?
               && old(limiter.Attempts(ThrottleKey(throttleSource))) < MaxLoginAttempts) ==> r == Unexpected()
      ensures (&& Validate(LoginFieldRules(), input, checks).Passed? && fault == Raises(true)
               && old(limiter.Attempts(ThrottleKey(throttleSource))) < MaxLoginAttempts
               && old(Credentials(input, store.users, store.nextUserId, hasher)).None?) ==>
                && limiter.hits == old(limiter.hits)[ThrottleKey(throttleSource) := old(limiter.Attempts(ThrottleKey(throttleSource))) + 1]
                && unchanged(store)
      ensures (&& Validate(LoginFieldRules(), input, checks).Passed? && fault == Raises(true)
               && old(limiter.Attempts(ThrottleKey(throttleSource))) < MaxLoginAttempts
               && old(Credentials(input, store.users, store.nextUserId, hasher)).Some?) ==>
                && var id := old(Credentials(input, store.users, store.nextUserId, hasher)).value;
                   var t := old(store.nextTokenId);
                   && store.tokens == old(store.tokens)[t := AccessToken(t, id, "react", Some(now + TokenLifetime), now)]
                   && store.users == old(store.users)
                   && unchanged(limiter)
      ensures r.status == SERVER_ERROR ==> r == Unexpected()
      ensures r.status in {OK, UNAUTHORIZED, UNPROCESSABLE, TOO_MANY_REQUESTS, SERVER_ERROR}
    {
      var outcome := Validate(LoginFieldRules(), input, checks);
      if outcome.Failed? {
        return Response(UNPROCESSABLE, InvalidInput(outcome.errors), None);
      }
      if fault == Raises(false) {
        return Unexpected();
      }
      r := ThrottledLogin(input, ThrottleKey(throttleSource), secondsLeft, now, secret, fault);
    }

    /**
     * The part of login() after validation: 429 with nothing changed while
     * `key` has 5 failures; otherwise 401 and one more failure on `key` when
     * the credentials do not check, or a token and 200 when they do.
     */
    method ThrottledLogin(input: Input, key: string, secondsLeft: nat, now: int, secret: string,
                          fault: Fault) returns (r: Response<LoginReply>)
      requires store.Valid() && fault != Raises(false)
      modifies store, limiter
      ensures store.Valid()
      ensures old(limiter.Attempts(key)) >= MaxLoginAttempts ==>
                r == Response(TOO_MANY_REQUESTS, TooManyAttempts(secondsLeft), None) && unchanged(store) && unchanged(limiter)
      ensures old(limiter.Attempts(key)) < MaxLoginAttempts && old(Credentials(input, store.users, store.nextUserId, hasher)).None? ==>
                && limiter.hits == old(limiter.hits)[key := old(limiter.Attempts(key)) + 1]
                && unchanged(store)
                && r == (if fault.NoFault? then Response(UNAUTHORIZED, LoginFailed, None) else Unexpected())
      ensures old(limiter.Attempts(key)) < MaxLoginAttempts && old(Credentials(input, store.users, store.nextUserId, hasher)).Some? ==>
                && var id := old(Credentials(input, store.users, store.nextUserId, hasher)).value;
                   var t := old(store.nextTokenId);
                   && r == (if fault.NoFault?
                            then Response(OK, LoggedIn, Some(LoginReply(PlainTextToken(t, secret), Lookup(input, "name"))))
                            else Unexpected())
                   && store.tokens == old(store.tokens)[t := AccessToken(t, id, "react", Some(now + TokenLifetime), now)]
                   && store.users == old(store.users)
                   && unchanged(limiter)
    {
      if limiter.TooManyAttempts(key, MaxLoginAttempts) {
        return Response(TOO_MANY_REQUESTS, TooManyAttempts(secondsLeft), None);
      }
      var found := Credentials(input, store.users, store.nextUserId, hasher);
      if found.None? {
        limiter.Hit(key, DecaySeconds);
        if fault.Raises? {
          return Unexpected();
        }
        return Response(UNAUTHORIZED, LoginFailed, None);
      }
      var token := store.IssueToken(found.value, "react", now, TokenLifetime);
      if fault.Raises? {
        return Unexpected();
      }
      r := Response(OK, LoggedIn, Some(LoginReply(PlainTextToken(token.id, secret), Lookup(input, "name"))));
    }

    /** loginSuccess(): 200 with the authenticated user's name; with no user, reading its name throws and the reply is 500. */
    method LoginSuccess(user: Option<User>) returns (r: Response<string>)
      ensures user.Some? <==> r.status == OK
      ensures user.Some? ==> r == Response(OK, CurrentUser, Some(user.value.name))
      ensures user.None? ==> r == Response(SERVER_ERROR, CurrentUserError, None)
    {
      if user.None? {
        return Response(SERVER_ERROR, CurrentUserError, None);
      }
      r := Response(OK, CurrentUser, Some(user.value.name));
    }
  }
}
