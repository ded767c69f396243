/**
 * AuthService: registration stores the hash of the password, never the
 * password; a login attempt by e-mail either changes nothing and answers null,
 * or issues a token that expires 600 seconds after it was issued.
 */
module AuthServices {
  import opened Php
  import opened Accounts

  /** The lifetime both login paths give a token, in seconds. */
  const TokenLifetime: int := 600

  /** What attemptLogin returns on success. */
  datatype LoginResult = LoginResult(user: User, plainTextToken: string)

  class AuthService {
    const store: UserStore
    const hasher: Hasher

    constructor(s: UserStore, h: Hasher)
      ensures store == s && hasher == h
    {
      store := s;
      hasher := h;
    }

    /**
     * register($validated): a new user with the given name and e-mail whose
     * stored password is the hash of the given one and checks against it.
     * An e-mail already in use makes the insert fail and nothing is stored.
     */
    method Register(name: string, email: string, password: string) returns (user: Option<User>)
      requires store.Valid() && Sound(hasher)
      modifies store
      ensures store.Valid()
      ensures old(store.EmailTaken(email)) <==> user.None?
      ensures user.None? ==> unchanged(store)
      ensures user.Some? ==>
                && user.value.name == name && user.value.email == email
                && user.value.password == hasher.make(password)
                && hasher.check(password, user.value.password)
                && user.value.id !in old(store.users)
                && store.users == old(store.users)[user.value.id := user.value]
                && store.tokens == old(store.tokens)
    {
      user := store.Insert(name, email, hasher.make(password));
    }

    /**
     * attemptLogin($email, $password): null, with nothing changed, when no user
     * has the e-mail or the password does not check against the stored hash;
     * otherwise that user and a non-empty plain-text token whose row belongs to
     * the user and expires 600 seconds after `now`.
     */
    method AttemptLogin(email: string, password: string, now: int, secret: string) returns (r: Option<LoginResult>)
      requires store.Valid()
      modifies store
      ensures store.Valid()
      ensures var found := old(store.FindBy(Email, email));
              r.None? <==> found.None? || !hasher.check(password, old(store.users)[found.value].password)
      ensures r.None? ==> unchanged(store)
      ensures r.Some? ==>
                && r.value.user.email == email && r.value.user in old(store.users).Values
                && r.value.plainTextToken != []
                && var t := old(store.nextTokenId);
                   && r.value.plainTextToken == PlainTextToken(t, secret)
                   && store.tokens == old(store.tokens)[t := AccessToken(t, r.value.user.id, "user_login", Some(now + TokenLifetime), now)]
                   && store.users == old(store.users)
    {
      var found := store.FindBy(Email, email);
      if found.None? || !hasher.check(password, store.users[found.value].password) {
        return None;
      }
      var user := store.users[found.value];
      var token := store.IssueToken(user.id, "user_login", now, TokenLifetime);
      r := Some(LoginResult(user, PlainTextToken(token.id, secret)));
    }
  }
}
