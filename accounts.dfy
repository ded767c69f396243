/**
 * The `users` and `personal_access_tokens` tables as the authentication code
 * sees them, with password hashing left abstract.  A hasher is a pair of
 * functions; the one law the code relies on is that a password checks against
 * its own hash.  Token issuance keeps the row (owner, name, expiry, creation
 * time); the random secret of the plain-text token is a parameter.
 */
module Accounts {
  import opened Php

  /** Hash::make and Hash::check. */
  datatype Hasher = Hasher(make: string -> string, check: (string, string) -> bool)

  /** Every password checks against its own hash. */
  ghost predicate Sound(h: Hasher) {
    forall p :: h.check(p, h.make(p))
  }

  /** A `users` row; `password` holds the stored hash. */
  datatype User = User(id: nat, name: string, email: string, password: string)

  /** A `personal_access_tokens` row; a token made by createToken has no expiry yet. */
  datatype AccessToken = AccessToken(id: nat, userId: nat, name: string, expiresAt: Option<int>, createdAt: int)

  /** The columns a user is looked up by. */
  datatype Column = Name | Email

  function Field(u: User, c: Column): string {
    match c
    case Name => u.name
    case Email => u.email
  }

  /**
   * `User::where(column, value)->first()` over the ids in [from, bound): the
   * lowest id whose row has that value, or none.
   */
  function FirstFrom(users: map<nat, User>, c: Column, value: string, from: nat, bound: nat): (r: Option<nat>)
    decreases bound - from
    ensures r.Some? ==> && r.value in users && from <= r.value < bound
                        && Field(users[r.value], c) == value
                        && forall id :: from <= id < r.value && id in users ==> Field(users[id], c) != value
    ensures r.None? ==> forall id :: from <= id < bound && id in users ==> Field(users[id], c) != value
  {
    if from >= bound then None
    else if from in users && Field(users[from], c) == value then Some(from)
    else FirstFrom(users, c, value, from + 1, bound)
  }

  /** Sanctum's plain-text token: the token row's id, '|', and the random secret. */
  function PlainTextToken(tokenId: nat, secret: string): (t: string)
    ensures t != []
    ensures var d := Digits(tokenId); |t| == |d| + 1 + |secret| && t[..|d|] == d && t[|d|] == '|' && t[|d| + 1..] == secret
  {
    Digits(tokenId) + "|" + secret
  }

  class UserStore {
    var users: map<nat, User>
    var tokens: map<nat, AccessToken>
    var nextUserId: nat
    var nextTokenId: nat

    /** Rows are keyed by their ids, ids come from the counters, and e-mails are unique (users.email is UNIQUE). */
    ghost predicate Valid()
      reads this
    {
      && (forall id :: id in users ==> users[id].id == id && id < nextUserId)
      && (forall id :: id in tokens ==> tokens[id].id == id && id < nextTokenId)
      && (forall a, b :: a in users && b in users && users[a].email == users[b].email ==> a == b)
    }

    constructor()
      ensures Valid() && users == map[] && tokens == map[]
    {
      users := map[];
      tokens := map[];
      nextUserId := 1;
      nextTokenId := 1;
    }

    /** Some user already has this e-mail. */
    predicate EmailTaken(email: string)
      reads this
    {
      exists id :: id in users && users[id].email == email
    }

    /** `User::where(column, value)->first()`: the id of the first matching row. */
    function FindBy(c: Column, value: string): (r: Option<nat>)
      reads this
      ensures r.Some? ==> r.value in users && Field(users[r.value], c) == value
    {
      FirstFrom(users, c, value, 0, nextUserId)
    }

    /** With unique e-mails, a lookup by e-mail finds a user exactly when the e-mail is taken. */
    lemma FindByEmailFindsTaken(email: string)
      requires Valid()
      ensures FindBy(Email, email).Some? <==> EmailTaken(email)
    {
      if EmailTaken(email) {
        var id :| id in users && users[id].email == email;
        assert id < nextUserId;
      }
    }

    /**
     * User::create: a new row with the next id.  When the e-mail is already
     * taken, the unique index makes the insert throw; that exception is
     * modelled as None, with nothing changed.
     */
    method Insert(name: string, email: string, password: string) returns (user: Option<User>)
      requires Valid()
      modifies this
      ensures Valid()
      ensures old(EmailTaken(email)) ==> user == None && unchanged(this)
      ensures !old(EmailTaken(email)) ==>
                && user == Some(User(old(nextUserId), name, email, password))
                && users == old(users)[user.value.id := user.value]
                && user.value.id !in old(users)
                && tokens == old(tokens) && nextTokenId == old(nextTokenId)
    {
      if EmailTaken(email) {
        return None;
      }
      var u := User(nextUserId, name, email, password);
      users := users[u.id := u];
      nextUserId := nextUserId + 1;
      user := Some(u);
    }

    /** $user->createToken($name): a new token row of that user, with no expiry. */
    method CreateToken(userId: nat, name: string, now: int) returns (token: AccessToken)
      requires Valid()
      modifies this
      ensures Valid()
      ensures token == AccessToken(old(nextTokenId), userId, name, None, now)
      ensures token.id !in old(tokens) && tokens == old(tokens)[token.id := token]
      ensures users == old(users) && nextUserId == old(nextUserId)
    {
      token := AccessToken(nextTokenId, userId, name, None, now);
      tokens := tokens[token.id := token];
      nextTokenId := nextTokenId + 1;
    }

    /**
     * createToken($name), then `expires_at` set to now + lifetime, then save():
     * one new token row of the user, expiring `lifetime` seconds after `now`.
     */
    method IssueToken(userId: nat, name: string, now: int, lifetime: int) returns (token: AccessToken)
      requires Valid()
      modifies this
      ensures Valid()
      ensures token == AccessToken(old(nextTokenId), userId, name, Some(now + lifetime), now)
      ensures token.id !in old(tokens) && tokens == old(tokens)[token.id := token]
      ensures users == old(users) && nextUserId == old(nextUserId)
    {
      token := CreateToken(userId, name, now);
      token := token.(expiresAt := Some(now + lifetime));
      SaveToken(token);
    }

    /** $token->save(): the token row is overwritten with the given one. */
    method SaveToken(token: AccessToken)
      requires Valid() && token.id in tokens
      modifies this
      ensures Valid()
      ensures tokens == old(tokens)[token.id := token]
      ensures users == old(users) && nextUserId == old(nextUserId) && nextTokenId == old(nextTokenId)
    {
      tokens := tokens[token.id := token];
    }
  }
}
