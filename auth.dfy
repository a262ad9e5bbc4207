/**
 * The account lifecycle of the auth controller: registration with a
 * pending confirmation token, single-use confirmation, the verified gate
 * on login, and the current-user lookup.
 *
 * The framework's authenticator resolves the caller's identity before
 * `login` and `getCurrentUser` run; here it is passed in as an optional
 * user row. Password hashing, the email-address grammar, the entity
 * validator and the random source are parameters.
 */
module Auth {
  import opened Base
  import opened Php
  import opened Entities
  import opened Storage

  /** The shortest password `register` accepts, counted in bytes. */
  const MinPasswordBytes: nat := 6

  /** The link of a confirmation mail ends with, so contains, the token it confirms. */
  lemma MailLinkCarriesToken(m: Mail)
    ensures |m.Link()| >= |m.token| && m.Link()[|m.Link()| - |m.token|..] == m.token
    ensures Contains(m.Link(), m.token)
  {
    var url := m.Link();
    assert SliceAt(url, m.token, |url| - |m.token|);
    ContainsIff(url, m.token);
  }

  /** The confirmation token for 32 random bytes: `bin2hex(random_bytes(32))`. */
  function TokenOf(entropy: seq<byte>): (token: string)
    requires |entropy| == 32
    ensures |token| == 64
    ensures forall k :: 0 <= k < |token| ==> IsHexChar(token[k])
  {
    Bin2Hex(entropy)
  }

  /** Distinct random draws give distinct tokens. */
  lemma TokensDiffer(e1: seq<byte>, e2: seq<byte>)
    requires |e1| == 32 && |e2| == 32 && e1 != e2
    ensures TokenOf(e1) != TokenOf(e2)
  {
    if TokenOf(e1) == TokenOf(e2) {
      Bin2HexInjective(e1, e2);
    }
  }

  /** The user row `register` creates: unverified, holding a pending token. */
  function NewUser(id: UserId, email: string, passwordHash: string, token: string): (u: User)
    ensures !u.isVerified && u.confirmationToken == Some(token)
  {
    User(id, email, passwordHash, false, Some(token))
  }

  /**
   * POST /register. Checks, in this order: both fields present (400), the
   * trimmed email well-formed (400), the password at least 6 bytes long
   * (400), the email not yet taken (409), the entity constraints (400),
   * and the email fitting its column (the insert fails: 500). On success
   * it stores one unverified user holding a fresh 64-hex-digit token and
   * the hashed password, mails one confirmation link carrying that token,
   * and answers 201 with the new id and email only.
   */
  method Register(db: Store, email: Option<string>, password: Option<string>,
                  hashPassword: string -> string, isEmail: string -> bool,
                  violations: User -> seq<string>, entropy: seq<byte>, baseUrl: string)
    returns (status: int, created: Option<UserView>)
    requires db.Valid()
    requires |entropy| == 32
    requires forall u :: u in db.users ==> u.confirmationToken != Some(TokenOf(entropy))
    modifies db`users, db`nextUserId, db`outbox
    ensures db.Valid()
    ensures status in {HttpCreated, HttpBadRequest, HttpConflict, HttpServerError}
    ensures email.None? || password.None? ==> status == HttpBadRequest
    ensures email.Some? && password.Some? ==>
      var e := Trim(email.value);
      var u := NewUser(old(db.nextUserId), e, hashPassword(password.value), TokenOf(entropy));
      status ==
        if !isEmail(e) || StrLen(password.value) < MinPasswordBytes then HttpBadRequest
        else if exists v :: v in old(db.users) && v.email == e then HttpConflict
        else if |violations(u)| > 0 then HttpBadRequest
        else if |e| > MaxEmailLength then HttpServerError
        else HttpCreated
    ensures status != HttpCreated ==>
      db.users == old(db.users) && db.nextUserId == old(db.nextUserId) &&
      db.outbox == old(db.outbox) && created.None?
    ensures status == HttpCreated ==>
      email.Some? && password.Some? &&
      var u := NewUser(old(db.nextUserId), Trim(email.value), hashPassword(password.value), TokenOf(entropy));
      && db.users == old(db.users) + [u]
      && db.nextUserId == old(db.nextUserId) + 1
      && db.outbox == old(db.outbox) + [Mail(u.id, baseUrl, TokenOf(entropy))]
      && created == Some(UserView(u.id, u.email))
  {
    created := None;
    if email.None? || password.None? {
      return HttpBadRequest, None;
    }
    var e := Trim(email.value);
    var pw := password.value;
    if !isEmail(e) {
      return HttpBadRequest, None;
    }
    if StrLen(pw) < MinPasswordBytes {
      return HttpBadRequest, None;
    }
    if FindUserByEmail(db.users, e).Some? {
      return HttpConflict, None;
    }
    var token := TokenOf(entropy);
    var u := NewUser(db.nextUserId, e, hashPassword(pw), token);
    if |violations(u)| > 0 {
      return HttpBadRequest, None;
    }
    status, created := SaveAndMail(db, u, baseUrl);
  }

  /**
   * The tail of `register` once every check has passed: save the user
   * and, when the insert succeeds, mail its confirmation link.
   */
  method SaveAndMail(db: Store, u: User, baseUrl: string) returns (status: int, created: Option<UserView>)
    requires db.Valid() && u.id == db.nextUserId
    requires !u.isVerified && u.confirmationToken.Some?
    requires forall v :: v in db.users ==> v.email != u.email && v.confirmationToken != u.confirmationToken
    modifies db`users, db`nextUserId, db`outbox
    ensures db.Valid()
    ensures status == (if |u.email| <= MaxEmailLength then HttpCreated else HttpServerError)
    ensures status == HttpServerError ==>
      db.users == old(db.users) && db.nextUserId == old(db.nextUserId) && db.outbox == old(db.outbox) && created.None?
    ensures status == HttpCreated ==>
      && db.users == old(db.users) + [u]
      && db.nextUserId == old(db.nextUserId) + 1
      && db.outbox == old(db.outbox) + [Mail(u.id, baseUrl, u.confirmationToken.value)]
      && created == Some(UserView(u.id, u.email))
  {
    var stored, id := db.InsertUser(u);
    if !stored {
      return HttpServerError, None;
    }
    db.SendConfirmation(Mail(id, baseUrl, u.confirmationToken.value));
    status, created := HttpCreated, Some(UserView(u.id, u.email));
  }

  /**
   * GET /confirm/{token}. A token no user holds answers 404 and changes
   * nothing. Otherwise the holder becomes verified and loses its token,
   * no other user changes, and the answer is 200; the token then opens
   * nothing any more.
   */
  method ConfirmAccount(db: Store, token: string) returns (status: int)
    requires db.Valid()
    modifies db`users
    ensures db.Valid()
    ensures status == HttpOk || status == HttpNotFound
    ensures status == HttpNotFound <==> forall u :: u in old(db.users) ==> u.confirmationToken != Some(token)
    ensures status == HttpNotFound ==> db.users == old(db.users)
    ensures status == HttpOk ==>
      exists i :: 0 <= i < |old(db.users)| && old(db.users)[i].confirmationToken == Some(token) &&
        db.users == old(db.users)[i := Confirmed(old(db.users)[i])]
    ensures forall u :: u in db.users ==> u.confirmationToken != Some(token)
  {
    var found := FindUserByToken(db.users, token);
    if found.None? {
      return HttpNotFound;
    }
    var i := found.value;
    ghost var before := db.users;
    db.SaveConfirmed(i);
    forall j | 0 <= j < |db.users| ensures db.users[j].confirmationToken != Some(token) {
      if j != i {
        assert before[j].confirmationToken != before[i].confirmationToken;
      }
    }
    status := HttpOk;
  }

  /** Confirming the same token twice: the second attempt always answers 404. */
  method ConfirmTwice(db: Store, token: string) returns (first: int, second: int)
    requires db.Valid()
    modifies db`users
    ensures db.Valid()
    ensures second == HttpNotFound
  {
    first := ConfirmAccount(db, token);
    second := ConfirmAccount(db, token);
  }

  /** The answer of POST /login: a status and, on success, the user's id and email. */
  datatype LoginReply = LoginReply(status: int, user: Option<UserView>)

  /**
   * POST /login, after the authenticator has run: no identity is 401, an
   * unverified identity is 403 whatever its password, and a verified one
   * is 200 with its id and email.
   */
  function Login(identity: Option<User>): (r: LoginReply)
    ensures r.status == HttpUnauthorized <==> identity.None?
    ensures r.status == HttpForbidden <==> identity.Some? && !identity.value.isVerified
    ensures r.status == HttpOk <==> identity.Some? && identity.value.isVerified
    ensures r.user.Some? <==> r.status == HttpOk
    ensures r.user.Some? ==> r.user.value == UserView(identity.value.id, identity.value.email)
  {
    match identity
    case None => LoginReply(HttpUnauthorized, None)
    case Some(u) =>
      if !u.isVerified then LoginReply(HttpForbidden, None)
      else LoginReply(HttpOk, Some(UserView(u.id, u.email)))
  }

  /**
   * GET /user: always 200; `null` for an anonymous caller, otherwise the
   * caller's id, email and verification flag.
   */
  function GetCurrentUser(identity: Option<User>): (r: Option<CurrentUserView>)
    ensures r.None? <==> identity.None?
    ensures r.Some? ==>
      r.value == CurrentUserView(identity.value.id, identity.value.email, identity.value.isVerified)
  {
    match identity
    case None => None
    case Some(u) => Some(CurrentUserView(u.id, u.email, u.isVerified))
  }

  /**
   * In a valid store, a stored user passes the login gate exactly when it
   * no longer holds a confirmation token: a freshly registered user is
   * refused with 403 and a confirmed one is let in.
   */
  lemma LoginGate(users: seq<User>, nextId: nat, i: nat)
    requires UsersOk(users, nextId) && i < |users|
    ensures Login(Some(users[i])).status == HttpOk <==> users[i].confirmationToken.None?
    ensures Login(Some(users[i])).status == HttpForbidden <==> users[i].confirmationToken.Some?
  {
  }

  /** Confirmation is what opens the login gate. */
  lemma ConfirmationOpensLogin(u: User)
    ensures Login(Some(u.(isVerified := false))).status == HttpForbidden
    ensures Login(Some(Confirmed(u))).status == HttpOk
  {
  }
}
