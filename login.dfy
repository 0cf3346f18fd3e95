/** `POST /auth/login`: two presence checks, a lookup by email, a bcrypt comparison and a
    signed token. It only reads the store. */
module LoginRoute {
  import opened Primitives
  import opened Users
  import opened Http
  import opened Registration

  /** The destructured request body `{ email, password }`. */
  datatype LoginBody = LoginBody(email: Field, password: Field)

  function Login(users: seq<User>, b: LoginBody, c: Crypto, secret: Secret): (r: Reply)
    ensures r.Reply? ==> r.status == 200 || r.status == 422
    ensures r.Reply? && r.status == 422 ==>
      r.body in {Msg(EmailRequired), Msg(PasswordRequired), Msg(InvalidCredentials)}
    ensures r.Reply? && r.status == 200 ==>
      Present(b.email) && Present(b.password) && r.body.MsgToken? && r.body.msg == LoginSucceeded
      && exists u :: u in users && u.email == b.email.value && c.compare(b.password.value, u.password)
                  && c.sign(Payload(u.id), secret) == Some(r.body.token)
    ensures r.NoReply? ==>
      Present(b.email) && Present(b.password)
      && exists u :: u in users && u.email == b.email.value && c.compare(b.password.value, u.password)
                  && c.sign(Payload(u.id), secret).None?
  {
    if !Present(b.email) then Unprocessable(EmailRequired)
    else if !Present(b.password) then Unprocessable(PasswordRequired)
    else match Lookup(users, ByEmail(b.email.value))
      case None => Unprocessable(InvalidCredentials)
      case Some(u) =>
        if !c.compare(b.password.value, u.password) then Unprocessable(InvalidCredentials)
        else match c.sign(Payload(u.id), secret)
          case None => NoReply
          case Some(token) => Reply(200, MsgToken(LoginSucceeded, token))
  }

  /** Email is checked before password, each with its own message, before any lookup. */
  lemma LoginValidationOrder(users: seq<User>, b: LoginBody, c: Crypto, secret: Secret)
    ensures !Present(b.email) ==> Login(users, b, c, secret) == Unprocessable(EmailRequired)
    ensures Present(b.email) && !Present(b.password) ==>
      Login(users, b, c, secret) == Unprocessable(PasswordRequired)
  {
  }

  /** An unknown email and a wrong password for a known email get the same answer, so the
      response does not reveal which accounts exist. */
  lemma {:induction false} LoginHidesAccounts(users: seq<User>, unknown: string, k: nat, wrong: string,
                                              anyPassword: string, c: Crypto, secret: Secret)
    requires EmailsUnique(users)
    requires unknown != "" && anyPassword != "" && wrong != ""
    requires EmailFree(users, unknown)
    requires k < |users| && users[k].email != "" && !c.compare(wrong, users[k].password)
    ensures Login(users, LoginBody(Some(unknown), Some(anyPassword)), c, secret)
         == Login(users, LoginBody(Some(users[k].email), Some(wrong)), c, secret)
         == Unprocessable(InvalidCredentials)
  {
    LookupUniqueEmail(users, k);
  }

  /** With a sound hash a password other than the registered one is always refused. */
  lemma WrongPasswordRefused(users: seq<User>, k: nat, registered: string, salt: Salt, wrong: string,
                             c: Crypto, secret: Secret)
    requires c.Sound() && EmailsUnique(users)
    requires k < |users| && users[k].email != "" && users[k].password == c.hash(registered, salt)
    requires wrong != "" && wrong != registered
    ensures Login(users, LoginBody(Some(users[k].email), Some(wrong)), c, secret) == Unprocessable(InvalidCredentials)
  {
    LookupUniqueEmail(users, k);
    assert !c.compare(wrong, c.hash(registered, salt));
  }

  /** The registered email with its password gets 200 and a token that verifies to that
      user's id. */
  lemma LoginSucceeds(users: seq<User>, k: nat, password: string, salt: Salt, c: Crypto, secret: Secret)
    requires c.Sound() && EmailsUnique(users)
    requires k < |users| && users[k].email != "" && password != ""
    requires users[k].password == c.hash(password, salt)
    requires c.sign(Payload(users[k].id), secret).Some?
    ensures var token := c.sign(Payload(users[k].id), secret).value;
      && Login(users, LoginBody(Some(users[k].email), Some(password)), c, secret)
         == Reply(200, MsgToken(LoginSucceeded, token))
      && c.verify(token, secret) == Some(Payload(users[k].id))
  {
    LookupUniqueEmail(users, k);
    assert c.compare(password, c.hash(password, salt));
    var p := Payload(users[k].id);
    assert c.SignedTokenOk(c.sign(p, secret).value, p, secret);
  }

  /** Logging in right after a successful registration, with the same email and password,
      gets a token whose subject is the new record's id. */
  lemma RegisterThenLogin(users: seq<User>, nextId: Id, b: RegisterBody, c: Crypto, nonce: nat, secret: Secret)
    requires c.Sound() && EmailsUnique(users) && IdsFresh(users, nextId)
    requires RegisterError(users, b).None?
    requires c.sign(Payload(nextId), secret).Some?
    ensures var token := c.sign(Payload(nextId), secret).value;
      && Login(users + [NewUser(nextId, b, c, nonce)], LoginBody(b.email, b.password), c, secret)
         == Reply(200, MsgToken(LoginSucceeded, token))
      && c.verify(token, secret) == Some(Payload(nextId))
  {
    var after := users + [NewUser(nextId, b, c, nonce)];
    AcceptedKeepsInvariant(users, nextId, b, c, nonce);
    LoginSucceeds(after, |users|, b.password.value, Salt(SaltRounds, nonce), c, secret);
  }
}
