/** `POST /auth/register` over the user store: four field checks in a fixed order, a
    uniqueness check on the email, then one hashed record saved. */
module Registration {
  import opened Primitives
  import opened Users
  import opened Http

  /** The destructured request body `{ name, email, password, confirmpassword }`. */
  datatype RegisterBody = RegisterBody(name: Field, email: Field, password: Field, confirmpassword: Field)

  /** True when no stored record has this email (`User.findOne({ email })` finds nothing). */
  predicate EmailFree(users: seq<User>, email: string) {
    forall i :: 0 <= i < |users| ==> users[i].email != email
  }

  /** The message of the first check the body fails, in the handler's order, or `None`
      when registration may go ahead. */
  function RegisterError(users: seq<User>, b: RegisterBody): (r: Option<string>)
    ensures r.None? <==>
      Present(b.name) && Present(b.email) && Present(b.password) && b.password == b.confirmpassword
      && EmailFree(users, b.email.value)
  {
    if !Present(b.name) then Some(NameRequired)
    else if !Present(b.email) then Some(EmailRequired)
    else if !Present(b.password) then Some(PasswordRequired)
    else if b.password != b.confirmpassword then Some(PasswordMismatch)
    else if Lookup(users, ByEmail(b.email.value)).Some? then Some(EmailExists)
    else None
  }

  /** One validation step: whether it passed, and the message it answers with otherwise. */
  datatype Check = Check(passed: bool, msg: string)

  /** The message of the first failing check of a list. */
  function FirstFailure(checks: seq<Check>): (r: Option<string>) {
    if checks == [] then None
    else if !checks[0].passed then Some(checks[0].msg)
    else FirstFailure(checks[1..])
  }

  /** The first failing check alone decides: when every check before it passed, its
      message is the answer. */
  lemma {:induction false} FirstFailureAt(checks: seq<Check>, k: nat)
    requires k < |checks| && !checks[k].passed
    requires forall j :: 0 <= j < k ==> checks[j].passed
    ensures FirstFailure(checks) == Some(checks[k].msg)
    decreases k
  {
    if k > 0 {
      FirstFailureAt(checks[1..], k - 1);
    }
  }

  /** Conversely, an answer is always the message of some failing check that every check
      before it passed. */
  lemma {:induction false} FirstFailureFound(checks: seq<Check>, m: string)
    requires FirstFailure(checks) == Some(m)
    ensures exists k :: 0 <= k < |checks| && !checks[k].passed && checks[k].msg == m
                        && forall j :: 0 <= j < k ==> checks[j].passed
    decreases |checks|
  {
    if checks[0].passed {
      FirstFailureFound(checks[1..], m);
      var k :| 0 <= k < |checks[1..]| && !checks[1..][k].passed && checks[1..][k].msg == m
               && forall j :: 0 <= j < k ==> checks[1..][j].passed;
      assert forall j :: 1 <= j < k + 1 ==> checks[j] == checks[1..][j - 1];
      assert !checks[k + 1].passed && checks[k + 1].msg == m;
    } else {
      assert !checks[0].passed && checks[0].msg == m;
    }
  }

  lemma {:induction false} FirstFailureNone(checks: seq<Check>)
    ensures FirstFailure(checks) == None <==> forall j :: 0 <= j < |checks| ==> checks[j].passed
    decreases |checks|
  {
    if checks != [] {
      FirstFailureNone(checks[1..]);
      assert forall j :: 1 <= j < |checks| ==> checks[j] == checks[1..][j - 1];
    }
  }

  /** The handler's checks as a list, in the order it runs them. */
  function RegisterChecks(users: seq<User>, b: RegisterBody): (r: seq<Check>) {
    [ Check(Present(b.name), NameRequired),
      Check(Present(b.email), EmailRequired),
      Check(Present(b.password), PasswordRequired),
      Check(b.password == b.confirmpassword, PasswordMismatch),
      Check(b.email.None? || EmailFree(users, b.email.value), EmailExists) ]
  }

  /** Registration answers with the first failing check of the list, in order. */
  lemma RegisterErrorIsFirstFailure(users: seq<User>, b: RegisterBody)
    ensures RegisterError(users, b) == FirstFailure(RegisterChecks(users, b))
  {
    var cs := RegisterChecks(users, b);
    if !Present(b.name) {
      FirstFailureAt(cs, 0);
    } else if !Present(b.email) {
      FirstFailureAt(cs, 1);
    } else if !Present(b.password) {
      FirstFailureAt(cs, 2);
    } else if b.password != b.confirmpassword {
      FirstFailureAt(cs, 3);
    } else if !EmailFree(users, b.email.value) {
      FirstFailureAt(cs, 4);
    } else {
      FirstFailureNone(cs);
    }
  }

  /** The record `new User({ name, email, password: passwordHash })` builds, with the hash
      `bcrypt.hash(password, await bcrypt.genSalt(12))`. */
  function NewUser(id: Id, b: RegisterBody, c: Crypto, nonce: nat): (u: User)
    requires b.name.Some? && b.email.Some? && b.password.Some?
    ensures u.id == id && u.name == b.name.value && u.email == b.email.value
    ensures u.password == c.hash(b.password.value, Salt(SaltRounds, nonce))
  {
    User(id, b.name.value, b.email.value, c.hash(b.password.value, Salt(SaltRounds, nonce)))
  }

  /** The stored password field is the hash: it never equals the plaintext, and it matches
      the plaintext it came from and no other. */
  lemma StoredPasswordIsHash(id: Id, b: RegisterBody, c: Crypto, nonce: nat, guess: string)
    requires c.Sound()
    requires b.name.Some? && b.email.Some? && b.password.Some?
    ensures NewUser(id, b, c, nonce).password != b.password.value
    ensures c.compare(guess, NewUser(id, b, c, nonce).password) <==> guess == b.password.value
  {
    var s := Salt(SaltRounds, nonce);
    assert c.hash(b.password.value, s) != b.password.value;
    if guess != b.password.value {
      assert !c.compare(guess, c.hash(b.password.value, s));
    } else {
      assert c.compare(guess, c.hash(guess, s));
    }
  }

  /** Adding an accepted registration keeps emails unique and identifiers fresh. */
  lemma AcceptedKeepsInvariant(users: seq<User>, nextId: Id, b: RegisterBody, c: Crypto, nonce: nat)
    requires EmailsUnique(users) && IdsFresh(users, nextId)
    requires RegisterError(users, b).None?
    ensures EmailsUnique(users + [NewUser(nextId, b, c, nonce)])
    ensures IdsFresh(users + [NewUser(nextId, b, c, nonce)], nextId + 1)
  {
  }

  /** A second registration with the same email is refused with "O email ja existe", so
      exactly one record carries that email. */
  lemma {:induction false} SecondRegistrationRejected(users: seq<User>, id: Id, b: RegisterBody, again: RegisterBody,
                                                      c: Crypto, nonce: nat)
    requires EmailsUnique(users)
    requires RegisterError(users, b).None?
    requires Present(again.name) && again.email == b.email && Present(again.password)
    requires again.password == again.confirmpassword
    ensures RegisterError(users + [NewUser(id, b, c, nonce)], again) == Some(EmailExists)
    ensures CountEmail(users + [NewUser(id, b, c, nonce)], b.email.value) == 1
  {
    var after := users + [NewUser(id, b, c, nonce)];
    assert after[|users|].email == again.email.value;
    assert after[..|after| - 1] == users;
    CountEmailZero(users, b.email.value);
  }

  /** The user collection the API saves into. `nextId` stands for the ObjectId that
      mongoose gives a document when `new User(...)` builds it, before it is saved. */
  class UserStore {
    var users: seq<User>
    var nextId: Id

    ghost predicate Valid()
      reads this
    {
      EmailsUnique(users) && IdsFresh(users, nextId)
    }

    constructor ()
      ensures Valid() && users == [] && nextId == 0
    {
      users := [];
      nextId := 0;
    }

    /** The register handler. `nonce` is the randomness of `genSalt`; `saveOk` is whether
        `user.save()` succeeds. A failed check or a failed save leaves the records as they
        were; success adds exactly the one hashed record. */
    method Register(body: RegisterBody, c: Crypto, nonce: nat, saveOk: bool) returns (reply: Reply)
      requires Valid()
      modifies this
      ensures Valid()
      ensures RegisterError(old(users), body).Some? ==>
        reply == Unprocessable(RegisterError(old(users), body).value)
        && users == old(users) && nextId == old(nextId)
      ensures RegisterError(old(users), body).None? ==> nextId == old(nextId) + 1
      ensures RegisterError(old(users), body).None? && !saveOk ==>
        reply == Reply(500, Msg(CreateFailed)) && users == old(users)
      ensures RegisterError(old(users), body).None? && saveOk ==>
        reply == Reply(201, Msg(UserCreated))
        && users == old(users) + [NewUser(old(nextId), body, c, nonce)]
    {
      if !Present(body.name) {
        return Unprocessable(NameRequired);
      }
      if !Present(body.email) {
        return Unprocessable(EmailRequired);
      }
      if !Present(body.password) {
        return Unprocessable(PasswordRequired);
      }
      if body.password != body.confirmpassword {
        return Unprocessable(PasswordMismatch);
      }
      var userExists := Lookup(users, ByEmail(body.email.value));
      if userExists.Some? {
        return Unprocessable(EmailExists);
      }
      var passwordHash := c.hash(body.password.value, Salt(SaltRounds, nonce));
      var user := User(nextId, body.name.value, body.email.value, passwordHash);
      AcceptedKeepsInvariant(users, nextId, body, c, nonce);
      nextId := nextId + 1;
      if saveOk {
        users := users + [user];
        reply := Reply(201, Msg(UserCreated));
      } else {
        reply := Reply(500, Msg(CreateFailed));
      }
    }
  }
}
