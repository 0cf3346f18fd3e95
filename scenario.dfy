/** Clients of the handlers: request sequences run against one store, and what the
    contracts let a caller conclude about them. */
module Scenario {
  import opened Primitives
  import opened Words
  import opened Users
  import opened Http
  import opened Guard
  import opened Registration
  import opened LoginRoute
  import opened UserRoute

  /** Register Ana, log in as Ana, then read Ana's record with `Bearer <token>`. */
  method RegisterLoginFetch(c: Crypto, secret: Secret, nonce: nat)
    returns (registered: Reply, loggedIn: Reply, fetched: Reply)
    requires c.Sound()
    requires c.sign(Payload(0), secret).Some?
    ensures registered == Reply(201, Msg(UserCreated))
    ensures loggedIn == Reply(200, MsgToken(LoginSucceeded, c.sign(Payload(0), secret).value))
    ensures c.verify(loggedIn.body.token, secret) == Some(Payload(0))
    ensures fetched == Reply(200, UserBody(PublicUser(0, "Ana", "a@x.com")))
  {
    var store := new UserStore();
    var body := RegisterBody(Some("Ana"), Some("a@x.com"), Some("p1"), Some("p1"));
    assert RegisterError([], body).None?;
    registered := store.Register(body, c, nonce, true);
    RegisterThenLogin([], 0, body, c, nonce, secret);
    loggedIn := Login(store.users, LoginBody(Some("a@x.com"), Some("p1")), c, secret);
    var header := "Bearer" + [Space] + loggedIn.body.token;
    AnyValidTokenReadsAnyUser(store.users, store.nextId, 0, "Bearer", Payload(0), c, secret);
    fetched := GetUser(store.users, Some(header), 0, c, secret);
  }

  /** Two registrations with the same email: whichever saves first wins, the other is
      refused, and at most one record ever carries that email. */
  method RegisterTwice(store: UserStore, body: RegisterBody, c: Crypto, nonce1: nat, nonce2: nat,
                       save1: bool, save2: bool)
    returns (first: Reply, second: Reply)
    requires store.Valid()
    requires RegisterError(store.users, body).None?
    modifies store
    ensures store.Valid()
    ensures save1 ==> first == Reply(201, Msg(UserCreated)) && second == Unprocessable(EmailExists)
    ensures !save1 ==> first == Reply(500, Msg(CreateFailed))
    ensures CountEmail(store.users, body.email.value) == (if save1 || save2 then 1 else 0)
    ensures forall e :: CountEmail(store.users, e) <= 1
  {
    ghost var before := store.users;
    CountEmailZero(before, body.email.value);
    first := store.Register(body, c, nonce1, save1);
    if save1 {
      SecondRegistrationRejected(before, old(store.nextId), body, body, c, nonce1);
    }
    second := store.Register(body, c, nonce2, save2);
    if !save1 && save2 {
      SecondRegistrationRejected(before, old(store.nextId) + 1, body, body, c, nonce2);
    }
    forall e {
      UniqueEmailCount(store.users, e);
    }
  }
}
