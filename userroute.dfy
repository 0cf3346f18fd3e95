/** `GET /user/:id` behind `checkToken`: the record for the path id without its password.
    The id comes from the path, never from the token. */
module UserRoute {
  import opened Primitives
  import opened Words
  import opened Users
  import opened Http
  import opened Guard

  /** The handler alone, once the guard has called `next()`. */
  function FindUser(users: seq<User>, id: Id): (r: Reply)
    ensures r.Reply? && (r.status == 200 || r.status == 422)
    ensures r.status == 200 <==> exists i :: 0 <= i < |users| && users[i].id == id
    ensures r.status == 200 ==> exists u :: u in users && u.id == id && r.body == UserBody(Public(u))
    ensures r.status == 422 ==> r.body == Msg(UserNotFound)
  {
    match Lookup(users, ById(id))
    case None => Unprocessable(UserNotFound)
    case Some(u) => Reply(200, UserBody(Public(u)))
  }

  /** The guarded route. */
  function GetUser(users: seq<User>, header: Option<string>, id: Id, c: Crypto, secret: Secret): (r: Reply)
    ensures r.Reply? && r.status in {200, 400, 401, 422}
    ensures r.status == 200 ==> exists u :: u in users && u.id == id && r.body == UserBody(Public(u))
  {
    match CheckToken(header, secret, c)
    case Halt(reply) => reply
    case Next => FindUser(users, id)
  }

  /** With distinct identifiers the route finds the one record holding the id. */
  lemma LookupUniqueId(users: seq<User>, k: nat)
    requires forall i, j :: 0 <= i < j < |users| ==> users[i].id != users[j].id
    requires k < |users|
    ensures Lookup(users, ById(users[k].id)) == Some(users[k])
  {
    var r := Find(users, ById(users[k].id));
    assert !(r.value < k) && !(k < r.value);
  }

  /** Any token that passes the guard reads any record: the answer depends on the path id
      only, not on whose id the token carries. */
  lemma AnyValidTokenReadsAnyUser(users: seq<User>, nextId: Id, k: nat, first: string, subject: Payload,
                                  c: Crypto, secret: Secret)
    requires c.Sound() && IdsFresh(users, nextId)
    requires k < |users| && Space !in first
    requires c.sign(subject, secret).Some?
    ensures GetUser(users, Some(first + [Space] + c.sign(subject, secret).value), users[k].id, c, secret)
         == Reply(200, UserBody(Public(users[k])))
  {
    SignedTokenPasses(first, subject, secret, c);
    LookupUniqueId(users, k);
  }

  /** A token that passes the guard for an id no record has gets 422. */
  lemma UnknownIdNotFound(users: seq<User>, header: Option<string>, id: Id, c: Crypto, secret: Secret)
    requires CheckToken(header, secret, c).Next?
    requires forall i :: 0 <= i < |users| ==> users[i].id != id
    ensures GetUser(users, header, id, c, secret) == Unprocessable(UserNotFound)
  {
  }

  /** The guard's refusals reach the client unchanged: 401 without a token, 400 for a
      token that does not verify. */
  lemma GuardRefusals(users: seq<User>, first: string, token: string, id: Id, c: Crypto, secret: Secret)
    requires Space !in first && Space !in token && token != ""
    requires c.verify(token, secret).None?
    ensures GetUser(users, None, id, c, secret) == Reply(401, Msg(AccessDenied))
    ensures GetUser(users, Some(first), id, c, secret) == Reply(401, Msg(AccessDenied))
    ensures GetUser(users, Some(first + [Space]), id, c, secret) == Reply(401, Msg(AccessDenied))
    ensures GetUser(users, Some(first + [Space] + token), id, c, secret) == Reply(400, Msg(InvalidToken))
  {
    NoSecondWord(first, []);
    assert first + [Space] + [] == first + [Space];
    GuardOnToken(first, token, [], secret, c);
    assert first + [Space] + token + [] == first + [Space] + token;
  }
}
