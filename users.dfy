/** The user collection as the handlers see it: records in insertion order, looked up by
    `User.findOne({ email })` and `User.findById(id)`, which return the first match. */
module Users {
  import opened Primitives

  /** A stored user document; `password` holds the bcrypt hash. */
  datatype User = User(id: Id, name: string, email: string, password: string)

  /** A user document read with the projection `"-password"`. */
  datatype PublicUser = PublicUser(id: Id, name: string, email: string)

  function Public(u: User): (p: PublicUser)
    ensures p.id == u.id && p.name == u.name && p.email == u.email
  {
    PublicUser(u.id, u.name, u.email)
  }

  /** The two query filters the handlers use. */
  datatype Key = ByEmail(email: string) | ById(id: Id)

  predicate Matches(u: User, key: Key) {
    match key
    case ByEmail(e) => u.email == e
    case ById(i) => u.id == i
  }

  /** Index of the first record matching `key`, or `None` when no record does. */
  function Find(users: seq<User>, key: Key): (r: Option<nat>)
    ensures r.None? <==> forall i :: 0 <= i < |users| ==> !Matches(users[i], key)
    ensures r.Some? ==> r.value < |users| && Matches(users[r.value], key)
    ensures r.Some? ==> forall j :: 0 <= j < r.value ==> !Matches(users[j], key)
  {
    if users == [] then None
    else if Matches(users[0], key) then Some(0)
    else match Find(users[1..], key)
      case None => None
      case Some(i) => Some(i + 1)
  }

  /** The record `findOne`/`findById` returns. */
  function Lookup(users: seq<User>, key: Key): (r: Option<User>)
    ensures r.None? <==> forall i :: 0 <= i < |users| ==> !Matches(users[i], key)
    ensures r.Some? ==> r.value in users && Matches(r.value, key)
  {
    match Find(users, key)
    case None => None
    case Some(i) => Some(users[i])
  }

  /** No two records share an email (the uniqueness registration enforces). */
  ghost predicate EmailsUnique(users: seq<User>) {
    forall i, j :: 0 <= i < j < |users| ==> users[i].email != users[j].email
  }

  /** Every identifier is below the next one the store hands out, and none repeats. */
  ghost predicate IdsFresh(users: seq<User>, nextId: Id) {
    && (forall i :: 0 <= i < |users| ==> users[i].id < nextId)
    && (forall i, j :: 0 <= i < j < |users| ==> users[i].id != users[j].id)
  }

  /** Number of records with the given email. */
  function CountEmail(users: seq<User>, email: string): (r: nat) {
    if users == [] then 0
    else CountEmail(users[..|users| - 1], email) + (if users[|users| - 1].email == email then 1 else 0)
  }

  /** No record has the email exactly when none is counted. */
  lemma {:induction false} CountEmailZero(users: seq<User>, email: string)
    ensures CountEmail(users, email) == 0 <==> forall i :: 0 <= i < |users| ==> users[i].email != email
    decreases |users|
  {
    if users != [] {
      var init := users[..|users| - 1];
      CountEmailZero(init, email);
      assert forall i :: 0 <= i < |init| ==> init[i] == users[i];
    }
  }

  /** With unique emails at most one record carries any given email. */
  lemma {:induction false} UniqueEmailCount(users: seq<User>, email: string)
    requires EmailsUnique(users)
    ensures CountEmail(users, email) <= 1
    decreases |users|
  {
    if users != [] {
      var init := users[..|users| - 1];
      assert forall i :: 0 <= i < |init| ==> init[i] == users[i];
      UniqueEmailCount(init, email);
      if users[|users| - 1].email == email {
        CountEmailZero(init, email);
      }
    }
  }

  /** With unique emails, the record `findOne({ email })` returns is the only one with it. */
  lemma LookupUniqueEmail(users: seq<User>, k: nat)
    requires EmailsUnique(users)
    requires k < |users|
    ensures Lookup(users, ByEmail(users[k].email)) == Some(users[k])
  {
    var r := Find(users, ByEmail(users[k].email));
    assert r.Some?;
    assert !(r.value < k) && !(k < r.value);
  }
}
