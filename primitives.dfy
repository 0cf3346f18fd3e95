/** Values shared by every handler of the API, and the two foreign libraries it calls:
    bcrypt (password hashing) and jsonwebtoken (bearer tokens). The libraries are not
    modelled; they are parameters of type `Crypto`, and what the handlers rely on about
    them is collected in `Crypto.Sound()`. */
module Primitives {

  datatype Option<+T> = None | Some(value: T)

  /** A field of a JSON request body. JavaScript's `!x` holds for `undefined` and for the
      empty string; only a present, non-empty string passes a presence check. */
  type Field = Option<string>

  predicate Present(f: Field) {
    f.Some? && f.value != ""
  }

  /** Store-generated record identifier (a MongoDB ObjectId). */
  type Id = nat

  /** The token signing secret, read once from the environment at start-up. */
  type Secret = string

  /** `bcrypt.genSalt(12)`: the cost factor and the random part drawn for this call. */
  const SaltRounds: nat := 12

  datatype Salt = Salt(rounds: nat, nonce: nat)

  /** The claim set that login signs: `{ id: user._id }`. */
  datatype Payload = Payload(id: Id)

  /** The library calls the handlers make:
      - `hash(pw, salt)`   is `bcrypt.hash(password, salt)`;
      - `compare(pw, h)`   is `bcrypt.compare(password, hash)`;
      - `sign(p, secret)`  is `jwt.sign(p, secret)`, `None` when it throws;
      - `verify(t, secret)` is `jwt.verify(t, secret)`, `None` when it throws. */
  datatype Crypto = Crypto(
    hash: (string, Salt) -> string,
    compare: (string, string) -> bool,
    sign: (Payload, Secret) -> Option<string>,
    verify: (string, Secret) -> Option<Payload>)
  {
    /** What the handlers assume of the libraries: a hash matches the password it was
        made from and no other, and never equals that password; a token that signing
        produced verifies under the same secret to the signed payload, and (being a
        compact JWS serialization) is a non-empty string without spaces. */
    ghost predicate Sound() {
      && (forall pw, s :: compare(pw, hash(pw, s)))
      && (forall pw, other, s :: pw != other ==> !compare(other, hash(pw, s)))
      && (forall pw, s :: hash(pw, s) != pw)
      && (forall p, k :: sign(p, k).Some? ==> SignedTokenOk(sign(p, k).value, p, k))
    }

    ghost predicate SignedTokenOk(t: string, p: Payload, k: Secret) {
      verify(t, k) == Some(p) && t != "" && ' ' !in t
    }
  }
}
