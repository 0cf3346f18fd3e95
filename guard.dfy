/** The `checkToken` middleware that guards `GET /user/:id`: it takes the second
    space-separated field of the `Authorization` header as the token and lets the request
    through when `jwt.verify` accepts it. The first field (meant to be `Bearer`) is never
    looked at, and the verified payload is thrown away. */
module Guard {
  import opened Primitives
  import opened Words
  import opened Http

  /** `authHeader && authHeader.split(" ")[1]`, kept only when truthy: an absent or empty
      header, a header with one field and an empty second field all give `None`. */
  function ExtractToken(header: Option<string>): (r: Option<string>)
    ensures r.Some? ==> r.value != "" && Space !in r.value
  {
    match header
    case None => None
    case Some(h) =>
      var fields := Split(h);
      if |fields| >= 2 && fields[1] != "" then Some(fields[1]) else None
  }

  /** What the middleware decides: answer the request itself, or call `next()`. */
  datatype Decision = Halt(reply: Reply) | Next

  function CheckToken(header: Option<string>, secret: Secret, c: Crypto): (r: Decision)
    ensures r.Halt? ==> r.reply == Reply(401, Msg(AccessDenied)) || r.reply == Reply(400, Msg(InvalidToken))
  {
    match ExtractToken(header)
    case None => Halt(Reply(401, Msg(AccessDenied)))
    case Some(token) =>
      if c.verify(token, secret).Some? then Next else Halt(Reply(400, Msg(InvalidToken)))
  }

  /** A header whose second field is a non-empty word yields that word as the token,
      whatever its first field is. */
  lemma ExtractSecondWord(first: string, token: string, rest: string)
    requires Space !in first && Space !in token && token != ""
    requires rest == [] || rest[0] == Space
    ensures ExtractToken(Some(first + [Space] + token + rest)) == Some(token)
  {
    SplitAfterWord(first, token + rest);
    assert first + [Space] + token + rest == first + [Space] + (token + rest);
    SplitWord(token, rest);
  }

  /** `h` is a space-free first word, a space, `token`, and then nothing or a space. */
  predicate SecondWordOf(h: string, first: string, token: string, rest: string) {
    Space !in first && (rest == [] || rest[0] == Space) && h == first + [Space] + token + rest
  }

  /** Conversely, every token the guard extracts is such a second word. */
  lemma ExtractTokenForm(h: string, token: string)
    requires ExtractToken(Some(h)) == Some(token)
    ensures exists first, rest :: SecondWordOf(h, first, token, rest)
  {
    var fields := Split(h);
    JoinSplit(h);
    var tail := fields[1..];
    assert tail[0] == token;
    var rest: string := if |tail| == 1 then [] else [Space] + Join(tail[1..]);
    assert Join(tail) == token + rest;
    assert h == fields[0] + [Space] + (token + rest);
    assert SecondWordOf(h, fields[0], token, rest);
  }

  /** No token at all: a missing header, a single word, or a first word followed by a
      space and then nothing or another space (for instance `"Bearer "`). */
  lemma NoSecondWord(first: string, rest: string)
    requires Space !in first
    requires rest == [] || rest[0] == Space
    ensures ExtractToken(None) == None
    ensures ExtractToken(Some(first)) == None
    ensures ExtractToken(Some(first + [Space] + rest)) == None
  {
    SplitWord(first, []);
    assert first + [] == first;
    assert Split([]) == [""];
    SplitAfterWord(first, rest);
  }

  /** The first word is never checked: swapping it leaves the extracted token unchanged. */
  lemma FirstWordIgnored(first: string, other: string, rest: string)
    requires Space !in first && Space !in other
    ensures ExtractToken(Some(first + [Space] + rest)) == ExtractToken(Some(other + [Space] + rest))
  {
    SplitAfterWord(first, rest);
    SplitAfterWord(other, rest);
  }

  /** Without a token the guard answers 401 "Acesso negado" and the handler is not run. */
  lemma DenyWithoutToken(header: Option<string>, secret: Secret, c: Crypto)
    requires ExtractToken(header).None?
    ensures CheckToken(header, secret, c) == Halt(Reply(401, Msg(AccessDenied)))
  {
  }

  /** With a token the handler runs exactly when `jwt.verify` accepts it; otherwise the
      guard answers 400 "Token invalido". */
  lemma GuardOnToken(first: string, token: string, rest: string, secret: Secret, c: Crypto)
    requires Space !in first && Space !in token && token != ""
    requires rest == [] || rest[0] == Space
    ensures CheckToken(Some(first + [Space] + token + rest), secret, c) ==
            if c.verify(token, secret).Some? then Next else Halt(Reply(400, Msg(InvalidToken)))
  {
    ExtractSecondWord(first, token, rest);
  }

  /** A token that login signed passes the guard when sent as `<word> <token>`. */
  lemma SignedTokenPasses(first: string, p: Payload, secret: Secret, c: Crypto)
    requires c.Sound()
    requires Space !in first
    requires c.sign(p, secret).Some?
    ensures CheckToken(Some(first + [Space] + c.sign(p, secret).value), secret, c) == Next
  {
    var t := c.sign(p, secret).value;
    assert c.SignedTokenOk(t, p, secret);
    GuardOnToken(first, t, [], secret, c);
    assert first + [Space] + t + [] == first + [Space] + t;
  }
}
