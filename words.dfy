/** JavaScript's `String.prototype.split(" ")` on a one-character separator, which the
    access guard uses to take the token out of the `Authorization` header. */
module Words {

  const Space: char := ' '

  /** The fields of `s` between spaces, as JavaScript returns them: always at least one
      field, an empty field between two adjacent spaces and at either end. */
  function Split(s: string): (r: seq<string>)
    ensures |r| >= 1
    ensures forall i :: 0 <= i < |r| ==> Space !in r[i]
    decreases |s|
  {
    if s == [] then [""]
    else if s[0] == Space then [""] + Split(s[1..])
    else
      var rest := Split(s[1..]);
      [[s[0]] + rest[0]] + rest[1..]
  }

  /** The inverse of `Split`: the fields written back with one space between each pair. */
  function Join(fields: seq<string>): (r: string)
    requires |fields| >= 1
  {
    if |fields| == 1 then fields[0] else fields[0] + [Space] + Join(fields[1..])
  }

  /** Splitting loses nothing: joining the fields gives the original header back. */
  lemma {:induction false} JoinSplit(s: string)
    ensures Join(Split(s)) == s
    decreases |s|
  {
    if s == [] {
    } else if s[0] == Space {
      JoinSplit(s[1..]);
      assert Split(s) == [""] + Split(s[1..]);
      assert s == [Space] + s[1..];
    } else {
      var rest := Split(s[1..]);
      JoinSplit(s[1..]);
      var head := [s[0]] + rest[0];
      assert Split(s) == [head] + rest[1..];
      if |rest| == 1 {
        assert s == [s[0]] + rest[0];
      } else {
        assert Join(rest) == rest[0] + [Space] + Join(rest[1..]);
        assert Join(Split(s)) == head + [Space] + Join(rest[1..]);
        assert s == [s[0]] + s[1..];
      }
    }
  }

  /** Joining space-free fields and splitting again gives the same fields: the fields
      `Split` returns are the only space-free decomposition of the string. */
  lemma {:induction false} SplitJoin(fields: seq<string>)
    requires |fields| >= 1
    requires forall i :: 0 <= i < |fields| ==> Space !in fields[i]
    ensures Split(Join(fields)) == fields
    decreases |fields|
  {
    if |fields| == 1 {
      SplitWord(fields[0], "");
      assert fields[0] + "" == fields[0];
    } else {
      SplitJoin(fields[1..]);
      SplitAfterWord(fields[0], Join(fields[1..]));
      assert fields == [fields[0]] + fields[1..];
    }
  }

  /** A space-free word followed by a space splits off as the first field. */
  lemma {:induction false} SplitAfterWord(w: string, s: string)
    requires Space !in w
    ensures Split(w + [Space] + s) == [w] + Split(s)
    decreases |w|
  {
    if w == [] {
      assert w + [Space] + s == [Space] + s;
    } else {
      SplitAfterWord(w[1..], s);
      assert (w + [Space] + s)[1..] == w[1..] + [Space] + s;
      assert [w[0]] + w[1..] == w;
    }
  }

  /** A space-free word ends at the end of the string or at the next space. */
  lemma {:induction false} SplitWord(w: string, rest: string)
    requires Space !in w
    requires rest == [] || rest[0] == Space
    ensures Split(w + rest)[0] == w
    ensures |Split(w + rest)| == |Split(rest)|
    decreases |w|
  {
    if w == [] {
      assert w + rest == rest;
      if rest != [] {
        assert Split(rest)[0] == "";
      }
    } else {
      SplitWord(w[1..], rest);
      assert (w + rest)[1..] == w[1..] + rest;
      assert [w[0]] + w[1..] == w;
    }
  }
}
