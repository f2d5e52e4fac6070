/**
 Reading a stream one delimited token at a time with `getdelim(3)`. The
 unread part of the stream is a string; a read returns the token and the
 rest of the stream.
 */
module Stdio {
  import opened CTypes

  datatype Token = Token(token: string, rest: string)

  /** `getdelim(&buf, &len, delim, f)`: the characters up to and including
      the first `delim`, or everything that is left when no `delim` comes;
      at end of stream nothing is read and the call fails (returns -1). */
  function GetDelim(s: string, delim: char): (r: Option<Token>)
    ensures r.None? <==> s == []
    ensures r.Some? ==> r.value.token + r.value.rest == s && r.value.token != []
    ensures r.Some? ==> delim !in r.value.token[..|r.value.token| - 1]
    ensures r.Some? ==> r.value.token[|r.value.token| - 1] == delim || r.value.rest == []
    decreases |s|
  {
    if s == [] then None
    else if s[0] == delim then Some(Token([s[0]], s[1..]))
    else match GetDelim(s[1..], delim)
      case None => Some(Token([s[0]], []))
      case Some(t) => Some(Token([s[0]] + t.token, t.rest))
  }

  /** A token written with its delimiter is read back whole, and the stream
      continues right after the delimiter. */
  lemma {:induction false} GetDelimReadsToken(body: string, delim: char, rest: string)
    requires delim !in body
    ensures GetDelim(body + [delim] + rest, delim) == Some(Token(body + [delim], rest))
    decreases |body|
  {
    var s := body + [delim] + rest;
    if body == [] {
      assert s[0] == delim && s[1..] == rest;
    } else {
      assert s[0] == body[0] && s[1..] == body[1..] + [delim] + rest;
      GetDelimReadsToken(body[1..], delim, rest);
      assert [body[0]] + (body[1..] + [delim]) == body + [delim];
    }
  }

  /** Text without the delimiter is read whole as the last token. */
  lemma GetDelimReadsAll(s: string, delim: char)
    requires s != [] && delim !in s
    ensures GetDelim(s, delim) == Some(Token(s, []))
  {
    var r := GetDelim(s, delim).value;
    assert r.token[|r.token| - 1] == s[|r.token| - 1];
    assert r.rest == [] && r.token + [] == r.token;
  }

  /** A token that does not end with the delimiter is the whole text, so
      the text holds no delimiter. */
  lemma GetDelimWithoutDelim(s: string, delim: char)
    requires GetDelim(s, delim).Some?
    requires GetDelim(s, delim).value.token[|GetDelim(s, delim).value.token| - 1] != delim
    ensures delim !in s
  {
    var r := GetDelim(s, delim).value;
    var n := |r.token|;
    assert r.rest == [] && s == r.token + [];
    assert r.token == r.token[..n - 1] + [r.token[n - 1]];
  }

  /** A token that ends with the delimiter is the text before it plus the
      delimiter. */
  lemma GetDelimWithDelim(s: string, delim: char)
    requires GetDelim(s, delim).Some?
    requires GetDelim(s, delim).value.token[|GetDelim(s, delim).value.token| - 1] == delim
    ensures var r := GetDelim(s, delim).value;
            var body := r.token[..|r.token| - 1];
            delim !in body && s == body + [delim] + r.rest
  {
    var r := GetDelim(s, delim).value;
    assert r.token == r.token[..|r.token| - 1] + [delim];
  }
}
