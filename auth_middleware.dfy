/**
 * The bearer-token gate of backend/src/middleware/auth.ts. The token is the
 * second piece of the Authorization header split on single spaces; a
 * missing or empty piece answers 401, a token the verifier refuses answers
 * 403, and a verified token lets the request through carrying the verified
 * identity. The three answers are the values of `Outcome`: `Continue` is the
 * one call of `next` after setting `req.user`, `Reject` the one response
 * written instead.
 */
module AuthMiddleware {
  import opened Types

  datatype Outcome = Reject(status: int, message: string) | Continue(user: Payload)

  const TokenRequired := "Access token required"
  const TokenInvalid := "Invalid or expired token"

  /** String.prototype.split with a one-character separator: every piece, empty ones included. */
  function Split(s: string, sep: char): (pieces: seq<string>)
    ensures |pieces| >= 1
    ensures forall k :: 0 <= k < |pieces| ==> sep !in pieces[k]
  {
    if s == [] then [""]
    else if s[0] == sep then [""] + Split(s[1..], sep)
    else
      var rest := Split(s[1..], sep);
      [[s[0]] + rest[0]] + rest[1..]
  }

  /** Array.prototype.join: the pieces with the separator between them. */
  function Join(pieces: seq<string>, sep: char): string
    requires |pieces| >= 1
  {
    if |pieces| == 1 then pieces[0] else pieces[0] + [sep] + Join(pieces[1..], sep)
  }

  /** Splitting loses nothing: joining the pieces back gives the string. */
  lemma {:induction false} JoinSplit(s: string, sep: char)
    ensures Join(Split(s, sep), sep) == s
  {
    if s != [] {
      JoinSplit(s[1..], sep);
      var rest := Split(s[1..], sep);
      if s[0] != sep {
        var pieces := Split(s, sep);
        assert pieces[1..] == rest[1..];
        if |rest| > 1 {
          assert Join(rest, sep) == rest[0] + [sep] + Join(rest[1..], sep);
        }
      }
    }
  }

  /** A string without the separator is a single piece. */
  lemma {:induction false} SplitWithoutSeparator(s: string, sep: char)
    requires sep !in s
    ensures Split(s, sep) == [s]
  {
    if s != [] {
      SplitWithoutSeparator(s[1..], sep);
      assert [s[0]] + s[1..] == s;
    }
  }

  /** A separator-free prefix followed by the separator is the first piece. */
  lemma {:induction false} SplitAtFirstSeparator(a: string, b: string, sep: char)
    requires sep !in a
    ensures Split(a + [sep] + b, sep) == [a] + Split(b, sep)
  {
    if a == [] {
      assert a + [sep] + b == [sep] + b;
    } else {
      SplitAtFirstSeparator(a[1..], b, sep);
      assert (a + [sep] + b)[1..] == a[1..] + [sep] + b;
      assert [a[0]] + a[1..] == a;
    }
  }

  /** A separator-free word followed by nothing or by the separator is the first piece. */
  lemma FirstPiece(word: string, rest: string, sep: char)
    requires sep !in word
    requires rest == [] || rest[0] == sep
    ensures Split(word + rest, sep)[0] == word
  {
    if rest == [] {
      assert word + rest == word;
      SplitWithoutSeparator(word, sep);
    } else {
      assert word + rest == word + [sep] + rest[1..];
      SplitAtFirstSeparator(word, rest[1..], sep);
    }
  }

  /**
   * `authHeader && authHeader.split(' ')[1]`, with the falsy answers (no
   * header, an empty header, no second piece, an empty second piece) as
   * None.
   */
  function BearerToken(header: Option<string>): (token: Option<string>)
    ensures token.Some? ==> token.value != "" && ' ' !in token.value
  {
    if header.None? || header.value == "" then None
    else
      var pieces := Split(header.value, ' ');
      if |pieces| < 2 || pieces[1] == "" then None else Some(pieces[1])
  }

  /**
   * authenticateToken: 401 without a token, 403 when verification fails,
   * and otherwise the request continues with the verified payload as its
   * user. `verifyAccess` is jsonwebtoken's verify with the access secret at
   * time `now`, None where it throws.
   */
  function Authenticate(header: Option<string>, verifyAccess: (string, int) -> Option<Payload>, now: int): (r: Outcome)
    ensures header.None? ==> r == Reject(401, TokenRequired)
    ensures r == Reject(401, TokenRequired) <==> BearerToken(header).None?
    ensures r == Reject(403, TokenInvalid) <==>
      BearerToken(header).Some? && verifyAccess(BearerToken(header).value, now).None?
    ensures r.Continue? ==>
      BearerToken(header).Some? && verifyAccess(BearerToken(header).value, now) == Some(r.user)
    ensures BearerToken(header).Some? && verifyAccess(BearerToken(header).value, now).Some? ==>
      r == Continue(verifyAccess(BearerToken(header).value, now).value)
    ensures r.Reject? ==> r == Reject(401, TokenRequired) || r == Reject(403, TokenInvalid)
  {
    match BearerToken(header)
    case None => Reject(401, TokenRequired)
    case Some(token) =>
      match verifyAccess(token, now)
      case None => Reject(403, TokenInvalid)
      case Some(user) => Continue(user)
  }

  /**
   * The usual header `<scheme> <token>`, possibly followed by more
   * space-separated text, yields exactly that token.
   */
  lemma BearerTokenOfHeader(scheme: string, token: string, rest: string)
    requires ' ' !in scheme && ' ' !in token && token != ""
    requires rest == [] || rest[0] == ' '
    ensures BearerToken(Some(scheme + " " + token + rest)) == Some(token)
  {
    var h := scheme + " " + token + rest;
    assert h == scheme + [' '] + (token + rest);
    SplitAtFirstSeparator(scheme, token + rest, ' ');
    FirstPiece(token, rest, ' ');
  }

  /**
   * Conversely, an extracted token is the text after the header's first
   * space, up to the next space or the end.
   */
  lemma TokenFollowsFirstSpace(h: string)
    requires BearerToken(Some(h)).Some?
    ensures var t := BearerToken(Some(h)).value;
      exists i :: 0 <= i < |h| && h[i] == ' ' && ' ' !in h[..i]
        && i + 1 + |t| <= |h| && h[i + 1..i + 1 + |t|] == t
        && (i + 1 + |t| == |h| || h[i + 1 + |t|] == ' ')
  {
    var pieces := Split(h, ' ');
    var t := pieces[1];
    assert t == BearerToken(Some(h)).value;
    JoinSplit(h, ' ');
    var i := |pieces[0]|;
    var tail := Join(pieces[1..], ' ');
    assert h == pieces[0] + [' '] + tail;
    if |pieces| == 2 {
      assert tail == t;
    } else {
      assert pieces[1..][1..] == pieces[2..];
      assert tail == t + [' '] + Join(pieces[2..], ' ');
    }
    assert h[i] == ' ';
    assert h[..i] == pieces[0];
    assert ' ' !in h[..i];
    assert h[i + 1..] == tail;
    assert h[i + 1..i + 1 + |t|] == t;
    assert i + 1 + |t| == |h| || h[i + 1 + |t|] == ' ';
  }

  /** A header with no space at all, such as "Bearer" alone, answers 401. */
  lemma NoSpaceRejected(h: string, verifyAccess: (string, int) -> Option<Payload>, now: int)
    requires ' ' !in h
    ensures Authenticate(Some(h), verifyAccess, now) == Reject(401, TokenRequired)
  {
    SplitWithoutSeparator(h, ' ');
  }

  /** A double space after the scheme leaves the second piece empty: 401. */
  lemma DoubleSpaceRejected(scheme: string, rest: string, verifyAccess: (string, int) -> Option<Payload>, now: int)
    requires ' ' !in scheme
    ensures Authenticate(Some(scheme + "  " + rest), verifyAccess, now) == Reject(401, TokenRequired)
  {
    assert scheme + "  " + rest == scheme + [' '] + ([' '] + rest);
    SplitAtFirstSeparator(scheme, [' '] + rest, ' ');
    assert [' '] + rest == [] + [' '] + rest;
    SplitAtFirstSeparator([], rest, ' ');
  }
}
