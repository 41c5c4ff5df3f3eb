/** The authorization middleware: the `Authorization: Bearer <token>` header format and the check
    of the token's role against the route's allowed roles. Checking the token's signature and
    expiry is a parameter: `verify` gives the token's claims, or `None` for a token that does not
    verify. */
module Middleware {
  import opened Models

  const StatusUnauthorized := 401
  const StatusForbidden := 403

  /** Cuts `s` at every `sep`: the pieces between separators, so one more piece than there are
      separators (an empty string gives one empty piece). */
  function Split(s: string, sep: char): (parts: seq<string>)
    ensures |parts| >= 1
    ensures forall i :: 0 <= i < |parts| ==> sep !in parts[i]
    decreases |s|
  {
    if |s| == 0 then [""]
    else
      var rest := Split(s[1..], sep);
      if s[0] == sep then [""] + rest
      else [[s[0]] + rest[0]] + rest[1..]
  }

  /** Glues the pieces back together with `sep` between them. */
  function Join(parts: seq<string>, sep: char): string
    requires |parts| >= 1
    decreases |parts|
  {
    if |parts| == 1 then parts[0] else parts[0] + [sep] + Join(parts[1..], sep)
  }

  /** Splitting loses nothing: the pieces joined with the separator give the string back. */
  lemma {:induction false} SplitJoin(s: string, sep: char)
    ensures Join(Split(s, sep), sep) == s
    decreases |s|
  {
    if |s| > 0 {
      var rest := Split(s[1..], sep);
      SplitJoin(s[1..], sep);
      if s[0] == sep {
        assert Split(s, sep) == [""] + rest;
        assert ([""] + rest)[1..] == rest;
        assert s == [sep] + s[1..];
      } else {
        var parts := [[s[0]] + rest[0]] + rest[1..];
        assert Split(s, sep) == parts;
        if |rest| == 1 {
          assert s == [s[0]] + s[1..];
        } else {
          assert parts[1..] == rest[1..];
          assert Join(rest, sep) == rest[0] + [sep] + Join(rest[1..], sep);
          assert s == [s[0]] + s[1..];
        }
      }
    }
  }

  /** A piece without the separator, the separator, then the rest: the piece comes first and
      the rest is split on its own. */
  lemma {:induction false} SplitAfterPiece(a: string, sep: char, b: string)
    requires sep !in a
    ensures Split(a + [sep] + b, sep) == [a] + Split(b, sep)
    decreases |a|
  {
    var s := a + [sep] + b;
    if |a| == 0 {
      assert s[1..] == b;
    } else {
      assert s[1..] == a[1..] + [sep] + b;
      SplitAfterPiece(a[1..], sep, b);
      assert [a[0]] + a[1..] == a;
    }
  }

  /** A string without the separator is one piece. */
  lemma {:induction false} SplitWithoutSeparator(s: string, sep: char)
    requires sep !in s
    ensures Split(s, sep) == [s]
    decreases |s|
  {
    if |s| > 0 {
      SplitWithoutSeparator(s[1..], sep);
      assert [s[0]] + s[1..] == s;
    }
  }

  /** The header the middleware accepts, stated directly: "Bearer", one space, and a token with
      no space in it. */
  predicate BearerHeader(h: string)
  {
    |h| >= 7 && h[..7] == "Bearer " && ' ' !in h[7..]
  }

  /** The split check the middleware runs accepts exactly the headers of that form, and the
      second piece is the token after "Bearer ". */
  lemma BearerSplit(h: string)
    ensures (|Split(h, ' ')| == 2 && Split(h, ' ')[0] == "Bearer") <==> BearerHeader(h)
    ensures BearerHeader(h) ==> Split(h, ' ')[1] == h[7..]
  {
    var parts := Split(h, ' ');
    if |parts| == 2 && parts[0] == "Bearer" {
      SplitJoin(h, ' ');
      assert Join(parts[1..], ' ') == parts[1];
      assert h == "Bearer" + " " + parts[1];
      assert h[..7] == "Bearer ";
      assert h[7..] == parts[1];
    }
    if BearerHeader(h) {
      assert h == "Bearer" + [' '] + h[7..];
      SplitAfterPiece("Bearer", ' ', h[7..]);
      SplitWithoutSeparator(h[7..], ' ');
    }
  }

  /** The claims of a verified token the middleware reads: the role, and the employee id when
      the token has one. */
  datatype TokenClaims = TokenClaims(role: Option<string>, employeeId: Option<int>)

  datatype AuthOutcome =
    | Reject(status: int, message: string)
    | Proceed(employeeId: int, role: string)  // the values put in the request context

  /** Some allowed role has this name. */
  predicate RoleListed(role: string, allowed: seq<Role>)
  {
    exists i :: 0 <= i < |allowed| && RoleName(allowed[i]) == role
  }

  /** Walks the allowed roles until one matches. */
  method RoleAllowed(role: string, allowed: seq<Role>) returns (ok: bool)
    ensures ok <==> RoleListed(role, allowed)
  {
    ok := false;
    var i := 0;
    while i < |allowed|
      invariant 0 <= i <= |allowed|
      invariant !ok
      invariant forall k :: 0 <= k < i ==> RoleName(allowed[k]) != role
    {
      if role == RoleName(allowed[i]) {
        ok := true;
        break;
      }
      i := i + 1;
    }
  }

  /** The checks of one request, in order: the header is present, has the Bearer form, its
      token verifies, the claims name a role, and, when the route lists roles, the role is one
      of them. */
  method AuthMiddleware(header: string, verify: string -> Option<TokenClaims>, allowed: seq<Role>) returns (outcome: AuthOutcome)
    ensures header == "" ==> outcome == Reject(StatusUnauthorized, "Authorization header required")
    ensures header != "" && !BearerHeader(header) ==>
      outcome == Reject(StatusUnauthorized, "Invalid Authorization header format")
    ensures BearerHeader(header) && verify(header[7..]).None? ==>
      outcome == Reject(StatusUnauthorized, "Invalid or expired token")
    ensures BearerHeader(header) && verify(header[7..]).Some? && verify(header[7..]).value.role.None? ==>
      outcome == Reject(StatusUnauthorized, "Role not found in token")
    ensures outcome == Reject(StatusForbidden, "Insufficient permissions") <==>
      && BearerHeader(header) && verify(header[7..]).Some? && verify(header[7..]).value.role.Some?
      && |allowed| > 0 && !RoleListed(verify(header[7..]).value.role.value, allowed)
    ensures outcome.Reject? && outcome.status == StatusForbidden ==> outcome.message == "Insufficient permissions"
    ensures outcome.Proceed? <==>
      && BearerHeader(header) && verify(header[7..]).Some? && verify(header[7..]).value.role.Some?
      && (|allowed| == 0 || RoleListed(verify(header[7..]).value.role.value, allowed))
    ensures outcome.Proceed? ==>
      var claims := verify(header[7..]).value;
      && outcome.role == claims.role.value
      && outcome.employeeId == (if claims.employeeId.Some? then claims.employeeId.value else 0)
  {
    if header == "" {
      return Reject(StatusUnauthorized, "Authorization header required");
    }
    BearerSplit(header);
    var parts := Split(header, ' ');
    if |parts| != 2 || parts[0] != "Bearer" {
      return Reject(StatusUnauthorized, "Invalid Authorization header format");
    }
    var claims := verify(parts[1]);
    if claims.None? {
      return Reject(StatusUnauthorized, "Invalid or expired token");
    }
    if claims.value.role.None? {
      return Reject(StatusUnauthorized, "Role not found in token");
    }
    var role := claims.value.role.value;
    if |allowed| > 0 {
      var ok := RoleAllowed(role, allowed);
      if !ok {
        return Reject(StatusForbidden, "Insufficient permissions");
      }
    }
    var employeeId := if claims.value.employeeId.Some? then claims.value.employeeId.value else 0;
    outcome := Proceed(employeeId, role);
  }
}
