/** The `auth` middleware: the `Authorization` header must be exactly
    `Bearer <token>`; the token is then checked by the JSON Web Token library,
    which is a parameter here, and a rejected token is reported to the audit log. */
module AuthHeader {

  import opened Wrappers
  import opened Text
  import opened Objects
  import AuditLog

  const Scheme: string := "Bearer"

  /** The token of a well-formed header: `header.split(' ')` must give exactly
      two parts, the first `Bearer`. */
  function BearerToken(header: string): (r: Option<string>)
    ensures r.Some? ==> header == Scheme + " " + r.value && ' ' !in r.value
    ensures Count(header, ' ') != 1 ==> r == None
  {
    var parts := Split(header, ' ');
    if |parts| != 2 || parts[0] != Scheme then None
    else
      assert Join(parts, " ") == parts[0] + " " + Join(parts[1..], " ");
      assert parts[1..] == [parts[1]];
      Some(parts[1])
  }

  /** A header is accepted exactly when it is `Bearer`, one space, and a token
      without spaces (possibly empty), and the token is that rest. */
  lemma BearerTokenIff(header: string, token: string)
    ensures BearerToken(header) == Some(token) <==> header == Scheme + " " + token && ' ' !in token
  {
    if header == Scheme + " " + token && ' ' !in token {
      JoinParts(Scheme, token);
      SplitJoin([Scheme, token], ' ');
    }
  }

  lemma JoinParts(a: string, b: string)
    ensures Join([a, b], " ") == a + " " + b
  {
    assert [a, b][1..] == [b];
  }

  /** What the token library says: the payload's subject, or the error message. */
  datatype Verified = Valid(sub: Value) | Invalid(message: string)

  datatype AuthOutcome = Unauthorized | Authenticated(userId: Value)

  /** `auth(req, res, next)` for the header value `header` (`None` when the
      request has none). */
  method Authenticate(audit: AuditLog.SecurityAudit, header: Option<string>, verify: string -> Verified,
                      stampMs: int, pathMs: int, writable: bool)
    returns (r: AuthOutcome)
    modifies audit
    ensures r.Authenticated? <==>
      var h := if header.Some? then header.value else "";
      BearerToken(h).Some? && verify(BearerToken(h).value).Valid?
    ensures r.Authenticated? ==>
      var h := if header.Some? then header.value else "";
      r.userId == verify(BearerToken(h).value).sub
    ensures
      var h := if header.Some? then header.value else "";
      if BearerToken(h).Some? && verify(BearerToken(h).value).Invalid? then
        var ev := AuditLog.TokenValidationFailed(verify(BearerToken(h).value).message, Some(BearerToken(h).value));
        (writable ==> audit.files == AuditLog.Appended(old(audit.files), AuditLog.LogFileName(pathMs),
                                                       AuditLog.MakeEntry(stampMs, ev), pathMs))
        && (!writable ==> audit.files == old(audit.files))
        && audit.errors == (if writable then old(audit.errors) else old(audit.errors) + [AuditLog.WriteFailure])
      else audit.files == old(audit.files) && audit.errors == old(audit.errors)
  {
    var h := if header.Some? then header.value else "";
    var parts := Split(h, ' ');
    if |parts| != 2 || parts[0] != Scheme {
      return Unauthorized;
    }
    match verify(parts[1])
    case Valid(sub) =>
      return Authenticated(sub);
    case Invalid(message) =>
      var ev := AuditLog.TokenValidationFailed(message, Some(parts[1]));
      audit.Log(ev.kind, ev.data, stampMs, pathMs, writable);
      return Unauthorized;
  }

  /** `Bearer ` with nothing after it passes the header check with an empty
      token; when the library rejects it, the audit entry records `N/A`, since
      an empty token is falsy. */
  lemma EmptyBearerToken()
    ensures BearerToken("Bearer ") == Some("")
    ensures AuditLog.TokenPrefix(Some("")) == "N/A"
  {
    assert Scheme + " " + "" == "Bearer ";
    BearerTokenIff("Bearer ", "");
  }

  /** Two spaces, a missing scheme, or a lower-case scheme are all rejected. */
  lemma MalformedHeaders(token: string)
    ensures BearerToken("Bearer  " + token) != Some(token)
    ensures BearerToken(token) != Some(token)
    ensures BearerToken("bearer " + token) == None
  {
    BearerTokenIff("Bearer  " + token, token);
    BearerTokenIff(token, token);
  }
}
