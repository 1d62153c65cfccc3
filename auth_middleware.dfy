/**
 * The bearer-token guard `protectRoute`: an ordered chain of checks on the
 * `Authorization` header. The first check that fails decides the 401 reply;
 * only when all pass is the resolved user attached and the request passed on.
 * JWT signature and expiry checking is the parameter `verify`.
 */
module AuthMiddleware {
  import opened Common
  import opened JsStrings
  import opened UserModel

  const BearerPrefix: string := "Bearer "

  const NoHeaderMessage: string := "No authorization header, authorization denied"
  const BadSchemeMessage: string := "Invalid authorization format. Use 'Bearer <token>'"
  const NoTokenMessage: string := "No token, authorization denied"
  const MalformedMessage: string := "Malformed token format"
  const InvalidTokenMessage: string := "Token is not valid"

  /** The payload `jwt.verify` returns; a payload may lack `userId`. */
  datatype Claims = Claims(userId: Option<Id>)

  /**
   * What the guard does with a request: answer it with a status and a
   * body, or set `req.user` and call `next()` once.
   */
  datatype Outcome = Reject(status: nat, body: Body) | Proceed(user: Profile)

  /** `User.findById(decoded.userId).select("-password")`; an absent id finds nobody. */
  function Resolve(claims: Claims, users: seq<User>): Option<Profile>
  {
    match claims.userId
    case None => None
    case Some(id) =>
      match FindOne(users, ById(id))
      case None => None
      case Some(u) => Some(WithoutPassword(u))
  }

  /**
   * `protectRoute` on the header value (None when the header is absent).
   * `verify` is `jwt.verify` with the server's secret: None when it throws.
   */
  function ProtectRoute(header: Option<string>, verify: string -> Option<Claims>, users: seq<User>): (r: Outcome)
    ensures r.Reject? ==> r.status == 401 && r.body.Message?
    ensures r.Proceed? ==> IsBearer(header) && exists i :: 0 <= i < |users| && r.user == WithoutPassword(users[i])
  {
    if !Truthy(header) then Reject(401, Message(NoHeaderMessage))
    else if !StartsWith(header.value, BearerPrefix) then Reject(401, Message(BadSchemeMessage))
    else
      var token := ReplaceFirst(header.value, BearerPrefix, "");
      if token == "" || Trim(token) == "" || token == "null" then Reject(401, Message(NoTokenMessage))
      else if |Split(token, '.')| != 3 then Reject(401, Message(MalformedMessage))
      else
        match verify(token)
        case None => Reject(401, Message(InvalidTokenMessage))
        case Some(claims) =>
          match Resolve(claims, users)
          case None => Reject(401, Message(InvalidTokenMessage))
          case Some(user) => Proceed(user)
  }

  // The checks, stated on the header's characters.

  /** A present, non-empty header using the bearer scheme. */
  predicate IsBearer(header: Option<string>)
  {
    Truthy(header) && StartsWith(header.value, BearerPrefix)
  }

  /** The credential after the scheme prefix. */
  function Credential(header: Option<string>): string
    requires IsBearer(header)
  {
    header.value[|BearerPrefix|..]
  }

  /** An empty, blank or literally "null" credential. */
  predicate AbsentCredential(t: string)
  {
    (forall i :: 0 <= i < |t| ==> IsJsWhitespace(t[i])) || t == "null"
  }

  /** The shape of the JWS compact serialisation: exactly two dots. */
  predicate JwsShaped(t: string)
  {
    Count(t, '.') == 2
  }

  lemma CredentialIsReplaced(header: Option<string>)
    requires IsBearer(header)
    ensures ReplaceFirst(header.value, BearerPrefix, "") == Credential(header)
    ensures var t := Credential(header);
      (t == "" || Trim(t) == "" || t == "null") <==> AbsentCredential(t)
  {
    ReplacePrefixDropsIt(header.value, BearerPrefix);
    TrimEmptyIffBlank(Credential(header));
  }

  /** A missing or empty header: "No authorization header", and no forwarding. */
  lemma MissingHeaderRejected(header: Option<string>, verify: string -> Option<Claims>, users: seq<User>)
    requires header.None? || header.value == ""
    ensures ProtectRoute(header, verify, users) == Reject(401, Message(NoHeaderMessage))
  {
  }

  /** A header without the "Bearer " prefix: "Invalid authorization format". */
  lemma NonBearerRejected(header: Option<string>, verify: string -> Option<Claims>, users: seq<User>)
    requires Truthy(header) && !StartsWith(header.value, BearerPrefix)
    ensures ProtectRoute(header, verify, users) == Reject(401, Message(BadSchemeMessage))
  {
  }

  /** An empty, blank or "null" credential: "No token", whatever `verify` says. */
  lemma AbsentCredentialRejected(header: Option<string>, verify: string -> Option<Claims>, users: seq<User>)
    requires IsBearer(header) && AbsentCredential(Credential(header))
    ensures ProtectRoute(header, verify, users) == Reject(401, Message(NoTokenMessage))
  {
    CredentialIsReplaced(header);
  }

  /** A credential without exactly two dots: "Malformed token format", and `verify` is not consulted. */
  lemma MalformedCredentialRejected(header: Option<string>, verify: string -> Option<Claims>, users: seq<User>)
    requires IsBearer(header) && !AbsentCredential(Credential(header))
    requires !JwsShaped(Credential(header))
    ensures ProtectRoute(header, verify, users) == Reject(401, Message(MalformedMessage))
  {
    CredentialIsReplaced(header);
  }

  /** A failing `verify` and an unknown user give the same reply. */
  lemma UnverifiedOrUnknownRejected(header: Option<string>, verify: string -> Option<Claims>, users: seq<User>)
    requires IsBearer(header) && !AbsentCredential(Credential(header)) && JwsShaped(Credential(header))
    requires verify(Credential(header)).None? || Resolve(verify(Credential(header)).value, users).None?
    ensures ProtectRoute(header, verify, users) == Reject(401, Message(InvalidTokenMessage))
  {
    CredentialIsReplaced(header);
  }

  /**
   * The request is passed on exactly when every check passes, and then with
   * the user the verified claims name, without its password; every other
   * outcome is a 401.
   */
  lemma ProceedsIffAllChecksPass(header: Option<string>, verify: string -> Option<Claims>, users: seq<User>)
    ensures var r := ProtectRoute(header, verify, users);
      (r.Proceed? <==>
        IsBearer(header) && !AbsentCredential(Credential(header)) && JwsShaped(Credential(header)) &&
        verify(Credential(header)).Some? && Resolve(verify(Credential(header)).value, users).Some?) &&
      (r.Proceed? ==> r.user == Resolve(verify(Credential(header)).value, users).value) &&
      (r.Reject? ==> r.status == 401)
  {
    if !Truthy(header) {
      MissingHeaderRejected(header, verify, users);
    } else if !StartsWith(header.value, BearerPrefix) {
      NonBearerRejected(header, verify, users);
    } else {
      var t := Credential(header);
      if AbsentCredential(t) {
        AbsentCredentialRejected(header, verify, users);
      } else if !JwsShaped(t) {
        MalformedCredentialRejected(header, verify, users);
      } else if verify(t).None? || Resolve(verify(t).value, users).None? {
        UnverifiedOrUnknownRejected(header, verify, users);
      } else {
        CredentialIsReplaced(header);
        assert ProtectRoute(header, verify, users) == Proceed(Resolve(verify(t).value, users).value);
      }
    }
  }

  /** Two dots split a credential into the header, payload and signature segments of RFC 7515, section 7.1. */
  lemma JwsShapedHasThreeSegments(t: string)
    requires JwsShaped(t)
    ensures var parts := Split(t, '.');
      |parts| == 3 && t == parts[0] + "." + parts[1] + "." + parts[2] &&
      '.' !in parts[0] && '.' !in parts[1] && '.' !in parts[2]
  {
    var parts := Split(t, '.');
    assert Join(parts, '.') == parts[0] + "." + Join(parts[1..], '.');
    assert parts[1..][1..] == [parts[2]];
  }

  /** Conversely, any three dot-free segments joined by dots are shaped as a JWS. */
  lemma ThreeSegmentsAreJwsShaped(h: string, p: string, s: string)
    requires '.' !in h && '.' !in p && '.' !in s
    ensures JwsShaped(h + "." + p + "." + s)
    ensures Split(h + "." + p + "." + s, '.') == [h, p, s]
  {
    var parts := [h, p, s];
    assert Join([s], '.') == s;
    assert Join([p, s], '.') == p + "." + s by {
      assert [p, s][1..] == [s];
    }
    assert Join(parts, '.') == h + "." + (p + "." + s) by {
      assert parts[1..] == [p, s];
    }
    SplitJoin(parts, '.');
    assert h + "." + (p + "." + s) == h + "." + p + "." + s;
  }
}
