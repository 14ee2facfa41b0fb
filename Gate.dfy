/** The request gate: the `authenticateToken` and `requireAdmin`
    middlewares as decisions over the `Authorization` header, the token
    check and the user collection. */
module Gate {
  import opened Schema
  import Text
  import Crypto
  import Accounts

  /** `authHeader && authHeader.split(' ')[1]`, kept only when truthy. */
  function BearerToken(header: Option<string>): (r: Option<string>)
    ensures header.None? ==> r.None?
    ensures r.Some? ==> r.value != [] && ' ' !in r.value
  {
    match header
    case None => None
    case Some(h) =>
      var fields := Text.Split(h, ' ');
      Text.SplitPieces(h, ' ');
      if |fields| >= 2 && fields[1] != "" then Some(fields[1]) else None
  }

  /** What `BearerToken` takes from a header: the nonempty second field,
      preceded by the first field and one space and followed by nothing or
      by a further space. */
  predicate BearerShape(h: string, scheme: string, token: string, rest: string) {
    && h == scheme + [' '] + token + rest
    && ' ' !in scheme && ' ' !in token && token != []
    && (rest == [] || rest[0] == ' ')
  }

  lemma {:induction false} BearerTokenFound(h: string)
    requires BearerToken(Some(h)).Some?
    ensures exists scheme, rest :: BearerShape(h, scheme, BearerToken(Some(h)).value, rest)
  {
    var fields := Text.Split(h, ' ');
    Text.SplitPieces(h, ' ');
    var scheme, token := fields[0], fields[1];
    assert fields[1..][1..] == fields[2..];
    var rest := if |fields| == 2 then [] else [' '] + Text.Join(fields[2..], ' ');
    assert h == Text.Join(fields, ' ');
    assert BearerShape(h, scheme, token, rest);
  }

  lemma {:induction false} BearerTokenOfShape(h: string, scheme: string, token: string, rest: string)
    requires BearerShape(h, scheme, token, rest)
    ensures BearerToken(Some(h)) == Some(token)
  {
    var tail := if rest == [] then [] else Text.Split(rest[1..], ' ');
    if rest != [] {
      Text.SplitPieces(rest[1..], ' ');
      assert rest == [' '] + rest[1..];
    }
    JoinBearer(scheme, token, tail);
    Text.SplitJoin([scheme, token] + tail, ' ');
  }

  /** Joining a scheme, a token and further fields with spaces. */
  lemma JoinBearer(scheme: string, token: string, tail: seq<string>)
    ensures Text.Join([scheme, token] + tail, ' ')
            == scheme + [' '] + token + (if tail == [] then [] else [' '] + Text.Join(tail, ' '))
  {
    var fields := [scheme, token] + tail;
    assert fields[1..] == [token] + tail;
    assert fields[1..][1..] == tail;
  }

  datatype GateOutcome = Admitted(userId: UserId) | Refused(status: int)

  /** The token whose subject resolves to an active user; `decode` stands
      for reading a token string into its JWT (`None` when malformed). */
  predicate AdmitsUser(token: string, decode: string -> Option<Crypto.Jwt>, secret: string,
                       users: seq<User>, now: Time, id: UserId)
  {
    var claims := Crypto.Verify(decode(token), secret, now);
    claims.Some? && claims.value.userId == id && id < |users| && users[id].isActive
  }

  /** `authenticateToken`: 401 without a token, 403 when `jwt.verify`
      throws, 401 when the subject is missing or inactive, 403 when stamping
      `lastActive` fails to save; otherwise the request goes on as the
      subject, whose `lastActive` is now. */
  function Authenticate(header: Option<string>, decode: string -> Option<Crypto.Jwt>, secret: string,
                        users: seq<User>, now: Time, saved: bool): (r: Accounts.Step<GateOutcome>)
    ensures r.out.Admitted? ==>
              saved && BearerToken(header).Some? && AdmitsUser(BearerToken(header).value, decode, secret, users, now, r.out.userId)
    ensures (&& saved && BearerToken(header).Some?
             && exists id :: AdmitsUser(BearerToken(header).value, decode, secret, users, now, id))
            ==> r.out.Admitted?
    ensures r.out.Admitted? ==>
              r.users == users[r.out.userId := Accounts.Touch(users[r.out.userId], now)]
    ensures r.out.Refused? ==> r.users == users
    ensures r.out == Refused(401) <==>
              || BearerToken(header).None?
              || var claims := Crypto.Verify(decode(BearerToken(header).value), secret, now);
                 claims.Some? && !(claims.value.userId < |users| && users[claims.value.userId].isActive)
    ensures r.out == Refused(403) <==>
              && BearerToken(header).Some?
              && var claims := Crypto.Verify(decode(BearerToken(header).value), secret, now);
                 || claims.None?
                 || (!saved && claims.value.userId < |users| && users[claims.value.userId].isActive)
  {
    match BearerToken(header)
    case None => Accounts.Step(Refused(401), users)
    case Some(token) =>
      match Crypto.Verify(decode(token), secret, now)
      case None => Accounts.Step(Refused(403), users)
      case Some(claims) =>
        var id := claims.userId;
        if !(id < |users| && users[id].isActive) then Accounts.Step(Refused(401), users)
        else if !saved then Accounts.Step(Refused(403), users)
        else Accounts.Step(Admitted(id), users[id := Accounts.Touch(users[id], now)])
  }

  /** A request carrying `Bearer <token>` for a token the server issued to
      an active user gets through while the token is within its lifetime
      and the stamp saves, and is refused with 403 after it. */
  lemma {:induction false} IssuedTokenAdmitted(token: string, decode: string -> Option<Crypto.Jwt>, secret: string,
                                               users: seq<User>, id: UserId, ttl: nat, issuedAt: Time, now: Time)
    requires ' ' !in token && token != []
    requires id < |users| && users[id].isActive
    requires decode(token) == Some(Crypto.Issue(id, users[id].username, ttl, secret, issuedAt))
    ensures var r := Authenticate(Some("Bearer " + token), decode, secret, users, now, true);
            r.out == (if now / 1000 < issuedAt / 1000 + ttl then Admitted(id) else Refused(403))
  {
    var h := "Bearer " + token;
    assert BearerShape(h, "Bearer", token, []);
    BearerTokenOfShape(h, "Bearer", token, []);
  }

  datatype Verdict = Proceed | Reject(status: int)

  /** `requireAdmin`: the request proceeds exactly for an admin; anyone
      else gets 403. */
  function RequireAdmin(user: User): (v: Verdict)
    ensures v == Proceed <==> user.role == AdminRole
    ensures v != Proceed ==> v == Reject(403)
  {
    if user.role != AdminRole then Reject(403) else Proceed
  }
}
