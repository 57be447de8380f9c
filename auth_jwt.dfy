/** The `verifyToken` middleware of src/middlewares/authJwt.js: no (or an empty)
    Authorization header is answered with 401; otherwise the first "Bearer " is cut out
    of the header and the rest is verified, a failure being answered with 400 and a
    success setting `req.user` and passing the request on. */
module AuthJwt {
  import opened Base
  import opened Crypto

  const Bearer: string := "Bearer "

  /** `pat` occurs in `s` at position `i`. */
  predicate OccursAt(s: string, pat: string, i: nat) {
    i + |pat| <= |s| && s[i..i + |pat|] == pat
  }

  /** The first position at or after `from` where `pat` occurs. */
  function IndexFrom(s: string, pat: string, from: nat): (r: Option<nat>)
    requires from <= |s|
    ensures r.Some? ==> from <= r.value && OccursAt(s, pat, r.value)
    ensures r.Some? ==> forall j :: from <= j < r.value ==> !OccursAt(s, pat, j)
    ensures r.None? ==> forall j :: from <= j ==> !OccursAt(s, pat, j)
    decreases |s| - from
  {
    if OccursAt(s, pat, from) then Some(from)
    else if from + |pat| >= |s| then None
    else IndexFrom(s, pat, from + 1)
  }

  /** `String.prototype.indexOf` for a non-empty pattern. */
  function IndexOf(s: string, pat: string): Option<nat> {
    IndexFrom(s, pat, 0)
  }

  /** `authHeader.replace("Bearer ", "")`: the first occurrence is removed, wherever it
      is; a header without one is returned as it is. */
  function StripBearer(header: string): (token: string)
    ensures IndexOf(header, Bearer).None? ==> token == header
    ensures IndexOf(header, Bearer).Some? ==>
      var i := IndexOf(header, Bearer).value;
      && |token| == |header| - |Bearer|
      && token == header[..i] + header[i + |Bearer|..]
      && forall j :: 0 <= j < i ==> !OccursAt(header, Bearer, j)
  {
    match IndexOf(header, Bearer)
    case None => header
    case Some(i) => header[..i] + header[i + |Bearer|..]
  }

  /** The usual header: a "Bearer " prefix is removed and the rest is the token. */
  lemma StripBearerPrefix(t: string)
    ensures StripBearer(Bearer + t) == t
  {
    assert OccursAt(Bearer + t, Bearer, 0) by {
      assert (Bearer + t)[0..|Bearer|] == Bearer;
    }
    assert (Bearer + t)[|Bearer|..] == t;
  }

  /** Only the first occurrence goes: a token that itself holds "Bearer " keeps it. */
  lemma StripBearerOnlyFirst()
    ensures StripBearer("Bearer Bearer x") == "Bearer x"
  {
    StripBearerPrefix("Bearer x");
    assert Bearer + "Bearer x" == "Bearer Bearer x";
  }

  /** The three ways the middleware ends. */
  datatype AuthOutcome = NoToken | InvalidToken | Authenticated(claims: Claims)

  /** `!authHeader` holds for a missing header and for the empty string. */
  predicate HasHeader(header: Option<string>) {
    header.Some? && header.value != ""
  }

  /** The decision of `verifyToken` for a request whose Authorization header is `header`. */
  function Authenticate(header: Option<string>, verify: string -> Option<Claims>): (r: AuthOutcome)
    ensures r == NoToken <==> !HasHeader(header)
    ensures r == InvalidToken <==> HasHeader(header) && verify(StripBearer(header.value)).None?
    ensures r.Authenticated? <==> HasHeader(header) && verify(StripBearer(header.value)).Some?
    ensures r.Authenticated? ==> Some(r.claims) == verify(StripBearer(header.value))
  {
    if !HasHeader(header) then NoToken
    else
      match verify(StripBearer(header.value))
      case None => InvalidToken
      case Some(c) => Authenticated(c)
  }

  /** A token freshly signed by `loginUser`, sent the way the tests send it
      (`Bearer <token>`), authenticates its user. */
  lemma LoginTokenAuthenticates(jwt: Jwt, userId: Id)
    requires JwtSound(jwt)
    ensures Authenticate(Some(Bearer + jwt.sign(userId)), jwt.verify) == Authenticated(Claims(userId))
  {
    StripBearerPrefix(jwt.sign(userId));
    assert jwt.verify(jwt.sign(userId)) == Some(Claims(userId));
  }

  /** The part of an Express request the middleware touches. */
  class Request {
    const authorization: Option<string>
    var user: Option<Claims>

    constructor (authorization: Option<string>)
      ensures this.authorization == authorization && user == None
    {
      this.authorization := authorization;
      user := None;
    }
  }

  /** How the middleware ends: a JSON reply with a status, or one call of `next()`. */
  datatype Reply = Respond(status: int, message: string) | CallNext

  /** `verifyToken(req, res, next)`. */
  method VerifyToken(req: Request, jwt: Jwt) returns (reply: Reply)
    modifies req
    ensures match Authenticate(req.authorization, jwt.verify)
      case NoToken =>
        reply == Respond(401, "Access denied, no token provided") && req.user == old(req.user)
      case InvalidToken =>
        reply == Respond(400, "Invalid token") && req.user == old(req.user)
      case Authenticated(claims) =>
        reply == CallNext && req.user == Some(claims)
  {
    var header := req.authorization;
    if header.None? || header.value == "" {
      return Respond(401, "Access denied, no token provided");
    }
    var token := StripBearer(header.value);
    var decoded := jwt.verify(token);
    if decoded.None? {
      return Respond(400, "Invalid token");
    }
    req.user := decoded;
    reply := CallNext;
  }
}
