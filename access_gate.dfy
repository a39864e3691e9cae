/** The authentication gate in front of the protected routes: take the
    bearer token from the Authorization header, verify it, look the user up
    again, and only then attach the user to the request and pass it on. Token
    verification is outside the model and is passed in as a function; `None`
    stands for a token that does not verify (the library throws) or carries no
    user id. */
module AccessGate {
  import opened Optional
  import opened Text
  import opened AuthController

  const BearerPrefix := "Bearer "
  const NoTokenText := "Access denied. No token provided."
  const InvalidTokenText := "Token is not valid"

  /** `req.header('Authorization')?.replace('Bearer ', '')`: the first
      occurrence of the prefix is removed, wherever it stands. */
  function ExtractToken(header: Option<string>): (r: Option<string>)
    ensures r.Some? <==> header.Some?
    ensures header.Some? && StartsWith(header.value, BearerPrefix) ==> r.value == header.value[|BearerPrefix|..]
    ensures header.Some? && (forall j :: 0 <= j <= |header.value| ==> !MatchesAt(header.value, BearerPrefix, j))
            ==> r.value == header.value
    ensures header.Some? ==> |r.value| == |header.value| || |r.value| == |header.value| - |BearerPrefix|
  {
    match header
    case None => None
    case Some(h) => Some(ReplaceFirst(h, BearerPrefix, ""))
  }

  /** The first "Bearer " in the header is cut out wherever it stands; the
      text on both sides of it is kept. */
  lemma ExtractTokenAt(h: string, k: nat)
    requires MatchesAt(h, BearerPrefix, k)
    requires forall j :: 0 <= j < k ==> !MatchesAt(h, BearerPrefix, j)
    ensures ExtractToken(Some(h)) == Some(h[..k] + h[k + |BearerPrefix|..])
  {
    ReplaceFirstAt(h, BearerPrefix, "", k);
    assert h[..k] + "" + h[k + |BearerPrefix|..] == h[..k] + h[k + |BearerPrefix|..];
  }

  /** A header of the expected form gives back exactly the token. */
  lemma ExtractBearer(token: string)
    ensures ExtractToken(Some(BearerPrefix + token)) == Some(token)
  {
    var h := BearerPrefix + token;
    assert MatchesAt(h, BearerPrefix, 0);
    assert IndexOf(h, BearerPrefix) == Some(0);
    assert h[..0] + "" + h[|BearerPrefix|..] == token;
  }

  /** A header without the prefix is taken as the token unchanged. */
  lemma ExtractWithoutPrefix(h: string)
    requires forall j :: 0 <= j <= |h| ==> !MatchesAt(h, BearerPrefix, j)
    ensures ExtractToken(Some(h)) == Some(h)
  {
  }

  /** The prefix is removed where it first occurs, not only at the start. */
  lemma ExtractInside()
    ensures ExtractToken(Some("xBearer y")) == Some("xy")
  {
    var h := "xBearer y";
    assert !MatchesAt(h, BearerPrefix, 0) by {
      assert h[0] != BearerPrefix[0];
    }
    assert MatchesAt(h, BearerPrefix, 1) by {
      assert h[1..8] == BearerPrefix;
    }
    assert h[..1] + "" + h[8..] == "xy";
  }

  /** What the gate decides for a request. */
  datatype Gate = Admit(user: User) | Deny(message: string)

  /** The chain of checks in order: a non-empty token, a token that
      verifies, a user that still exists. */
  function Decide(header: Option<string>, users: seq<User>, verify: string -> Option<UserId>): (g: Gate)
    ensures g.Admit? <==> (&& ExtractToken(header).Some? && ExtractToken(header).value != ""
                           && verify(ExtractToken(header).value).Some?
                           && FindById(users, verify(ExtractToken(header).value).value).Some?)
    ensures g.Admit? ==> g.user in users && Some(g.user.id) == verify(ExtractToken(header).value)
    ensures g.Deny? && (ExtractToken(header).None? || ExtractToken(header).value == "") ==> g.message == NoTokenText
    ensures g.Deny? && ExtractToken(header).Some? && ExtractToken(header).value != "" ==> g.message == InvalidTokenText
  {
    var token := ExtractToken(header);
    if token.None? || token.value == "" then Deny(NoTokenText)
    else match verify(token.value)
      case None => Deny(InvalidTokenText)
      case Some(id) =>
        match FindById(users, id)
        case None => Deny(InvalidTokenText)
        case Some(u) => Admit(u)
  }

  /** A request as the gate sees it: the header it arrived with and the
      `user` field the gate sets. */
  class Request {
    const authorization: Option<string>
    var user: Option<User>

    constructor (authorization: Option<string>)
      ensures this.authorization == authorization && user == None
    {
      this.authorization := authorization;
      user := None;
    }
  }

  /** What the gate does with the request: call the next handler once, or
      send one 401 reply. */
  datatype Outcome = CallNext | Respond(status: int, message: string)

  /** `auth`: sets `req.user` and calls the next handler only when every
      check passes; otherwise answers 401 and leaves the request alone. The
      user collection is only read. */
  method Authenticate(req: Request, store: UserStore, verify: string -> Option<UserId>) returns (outcome: Outcome)
    modifies req
    ensures match Decide(req.authorization, store.users, verify)
            case Admit(u) => outcome == CallNext && req.user == Some(u)
            case Deny(m) => outcome == Respond(401, m) && req.user == old(req.user)
  {
    var token := ExtractToken(req.authorization);
    if token.None? || token.value == "" {
      return Respond(401, NoTokenText);
    }
    var subject := verify(token.value);
    if subject.None? {
      return Respond(401, InvalidTokenText);
    }
    var found := FindById(store.users, subject.value);
    if found.None? {
      return Respond(401, InvalidTokenText);
    }
    req.user := found;
    outcome := CallNext;
  }

  /** A missing header and a bare prefix are both "no token". */
  lemma NoTokenDenied(users: seq<User>, verify: string -> Option<UserId>)
    ensures Decide(None, users, verify) == Deny(NoTokenText)
    ensures Decide(Some(BearerPrefix), users, verify) == Deny(NoTokenText)
  {
    ExtractBearer("");
    assert BearerPrefix + "" == BearerPrefix;
  }

  /** A token for a user who has since gone is refused like a bad token. */
  lemma RemovedUserDenied(token: string, users: seq<User>, verify: string -> Option<UserId>)
    requires token != "" && verify(token).Some?
    requires forall u :: u in users ==> u.id != verify(token).value
    ensures Decide(Some(BearerPrefix + token), users, verify) == Deny(InvalidTokenText)
  {
    ExtractBearer(token);
  }

  /** Behind the gate, `getCurrentUser` answers with the profile of exactly
      the user the token names. */
  lemma GateThenProfile(token: string, users: seq<User>, verify: string -> Option<UserId>)
    requires Decide(Some(BearerPrefix + token), users, verify).Admit?
    ensures var u := Decide(Some(BearerPrefix + token), users, verify).user;
            && u in users && verify(token) == Some(u.id)
            && CurrentUser(u) == Reply(200, Profile(u.id, u.registrationNumber, u.fullName, u.createdAt))
  {
    ExtractBearer(token);
  }
}
