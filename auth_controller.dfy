/** The user handlers of the backend: register, login and the current-user
    profile, over the user collection. Password hashing, the password
    comparison and token signing are outside the model and are passed in as
    functions; the handlers receive only input that passed the validators. */
module AuthController {
  import opened Optional
  import opened Validation

  type UserId = nat

  /** A stored user; `passwordHash` is what the model's save hook stores in
      place of the password. */
  datatype User = User(
    id: UserId,
    registrationNumber: string,
    fullName: string,
    passwordHash: string,
    createdAt: int)

  /** The user as the register and login replies show it. */
  datatype UserSummary = UserSummary(id: UserId, registrationNumber: string, fullName: string)

  /** The options every token is signed with; the payload is the user id. */
  datatype SignOptions = SignOptions(expiresIn: string, algorithm: string, issuer: string, audience: string)

  const TokenOptions := SignOptions("1d", "HS256", "my-academia", "my-academia-users")

  const DuplicateText := "Registration number already exists"
  const InvalidCredentialsText := "Invalid credentials"
  const GenericErrorText := "Something went wrong"

  datatype Body =
    | Message(text: string)
    | Session(token: string, user: UserSummary)
    | Profile(id: UserId, registrationNumber: string, fullName: string, createdAt: int)

  datatype Reply = Reply(status: int, body: Body)

  function Summary(u: User): UserSummary {
    UserSummary(u.id, u.registrationNumber, u.fullName)
  }

  /** `User.findOne({ registrationNumber })`. */
  function FindByNumber(users: seq<User>, registrationNumber: string): (r: Option<User>)
    ensures r.Some? ==> r.value in users && r.value.registrationNumber == registrationNumber
    ensures r.None? ==> forall u :: u in users ==> u.registrationNumber != registrationNumber
  {
    if users == [] then None
    else if users[0].registrationNumber == registrationNumber then Some(users[0])
    else FindByNumber(users[1..], registrationNumber)
  }

  /** `User.findById(id)`. */
  function FindById(users: seq<User>, id: UserId): (r: Option<User>)
    ensures r.Some? ==> r.value in users && r.value.id == id
    ensures r.None? ==> forall u :: u in users ==> u.id != id
  {
    if users == [] then None
    else if users[0].id == id then Some(users[0])
    else FindById(users[1..], id)
  }

  /** What the collection always satisfies: registration numbers in the
      validated format and pairwise distinct, ids distinct and below the next
      fresh id. */
  predicate UsersInvariant(users: seq<User>, nextId: UserId) {
    && (forall i :: 0 <= i < |users| ==> IsRegistrationNumber(users[i].registrationNumber) && users[i].id < nextId)
    && (forall i, j :: 0 <= i < j < |users| ==>
          users[i].registrationNumber != users[j].registrationNumber && users[i].id != users[j].id)
  }

  /** In a collection with distinct numbers the lookup finds the one user
      holding the number. */
  lemma {:induction false} FindByNumberUnique(users: seq<User>, nextId: UserId, k: nat)
    requires UsersInvariant(users, nextId) && k < |users|
    ensures FindByNumber(users, users[k].registrationNumber) == Some(users[k])
  {
    if k > 0 {
      assert users[0].registrationNumber != users[k].registrationNumber;
      assert UsersInvariant(users[1..], nextId) by {
        forall i, j | 0 <= i < j < |users| - 1
          ensures users[1..][i].registrationNumber != users[1..][j].registrationNumber
        {
          assert users[1..][i] == users[i + 1] && users[1..][j] == users[j + 1];
        }
      }
      FindByNumberUnique(users[1..], nextId, k - 1);
    }
  }

  /** A user just added is what login and the gate find afterwards. */
  lemma AppendedUserFound(users: seq<User>, nextId: UserId, u: User)
    requires UsersInvariant(users, nextId)
    requires UsersInvariant(users + [u], nextId + 1)
    ensures FindByNumber(users + [u], u.registrationNumber) == Some(u)
    ensures FindById(users + [u], u.id) == Some(u)
  {
    FindByNumberUnique(users + [u], nextId + 1, |users|);
    var us := users + [u];
    assert us[|users|] == u;
    forall v | v in us && v.id == u.id
      ensures v == u
    {
      var i :| 0 <= i < |us| && us[i] == v;
    }
  }

  /** The user collection with the id the next insert receives. */
  class UserStore {
    var users: seq<User>
    var nextId: UserId

    predicate Valid()
      reads this
    {
      UsersInvariant(users, nextId)
    }

    constructor ()
      ensures Valid() && users == []
    {
      users := [];
      nextId := 0;
    }

    /** `register`: inserts a user only under a new registration number, then
        signs a token for the new id. A signing failure is answered with the
        generic 500, after the user has been saved. */
    method Register(registrationNumber: string, fullName: string, password: string,
                    hash: string -> string, sign: (UserId, SignOptions) -> Option<string>, now: int)
      returns (reply: Reply)
      requires Valid() && ValidRegistration(registrationNumber, fullName, password)
      modifies this
      ensures Valid()
      ensures FindByNumber(old(users), registrationNumber).Some?
              ==> reply == Reply(400, Message(DuplicateText)) && users == old(users) && nextId == old(nextId)
      ensures FindByNumber(old(users), registrationNumber).None? ==>
              var u := User(old(nextId), registrationNumber, fullName, hash(password), now);
              && users == old(users) + [u]
              && nextId == old(nextId) + 1
              && reply == (match sign(u.id, TokenOptions)
                           case None => Reply(500, Message(GenericErrorText))
                           case Some(token) => Reply(201, Session(token, Summary(u))))
    {
      if FindByNumber(users, registrationNumber).Some? {
        return Reply(400, Message(DuplicateText));
      }
      var u := User(nextId, registrationNumber, fullName, hash(password), now);
      RegisterKeepsInvariant(users, nextId, u);
      users := users + [u];
      nextId := nextId + 1;
      match sign(u.id, TokenOptions)
      case None =>
        reply := Reply(500, Message(GenericErrorText));
      case Some(token) =>
        reply := Reply(201, Session(token, Summary(u)));
    }

    /** `login`: reads only. An unknown number and a wrong password give the
        same reply; on success the token is signed for the found user's id
        with the same options as at registration. */
    method Login(registrationNumber: string, password: string,
                 matches: (string, string) -> bool, sign: (UserId, SignOptions) -> Option<string>)
      returns (reply: Reply)
      requires Valid() && ValidLogin(registrationNumber, password)
      ensures (forall u :: u in users ==> u.registrationNumber != registrationNumber)
              ==> reply == Reply(400, Message(InvalidCredentialsText))
      ensures forall u :: u in users && u.registrationNumber == registrationNumber ==>
              if !matches(password, u.passwordHash) then
                reply == Reply(400, Message(InvalidCredentialsText))
              else
                reply == (match sign(u.id, TokenOptions)
                          case None => Reply(500, Message(GenericErrorText))
                          case Some(token) => Reply(200, Session(token, Summary(u))))
    {
      var found := FindByNumber(users, registrationNumber);
      if found.None? {
        return Reply(400, Message(InvalidCredentialsText));
      }
      var u := found.value;
      forall v | v in users && v.registrationNumber == registrationNumber
        ensures v == u
      {
        var k :| 0 <= k < |users| && users[k] == v;
        FindByNumberUnique(users, nextId, k);
      }
      if !matches(password, u.passwordHash) {
        return Reply(400, Message(InvalidCredentialsText));
      }
      match sign(u.id, TokenOptions)
      case None =>
        reply := Reply(500, Message(GenericErrorText));
      case Some(token) =>
        reply := Reply(200, Session(token, Summary(u)));
    }
  }

  /** `getCurrentUser`: the profile of the user the gate attached, always
      200: the same user the session replies show, with the creation time and
      never the password hash. */
  function CurrentUser(u: User): (r: Reply)
    ensures r.status == 200 && r.body.Profile?
    ensures UserSummary(r.body.id, r.body.registrationNumber, r.body.fullName) == Summary(u)
    ensures r.body.createdAt == u.createdAt
  {
    Reply(200, Profile(u.id, u.registrationNumber, u.fullName, u.createdAt))
  }

  /** Adding a user under a fresh number and the next id keeps the
      invariant: after any sequence of registrations the numbers stay
      distinct. */
  lemma {:induction false} RegisterKeepsInvariant(users: seq<User>, nextId: UserId, u: User)
    requires UsersInvariant(users, nextId)
    requires FindByNumber(users, u.registrationNumber).None?
    requires u.id == nextId && IsRegistrationNumber(u.registrationNumber)
    ensures UsersInvariant(users + [u], nextId + 1)
  {
    var us := users + [u];
    forall i, j | 0 <= i < j < |us|
      ensures us[i].registrationNumber != us[j].registrationNumber && us[i].id != us[j].id
    {
      assert us[i] == users[i] by {
        assert i < |users|;
      }
      if j == |users| {
        assert us[i] in users;
      } else {
        assert us[j] == users[j];
      }
    }
  }
}
