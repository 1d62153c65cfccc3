/**
 * The `/api/auth` routes: `/register` (ordered field checks, username then
 * email uniqueness, the derived avatar, one new user) and `/login` (one
 * lookup, with the same reply for an unknown email and a wrong password).
 * `generateToken` is abstract: a reply records the user id the JWT is
 * issued for. Password hashing is the parameter `matchPassword`.
 */
module AuthRoutes {
  import opened Common
  import opened JsStrings
  import opened UserModel

  const AllFieldsMessage: string := "All fields are required"
  const ShortPasswordMessage: string := "Password must be at least 6 characters"
  const ShortUsernameMessage: string := "Username must be at least 3 characters"
  const UsernameTakenMessage: string := "User already exists"
  const EmailTakenMessage: string := "User with this email already exists"
  const BadCredentialsMessage: string := "Invalid credentials"

  const MinPasswordLength: nat := 6
  const MinUsernameLength: nat := 3

  const AvatarPrefix: string := "https://api.dicebear.com/7.x/avataaars/svg?seed="

  /** A request body's fields; None is an absent (or null) field. */
  datatype RegisterBody = RegisterBody(email: Option<string>, username: Option<string>, password: Option<string>)

  datatype LoginBody = LoginBody(email: Option<string>, password: Option<string>)

  /** A reply: an error with its status, or a status, the user a JWT is issued for, and the user object. */
  datatype Reply = Refused(status: nat, body: Body) | Issued(status: nat, jwtFor: Id, user: UserJson)

  /** The dicebear avatar seeded with the username, interpolated as is. */
  function AvatarUrl(username: string): (url: string)
    ensures StartsWith(url, AvatarPrefix) && url[|AvatarPrefix|..] == username
  {
    AvatarPrefix + username
  }

  /** Different usernames get different avatars. */
  lemma AvatarUrlInjective(a: string, b: string)
    requires AvatarUrl(a) == AvatarUrl(b)
    ensures a == b
  {
    assert a == AvatarUrl(a)[|AvatarPrefix|..];
    assert b == AvatarUrl(b)[|AvatarPrefix|..];
  }

  /** The user object of a reply, with its id under `idKey` and no password. */
  function UserObject(idKey: string, u: User): UserJson
  {
    UserJson(idKey, u.id, u.username, u.email, u.profileImage, u.createdAt)
  }

  /** The message of the first registration check that fails, or None when all pass. */
  function RegisterRejection(users: seq<User>, body: RegisterBody): (r: Option<string>)
    ensures r.Some? ==> r.value in [AllFieldsMessage, ShortPasswordMessage, ShortUsernameMessage,
                                    UsernameTakenMessage, EmailTakenMessage]
    ensures r.None? ==> Truthy(body.email) && Truthy(body.username) && Truthy(body.password)
  {
    if !Truthy(body.email) || !Truthy(body.username) || !Truthy(body.password) then Some(AllFieldsMessage)
    else if Utf16Length(body.password.value) < MinPasswordLength then Some(ShortPasswordMessage)
    else if Utf16Length(body.username.value) < MinUsernameLength then Some(ShortUsernameMessage)
    else if FindOne(users, ByUsername(body.username.value)).Some? then Some(UsernameTakenMessage)
    else if FindOne(users, ByEmail(body.email.value)).Some? then Some(EmailTakenMessage)
    else None
  }

  /** The user a successful registration stores. */
  function NewUser(id: Id, body: RegisterBody, now: Timestamp): User
    requires RegisterRejection([], body).None?
  {
    User(id, body.email.value, body.username.value, body.password.value, AvatarUrl(body.username.value), now)
  }

  /** Registration is accepted exactly when every field is present, long enough, and neither username nor email is taken. */
  lemma RegisterAcceptedIff(users: seq<User>, body: RegisterBody)
    ensures RegisterRejection(users, body).None? <==>
      Truthy(body.email) && Truthy(body.username) && Truthy(body.password) &&
      Utf16Length(body.password.value) >= MinPasswordLength &&
      Utf16Length(body.username.value) >= MinUsernameLength &&
      (forall i :: 0 <= i < |users| ==> users[i].username != body.username.value) &&
      (forall i :: 0 <= i < |users| ==> users[i].email != body.email.value)
  {
  }

  /** A missing or empty field is refused first, by register and by login alike. */
  lemma MissingFieldsRefused(users: seq<User>, body: RegisterBody, login: LoginBody, matchPassword: (User, string) -> bool)
    ensures !Truthy(body.email) || !Truthy(body.username) || !Truthy(body.password) ==>
      RegisterRejection(users, body) == Some(AllFieldsMessage)
    ensures !Truthy(login.email) || !Truthy(login.password) ==>
      Login(users, login, matchPassword) == Refused(400, Message(AllFieldsMessage))
  {
  }

  /** The length checks come before the lookups, and the password check before the username check. */
  lemma RegisterCheckOrder(users: seq<User>, body: RegisterBody)
    requires Truthy(body.email) && Truthy(body.username) && Truthy(body.password)
    ensures Utf16Length(body.password.value) < MinPasswordLength ==>
      RegisterRejection(users, body) == Some(ShortPasswordMessage)
    ensures (Utf16Length(body.password.value) >= MinPasswordLength &&
             Utf16Length(body.username.value) < MinUsernameLength) ==>
      RegisterRejection(users, body) == Some(ShortUsernameMessage)
  {
  }

  /** A taken username is reported even when the email is taken too. */
  lemma UsernameCheckedBeforeEmail(users: seq<User>, body: RegisterBody, i: nat)
    requires Truthy(body.email) && Truthy(body.username) && Truthy(body.password)
    requires Utf16Length(body.password.value) >= MinPasswordLength
    requires Utf16Length(body.username.value) >= MinUsernameLength
    requires i < |users| && users[i].username == body.username.value
    ensures RegisterRejection(users, body) == Some(UsernameTakenMessage)
  {
  }

  /** A taken email with a free username gets the email message. */
  lemma EmailTakenRefused(users: seq<User>, body: RegisterBody, i: nat)
    requires Truthy(body.email) && Truthy(body.username) && Truthy(body.password)
    requires Utf16Length(body.password.value) >= MinPasswordLength
    requires Utf16Length(body.username.value) >= MinUsernameLength
    requires forall j :: 0 <= j < |users| ==> users[j].username != body.username.value
    requires i < |users| && users[i].email == body.email.value
    ensures RegisterRejection(users, body) == Some(EmailTakenMessage)
  {
  }

  /** Once a registration succeeds, registering the same username or the same email again fails. */
  lemma {:induction false} ReRegisterRefused(users: seq<User>, body: RegisterBody, now: Timestamp, again: RegisterBody)
    requires RegisterRejection(users, body).None?
    requires RegisterRejection([], again).None?
    requires again.username == body.username || again.email == body.email
    ensures var grown := users + [NewUser(|users|, body, now)];
      RegisterRejection(grown, again).Some? &&
      (again.username == body.username ==> RegisterRejection(grown, again) == Some(UsernameTakenMessage)) &&
      (again.username != body.username && FindOne(users, ByUsername(again.username.value)).None? ==>
        RegisterRejection(grown, again) == Some(EmailTakenMessage))
  {
    var u := NewUser(|users|, body, now);
    var grown := users + [u];
    FindOneAppend(users, u, ByUsername(again.username.value));
    FindOneAppend(users, u, ByEmail(again.email.value));
  }

  /** `/login` on a body, given the users and the model's `matchPassword`. */
  function Login(users: seq<User>, body: LoginBody, matchPassword: (User, string) -> bool): (r: Reply)
    ensures r.Refused? ==> r.status == 400 && r.body.Message?
    ensures r.Issued? ==> Truthy(body.email) && Truthy(body.password)
    ensures r.Issued? ==> exists i :: (0 <= i < |users| && users[i].email == body.email.value &&
      matchPassword(users[i], body.password.value) && r == Issued(200, users[i].id, UserObject("id", users[i])))
  {
    if !Truthy(body.email) || !Truthy(body.password) then Refused(400, Message(AllFieldsMessage))
    else
      match FindOne(users, ByEmail(body.email.value))
      case None => Refused(400, Message(BadCredentialsMessage))
      case Some(u) =>
        if !matchPassword(u, body.password.value) then Refused(400, Message(BadCredentialsMessage))
        else Issued(200, u.id, UserObject("id", u))
  }

  /**
   * An unknown email and a wrong password get the identical reply; a login
   * succeeds exactly for the user holding the email whose password matches,
   * and answers with the id under `id`.
   */
  lemma LoginOutcomes(users: seq<User>, body: LoginBody, matchPassword: (User, string) -> bool, i: nat)
    requires WellFormed(users)
    requires Truthy(body.email) && Truthy(body.password)
    requires i < |users| && users[i].email == body.email.value
    ensures matchPassword(users[i], body.password.value) ==>
      Login(users, body, matchPassword) == Issued(200, i, UserObject("id", users[i]))
    ensures !matchPassword(users[i], body.password.value) ==>
      Login(users, body, matchPassword) == Refused(400, Message(BadCredentialsMessage))
  {
    FindOneUnique(users, ByEmail(body.email.value), i);
  }

  lemma LoginUnknownEmail(users: seq<User>, body: LoginBody, matchPassword: (User, string) -> bool)
    requires Truthy(body.email) && Truthy(body.password)
    requires forall i :: 0 <= i < |users| ==> users[i].email != body.email.value
    ensures Login(users, body, matchPassword) == Refused(400, Message(BadCredentialsMessage))
  {
  }

  /** A user who has just registered can log in with the stored password, and gets the same user back under `id`. */
  lemma RegisteredUserCanLogIn(users: seq<User>, body: RegisterBody, now: Timestamp, matchPassword: (User, string) -> bool)
    requires WellFormed(users)
    requires RegisterRejection(users, body).None?
    requires matchPassword(NewUser(|users|, body, now), body.password.value)
    ensures var u := NewUser(|users|, body, now);
      Login(users + [u], LoginBody(body.email, body.password), matchPassword) ==
        Issued(200, |users|, UserObject("id", u))
  {
    var u := NewUser(|users|, body, now);
    RegisterAcceptedIff(users, body);
    FindOneAppend(users, u, ByEmail(body.email.value));
  }

  /** The user documents, with the operation that changes them: `/register`. */
  class UserCollection {
    var users: seq<User>

    ghost predicate Valid()
      reads this
    {
      WellFormed(users)
    }

    constructor ()
      ensures Valid() && users == []
    {
      users := [];
    }

    /**
     * `/register`. On a refusal the collection is unchanged and the reply is
     * 400 with the first failing check's message; otherwise exactly one user is
     * appended and the reply is 201 with a JWT for it and its id under `_id`.
     */
    method Register(body: RegisterBody, now: Timestamp) returns (reply: Reply)
      requires Valid()
      modifies this
      ensures Valid()
      ensures RegisterRejection(old(users), body).Some? ==>
        users == old(users) && reply == Refused(400, Message(RegisterRejection(old(users), body).value))
      ensures RegisterRejection(old(users), body).None? ==>
        var u := NewUser(|old(users)|, body, now);
        users == old(users) + [u] && reply == Issued(201, u.id, UserObject("_id", u))
    {
      if !Truthy(body.email) || !Truthy(body.username) || !Truthy(body.password) {
        return Refused(400, Message(AllFieldsMessage));
      }
      var email, username, password := body.email.value, body.username.value, body.password.value;
      if Utf16Length(password) < MinPasswordLength {
        return Refused(400, Message(ShortPasswordMessage));
      }
      if Utf16Length(username) < MinUsernameLength {
        return Refused(400, Message(ShortUsernameMessage));
      }
      var existingUser := FindOne(users, ByUsername(username));
      if existingUser.Some? {
        return Refused(400, Message(UsernameTakenMessage));
      }
      var existingEmail := FindOne(users, ByEmail(email));
      if existingEmail.Some? {
        return Refused(400, Message(EmailTakenMessage));
      }
      var profileImage := AvatarUrl(username);
      var user := User(|users|, email, username, password, profileImage, now);
      users := users + [user];
      reply := Issued(201, user.id, UserObject("_id", user));
    }
  }
}
