/**
 * The client's session store `useAuthStore`: the in-memory `user`, `token`
 * and `isLoading`, and the two device-storage entries under the keys `user`
 * and `token`. Server replies and storage failures are inputs; each
 * transition is specified by a function on the whole `Session`.
 */
module AuthStore {
  import opened Common

  const RegisterFallback: string := "Registration failed"
  const LoginFallback: string := "Login failed"
  const LoginErrorFallback: string := "An error occurred at login."

  /** How the `fetch` of a register or login request ends. */
  datatype ServerReply =
    | Unreachable(error: string)        // `fetch` or `response.json()` threw this message
    | NotOk(message: string)            // `!response.ok`; "" when `data.message` is absent or empty
    | Ok(jwt: string, user: UserJson)   // `data.jwt` and `data.user`

  /** Which of the two storage writes, user first and token second, throws. */
  datatype WriteFault = NoFault | UserWriteFails(error: string) | TokenWriteFails(error: string)

  /** Which of the two removals of `logout`, user first and token second, throws. */
  datatype RemoveFault = NoRemoveFault | UserRemoveFails | TokenRemoveFails

  datatype Flow = Registering | LoggingIn

  /** What `register` and `login` resolve to. */
  datatype ActionResult = ActionResult(success: bool, message: Option<string>)

  /** The whole client state; `storedUser` is the user whose JSON the `user` entry holds. */
  datatype Session = Session(
    user: Option<UserJson>,
    token: Option<string>,
    isLoading: bool,
    storedUser: Option<UserJson>,
    storedToken: Option<string>)

  /** The message of the Error thrown for a reply that is not ok. */
  function RejectionMessage(flow: Flow, message: string): string
  {
    if message != "" then message
    else if flow == Registering then RegisterFallback else LoginFallback
  }

  /** The message the catch block returns for an Error with message `thrown`. */
  function CaughtMessage(flow: Flow, thrown: string): string
  {
    if flow == LoggingIn && thrown == "" then LoginErrorFallback else thrown
  }

  /** The state and result after `register` (or `login`) completes. */
  function SignIn(s: Session, flow: Flow, reply: ServerReply, fault: WriteFault): (Session, ActionResult)
  {
    var done := s.(isLoading := false);
    match reply
    case Unreachable(e) => (done, ActionResult(false, Some(CaughtMessage(flow, e))))
    case NotOk(m) => (done, ActionResult(false, Some(CaughtMessage(flow, RejectionMessage(flow, m)))))
    case Ok(jwt, u) =>
      match fault
      case UserWriteFails(e) => (done, ActionResult(false, Some(CaughtMessage(flow, e))))
      case TokenWriteFails(e) => (done.(storedUser := Some(u)), ActionResult(false, Some(CaughtMessage(flow, e))))
      case NoFault =>
        (done.(user := Some(u), token := Some(jwt), storedUser := Some(u), storedToken := Some(jwt)),
         ActionResult(true, None))
  }

  /**
   * The state after `logout`. A throwing removal rejects the call before
   * the fields are cleared, so only the removals before it take effect.
   */
  function LoggedOut(s: Session, fault: RemoveFault): Session
  {
    match fault
    case UserRemoveFails => s
    case TokenRemoveFails => s.(storedUser := None)
    case NoRemoveFault => s.(user := None, token := None, storedUser := None, storedToken := None)
  }

  /** The state after `checkAuth`; `readFails` is whether reading or parsing the entries threw. */
  function Restored(s: Session, readFails: bool): Session
  {
    if readFails then s else s.(token := s.storedToken, user := s.storedUser)
  }

  /** The store's state when the application starts, over whatever storage already holds. */
  function Initial(storedUser: Option<UserJson>, storedToken: Option<string>): Session
  {
    Session(None, None, false, storedUser, storedToken)
  }

  /** A complete sign-in stores both entries, then sets token and user together, and succeeds. */
  lemma SignInSucceeds(s: Session, flow: Flow, jwt: string, u: UserJson)
    ensures var (t, r) := SignIn(s, flow, Ok(jwt, u), NoFault);
      t == Session(Some(u), Some(jwt), false, Some(u), Some(jwt)) && r == ActionResult(true, None)
  {
  }

  /**
   * Success exactly when the reply is ok and both writes go through; on a
   * failure `user` and `token` are untouched and a message is returned.
   * Either way `isLoading` ends false.
   */
  lemma SignInOutcome(s: Session, flow: Flow, reply: ServerReply, fault: WriteFault)
    ensures var (t, r) := SignIn(s, flow, reply, fault);
      (r.success <==> reply.Ok? && fault.NoFault?) &&
      (!r.success ==> t.user == s.user && t.token == s.token && r.message.Some?) &&
      !t.isLoading
  {
  }

  /** A reply that is not ok returns the server's message, or the flow's fallback when there is none. */
  lemma RejectionMessages(s: Session, flow: Flow, message: string, fault: WriteFault)
    ensures SignIn(s, flow, NotOk(message), fault).1.message ==
      Some(if message != "" then message
           else if flow == Registering then "Registration failed" else "Login failed")
  {
  }

  /** A completed logout clears everything, and any later logout, failing or not, changes nothing. */
  lemma LogoutIdempotent(s: Session, later: RemoveFault)
    ensures var t := LoggedOut(s, NoRemoveFault);
      t.user.None? && t.token.None? && t.storedUser.None? && t.storedToken.None? &&
      t.isLoading == s.isLoading && LoggedOut(t, later) == t
  {
  }

  /** A logout whose removal throws leaves `user` and `token` in memory as they were. */
  lemma FailedLogoutKeepsFields(s: Session, fault: RemoveFault)
    requires !fault.NoRemoveFault?
    ensures LoggedOut(s, fault).user == s.user && LoggedOut(s, fault).token == s.token
    ensures fault.UserRemoveFails? ==> LoggedOut(s, fault) == s
  {
  }

  /** `checkAuth` copies the entries into memory, an absent user entry as null; a failed read changes nothing. */
  lemma RestoreCopiesStorage(s: Session, readFails: bool)
    ensures !readFails ==> Restored(s, false).user == s.storedUser && Restored(s, false).token == s.storedToken
    ensures readFails ==> Restored(s, true) == s
    ensures Restored(s, readFails).isLoading == s.isLoading
  {
  }

  /** User and token are present together, in memory and in storage. */
  predicate Paired(s: Session)
  {
    s.user.Some? == s.token.Some? && s.storedUser.Some? == s.storedToken.Some?
  }

  /**
   * Every transition keeps the pairing, except a sign-in whose token write
   * throws and a logout whose token removal throws.
   */
  lemma PairingPreserved(s: Session, flow: Flow, reply: ServerReply, fault: WriteFault,
                         removal: RemoveFault, readFails: bool)
    requires Paired(s)
    ensures !fault.TokenWriteFails? ==> Paired(SignIn(s, flow, reply, fault).0)
    ensures !removal.TokenRemoveFails? ==> Paired(LoggedOut(s, removal))
    ensures Paired(Restored(s, readFails))
  {
  }

  /**
   * The pairing is not an invariant of the code: when the token write throws
   * after the user write, the next start restores a user without a token.
   */
  lemma TokenWriteFailureUnpairs(u: UserJson, jwt: string, e: string)
    ensures var s := SignIn(Initial(None, None), Registering, Ok(jwt, u), TokenWriteFails(e)).0;
      var next := Restored(Initial(s.storedUser, s.storedToken), false);
      next.user == Some(u) && next.token.None? && !Paired(next)
  {
  }

  /**
   * Nor is it kept by `logout`: when removing the token throws after the
   * user entry is gone, storage keeps a token without a user while memory
   * stays signed in.
   */
  lemma TokenRemoveFailureUnpairs(u: UserJson, jwt: string)
    ensures var s := Session(Some(u), Some(jwt), false, Some(u), Some(jwt));
      var t := LoggedOut(s, TokenRemoveFails);
      Paired(s) && t.user == Some(u) && t.token == Some(jwt) &&
      t.storedUser.None? && t.storedToken == Some(jwt) && !Paired(t)
  {
  }

  /** The store as the application holds it, one field per piece of state. */
  class SessionStore {
    var user: Option<UserJson>
    var token: Option<string>
    var isLoading: bool
    var storedUser: Option<UserJson>
    var storedToken: Option<string>

    function State(): Session
      reads this
    {
      Session(user, token, isLoading, storedUser, storedToken)
    }

    /** `create(...)`: both fields null and not loading, over the existing storage. */
    constructor (persistedUser: Option<UserJson>, persistedToken: Option<string>)
      ensures State() == Initial(persistedUser, persistedToken)
    {
      user, token, isLoading := None, None, false;
      storedUser, storedToken := persistedUser, persistedToken;
    }

    /** Steps 1-3 of the sign-in flows: set loading, take the reply, write the entries and the fields. */
    method SignInSteps(flow: Flow, reply: ServerReply, fault: WriteFault) returns (result: ActionResult)
      modifies this
      ensures (State(), result) == SignIn(old(State()), flow, reply, fault)
    {
      isLoading := true;
      var thrown: Option<string> := None;
      match reply {
        case Unreachable(e) =>
          thrown := Some(e);
        case NotOk(m) =>
          thrown := Some(RejectionMessage(flow, m));
        case Ok(jwt, u) =>
          match fault {
            case UserWriteFails(e) =>
              thrown := Some(e);
            case TokenWriteFails(e) =>
              storedUser := Some(u);
              thrown := Some(e);
            case NoFault =>
              storedUser := Some(u);
              storedToken := Some(jwt);
              token, user := Some(jwt), Some(u);
              if flow == Registering {
                isLoading := false;
              }
          }
      }
      if thrown.None? {
        result := ActionResult(true, None);
      } else {
        result := ActionResult(false, Some(CaughtMessage(flow, thrown.value)));
      }
      isLoading := false;
    }

    /** `register(username, email, password)`, with the server's reply to that request. */
    method Register(username: string, email: string, password: string, reply: ServerReply, fault: WriteFault)
      returns (result: ActionResult)
      modifies this
      ensures (State(), result) == SignIn(old(State()), Registering, reply, fault)
    {
      result := SignInSteps(Registering, reply, fault);
    }

    /** `login(email, password)`, with the server's reply to that request. */
    method Login(email: string, password: string, reply: ServerReply, fault: WriteFault)
      returns (result: ActionResult)
      modifies this
      ensures (State(), result) == SignIn(old(State()), LoggingIn, reply, fault)
    {
      result := SignInSteps(LoggingIn, reply, fault);
    }

    /** `logout()`: remove both entries, then null both fields; `fault` names the removal that throws, if any. */
    method Logout(fault: RemoveFault)
      modifies this
      ensures State() == LoggedOut(old(State()), fault)
    {
      if fault.UserRemoveFails? {
        return;
      }
      storedUser := None;
      if fault.TokenRemoveFails? {
        return;
      }
      storedToken := None;
      token, user := None, None;
    }

    /** `checkAuth()`: read both entries and copy them into the fields, unless a read throws. */
    method CheckAuth(readFails: bool)
      modifies this
      ensures State() == Restored(old(State()), readFails)
    {
      if readFails {
        return;
      }
      var storedTokenValue := storedToken;
      var userEntry := storedUser;
      token, user := storedTokenValue, userEntry;
    }
  }
}
