/**
 * frontend/src/contexts/AuthContext.tsx: the session held by the auth provider — the signed-in
 * user, the loading flag, and the session token kept in local storage under 'auth_token' — and
 * the handlers that change it: the start-up check against `/api/auth/me`, the exchange of a
 * Google credential at `/api/auth/google`, sign-out, and the sign-in entry point that always
 * refuses.
 *
 * The two requests are outside the provider: their outcomes are parameters. Local storage is a
 * map from keys to strings that the handlers update.
 */
module AuthContext {
  import opened Wrappers

  const TokenKey := "auth_token"
  const SignInMessage := "Please use the Google Sign-In button to authenticate"

  datatype Session<U> = Session(user: Option<U>, isLoading: bool, storage: map<string, string>)

  /** The provider's state when it mounts: nobody signed in yet, still loading. */
  function Mounted<U>(storage: map<string, string>): Session<U> {
    Session(None, true, storage)
  }

  /** `!!user`. */
  predicate IsAuthenticated<U>(s: Session<U>) {
    s.user.Some?
  }

  /** JavaScript truthiness of a string that may be missing: present and not empty. */
  predicate Truthy(o: Option<string>) {
    o.Some? && o.value != ""
  }

  /** `localStorage.getItem('auth_token')`. */
  function StoredToken(storage: map<string, string>): Option<string> {
    if TokenKey in storage then Some(storage[TokenKey]) else None
  }

  // ---------------------------------------------------------------------------------------
  // checkAuthStatus

  /** How `GET /api/auth/me` went: an ok response whose JSON body is the user (or null), a
      response that is not ok, or an exception from the request or the body. */
  datatype MeOutcome<U> = MeOk(body: Option<U>) | MeNotOk | MeThrew

  /** `checkAuthStatus`: loading always ends, only the token may be removed, and whoever ends
      up signed in has a token stored. */
  function CheckStep<U>(s: Session<U>, outcome: MeOutcome<U>): (r: Session<U>)
    ensures !r.isLoading && Coherent(r) && OthersKept(s.storage, r.storage)
    ensures IsAuthenticated(r) ==> outcome.MeOk? && r.user == outcome.body
  {
    if !Truthy(StoredToken(s.storage)) then s.(user := None, isLoading := false)
    else match outcome
      case MeOk(body) => s.(user := body, isLoading := false)
      case _ => s.(user := None, isLoading := false, storage := s.storage - {TokenKey})
  }

  /** Every way through the check ends with loading finished. */
  lemma CheckEndsLoading<U>(s: Session<U>, outcome: MeOutcome<U>)
    ensures !CheckStep(s, outcome).isLoading
  {
  }

  /** Without a token nobody is signed in, and the outcome of the request does not matter: it
      is never made. */
  lemma CheckWithoutToken<U>(s: Session<U>, o1: MeOutcome<U>, o2: MeOutcome<U>)
    requires !Truthy(StoredToken(s.storage))
    ensures CheckStep(s, o1) == CheckStep(s, o2)
    ensures !IsAuthenticated(CheckStep(s, o1)) && CheckStep(s, o1).storage == s.storage
  {
  }

  /** With a token: an ok response signs in the user it returns and keeps the token; anything
      else forgets the token and signs nobody in. */
  lemma CheckWithToken<U>(s: Session<U>, outcome: MeOutcome<U>)
    requires Truthy(StoredToken(s.storage))
    ensures var r := CheckStep(s, outcome);
      (outcome.MeOk? ==> r.user == outcome.body && r.storage == s.storage) &&
      (!outcome.MeOk? ==> r.user.None? && TokenKey !in r.storage)
  {
  }

  // ---------------------------------------------------------------------------------------
  // handleCredentialResponse

  /** How `POST /api/auth/google` went: an ok response with the JSON body's `token` and `user`
      (each possibly missing), a response that is not ok, or an exception. */
  datatype AuthOutcome<U> = AuthOk(token: Option<string>, user: Option<U>) | AuthNotOk | AuthThrew

  /** Whether the exchange succeeded: ok, with a non-empty token and a user. */
  predicate Accepted<U>(outcome: AuthOutcome<U>) {
    outcome.AuthOk? && Truthy(outcome.token) && outcome.user.Some?
  }

  /** `handleCredentialResponse`: nothing happens without a credential; with one, loading ends
      and the user is signed in exactly when the exchange is accepted. */
  function CredentialStep<U>(s: Session<U>, credential: Option<string>, outcome: AuthOutcome<U>): (r: Session<U>)
    ensures OthersKept(s.storage, r.storage)
    ensures Truthy(credential) ==> !r.isLoading && Coherent(r) && (IsAuthenticated(r) <==> Accepted(outcome))
  {
    if !Truthy(credential) then s
    else if Accepted(outcome) then
      s.(user := outcome.user, isLoading := false, storage := s.storage[TokenKey := outcome.token.value])
    else s.(user := None, isLoading := false, storage := s.storage - {TokenKey})
  }

  /** A missing or empty credential changes nothing. */
  lemma NoCredentialNoChange<U>(s: Session<U>, credential: Option<string>, outcome: AuthOutcome<U>)
    requires !Truthy(credential)
    ensures CredentialStep(s, credential, outcome) == s
  {
  }

  /** With a credential: an accepted exchange stores the token and signs the user in; any other
      outcome forgets the token and signs nobody in. Loading is over either way. */
  lemma CredentialOutcomes<U>(s: Session<U>, credential: Option<string>, outcome: AuthOutcome<U>)
    requires Truthy(credential)
    ensures var r := CredentialStep(s, credential, outcome);
      !r.isLoading &&
      (IsAuthenticated(r) <==> Accepted(outcome)) &&
      (Accepted(outcome) ==> r.user == outcome.user && StoredToken(r.storage) == outcome.token) &&
      (!Accepted(outcome) ==> TokenKey !in r.storage)
  {
  }

  // ---------------------------------------------------------------------------------------
  // signOut and signIn

  /** `signOut`: the token is removed and the user cleared. Whether the Google call in between
      throws does not matter: the `catch` does the same two things again. */
  function SignOutStep<U>(s: Session<U>, googleThrows: bool): (r: Session<U>)
    ensures !IsAuthenticated(r) && TokenKey !in r.storage && r.isLoading == s.isLoading
    ensures OthersKept(s.storage, r.storage)
  {
    var cleared := s.(user := None, storage := s.storage - {TokenKey});
    if googleThrows then cleared.(user := None, storage := cleared.storage - {TokenKey}) else cleared
  }

  lemma SignOutAlwaysSignsOut<U>(s: Session<U>, googleThrows: bool)
    ensures var r := SignOutStep(s, googleThrows);
      !IsAuthenticated(r) && TokenKey !in r.storage && r.isLoading == s.isLoading
    ensures SignOutStep(s, true) == SignOutStep(s, false)
    ensures SignOutStep(SignOutStep(s, googleThrows), googleThrows) == SignOutStep(s, googleThrows)
  {
  }

  /** `signIn` always rejects with the same message. */
  function SignInResult(): (r: Result<(), string>)
    ensures r.Err?
  {
    Err(SignInMessage)
  }

  // ---------------------------------------------------------------------------------------
  // What every handler keeps

  /** Keys other than 'auth_token' are left exactly as they were. */
  ghost predicate OthersKept(before: map<string, string>, after: map<string, string>) {
    forall k :: k != TokenKey ==> (k in after <==> k in before) && (k in after ==> after[k] == before[k])
  }

  /** A signed-in user always has a session token stored. */
  predicate Coherent<U>(s: Session<U>) {
    IsAuthenticated(s) ==> Truthy(StoredToken(s.storage))
  }

  lemma HandlersKeepCoherent<U>(
    s: Session<U>, me: MeOutcome<U>, credential: Option<string>, auth: AuthOutcome<U>, googleThrows: bool)
    requires Coherent(s)
    ensures Coherent(CheckStep(s, me))
    ensures Coherent(CredentialStep(s, credential, auth))
    ensures Coherent(SignOutStep(s, googleThrows))
  {
  }

  /** One step of the provider's life: a check, a credential, or a sign-out. */
  datatype Event<U> =
    | Check(me: MeOutcome<U>)
    | Credential(credential: Option<string>, auth: AuthOutcome<U>)
    | SignOut(googleThrows: bool)

  function Apply<U>(s: Session<U>, e: Event<U>): Session<U> {
    match e
    case Check(me) => CheckStep(s, me)
    case Credential(credential, auth) => CredentialStep(s, credential, auth)
    case SignOut(googleThrows) => SignOutStep(s, googleThrows)
  }

  function Run<U>(s: Session<U>, events: seq<Event<U>>): Session<U>
    decreases |events|
  {
    if events == [] then s else Run(Apply(s, events[0]), events[1..])
  }

  /** From mounting on, over any sequence of completed handlers, a signed-in user has a token
      stored and no other key of local storage has changed. */
  lemma {:induction false} RunKeepsSession<U>(s: Session<U>, events: seq<Event<U>>)
    requires Coherent(s)
    ensures Coherent(Run(s, events))
    ensures OthersKept(s.storage, Run(s, events).storage)
    decreases |events|
  {
    if events != [] {
      var next := Apply(s, events[0]);
      match events[0] {
        case Check(me) =>
          HandlersKeepCoherent(s, me, None, AuthThrew, false);
        case Credential(credential, auth) =>
          HandlersKeepCoherent(s, MeThrew, credential, auth, false);
        case SignOut(googleThrows) =>
          HandlersKeepCoherent(s, MeThrew, None, AuthThrew, googleThrows);
      }
      RunKeepsSession(next, events[1..]);
    }
  }

  lemma MountedIsCoherent<U>(storage: map<string, string>, events: seq<Event<U>>)
    ensures Coherent(Run(Mounted<U>(storage), events))
    ensures OthersKept(storage, Run(Mounted<U>(storage), events).storage)
  {
    RunKeepsSession(Mounted<U>(storage), events);
  }

  // ---------------------------------------------------------------------------------------
  // The provider

  /** The provider's `useState` fields and local storage. */
  class Provider<U> {
    var user: Option<U>
    var isLoading: bool
    var storage: map<string, string>

    function State(): Session<U>
      reads this
    {
      Session(user, isLoading, storage)
    }

    function IsAuthenticated(): bool
      reads this
    {
      user.Some?
    }

    constructor (storage: map<string, string>)
      ensures State() == Mounted(storage)
    {
      user := None;
      isLoading := true;
      this.storage := storage;
    }

    method CheckAuthStatus(outcome: MeOutcome<U>)
      modifies this
      ensures State() == CheckStep(old(State()), outcome)
    {
      var token := if TokenKey in storage then Some(storage[TokenKey]) else None;
      if token.None? || token.value == "" {
        user := None;
        isLoading := false;
        return;
      }
      match outcome {
        case MeOk(body) =>
          user := body;
        case _ =>
          storage := storage - {TokenKey};
          user := None;
      }
      isLoading := false;
    }

    method HandleCredentialResponse(credential: Option<string>, outcome: AuthOutcome<U>)
      modifies this
      ensures State() == CredentialStep(old(State()), credential, outcome)
    {
      if credential.None? || credential.value == "" {
        return;
      }
      isLoading := true;
      if outcome.AuthOk? && outcome.token.Some? && outcome.token.value != "" && outcome.user.Some? {
        storage := storage[TokenKey := outcome.token.value];
        user := outcome.user;
      } else {
        user := None;
        storage := storage - {TokenKey};
      }
      isLoading := false;
    }

    method SignOut(googleThrows: bool)
      modifies this
      ensures State() == SignOutStep(old(State()), googleThrows)
    {
      storage := storage - {TokenKey};
      user := None;
      if googleThrows {
        storage := storage - {TokenKey};
        user := None;
      }
    }

    method SignIn() returns (r: Result<(), string>)
      ensures r == SignInResult()
    {
      return Err(SignInMessage);
    }
  }
}
