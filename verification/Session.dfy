/** Accounts, token rows and signed tokens: the handlers of src/controller/auth.ts and createUser of
    src/controller/users.ts as steps on one state, with the token service of src/service/token.ts and
    the check of src/middleware/authenticate.ts. */
module Session {
  import opened Options

  type UserId = nat
  type RowId = nat

  datatype Audience = FORGETPASSWORD | ACCESS | REFRESH

  datatype UserType = SUPER_ADMIN | ADMIN | VENDOR | DRIVER | USER | SUB_ADMIN

  /** The claims of a token, in whole seconds; see sections 4.1.3 and 4.1.4 of RFC 7519. */
  datatype Claims = Claims(aud: Audience, sub: UserId, iat: int, exp: int)

  /** A text presented as a token: `sign` maps claims to texts one to one, and all other texts are
      foreign. */
  datatype Token = Signed(claims: Claims) | Foreign(text: string)

  datatype User = User(email: string, userType: UserType, countryCode: Option<string>,
                       mobileNumber: Option<string>, isActive: bool, isDeleted: bool)

  datatype TokenRow = TokenRow(user: UserId, access: Token, refresh: Token, loginCount: nat, lastLogin: int)

  datatype Config = Config(accessMinutes: int, refreshMinutes: int)

  datatype Cause = SIGNED_UP | LOGGED_IN | REFRESHED

  /** A response that carried a fresh pair of tokens. */
  datatype Event = Event(cause: Cause, user: UserId, access: Token, refresh: Token, at: int)

  /** `signed` holds the claims of every token signed so far and `history` the responses that carried
      tokens; no handler reads the history. */
  datatype State = State(config: Config, now: int, users: map<UserId, User>, rows: map<RowId, TokenRow>,
                         signed: set<Claims>, history: seq<Event>)

  // ----- src/service/token.ts

  function Lifetime(config: Config, aud: Audience): int {
    60 * if aud == REFRESH then config.refreshMinutes else config.accessMinutes
  }

  function SignClaims(s: State, aud: Audience, sub: UserId): Claims {
    Claims(aud, sub, s.now, s.now + Lifetime(s.config, aud))
  }

  function SignToken(s: State, aud: Audience, sub: UserId): (State, Token) {
    var claims := SignClaims(s, aud, sub);
    (s.(signed := s.signed + {claims}), Signed(claims))
  }

  datatype Verified = Decoded(claims: Claims) | TokenExpired | TokenInvalid

  /** The signature is good on the texts that were signed; expiry is checked before the audience. */
  function VerifyToken(s: State, token: Token, aud: Audience): Verified {
    if token.Foreign? || token.claims !in s.signed then TokenInvalid
    else if s.now >= token.claims.exp then TokenExpired
    else if token.claims.aud != aud then TokenInvalid
    else Decoded(token.claims)
  }

  // ----- Lookups

  predicate HasPhone(user: User, countryCode: string, mobileNumber: string, userType: UserType) {
    user.countryCode == Some(countryCode) && user.mobileNumber == Some(mobileNumber) && user.userType == userType
  }

  predicate HasEmail(user: User, email: string, userType: UserType) {
    user.email == email && user.userType == userType
  }

  predicate PhoneTaken(users: map<UserId, User>, countryCode: string, mobileNumber: string, userType: UserType) {
    exists id :: id in users && HasPhone(users[id], countryCode, mobileNumber, userType)
  }

  predicate EmailTaken(users: map<UserId, User>, email: string, userType: UserType) {
    exists id :: id in users && HasEmail(users[id], email, userType)
  }

  /** The row that belongs to an account. */
  ghost function RowOf(rows: map<RowId, TokenRow>, user: UserId): Option<RowId> {
    if row :| row in rows && rows[row].user == user then Some(row) else None
  }

  // ----- The handlers

  datatype Outcome =
    | Issued(user: UserId, access: Token, refresh: Token)
    | Refused(code: string)
    | Done

  datatype SignUpRequest = SignUpRequest(email: string, userType: UserType, countryCode: string, mobileNumber: string)

  datatype LoginRequest = LoginRequest(userType: Option<UserType>, email: string, countryCode: string,
                                       mobileNumber: string, passwordMatches: bool)

  /** `userType === (USER || VENDOR || DRIVER)`: the disjunction of non-empty strings is its first. */
  predicate KeepsTokens(userType: UserType) {
    userType == USER
  }

  function NewUser(r: SignUpRequest): User {
    User(r.email, r.userType, Some(r.countryCode), Some(r.mobileNumber), true, false)
  }

  function Respond(s: State, cause: Cause, user: UserId, access: Token, refresh: Token): (State, Outcome) {
    (s.(history := s.history + [Event(cause, user, access, refresh, s.now)]), Issued(user, access, refresh))
  }

  /** `signUp`; the database picks the ids. */
  function SignUp(s: State, r: SignUpRequest, id: UserId, row: RowId): (State, Outcome) {
    if PhoneTaken(s.users, r.countryCode, r.mobileNumber, r.userType) then (s, Refused("PHONE_ALREADY_EXIST"))
    else if EmailTaken(s.users, r.email, r.userType) then (s, Refused("Email_ALREADY_EXIST"))
    else
      var s0 := s.(users := s.users[id := NewUser(r)]);
      var (s1, access) := SignToken(s0, ACCESS, id);
      var (s2, refresh) := SignToken(s1, REFRESH, id);
      var s3 := if KeepsTokens(r.userType)
                then s2.(rows := s2.rows[row := TokenRow(id, access, refresh, 1, s.now)])
                else s2;
      Respond(s3, SIGNED_UP, id, access, refresh)
  }

  predicate SignsInByPhone(r: LoginRequest) {
    r.userType == Some(VENDOR) || r.userType == Some(DRIVER) || r.userType == Some(USER)
  }

  predicate LoginMatches(r: LoginRequest, user: User) {
    if SignsInByPhone(r) then HasPhone(user, r.countryCode, r.mobileNumber, r.userType.value)
    else user.email == r.email && (user.userType == ADMIN || user.userType == SUB_ADMIN)
  }

  /** What the database may answer when `login` asks for a user: any one that matches. */
  predicate LoginAnswer(s: State, r: LoginRequest, found: Option<UserId>) {
    if found.Some? then found.value in s.users && LoginMatches(r, s.users[found.value])
    else forall id :: id in s.users ==> !LoginMatches(r, s.users[id])
  }

  /** `login`, with the user that the database answered and the id it would give a new row. */
  ghost function Login(s: State, r: LoginRequest, found: Option<UserId>, row: RowId): (State, Outcome)
    requires LoginAnswer(s, r, found)
  {
    if found.None? then (s, Refused("USER_NOT_FOUND"))
    else
      var id := found.value;
      if !s.users[id].isActive then (s, Refused("INACTIVE_USER"))
      else if s.users[id].isDeleted then (s, Refused("ACCOUNT_IS_DELETED"))
      else if !r.passwordMatches then (s, Refused("PASSWORD_MISSMATCH"))
      else
        var (s1, access) := SignToken(s, ACCESS, id);
        var (s2, refresh) := SignToken(s1, REFRESH, id);
        var s3 := if r.userType.Some? && KeepsTokens(r.userType.value)
                  then KeepLogin(s2, id, row, access, refresh)
                  else s2;
        Respond(s3, LOGGED_IN, id, access, refresh)
  }

  /** Updates the account's row, or creates one. */
  ghost function KeepLogin(s: State, id: UserId, row: RowId, access: Token, refresh: Token): State {
    var known := RowOf(s.rows, id);
    if known.Some? then
      s.(rows := s.rows[known.value := TokenRow(id, access, refresh, s.rows[known.value].loginCount + 1, s.now)])
    else s.(rows := s.rows[row := TokenRow(id, access, refresh, 1, s.now)])
  }

  /** `refreshToken`. The tokens are signed before the stored one is compared. */
  ghost function Refresh(s: State, token: Token): (State, Outcome) {
    var verified := VerifyToken(s, token, REFRESH);
    if verified.TokenExpired? then (s, Refused("REFRESH_TOKEN_EXPIRED"))
    else if verified.TokenInvalid? then (s, Refused("INVALID_REFRESH_TOKEN"))
    else
      var id := verified.claims.sub;
      if id !in s.users then (s, Refused("ENTITY_NOT_FOUND"))
      else
        var (s1, access) := SignToken(s, ACCESS, id);
        var (s2, refresh) := SignToken(s1, REFRESH, id);
        if !KeepsTokens(s.users[id].userType) then Respond(s2, REFRESHED, id, access, refresh)
        else
          var known := RowOf(s.rows, id);
          if known.None? then (s2, Refused("ENTITY_NOT_FOUND"))
          else if s.rows[known.value].refresh != token then (s2, Refused("Invalid token"))
          else
            var updated := s.rows[known.value].(access := access, refresh := refresh);
            Respond(s2.(rows := s2.rows[known.value := updated]), REFRESHED, id, access, refresh)
  }

  /** `createUser`: an account without a phone number and without tokens. */
  function CreateUser(s: State, email: string, userType: UserType, id: UserId): (State, Outcome) {
    if EmailTaken(s.users, email, userType) then (s, Refused("EMAIL_ALREADY_EXIST"))
    else (s.(users := s.users[id := User(email, userType, None, None, true, false)]), Done)
  }

  datatype Authentication = Rejected(message: string) | Accepted(user: UserId, needsPermission: bool)

  /** `authenticate`; a sub-admin goes on to the permission check. */
  ghost function Authenticate(s: State, token: Token): Authentication {
    var verified := VerifyToken(s, token, ACCESS);
    if !verified.Decoded? then Rejected("Invalid JWT token")
    else
      var id := verified.claims.sub;
      if id !in s.users then Rejected("User do not exist")
      else
        var row := RowOf(s.rows, id);
        if KeepsTokens(s.users[id].userType) && !(row.Some? && s.rows[row.value].access == token)
        then Rejected("Provided token is not valid access token")
        else Accepted(id, s.users[id].userType == SUB_ADMIN)
  }

  // ----- Runs

  datatype Step =
    | Wait(seconds: nat)
    | SigningUp(signUp: SignUpRequest, newUser: UserId, newRow: RowId)
    | LoggingIn(login: LoginRequest, found: Option<UserId>, newRow: RowId)
    | Refreshing(token: Token)
    | CreatingUser(email: string, userType: UserType, newUser: UserId)
    | ForgettingPassword(user: UserId)             // signs a forget-password token
    | SettingStatus(user: UserId, isActive: bool)  // an account is blocked or unblocked

  predicate Enabled(s: State, step: Step) {
    match step
    case Wait(_) => true
    case SigningUp(_, newUser, newRow) => newUser !in s.users && newRow !in s.rows
    case LoggingIn(r, found, newRow) => LoginAnswer(s, r, found) && newRow !in s.rows
    case Refreshing(_) => true
    case CreatingUser(_, _, newUser) => newUser !in s.users
    case ForgettingPassword(user) => user in s.users
    case SettingStatus(user, _) => user in s.users
  }

  ghost function Apply(s: State, step: Step): (State, Outcome)
    requires Enabled(s, step)
  {
    match step
    case Wait(seconds) => (s.(now := s.now + seconds), Done)
    case SigningUp(r, newUser, newRow) => SignUp(s, r, newUser, newRow)
    case LoggingIn(r, found, newRow) => Login(s, r, found, newRow)
    case Refreshing(token) => Refresh(s, token)
    case CreatingUser(email, userType, newUser) => CreateUser(s, email, userType, newUser)
    case ForgettingPassword(user) => (SignToken(s, FORGETPASSWORD, user).0, Done)
    case SettingStatus(user, isActive) => (s.(users := s.users[user := s.users[user].(isActive := isActive)]), Done)
  }

  predicate Initial(s: State) {
    s.users == map[] && s.rows == map[] && s.signed == {} && s.history == []
  }

  ghost predicate IsRun(states: seq<State>, steps: seq<Step>) {
    && |states| == |steps| + 1
    && Initial(states[0])
    && forall i :: 0 <= i < |steps| ==> Enabled(states[i], steps[i]) && states[i + 1] == Apply(states[i], steps[i]).0
  }
}
