/** What each handler answers, in which case: the conditions read off the tables, and the codes and tokens of the
    responses. */
module SessionOutcomes {
  import opened Options
  import opened Session
  import opened SessionLaws

  // ----- Lookups

  /** Some account of this kind has the phone number. */
  ghost predicate HasPhoneAccount(s: State, countryCode: string, mobileNumber: string, userType: UserType) {
    exists id :: id in s.users && s.users[id].countryCode == Some(countryCode)
                 && s.users[id].mobileNumber == Some(mobileNumber) && s.users[id].userType == userType
  }

  ghost predicate HasEmailAccount(s: State, email: string, userType: UserType) {
    exists id :: id in s.users && s.users[id].email == email && s.users[id].userType == userType
  }

  /** Vendors, drivers and users sign in by phone number; all other logins are by e-mail, for admins and sub-admins
      only. */
  lemma LoginLooksFor(r: LoginRequest, user: User)
    ensures r.userType == Some(VENDOR) || r.userType == Some(DRIVER) || r.userType == Some(USER) ==>
              (LoginMatches(r, user) <==>
                 && user.countryCode == Some(r.countryCode) && user.mobileNumber == Some(r.mobileNumber)
                 && Some(user.userType) == r.userType)
    ensures !(r.userType == Some(VENDOR) || r.userType == Some(DRIVER) || r.userType == Some(USER)) ==>
              (LoginMatches(r, user) <==>
                 user.email == r.email && (user.userType == ADMIN || user.userType == SUB_ADMIN))
  {}

  // ----- Tokens

  function AccessToken(s: State, id: UserId): Token {
    Signed(Claims(ACCESS, id, s.now, s.now + 60 * s.config.accessMinutes))
  }

  function RefreshToken(s: State, id: UserId): Token {
    Signed(Claims(REFRESH, id, s.now, s.now + 60 * s.config.refreshMinutes))
  }

  /** From s to t a response gives an account its new tokens, and the history records it. */
  ghost predicate Gives(s: State, t: State, cause: Cause, id: UserId) {
    && t.history == s.history + [Event(cause, id, AccessToken(s, id), RefreshToken(s, id), s.now)]
    && t.signed == s.signed + {AccessToken(s, id).claims, RefreshToken(s, id).claims}
    && t.now == s.now
  }

  // ----- Answers

  /** A phone number that is taken is reported before an e-mail address that is. */
  lemma SignUpAnswers(s: State, r: SignUpRequest, id: UserId, row: RowId)
    ensures var (t, outcome) := SignUp(s, r, id, row);
            if HasPhoneAccount(s, r.countryCode, r.mobileNumber, r.userType) then
              outcome == Refused("PHONE_ALREADY_EXIST")
            else if HasEmailAccount(s, r.email, r.userType) then outcome == Refused("Email_ALREADY_EXIST")
            else outcome == Issued(id, AccessToken(s, id), RefreshToken(s, id)) && Gives(s, t, SIGNED_UP, id)
  {
    assert PhoneTaken(s.users, r.countryCode, r.mobileNumber, r.userType) <==>
           HasPhoneAccount(s, r.countryCode, r.mobileNumber, r.userType);
    assert EmailTaken(s.users, r.email, r.userType) <==> HasEmailAccount(s, r.email, r.userType);
    SignUpGives(s, r, id, row);
  }

  lemma SignUpGives(s: State, r: SignUpRequest, id: UserId, row: RowId)
    ensures var (t, outcome) := SignUp(s, r, id, row);
            outcome.Issued? ==>
              outcome == Issued(id, AccessToken(s, id), RefreshToken(s, id)) && Gives(s, t, SIGNED_UP, id)
  {
    hide PhoneTaken, EmailTaken;
  }

  /** An unknown account, a blocked one, a deleted one and a wrong password are reported in this order. */
  lemma LoginAnswers(s: State, r: LoginRequest, found: Option<UserId>, row: RowId)
    requires LoginAnswer(s, r, found)
    ensures var (t, outcome) := Login(s, r, found, row);
            if found.None? then outcome == Refused("USER_NOT_FOUND")
            else if !s.users[found.value].isActive then outcome == Refused("INACTIVE_USER")
            else if s.users[found.value].isDeleted then outcome == Refused("ACCOUNT_IS_DELETED")
            else if !r.passwordMatches then outcome == Refused("PASSWORD_MISSMATCH")
            else
              && outcome == Issued(found.value, AccessToken(s, found.value), RefreshToken(s, found.value))
              && Gives(s, t, LOGGED_IN, found.value)
  {
    hide RowOf;
  }

  /** A signed refresh token that has expired is reported as such; all other texts are invalid. */
  lemma RefreshAnswersToTexts(s: State, token: Token)
    ensures var outcome := Refresh(s, token).1;
            if token.Signed? && token.claims in s.signed && s.now >= token.claims.exp then
              outcome == Refused("REFRESH_TOKEN_EXPIRED")
            else if token.Signed? && token.claims in s.signed && token.claims.aud == REFRESH then
              outcome != Refused("REFRESH_TOKEN_EXPIRED") && outcome != Refused("INVALID_REFRESH_TOKEN")
            else outcome == Refused("INVALID_REFRESH_TOKEN")
  {
    hide RowOf, Lifetime;
  }

  /** For a valid refresh token: an account that is gone, a user without a row, and a token that is not the stored one
      are refused; everyone else gets new tokens. */
  lemma RefreshAnswers(s: State, token: Token)
    requires token.Signed? && token.claims in s.signed && token.claims.aud == REFRESH && s.now < token.claims.exp
    ensures var (t, outcome) := Refresh(s, token);
            var id := token.claims.sub;
            if id !in s.users then outcome == Refused("ENTITY_NOT_FOUND")
            else if s.users[id].userType != USER then
              && outcome == Issued(id, AccessToken(s, id), RefreshToken(s, id)) && Gives(s, t, REFRESHED, id)
              && t.rows == s.rows
            else if RowOf(s.rows, id).None? then outcome == Refused("ENTITY_NOT_FOUND")
            else if s.rows[RowOf(s.rows, id).value].refresh != token then outcome == Refused("Invalid token")
            else outcome == Issued(id, AccessToken(s, id), RefreshToken(s, id)) && Gives(s, t, REFRESHED, id)
  {
    hide RowOf;
    RowOfIsItsRow(s, token.claims.sub);
  }

  lemma CreateUserAnswers(s: State, email: string, userType: UserType, id: UserId)
    ensures CreateUser(s, email, userType, id).1 ==
            if HasEmailAccount(s, email, userType) then Refused("EMAIL_ALREADY_EXIST") else Done
  {
    assert EmailTaken(s.users, email, userType) <==> HasEmailAccount(s, email, userType);
  }

  /** A text that is no valid access token, one for an account that is gone, and a user's token that is not the stored
      one are rejected; only sub-admins go on to the permission check. */
  lemma AuthenticateAnswers(s: State, token: Token)
    ensures Authenticate(s, token) ==
            if !(token.Signed? && token.claims in s.signed && s.now < token.claims.exp && token.claims.aud == ACCESS)
            then Rejected("Invalid JWT token")
            else if token.claims.sub !in s.users then Rejected("User do not exist")
            else if s.users[token.claims.sub].userType == USER
                    && !(exists row :: RowOf(s.rows, token.claims.sub) == Some(row) && s.rows[row].access == token)
            then Rejected("Provided token is not valid access token")
            else Accepted(token.claims.sub, s.users[token.claims.sub].userType == SUB_ADMIN)
  {
    hide RowOf;
    if token.Signed? { RowOfIsItsRow(s, token.claims.sub); }
  }

  // ----- New accounts

  /** With the data that it was signed up with and the right password, a new account can log in, unless it is a super
      admin, for whom no login looks. */
  lemma LoginAfterSignUp(s: State, r: SignUpRequest, id: UserId, row: RowId, newRow: RowId)
    requires SignUp(s, r, id, row).1.Issued?
    ensures var t := SignUp(s, r, id, row).0;
            var login := LoginRequest(Some(r.userType), r.email, r.countryCode, r.mobileNumber, true);
            && (LoginAnswer(t, login, Some(id)) <==> r.userType != SUPER_ADMIN)
            && (LoginAnswer(t, login, Some(id)) ==> Login(t, login, Some(id), newRow).1.Issued?)
  {
    hide PhoneTaken, EmailTaken, RowOf, Lifetime;
    var t := SignUp(s, r, id, row).0;
    var login := LoginRequest(Some(r.userType), r.email, r.countryCode, r.mobileNumber, true);
    assert t.users[id] == User(r.email, r.userType, Some(r.countryCode), Some(r.mobileNumber), true, false);
    if LoginAnswer(t, login, Some(id)) { LoginAnswers(t, login, Some(id), newRow); }
  }

  /** An account made by an administrator can log in by its address if it is an admin or a sub-admin; one of another
      kind has no phone number to log in by. */
  lemma LoginAfterCreation(s: State, email: string, userType: UserType, id: UserId, r: LoginRequest, newRow: RowId)
    requires CreateUser(s, email, userType, id).1.Done? && r.passwordMatches
    ensures var t := CreateUser(s, email, userType, id).0;
            && (LoginAnswer(t, r, Some(id)) <==>
                  && (userType == ADMIN || userType == SUB_ADMIN) && r.email == email
                  && r.userType != Some(VENDOR) && r.userType != Some(DRIVER) && r.userType != Some(USER))
            && (LoginAnswer(t, r, Some(id)) ==> Login(t, r, Some(id), newRow).1.Issued?)
  {
    hide EmailTaken, RowOf, Lifetime;
    var t := CreateUser(s, email, userType, id).0;
    assert t.users[id] == User(email, userType, None, None, true, false);
    if LoginAnswer(t, r, Some(id)) { LoginAnswers(t, r, Some(id), newRow); }
  }

  /** A blocked account cannot log in until it is unblocked; nothing else about it, and no other account, changes. */
  lemma BlockingStopsLogin(s: State, user: UserId, isActive: bool, r: LoginRequest, newRow: RowId)
    requires user in s.users && !s.users[user].isDeleted && r.passwordMatches && LoginMatches(r, s.users[user])
    ensures var t := Apply(s, SettingStatus(user, isActive)).0;
            && LoginAnswer(t, r, Some(user))
            && (Login(t, r, Some(user), newRow).1.Issued? <==> isActive)
            && t.users.Keys == s.users.Keys
            && (forall id :: id in s.users && id != user ==> t.users[id] == s.users[id])
            && t == s.(users := t.users)
  {
    hide RowOf;
    var t := Apply(s, SettingStatus(user, isActive)).0;
    LoginAnswers(t, r, Some(user), newRow);
  }

  // ----- Windows of time in a run

  lemma TimePasses(s: State, seconds: nat)
    ensures Apply(s, Wait(seconds)).0.now - s.now == seconds
    ensures Apply(s, Wait(seconds)).0 == s.(now := Apply(s, Wait(seconds)).0.now)
  {}

  /** In any run, a user's refresh is granted exactly within the refresh minutes from the latest response, and for its
      token only. */
  lemma RefreshWindow(states: seq<State>, steps: seq<Step>, n: nat, token: Token, user: UserId)
    requires IsRun(states, steps) && n < |states|
    requires user in states[n].users && states[n].users[user].userType == USER
    requires token.Signed? ==> token.claims.sub == user
    ensures var s := states[n];
            Refresh(s, token).1.Issued? <==>
            && Latest(s.history, user).Some? && token == Latest(s.history, user).value.refresh
            && s.now < Latest(s.history, user).value.at + 60 * states[0].config.refreshMinutes
  {
    RunKeepsInv(states, steps, n);
    RunIsForward(states, steps, 0, n);
    RefreshesLatestOnly(states[n], token, user);
  }

  /** So is a user's access token accepted within the access minutes. */
  lemma AccessWindow(states: seq<State>, steps: seq<Step>, n: nat, token: Token, user: UserId)
    requires IsRun(states, steps) && n < |states|
    requires user in states[n].users && states[n].users[user].userType == USER
    requires token.Signed? ==> token.claims.sub == user
    ensures var s := states[n];
            Authenticate(s, token).Accepted? <==>
            && Latest(s.history, user).Some? && token == Latest(s.history, user).value.access
            && s.now < Latest(s.history, user).value.at + 60 * states[0].config.accessMinutes
  {
    RunKeepsInv(states, steps, n);
    RunIsForward(states, steps, 0, n);
    AcceptsLatestOnly(states[n], token, user);
  }

  /** A forget-password token verifies within the access minutes from its signing. */
  lemma ForgetPasswordWindow(states: seq<State>, steps: seq<Step>, i: nat, n: nat, user: UserId)
    requires IsRun(states, steps) && i < n < |states| && steps[i] == ForgettingPassword(user)
    ensures var token := Signed(Claims(FORGETPASSWORD, user, states[i].now,
                                       states[i].now + 60 * states[0].config.accessMinutes));
            VerifyToken(states[n], token, FORGETPASSWORD).Decoded? <==>
            states[n].now < states[i].now + 60 * states[0].config.accessMinutes
  {
    RunIsForward(states, steps, 0, i);
    RunIsForward(states, steps, i + 1, n);
    assert states[i + 1] == Apply(states[i], steps[i]).0;
  }
}
