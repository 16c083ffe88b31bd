/** What every run of sign-ups, logins and refreshes keeps, and which tokens it accepts. */
module SessionLaws {
  import opened Options
  import opened Session

  // ----- Reading the history

  /** The latest response that gave the account tokens. */
  function Latest(history: seq<Event>, user: UserId): Option<Event> {
    if history == [] then None
    else if history[|history| - 1].user == user then Some(history[|history| - 1])
    else Latest(history[..|history| - 1], user)
  }

  predicate IsLogin(e: Event, user: UserId) {
    e.user == user && e.cause != REFRESHED
  }

  /** How often the account has signed up or logged in. */
  function Logins(history: seq<Event>, user: UserId): nat {
    if history == [] then 0
    else Logins(history[..|history| - 1], user) + if IsLogin(history[|history| - 1], user) then 1 else 0
  }

  function LastLogin(history: seq<Event>, user: UserId): Option<int> {
    if history == [] then None
    else if IsLogin(history[|history| - 1], user) then Some(history[|history| - 1].at)
    else LastLogin(history[..|history| - 1], user)
  }

  lemma HistoryGrows(history: seq<Event>, e: Event, user: UserId)
    ensures Latest(history + [e], user) == if e.user == user then Some(e) else Latest(history, user)
    ensures Logins(history + [e], user) == Logins(history, user) + if IsLogin(e, user) then 1 else 0
    ensures LastLogin(history + [e], user) == if IsLogin(e, user) then Some(e.at) else LastLogin(history, user)
  {
    assert (history + [e])[..|history|] == history;
  }

  ghost predicate IsLatestAt(history: seq<Event>, user: UserId, i: int) {
    0 <= i < |history| && history[i].user == user && forall j :: i < j < |history| ==> history[j].user != user
  }

  lemma {:induction false} LatestIsLast(history: seq<Event>, user: UserId)
    ensures var e := Latest(history, user);
            && (e.Some? <==> exists i :: 0 <= i < |history| && history[i].user == user)
            && (e.Some? ==> exists i :: IsLatestAt(history, user, i) && history[i] == e.value)
  {
    if history == [] {
    } else if history[|history| - 1].user == user {
      assert IsLatestAt(history, user, |history| - 1);
    } else {
      var front := history[..|history| - 1];
      LatestIsLast(front, user);
      if Latest(front, user).Some? {
        var i :| IsLatestAt(front, user, i) && front[i] == Latest(front, user).value;
        assert IsLatestAt(history, user, i) && history[i] == Latest(history, user).value;
      }
      forall i | 0 <= i < |history| && history[i].user == user
        ensures Latest(front, user).Some?
      {
        assert front[i].user == user;
      }
    }
  }

  lemma {:induction false} NoEventNoLogin(history: seq<Event>, user: UserId)
    requires forall e :: e in history ==> e.user != user
    ensures Latest(history, user).None? && Logins(history, user) == 0 && LastLogin(history, user).None?
  {
    if history == [] {
    } else {
      assert history[|history| - 1] in history;
      NoEventNoLogin(history[..|history| - 1], user);
    }
  }

  // ----- The invariant

  predicate SameEmail(a: User, b: User) {
    a.email == b.email && a.userType == b.userType
  }

  predicate SamePhone(a: User, b: User) {
    && a.countryCode.Some? && a.mobileNumber.Some?
    && a.countryCode == b.countryCode && a.mobileNumber == b.mobileNumber && a.userType == b.userType
  }

  predicate SameIdentity(a: User, b: User) {
    SameEmail(a, b) || SamePhone(a, b)
  }

  /** No two accounts share e-mail and kind, or phone number and kind. */
  ghost predicate UniqueIdentities(users: map<UserId, User>) {
    forall a, b :: a in users && b in users && SameIdentity(users[a], users[b]) ==> a == b
  }

  /** Each account has at most one row, and only mobile users have one. */
  ghost predicate OneRowEach(s: State) {
    && (forall r :: r in s.rows ==> s.rows[r].user in s.users && s.users[s.rows[r].user].userType == USER)
    && (forall q, r :: q in s.rows && r in s.rows && s.rows[q].user == s.rows[r].user ==> q == r)
  }

  /** A row holds the latest pair of tokens and counts the logins since the account was made. */
  ghost predicate RowIsCurrent(history: seq<Event>, row: TokenRow) {
    var e := Latest(history, row.user);
    && e.Some? && row.access == e.value.access && row.refresh == e.value.refresh
    && row.loginCount == Logins(history, row.user)
    && LastLogin(history, row.user) == Some(row.lastLogin)
  }

  ghost predicate RowsAreCurrent(s: State) {
    && (forall r :: r in s.rows ==> RowIsCurrent(s.history, s.rows[r]))
    && forall u :: u in s.users && s.users[u].userType == USER && Latest(s.history, u).Some? ==>
         RowOf(s.rows, u).Some?
  }

  ghost predicate WasSigned(s: State, c: Claims) {
    c.sub in s.users && c.iat <= s.now && c.exp == c.iat + Lifetime(s.config, c.aud)
  }

  ghost predicate TokenFrom(s: State, token: Token, aud: Audience, user: UserId, at: int) {
    token == Signed(Claims(aud, user, at, at + Lifetime(s.config, aud))) && token.claims in s.signed
  }

  ghost predicate EventIsSound(s: State, e: Event) {
    && e.user in s.users && e.at <= s.now
    && TokenFrom(s, e.access, ACCESS, e.user, e.at)
    && TokenFrom(s, e.refresh, REFRESH, e.user, e.at)
  }

  ghost predicate HistoryIsSound(s: State) {
    && (forall e :: e in s.history ==> EventIsSound(s, e))
    && (forall i, j :: 0 <= i <= j < |s.history| ==> s.history[i].at <= s.history[j].at)
  }

  ghost predicate Inv(s: State) {
    && UniqueIdentities(s.users)
    && OneRowEach(s)
    && RowsAreCurrent(s)
    && (forall c :: c in s.signed ==> WasSigned(s, c))
    && HistoryIsSound(s)
  }

  lemma RowOfRow(s: State, r: RowId)
    requires OneRowEach(s) && r in s.rows
    ensures RowOf(s.rows, s.rows[r].user) == Some(r)
  {}

  // ----- Steps keep the invariant

  /** A response with fresh tokens for an account, which the account's row records. */
  ghost predicate Responded(s: State, t: State, e: Event, row: RowId) {
    && e.user in s.users && e.at == s.now
    && t.config == s.config && t.now == s.now && t.users == s.users
    && t.signed == s.signed + {SignClaims(s, ACCESS, e.user), SignClaims(s, REFRESH, e.user)}
    && e.access == Signed(SignClaims(s, ACCESS, e.user)) && e.refresh == Signed(SignClaims(s, REFRESH, e.user))
    && t.history == s.history + [e]
    && if s.users[e.user].userType == USER then
         && (row in s.rows ==> s.rows[row].user == e.user)
         && (RowOf(s.rows, e.user).Some? ==> RowOf(s.rows, e.user) == Some(row))
         && row in t.rows && t.rows == s.rows[row := t.rows[row]] && t.rows[row].user == e.user
         && RowIsCurrent(t.history, t.rows[row])
       else t.rows == s.rows
  }

  lemma ResponseKeepsRows(s: State, t: State, e: Event, row: RowId)
    requires OneRowEach(s) && Responded(s, t, e, row)
    ensures OneRowEach(t)
  {
    if s.users[e.user].userType == USER {
      forall r | r in s.rows && s.rows[r].user == e.user
        ensures r == row
      {
        RowOfRow(s, r);
      }
    }
  }

  lemma ResponseKeepsCurrency(s: State, t: State, e: Event, row: RowId)
    requires OneRowEach(s) && RowsAreCurrent(s) && Responded(s, t, e, row)
    ensures RowsAreCurrent(t)
  {
    hide LastLogin;
    ResponseKeepsRows(s, t, e, row);
    forall r | r in t.rows
      ensures RowIsCurrent(t.history, t.rows[r])
    {
      HistoryGrows(s.history, e, t.rows[r].user);
      if s.users[e.user].userType != USER || r != row {
        assert r in s.rows && t.rows[r] == s.rows[r];
        if s.rows[r].user == e.user { RowOfRow(s, r); }
      }
    }
    forall u | u in t.users && t.users[u].userType == USER && Latest(t.history, u).Some?
      ensures RowOf(t.rows, u).Some?
    {
      HistoryGrows(s.history, e, u);
      if u == e.user {
        assert t.rows[row].user == u;
      } else {
        var r := RowOf(s.rows, u).value;
        assert r in t.rows && t.rows[r].user == u;
      }
    }
  }

  lemma ResponseKeepsInv(s: State, t: State, e: Event, row: RowId)
    requires Inv(s) && Responded(s, t, e, row)
    ensures Inv(t)
  {
    ResponseKeepsRows(s, t, e, row);
    ResponseKeepsCurrency(s, t, e, row);
    forall f | f in t.history
      ensures EventIsSound(t, f)
    {
      assert f in s.history || f == e;
    }
    forall i | 0 <= i < |s.history|
      ensures s.history[i].at <= e.at
    {
      assert s.history[i] in s.history;
    }
  }

  lemma NewAccountKeepsInv(s: State, id: UserId, user: User)
    requires Inv(s) && id !in s.users && UniqueIdentities(s.users[id := user])
    ensures Inv(s.(users := s.users[id := user]))
    ensures Latest(s.history, id).None? && Logins(s.history, id) == 0 && RowOf(s.rows, id).None?
  {
    hide UniqueIdentities;
    forall e | e in s.history
      ensures e.user != id
    {
      assert EventIsSound(s, e);
    }
    NoEventNoLogin(s.history, id);
  }

  /** Signing up succeeds exactly when the new account leaves all identities unique. */
  lemma SignUpExactly(s: State, r: SignUpRequest, id: UserId, row: RowId)
    requires UniqueIdentities(s.users) && id !in s.users
    ensures SignUp(s, r, id, row).1.Issued? <==> UniqueIdentities(s.users[id := NewUser(r)])
    ensures !SignUp(s, r, id, row).1.Issued? ==> SignUp(s, r, id, row).0 == s
  {
    var users := s.users[id := NewUser(r)];
    if PhoneTaken(s.users, r.countryCode, r.mobileNumber, r.userType) {
      var other :| other in s.users && HasPhone(s.users[other], r.countryCode, r.mobileNumber, r.userType);
      assert SamePhone(users[other], users[id]);
    } else if EmailTaken(s.users, r.email, r.userType) {
      var other :| other in s.users && HasEmail(s.users[other], r.email, r.userType);
      assert SameEmail(users[other], users[id]);
    } else {
      forall a | a in s.users
        ensures !HasPhone(s.users[a], r.countryCode, r.mobileNumber, r.userType)
        ensures !HasEmail(s.users[a], r.email, r.userType)
      {}
    }
  }

  /** An account created by an administrator has no phone number, so only its e-mail can collide. */
  lemma CreateUserExactly(s: State, email: string, userType: UserType, id: UserId)
    requires UniqueIdentities(s.users) && id !in s.users
    ensures CreateUser(s, email, userType, id).1.Done? <==>
            UniqueIdentities(s.users[id := User(email, userType, None, None, true, false)])
    ensures !CreateUser(s, email, userType, id).1.Done? ==> CreateUser(s, email, userType, id).0 == s
  {
    var users := s.users[id := User(email, userType, None, None, true, false)];
    if EmailTaken(s.users, email, userType) {
      var other :| other in s.users && HasEmail(s.users[other], email, userType);
      assert SameEmail(users[other], users[id]);
    } else {
      forall a | a in s.users
        ensures !HasEmail(s.users[a], email, userType)
      {}
    }
  }

  lemma SignUpKeepsInv(s: State, r: SignUpRequest, id: UserId, row: RowId)
    requires Inv(s) && id !in s.users && row !in s.rows
    ensures Inv(SignUp(s, r, id, row).0)
  {
    SignUpExactly(s, r, id, row);
    var t := SignUp(s, r, id, row).0;
    if SignUp(s, r, id, row).1.Issued? {
      var s0 := s.(users := s.users[id := NewUser(r)]);
      NewAccountKeepsInv(s, id, NewUser(r));
      var e := t.history[|s.history|];
      HistoryGrows(s.history, e, id);
      assert t.signed == s0.signed + {SignClaims(s0, ACCESS, id), SignClaims(s0, REFRESH, id)};
      ResponseKeepsInv(s0, t, e, row);
    }
  }

  lemma LoginKeepsInv(s: State, r: LoginRequest, found: Option<UserId>, row: RowId)
    requires Inv(s) && LoginAnswer(s, r, found) && row !in s.rows
    ensures Inv(Login(s, r, found, row).0)
  {
    hide Latest, Logins, LastLogin, UniqueIdentities, OneRowEach, HistoryIsSound, WasSigned;
    var t := Login(s, r, found, row).0;
    if Login(s, r, found, row).1.Issued? {
      var id := found.value;
      var e := t.history[|s.history|];
      HistoryGrows(s.history, e, id);
      var known := RowOf(s.rows, id);
      assert t.signed == s.signed + {SignClaims(s, ACCESS, id), SignClaims(s, REFRESH, id)};
      assert KeepsTokens(s.users[id].userType) <==> r.userType.Some? && KeepsTokens(r.userType.value);
      if known.None? && s.users[id].userType == USER { NewRowIsCurrent(s, id); }
      ResponseKeepsInv(s, t, e, if known.Some? then known.value else row);
    }
  }

  /** A mobile user without a row has never had tokens. */
  lemma NewRowIsCurrent(s: State, id: UserId)
    requires RowsAreCurrent(s) && id in s.users && s.users[id].userType == USER && RowOf(s.rows, id).None?
    ensures Logins(s.history, id) == 0
  {
    LatestIsLast(s.history, id);
    NoEventNoLogin(s.history, id);
  }

  lemma RefreshKeepsInv(s: State, token: Token)
    requires Inv(s)
    ensures Inv(Refresh(s, token).0)
  {
    hide Latest, Logins, LastLogin, UniqueIdentities, OneRowEach, HistoryIsSound, RowOf;
    var t := Refresh(s, token).0;
    var verified := VerifyToken(s, token, REFRESH);
    if verified.Decoded? && verified.claims.sub in s.users {
      var id := verified.claims.sub;
      assert t.signed == s.signed + {SignClaims(s, ACCESS, id), SignClaims(s, REFRESH, id)};
      if Refresh(s, token).1.Issued? {
        var e := t.history[|s.history|];
        HistoryGrows(s.history, e, id);
        RowOfIsItsRow(s, id);
        ResponseKeepsInv(s, t, e, RowOf(s.rows, id).GetOr(0));
      } else {
        SigningKeepsInv(s, t);
      }
    }
  }

  lemma SigningKeepsInv(s: State, t: State)
    requires Inv(s) && t == s.(signed := t.signed) && s.signed <= t.signed
    requires forall c :: c in t.signed && c !in s.signed ==> WasSigned(s, c)
    ensures Inv(t)
  {
    forall e | e in t.history
      ensures EventIsSound(t, e)
    {
      assert EventIsSound(s, e);
    }
  }

  lemma StepKeepsInv(s: State, step: Step)
    requires Inv(s) && Enabled(s, step)
    ensures Inv(Apply(s, step).0)
  {
    hide LastLogin;
    match step
    case Wait(seconds) => WaitKeepsInv(s, seconds);
    case SigningUp(r, newUser, newRow) => SignUpKeepsInv(s, r, newUser, newRow);
    case LoggingIn(r, found, newRow) => LoginKeepsInv(s, r, found, newRow);
    case Refreshing(token) => RefreshKeepsInv(s, token);
    case CreatingUser(email, userType, newUser) =>
      CreateUserExactly(s, email, userType, newUser);
      if Apply(s, step).1.Done? {
        NewAccountKeepsInv(s, newUser, User(email, userType, None, None, true, false));
      }
    case ForgettingPassword(user) => SigningKeepsInv(s, Apply(s, step).0);
    case SettingStatus(user, isActive) => StatusKeepsInv(s, user, isActive);
  }

  lemma WaitKeepsInv(s: State, seconds: nat)
    requires Inv(s)
    ensures Inv(s.(now := s.now + seconds))
  {
    forall e | e in s.history
      ensures EventIsSound(s.(now := s.now + seconds), e)
    {
      assert EventIsSound(s, e);
    }
  }

  lemma StatusKeepsIdentities(users: map<UserId, User>, id: UserId, user: User)
    requires UniqueIdentities(users) && id in users
    requires user == users[id].(isActive := user.isActive)
    ensures UniqueIdentities(users[id := user])
  {
    forall u | u in users
      ensures var v := users[id := user][u];
              forall w :: (SameIdentity(v, w) <==> SameIdentity(users[u], w))
                          && (SameIdentity(w, v) <==> SameIdentity(w, users[u]))
    {}
  }

  lemma StatusKeepsInv(s: State, user: UserId, isActive: bool)
    requires Inv(s) && user in s.users
    ensures Inv(s.(users := s.users[user := s.users[user].(isActive := isActive)]))
  {
    hide UniqueIdentities, RowOf, Latest, Logins, LastLogin;
    var changed := s.users[user].(isActive := isActive);
    StatusKeepsIdentities(s.users, user, changed);
    var t := s.(users := s.users[user := changed]);
    forall e | e in t.history
      ensures EventIsSound(t, e)
    {
      assert EventIsSound(s, e);
    }
  }

  /** In every state of every run: identities are unique, each account has at most one row, and a row
      holds the account's latest tokens and the number of its sign-ups and logins. */
  lemma {:induction false} RunKeepsInv(states: seq<State>, steps: seq<Step>, n: nat)
    requires IsRun(states, steps) && n < |states|
    ensures Inv(states[n])
  {
    if n == 0 {
    } else {
      RunKeepsInv(states, steps, n - 1);
      StepKeepsInv(states[n - 1], steps[n - 1]);
      assert states[n] == Apply(states[n - 1], steps[n - 1]).0;
    }
  }

  /** A login by phone number has one possible account; the answer cannot depend on the database. */
  lemma PhoneLoginHasOneAnswer(s: State, r: LoginRequest, f1: Option<UserId>, f2: Option<UserId>)
    requires UniqueIdentities(s.users) && SignsInByPhone(r) && LoginAnswer(s, r, f1) && LoginAnswer(s, r, f2)
    ensures f1 == f2
  {
    if f1.Some? && f2.Some? {
      assert SamePhone(s.users[f1.value], s.users[f2.value]);
    }
  }

  /** A login by e-mail does not name the kind of account: the database has a choice exactly when an admin and
      a sub-admin share the address. */
  lemma EmailLoginIsAmbiguousExactly(s: State, r: LoginRequest)
    requires UniqueIdentities(s.users) && !SignsInByPhone(r)
    ensures (exists f1, f2 :: LoginAnswer(s, r, f1) && LoginAnswer(s, r, f2) && f1 != f2) <==>
            (exists a, b :: a in s.users && b in s.users && HasEmail(s.users[a], r.email, ADMIN)
                            && HasEmail(s.users[b], r.email, SUB_ADMIN))
  {
    if f1, f2 :| LoginAnswer(s, r, f1) && LoginAnswer(s, r, f2) && f1 != f2 {
      assert f1.Some? && f2.Some?;
      var a, b := s.users[f1.value], s.users[f2.value];
      assert a.userType != b.userType by { assert !SameEmail(a, b); }
      if a.userType == ADMIN {
        assert HasEmail(a, r.email, ADMIN) && HasEmail(b, r.email, SUB_ADMIN);
      } else {
        assert HasEmail(b, r.email, ADMIN) && HasEmail(a, r.email, SUB_ADMIN);
      }
    }
    if a, b :| a in s.users && b in s.users && HasEmail(s.users[a], r.email, ADMIN)
               && HasEmail(s.users[b], r.email, SUB_ADMIN) {
      assert LoginAnswer(s, r, Some(a)) && LoginAnswer(s, r, Some(b));
      assert Some(a) != Some(b);
    }
  }

  /** Login gives tokens to an account exactly when it was found, is neither blocked nor removed, and the
      password matches; the tokens are that account's, and otherwise nothing changes. */
  lemma LoginExactly(s: State, r: LoginRequest, found: Option<UserId>, row: RowId)
    requires LoginAnswer(s, r, found)
    ensures var (t, outcome) := Login(s, r, found, row);
            && (outcome.Issued? <==> found.Some? && s.users[found.value].isActive && !s.users[found.value].isDeleted
                                     && r.passwordMatches)
            && (outcome.Issued? ==> Some(outcome.user) == found && Latest(t.history, outcome.user).Some?
                                    && Latest(t.history, outcome.user).value.access == outcome.access)
            && (!outcome.Issued? ==> t == s)
  {
    if found.Some? {
      var t := Login(s, r, found, row).0;
      if |t.history| > |s.history| { HistoryGrows(s.history, t.history[|s.history|], found.value); }
    }
  }

  // ----- Which tokens are accepted

  /** For a mobile user, `authenticate` accepts the access token of the latest response with tokens, for as many
      minutes from then as access tokens live, and nothing else. */
  lemma AcceptsLatestOnly(s: State, token: Token, user: UserId)
    requires Inv(s) && user in s.users && s.users[user].userType == USER
    requires token.Signed? ==> token.claims.sub == user
    ensures Authenticate(s, token).Accepted? <==>
            && Latest(s.history, user).Some?
            && token == Latest(s.history, user).value.access
            && s.now < Latest(s.history, user).value.at + 60 * s.config.accessMinutes
    ensures Authenticate(s, token).Accepted? ==> token.Signed? && s.now < token.claims.exp
  {
    var e := Latest(s.history, user);
    if e.Some? {
      LatestIsLast(s.history, user);
      assert e.value in s.history && EventIsSound(s, e.value);
    }
    RowOfIsItsRow(s, user);
  }

  /** For all other kinds of account any unexpired access token is accepted, however many were signed since;
      only sub-admins go on to the permission check. */
  lemma AcceptsAnyUnexpired(s: State, token: Token, user: UserId)
    requires user in s.users && s.users[user].userType != USER
    requires token.Signed? && token.claims.sub == user
    ensures Authenticate(s, token).Accepted? <==>
            token.claims in s.signed && token.claims.aud == ACCESS && s.now < token.claims.exp
    ensures Authenticate(s, token).Accepted? ==>
            (Authenticate(s, token).needsPermission <==> s.users[user].userType == SUB_ADMIN)
  {}

  lemma RowOfIsItsRow(s: State, user: UserId)
    ensures RowOf(s.rows, user).Some? ==>
            RowOf(s.rows, user).value in s.rows && s.rows[RowOf(s.rows, user).value].user == user
  {}

  /** `authenticate` never accepts a token for anyone but its subject, nor one that was not signed as an
      access token, nor an expired one; `refreshToken` never takes an access token. */
  lemma AudiencesAreSeparate(s: State, token: Token)
    requires Inv(s)
    ensures Authenticate(s, token).Accepted? ==>
            && token.Signed? && token.claims in s.signed && token.claims.aud == ACCESS && s.now < token.claims.exp
            && Authenticate(s, token).user == token.claims.sub
            && token.claims == Claims(ACCESS, token.claims.sub, token.claims.iat,
                                      token.claims.iat + 60 * s.config.accessMinutes)
    ensures Refresh(s, token).1.Issued? ==>
            && token.Signed? && token.claims in s.signed && token.claims.aud == REFRESH && s.now < token.claims.exp
            && Refresh(s, token).1.user == token.claims.sub
  {}

  // ----- Over a run

  /** No account disappears or changes its kind. */
  ghost predicate AccountsStay(s: State, t: State) {
    forall u :: u in s.users ==> u in t.users && t.users[u].userType == s.users[u].userType
  }

  /** Time passes, responses and signatures are added and accounts stay. */
  ghost predicate Later(s: State, t: State) {
    && s.now <= t.now && s.history <= t.history && s.signed <= t.signed
    && t.config == s.config && AccountsStay(s, t)
  }

  lemma LoginIsForward(s: State, r: LoginRequest, found: Option<UserId>, row: RowId)
    requires LoginAnswer(s, r, found)
    ensures Later(s, Login(s, r, found, row).0)
  {
    hide RowOf, Lifetime;
  }

  lemma RefreshIsForward(s: State, token: Token)
    ensures Later(s, Refresh(s, token).0)
  {
    hide RowOf, Lifetime;
  }

  lemma StepIsForward(s: State, step: Step)
    requires Enabled(s, step)
    ensures Later(s, Apply(s, step).0)
  {
    hide Login, Refresh, PhoneTaken, EmailTaken, Lifetime;
    match step
    case LoggingIn(r, found, newRow) => LoginIsForward(s, r, found, newRow);
    case Refreshing(token) => RefreshIsForward(s, token);
    case _ =>
  }

  lemma {:induction false} RunIsForward(states: seq<State>, steps: seq<Step>, i: nat, j: nat)
    requires IsRun(states, steps) && i <= j < |states|
    ensures Later(states[i], states[j])
  {
    hide Apply, Enabled;
    if i == j {
    } else {
      RunIsForward(states, steps, i, j - 1);
      StepIsForward(states[j - 1], steps[j - 1]);
      assert states[j] == Apply(states[j - 1], steps[j - 1]).0;
    }
  }

  lemma LatestIsNoEarlier(s: State, e: Event)
    requires HistoryIsSound(s) && e in s.history
    ensures Latest(s.history, e.user).Some? && e.at <= Latest(s.history, e.user).value.at
  {
    LatestIsLast(s.history, e.user);
    var k :| 0 <= k < |s.history| && s.history[k] == e;
    var i :| IsLatestAt(s.history, e.user, i) && s.history[i] == Latest(s.history, e.user).value;
    assert k <= i;
  }

  /** A mobile user's access token issued in an earlier second than some later response is rejected from
      then on, for ever. */
  lemma StaleAccessIsRejected(states: seq<State>, steps: seq<Step>, i: nat, j: nat, e: Event, token: Token)
    requires IsRun(states, steps) && i <= j < |states|
    requires e in states[i].history && e.user in states[i].users && states[i].users[e.user].userType == USER
    requires token.Signed? && token.claims.sub == e.user && token.claims.iat < e.at
    ensures Authenticate(states[j], token).Rejected?
  {
    RunKeepsInv(states, steps, j);
    RunIsForward(states, steps, i, j);
    var t := states[j];
    assert e in t.history;
    AcceptsLatestOnly(t, token, e.user);
    LatestIsNoEarlier(t, e);
    LatestIsLast(t.history, e.user);
    var latest := Latest(t.history, e.user).value;
    assert latest in t.history && EventIsSound(t, latest);
  }

  /** After a refresh, the row holds the presented token only if that token was signed in this very
      second: two tokens for one subject and audience in one second are the same text. */
  lemma RefreshRotates(s: State, token: Token)
    requires Inv(s) && Refresh(s, token).1.Issued? && s.users[token.claims.sub].userType == USER
    ensures var (t, outcome) := Refresh(s, token);
            && outcome.refresh == Latest(t.history, token.claims.sub).value.refresh
            && (outcome.refresh == token <==> token.claims.iat == s.now)
  {
    assert WasSigned(s, token.claims);
  }

  /** A mobile user's refresh is granted exactly for the refresh token of the latest response with tokens, for as
      many minutes from then as refresh tokens live. */
  lemma RefreshesLatestOnly(s: State, token: Token, user: UserId)
    requires Inv(s) && user in s.users && s.users[user].userType == USER
    requires token.Signed? ==> token.claims.sub == user
    ensures Refresh(s, token).1.Issued? <==>
            && Latest(s.history, user).Some?
            && token == Latest(s.history, user).value.refresh
            && s.now < Latest(s.history, user).value.at + 60 * s.config.refreshMinutes
    ensures Refresh(s, token).1.Issued? ==> token.Signed? && s.now < token.claims.exp
  {
    var e := Latest(s.history, user);
    if e.Some? {
      LatestIsLast(s.history, user);
      assert e.value in s.history && EventIsSound(s, e.value);
    }
    RowOfIsItsRow(s, user);
  }

  /** A mobile user's refresh token that is accepted in a later second than its issue is never accepted
      again. */
  lemma RefreshTokenIsSpent(states: seq<State>, steps: seq<Step>, i: nat, j: nat, token: Token)
    requires IsRun(states, steps) && i < j < |states|
    requires steps[i] == Refreshing(token) && Refresh(states[i], token).1.Issued? && token.Signed?
    requires token.claims.sub in states[i].users && states[i].users[token.claims.sub].userType == USER
    requires token.claims.iat < states[i].now
    ensures Refresh(states[j], token).1.Refused?
  {
    var user := token.claims.sub;
    RefreshIsRecorded(states, steps, i, token);
    var e := states[i + 1].history[|states[i].history|];
    RunKeepsInv(states, steps, j);
    RunIsForward(states, steps, i, j);
    RunIsForward(states, steps, i + 1, j);
    var t := states[j];
    assert e == t.history[|states[i].history|];
    LatestIsNoEarlier(t, e);
    LatestIsLast(t.history, user);
    var latest := Latest(t.history, user).value;
    assert latest in t.history && EventIsSound(t, latest);
    RefreshOutcome(t, token);
    RefreshesLatestOnly(t, token, user);
  }

  lemma RefreshOutcome(s: State, token: Token)
    ensures Refresh(s, token).1.Issued? || Refresh(s, token).1.Refused?
  {}

  lemma RefreshIsRecorded(states: seq<State>, steps: seq<Step>, i: nat, token: Token)
    requires IsRun(states, steps) && i < |steps|
    requires steps[i] == Refreshing(token) && Refresh(states[i], token).1.Issued?
    ensures |states[i + 1].history| == |states[i].history| + 1
    ensures var e := states[i + 1].history[|states[i].history|];
            e.user == token.claims.sub && e.at == states[i].now
  {
    assert states[i + 1] == Apply(states[i], steps[i]).0;
  }

  /** Every token that is accepted was signed earlier in the run, for the user it is accepted for, in the
      second it names, by a step that signs for that user. */
  lemma {:induction false} SignedInTheRun(states: seq<State>, steps: seq<Step>, n: nat, c: Claims)
    requires IsRun(states, steps) && n < |states| && c in states[n].signed
    ensures exists i :: 0 <= i < n && c !in states[i].signed && c in states[i + 1].signed
                        && c == SignClaims(states[i], c.aud, c.sub)
  {
    assert n > 0;
    if c in states[n - 1].signed {
      SignedInTheRun(states, steps, n - 1, c);
    } else {
      assert states[n] == Apply(states[n - 1], steps[n - 1]).0;
      StepSigns(states[n - 1], steps[n - 1], c);
    }
  }

  lemma StepSigns(s: State, step: Step, c: Claims)
    requires Enabled(s, step) && c !in s.signed && c in Apply(s, step).0.signed
    ensures c == SignClaims(s, c.aud, c.sub)
  {
  }

  lemma AcceptedWasSigned(states: seq<State>, steps: seq<Step>, n: nat, token: Token)
    requires IsRun(states, steps) && n < |states| && Authenticate(states[n], token).Accepted?
    ensures token.Signed? && Authenticate(states[n], token).user == token.claims.sub
    ensures exists i :: 0 <= i < n && token.claims !in states[i].signed && token.claims in states[i + 1].signed
                        && token.claims == SignClaims(states[i], ACCESS, token.claims.sub)
    ensures states[n].now < token.claims.exp
  {
    RunKeepsInv(states, steps, n);
    AudiencesAreSeparate(states[n], token);
    SignedInTheRun(states, steps, n, token.claims);
  }

  function Minutes(config: Config, aud: Audience): int {
    match aud
    case ACCESS => config.accessMinutes
    case REFRESH => config.refreshMinutes
    case FORGETPASSWORD => config.accessMinutes
  }

  /** The step from s to t signs this token for this audience. */
  ghost predicate SignedBy(s: State, t: State, token: Token, aud: Audience) {
    && token.Signed? && token.claims in t.signed
    && token.claims.aud == aud && token.claims.iat == s.now && token.claims.exp == s.now + 60 * Minutes(s.config, aud)
  }

  /** A text verifies for an audience if and only if some earlier step of the run signed it for that audience, and
      fewer minutes have passed than such tokens live: forget-password tokens as long as access tokens. */
  lemma VerifiesExactly(states: seq<State>, steps: seq<Step>, n: nat, token: Token, aud: Audience)
    requires IsRun(states, steps) && n < |states|
    ensures VerifyToken(states[n], token, aud).Decoded? <==>
            exists k :: 0 <= k < n && SignedBy(states[k], states[k + 1], token, aud)
                        && states[n].now < states[k].now + 60 * Minutes(states[n].config, aud)
  {
    hide Apply, Enabled;
    if VerifyToken(states[n], token, aud).Decoded? {
      SignedInTheRun(states, steps, n, token.claims);
      var k :| 0 <= k < n && token.claims !in states[k].signed && token.claims in states[k + 1].signed
               && token.claims == SignClaims(states[k], token.claims.aud, token.claims.sub);
      RunIsForward(states, steps, k, n);
      assert SignedBy(states[k], states[k + 1], token, aud);
    }
    if k :| 0 <= k < n && SignedBy(states[k], states[k + 1], token, aud)
            && states[n].now < states[k].now + 60 * Minutes(states[n].config, aud) {
      RunIsForward(states, steps, k, n);
      RunIsForward(states, steps, k + 1, n);
    }
  }

  lemma NothingTaken(start: State, r: SignUpRequest)
    requires Initial(start)
    ensures !PhoneTaken(start.users, r.countryCode, r.mobileNumber, r.userType)
    ensures !EmailTaken(start.users, r.email, r.userType)
  {}

  lemma FirstSignUp(start: State, r: SignUpRequest)
    requires Initial(start) && r.userType == USER
    ensures var s := SignUp(start, r, 0, 0).0;
            && 0 in s.users && s.users[0].userType == USER && s.now == start.now && s.config == start.config
            && Latest(s.history, 0).Some? && Latest(s.history, 0).value.at == start.now
            && Latest(s.history, 0).value.refresh == Signed(SignClaims(start, REFRESH, 0))
  {
    hide PhoneTaken, EmailTaken, Lifetime, Latest;
    NothingTaken(start, r);
    var s := SignUp(start, r, 0, 0).0;
    HistoryGrows([], s.history[0], 0);
    assert [] + [s.history[0]] == s.history;
  }

  lemma RefreshResponds(s: State, token: Token, user: UserId)
    requires user in s.users && token.Signed? && token.claims.sub == user && Refresh(s, token).1.Issued?
    ensures var (t, outcome) := Refresh(s, token);
            && t.users == s.users && t.now == s.now && t.config == s.config
            && outcome.refresh == Signed(SignClaims(s, REFRESH, user))
            && Latest(t.history, user).Some? && Latest(t.history, user).value.at == s.now
            && Latest(t.history, user).value.refresh == outcome.refresh
  {
    hide RowOf;
    var t := Refresh(s, token).0;
    HistoryGrows(s.history, t.history[|s.history|], user);
  }

  lemma RunOfThree(s0: State, s1: State, s2: State, s3: State, steps: seq<Step>)
    requires Initial(s0) && |steps| == 3
    requires Enabled(s0, steps[0]) && Enabled(s1, steps[1]) && Enabled(s2, steps[2])
    requires s1 == Apply(s0, steps[0]).0 && s2 == Apply(s1, steps[1]).0 && s3 == Apply(s2, steps[2]).0
    ensures IsRun([s0, s1, s2, s3], steps)
  {
    hide Apply, Enabled, Initial;
  }

  /** A sign-up and two refreshes in one second: the new refresh token is the presented one, which is accepted a
      second time. */
  lemma SameSecondRefresh(start: State, r: SignUpRequest) returns (states: seq<State>, steps: seq<Step>, token: Token)
    requires Initial(start) && r.userType == USER && start.config.refreshMinutes > 0
    ensures IsRun(states, steps) && |steps| == 3 && states[0] == start && steps[1] == steps[2] == Refreshing(token)
    ensures Refresh(states[1], token).1.Issued? && Refresh(states[1], token).1.refresh == token
    ensures Refresh(states[2], token).1.Issued?
  {
    hide SignUp, Refresh, Inv, Latest, IsRun;
    token := Signed(SignClaims(start, REFRESH, 0));
    steps := [SigningUp(r, 0, 0), Refreshing(token), Refreshing(token)];
    var s1 := SignUp(start, r, 0, 0).0;
    var s2 := Refresh(s1, token).0;
    states := [start, s1, s2, Refresh(s2, token).0];
    RunOfThree(start, s1, s2, Refresh(s2, token).0, steps);
    RunKeepsInv(states, steps, 1);
    RunKeepsInv(states, steps, 2);
    FirstSignUp(start, r);
    RefreshesLatestOnly(s1, token, 0);
    RefreshResponds(s1, token, 0);
    RefreshesLatestOnly(s2, token, 0);
  }

  /** An administrator may create an admin and a sub-admin with one address; a login by that address then has two
      possible accounts. */
  lemma SharedAddress(start: State, email: string) returns (states: seq<State>, steps: seq<Step>)
    requires Initial(start)
    ensures IsRun(states, steps) && states[0] == start && |steps| == 2
    ensures forall r: LoginRequest :: r.email == email && !SignsInByPhone(r) ==>
              LoginAnswer(states[2], r, Some(0)) && LoginAnswer(states[2], r, Some(1))
  {
    steps := [CreatingUser(email, ADMIN, 0), CreatingUser(email, SUB_ADMIN, 1)];
    var s1 := CreateUser(start, email, ADMIN, 0).0;
    assert !EmailTaken(s1.users, email, SUB_ADMIN);
    states := [start, s1, CreateUser(s1, email, SUB_ADMIN, 1).0];
  }
}
