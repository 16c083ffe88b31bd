/** The same handlers as the program runs them: methods that update the user and token tables, each
    proved to take the step that `Session` describes and to keep the invariant of `SessionLaws`. */
module AuthService {
  import opened Options
  import opened Session
  import opened SessionLaws

  lemma InvHasOneRow(s: State)
    requires Inv(s)
    ensures OneRowEach(s)
  {}

  class Service {
    const config: Config
    var now: int
    var users: map<UserId, User>
    var rows: map<RowId, TokenRow>
    var signed: set<Claims>
    ghost var history: seq<Event>
    var nextUser: UserId
    var nextRow: RowId

    ghost function Abs(): State
      reads this
    {
      Session.State(config, now, users, rows, signed, history)
    }

    ghost predicate Valid()
      reads this
    {
      && Inv(Abs())
      && (forall id :: id in users ==> id < nextUser)
      && (forall row :: row in rows ==> row < nextRow)
    }

    constructor (config: Config, now: int)
      ensures Valid() && Initial(Abs()) && this.config == config && this.now == now
    {
      this.config := config;
      this.now := now;
      users, rows, signed, history, nextUser, nextRow := map[], map[], {}, [], 0, 1;
    }

    method Wait(seconds: nat)
      requires Valid()
      modifies this`now
      ensures Valid()
      ensures Abs() == Apply(old(Abs()), Step.Wait(seconds)).0
    {
      StepKeepsInv(Abs(), Step.Wait(seconds));
      now := now + seconds;
    }

    method Sign(aud: Audience, id: UserId) returns (token: Token)
      modifies this`signed
      ensures (Abs(), token) == SignToken(old(Abs()), aud, id)
    {
      var claims := Claims(aud, id, now, now + Lifetime(config, aud));
      signed := signed + {claims};
      token := Signed(claims);
    }

    method Verify(token: Token, aud: Audience) returns (verified: Verified)
      ensures verified == VerifyToken(Abs(), token, aud)
    {
      if token.Foreign? || token.claims !in signed {
        return TokenInvalid;
      }
      if now >= token.claims.exp {
        return TokenExpired;
      }
      if token.claims.aud != aud {
        return TokenInvalid;
      }
      return Decoded(token.claims);
    }

    /** `findOne` on the users: any row that meets the condition. */
    method FindUser(meets: User -> bool) returns (found: Option<UserId>)
      ensures found.Some? ==> found.value in users && meets(users[found.value])
      ensures found.None? ==> forall id :: id in users ==> !meets(users[id])
    {
      if id :| id in users && meets(users[id]) {
        found := Some(id);
      } else {
        found := None;
      }
    }

    /** The token row related to an account. */
    method FindRow(user: UserId) returns (found: Option<RowId>)
      requires OneRowEach(Abs())
      ensures found == RowOf(rows, user)
      ensures found.Some? ==> found.value in rows
    {
      if row :| row in rows && rows[row].user == user {
        found := Some(row);
        RowOfRow(Abs(), row);
      } else {
        found := None;
      }
    }

    method IsPhoneTaken(countryCode: string, mobileNumber: string, userType: UserType) returns (taken: bool)
      ensures taken == PhoneTaken(users, countryCode, mobileNumber, userType)
    {
      var existingUser := FindUser(u => HasPhone(u, countryCode, mobileNumber, userType));
      taken := existingUser.Some?;
    }

    method IsEmailTaken(email: string, userType: UserType) returns (taken: bool)
      ensures taken == EmailTaken(users, email, userType)
    {
      var existingUser := FindUser(u => HasEmail(u, email, userType));
      taken := existingUser.Some?;
    }

    method SignUp(r: SignUpRequest) returns (outcome: Outcome)
      requires Valid()
      modifies this
      ensures Valid()
      ensures (Abs(), outcome) == Apply(old(Abs()), SigningUp(r, old(nextUser), old(nextRow)))
    {
      hide Inv, PhoneTaken, EmailTaken, Lifetime;
      StepKeepsInv(Abs(), SigningUp(r, nextUser, nextRow));
      var existingUserPhone := IsPhoneTaken(r.countryCode, r.mobileNumber, r.userType);
      if existingUserPhone {
        return Refused("PHONE_ALREADY_EXIST");
      }
      var existingUserEmail := IsEmailTaken(r.email, r.userType);
      if existingUserEmail {
        return Refused("Email_ALREADY_EXIST");
      }
      var id := nextUser;
      users := users[id := User(r.email, r.userType, Some(r.countryCode), Some(r.mobileNumber), true, false)];
      nextUser := nextUser + 1;
      var accessToken := Sign(ACCESS, id);
      var refreshToken := Sign(REFRESH, id);
      if r.userType == USER {
        rows := rows[nextRow := TokenRow(id, accessToken, refreshToken, 1, now)];
        nextRow := nextRow + 1;
      }
      history := history + [Event(SIGNED_UP, id, accessToken, refreshToken, now)];
      return Issued(id, accessToken, refreshToken);
    }

    method Login(r: LoginRequest) returns (outcome: Outcome, ghost found: Option<UserId>)
      requires Valid()
      modifies this
      ensures Valid()
      ensures LoginAnswer(old(Abs()), r, found)
      ensures (Abs(), outcome) == Apply(old(Abs()), LoggingIn(r, found, old(nextRow)))
    {
      hide Inv, RowOf, OneRowEach, Lifetime;
      InvHasOneRow(Abs());
      var user := FindUser(u => LoginMatches(r, u));
      found := user;
      StepKeepsInv(Abs(), LoggingIn(r, found, nextRow));
      if user.None? {
        return Refused("USER_NOT_FOUND"), found;
      }
      var id := user.value;
      if !users[id].isActive {
        return Refused("INACTIVE_USER"), found;
      }
      if users[id].isDeleted {
        return Refused("ACCOUNT_IS_DELETED"), found;
      }
      if !r.passwordMatches {
        return Refused("PASSWORD_MISSMATCH"), found;
      }
      var token := FindRow(id);
      var accessToken := Sign(ACCESS, id);
      var refreshToken := Sign(REFRESH, id);
      if r.userType == Some(USER) {
        if token.Some? {
          var loginCount := rows[token.value].loginCount + 1;
          rows := rows[token.value := TokenRow(id, accessToken, refreshToken, loginCount, now)];
        } else {
          rows := rows[nextRow := TokenRow(id, accessToken, refreshToken, 1, now)];
          nextRow := nextRow + 1;
        }
      }
      history := history + [Event(LOGGED_IN, id, accessToken, refreshToken, now)];
      return Issued(id, accessToken, refreshToken), found;
    }

    method RefreshToken(refreshToken: Token) returns (outcome: Outcome)
      requires Valid()
      modifies this
      ensures Valid()
      ensures (Abs(), outcome) == Apply(old(Abs()), Refreshing(refreshToken))
    {
      hide Inv;
      InvHasOneRow(Abs());
      StepKeepsInv(Abs(), Refreshing(refreshToken));
      var verified := Verify(refreshToken, REFRESH);
      if verified.TokenExpired? {
        return Refused("REFRESH_TOKEN_EXPIRED");
      }
      if verified.TokenInvalid? {
        return Refused("INVALID_REFRESH_TOKEN");
      }
      var id := verified.claims.sub;
      if id !in users {
        return Refused("ENTITY_NOT_FOUND");
      }
      var token := FindRow(id);
      var accessToken := Sign(ACCESS, id);
      var newRefreshToken := Sign(REFRESH, id);
      if users[id].userType == USER {
        if token.None? {
          return Refused("ENTITY_NOT_FOUND");
        }
        if rows[token.value].refresh != refreshToken {
          return Refused("Invalid token");
        }
        rows := rows[token.value := rows[token.value].(access := accessToken, refresh := newRefreshToken)];
      }
      history := history + [Event(REFRESHED, id, accessToken, newRefreshToken, now)];
      return Issued(id, accessToken, newRefreshToken);
    }

    method CreateUser(email: string, userType: UserType) returns (outcome: Outcome)
      requires Valid()
      modifies this`users, this`nextUser
      ensures Valid()
      ensures (Abs(), outcome) == Apply(old(Abs()), CreatingUser(email, userType, old(nextUser)))
    {
      hide Inv, EmailTaken;
      StepKeepsInv(Abs(), CreatingUser(email, userType, nextUser));
      var existingUser := IsEmailTaken(email, userType);
      if existingUser {
        return Refused("EMAIL_ALREADY_EXIST");
      }
      users := users[nextUser := User(email, userType, None, None, true, false)];
      nextUser := nextUser + 1;
      return Done;
    }

    method Authenticate(token: Token) returns (authentication: Authentication)
      requires Valid()
      ensures authentication == Session.Authenticate(Abs(), token)
    {
      var verified := Verify(token, ACCESS);
      if !verified.Decoded? {
        return Rejected("Invalid JWT token");
      }
      var sub := verified.claims.sub;
      if sub !in users {
        return Rejected("User do not exist");
      }
      var row := FindRow(sub);
      if users[sub].userType == USER && !(row.Some? && rows[row.value].access == token) {
        return Rejected("Provided token is not valid access token");
      }
      return Accepted(sub, users[sub].userType == SUB_ADMIN);
    }
  }
}
