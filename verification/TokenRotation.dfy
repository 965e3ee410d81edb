/** Rotation of the IdP refresh token behind a federated session: the token rows as AuthService rewrites
    them, and any number of processes refreshing one row under its lock. */
module TokenRotation {
  import opened Common
  import opened TokenExpiry

  /** IdP tokens are opaque; encryption at rest is an identity here. */
  type Token = nat

  type UserId = nat

  /** The refresh row and the access row it cascades to. */
  datatype Rows = Rows(creator: UserId, refreshToken: Token, refreshExpires: Time, accessToken: Token,
                       accessExpires: Time)

  /** A 200 answer of the token endpoint; None for a member that is absent or falsy. */
  datatype IdpTokens = IdpTokens(refreshToken: Option<Token>, accessToken: Option<Token>, accessLife: Lifetime,
                                 refreshLife: Lifetime)

  datatype AuthError = InvalidClient | InvalidGrant | IdpError | LockTimeout

  datatype TokenKind = AccessToken | RefreshToken | CookieToken | OtherKind

  /** A token as a client presents it: one that does not decrypt or lacks its claims, or one of some kind that
      names this session's rows. */
  datatype ClientToken = Unreadable | Readable(kind: TokenKind, user: UserId)

  /** A session cookie: with an access row's id (and perhaps its expiry), or a test cookie without. */
  datatype CookieClaims = Federated(axp: Option<int>) | PlainCookie(exp: Option<int>)

  /** What a re-minted cookie lasts until, or for. */
  datatype Reissue = Until(e: Time) | Lasting(seconds: int)

  /** What the IdP call gives: tokens, or an unreachable endpoint or a status other than 200. */
  type Answer = Result<IdpTokens, AuthError>

  /** The rows after an answer is written into them, with the two clock reads of the expiry computation. */
  function Rewritten(cfg: IdpConfig, rows: Rows, answer: Answer, r1: Time, r2: Time): Result<Rows, AuthError> {
    match answer
    case Err(_) => Err(IdpError)
    case Ok(t) =>
      if t.accessToken.None? then Err(IdpError)
      else Ok(Rows(rows.creator, if t.refreshToken.Some? then t.refreshToken.value else rows.refreshToken,
                   RowExpiry(t.refreshLife, cfg.refreshFallback, cfg.drift, r1), t.accessToken.value,
                   RowExpiry(t.accessLife, cfg.accessFallback, cfg.drift, r2)))
  }

  /** Every column holds what the answer says: the owner stays, a refresh token that is not sent stays too, and
      each expiry is what its own lifetime promises, to the second. */
  predicate AnswerWritten(cfg: IdpConfig, was: Rows, answer: IdpTokens, r1: Time, r2: Time, rows: Rows) {
    && rows.creator == was.creator
    && rows.refreshToken == answer.refreshToken.GetOr(was.refreshToken)
    && Some(rows.accessToken) == answer.accessToken
    && Recorded(rows.refreshExpires, answer.refreshLife, cfg.refreshFallback, cfg.drift, r1)
    && Recorded(rows.accessExpires, answer.accessLife, cfg.accessFallback, cfg.drift, r2)
  }

  lemma RewrittenExactly(cfg: IdpConfig, rows: Rows, answer: Answer, r1: Time, r2: Time)
    ensures var r := Rewritten(cfg, rows, answer, r1, r2);
      && (r.Ok? <==> answer.Ok? && answer.value.accessToken.Some?)
      && (r.Ok? ==> AnswerWritten(cfg, rows, answer.value, r1, r2, r.value))
      && (r.Err? ==> r.error == IdpError)
  {
    if answer.Ok? {
      RowExpiryExactly(answer.value.refreshLife, cfg.refreshFallback, cfg.drift, r1);
      RowExpiryExactly(answer.value.accessLife, cfg.accessFallback, cfg.drift, r2);
    }
  }

  /** A rotating answer whose new refresh token is not written anywhere. */
  predicate Discards(answer: Answer) { answer.Ok? && answer.value.refreshToken.Some? && answer.value.accessToken.None? }

  // ---------------------------------------------------------------- what a request comes to

  /** A request refreshes on the cookie path, or as the explicit grant of a user. */
  datatype Path = CookiePath | ExplicitGrant(user: UserId)

  /** Its clock reads: for the grant, for the re-check, and for the two expiries. */
  datatype Clocks = Clocks(now: Time, recheck: Time, r1: Time, r2: Time)

  /** Its result once it has the lock, and the refresh tokens it sent to the IdP. */
  datatype Attempt = Attempt(result: Result<Rows, AuthError>, presented: seq<Token>)

  function GrantedTo(path: Path): Option<UserId> { if path.ExplicitGrant? then Some(path.user) else None }

  /** The grant's own conditions: the row is there, belongs to the caller, and its refresh token is good. */
  predicate Refreshable(rows: Option<Rows>, user: Option<UserId>, now: Time) {
    rows.Some? && (user.Some? ==> rows.value.creator == user.value) && rows.value.refreshExpires > now
  }

  /** Whether a request that has the lock goes on to the IdP. */
  predicate CallsIdp(path: Path, rows: Option<Rows>, now: Time, recheck: Time) {
    Refreshable(rows, GrantedTo(path), now) && (path.CookiePath? ==> rows.value.accessExpires <= recheck)
  }

  function AttemptOf(cfg: IdpConfig, rows: Option<Rows>, path: Path, clock: Clocks, answer: Answer): Attempt {
    if !Refreshable(rows, GrantedTo(path), clock.now) then Attempt(Err(InvalidGrant), [])
    else if !CallsIdp(path, rows, clock.now, clock.recheck) then Attempt(Ok(rows.value), [])
    else Attempt(Rewritten(cfg, rows.value, answer, clock.r1, clock.r2), [rows.value.refreshToken])
  }

  // ---------------------------------------------------------------- one request

  /** The service for one request, over the one session its token names. Lock waits and IdP answers come
      in as arguments; the caller's transaction commits when a method succeeds and rolls back when it fails. */
  class AuthService {
    const cfg: IdpConfig
    var rows: Option<Rows>
    /** The refresh tokens this request sent to the IdP. */
    var presented: seq<Token>

    constructor (cfg: IdpConfig, rows: Option<Rows>)
      ensures this.cfg == cfg && this.rows == rows && presented == []
    {
      this.cfg, this.rows, presented := cfg, rows, [];
    }

    /** The callback: both tokens must be there, and nothing is kept otherwise. */
    method PersistIdpTokens(user: UserId, tokens: IdpTokens, r1: Time, r2: Time) returns (r: Result<Rows, AuthError>)
      modifies this`rows
      ensures r.Ok? <==> tokens.refreshToken.Some? && tokens.accessToken.Some?
      ensures r.Ok? ==> rows == Some(r.value) && r.value.creator == user
      ensures r.Ok? ==>
        r.value.refreshToken == tokens.refreshToken.value && r.value.accessToken == tokens.accessToken.value
      ensures r.Ok? ==> Recorded(r.value.refreshExpires, tokens.refreshLife, cfg.refreshFallback, cfg.drift, r1)
      ensures r.Ok? ==> Recorded(r.value.accessExpires, tokens.accessLife, cfg.accessFallback, cfg.drift, r2)
      ensures r.Ok? ==> r.value.refreshExpires == RowExpiry(tokens.refreshLife, cfg.refreshFallback, cfg.drift, r1)
      ensures r.Ok? ==> r.value.accessExpires == RowExpiry(tokens.accessLife, cfg.accessFallback, cfg.drift, r2)
      ensures r.Err? ==> rows == old(rows) && r.error == IdpError
    {
      if tokens.refreshToken.None? {
        return Err(IdpError);
      }
      if tokens.accessToken.None? {
        return Err(IdpError);
      }
      var refreshExpires := RowExpiry(tokens.refreshLife, cfg.refreshFallback, cfg.drift, r1);
      var accessExpires := RowExpiry(tokens.accessLife, cfg.accessFallback, cfg.drift, r2);
      RowExpiryExactly(tokens.refreshLife, cfg.refreshFallback, cfg.drift, r1);
      RowExpiryExactly(tokens.accessLife, cfg.accessFallback, cfg.drift, r2);
      var row := Rows(user, tokens.refreshToken.value, refreshExpires, tokens.accessToken.value, accessExpires);
      rows := Some(row);
      return Ok(row);
    }

    method RefreshRows(answer: Answer, r1: Time, r2: Time) returns (r: Result<Rows, AuthError>)
      requires rows.Some?
      modifies this
      ensures presented == old(presented) + [old(rows).value.refreshToken]
      ensures r == Rewritten(cfg, old(rows).value, answer, r1, r2)
      ensures r.Ok? <==> answer.Ok? && answer.value.accessToken.Some?
      ensures r.Ok? ==> AnswerWritten(cfg, old(rows).value, answer.value, r1, r2, r.value)
      ensures rows == if r.Ok? then Some(r.value) else old(rows)
    {
      RewrittenExactly(cfg, rows.value, answer, r1, r2);
      var row := rows.value;
      presented := presented + [row.refreshToken];
      if answer.Err? {
        return Err(IdpError);
      }
      var tokens := answer.value;
      var newRefresh := row.refreshToken;
      if tokens.refreshToken.Some? {
        newRefresh := tokens.refreshToken.value;
      }
      if tokens.accessToken.None? {
        return Err(IdpError);
      }
      row := row.(refreshToken := newRefresh);
      row := row.(refreshExpires := RowExpiry(tokens.refreshLife, cfg.refreshFallback, cfg.drift, r1));
      row := row.(accessToken := tokens.accessToken.value);
      row := row.(accessExpires := RowExpiry(tokens.accessLife, cfg.accessFallback, cfg.drift, r2));
      rows := Some(row);
      return Ok(row);
    }

    /** The explicit grant. It performs the IdP call whatever the access row says, although its description
        promises to skip it when another process has just refreshed. */
    method ExchangeRefreshToken(clientKnown: bool, token: ClientToken, lockGranted: bool, clock: Clocks, answer: Answer)
      returns (r: Result<Rows, AuthError>)
      modifies this
      ensures !clientKnown ==> r == Err(InvalidClient)
      ensures clientKnown && !IsRefresh(token) ==> r == Err(InvalidGrant)
      ensures clientKnown && IsRefresh(token) && !lockGranted ==> r == Err(LockTimeout)
      ensures clientKnown && IsRefresh(token) && lockGranted ==>
        var attempt := AttemptOf(cfg, old(rows), ExplicitGrant(token.user), clock, answer);
        r == attempt.result && presented == old(presented) + attempt.presented
      ensures !(clientKnown && IsRefresh(token) && lockGranted) ==> presented == old(presented)
      ensures clientKnown && IsRefresh(token) && lockGranted ==>
        (r == Err(InvalidGrant) <==>
          old(rows).None? || old(rows).value.creator != token.user || old(rows).value.refreshExpires <= clock.now)
      ensures clientKnown && IsRefresh(token) && lockGranted && r != Err(InvalidGrant) ==>
        presented == old(presented) + [old(rows).value.refreshToken]
      ensures rows == if r.Ok? then Some(r.value) else old(rows)
    {
      if !clientKnown {
        return Err(InvalidClient);
      }
      if token.Unreadable? || token.kind != RefreshToken {
        return Err(InvalidGrant);
      }
      if !lockGranted {
        return Err(LockTimeout);
      }
      if rows.None? || rows.value.creator != token.user {
        return Err(InvalidGrant);
      }
      if rows.value.refreshExpires <= clock.now {
        return Err(InvalidGrant);
      }
      r := RefreshRows(answer, clock.r1, clock.r2);
    }

    /** The cookie path: under the lock the access row is looked at again, and a row still good is reused
        without an IdP call. */
    method RefreshAccessToken(lockGranted: bool, clock: Clocks, answer: Answer) returns (r: Result<Rows, AuthError>)
      modifies this
      ensures old(rows).None? ==> r == Err(InvalidGrant)
      ensures old(rows).Some? && !lockGranted ==> r == Err(LockTimeout)
      ensures lockGranted ==>
        var attempt := AttemptOf(cfg, old(rows), CookiePath, clock, answer);
        r == attempt.result && presented == old(presented) + attempt.presented
      ensures !lockGranted ==> presented == old(presented)
      ensures lockGranted ==>
        (r == Err(InvalidGrant) <==> old(rows).None? || old(rows).value.refreshExpires <= clock.now)
      ensures lockGranted && r != Err(InvalidGrant) ==>
        presented == old(presented)
                     + if old(rows).value.accessExpires > clock.recheck then [] else [old(rows).value.refreshToken]
      ensures rows == if r.Ok? then Some(r.value) else old(rows)
    {
      if rows.None? {
        return Err(InvalidGrant);
      }
      if !lockGranted {
        return Err(LockTimeout);
      }
      if rows.value.refreshExpires <= clock.now {
        return Err(InvalidGrant);
      }
      if rows.value.accessExpires > clock.recheck {
        return Ok(rows.value);
      }
      r := RefreshRows(answer, clock.r1, clock.r2);
    }

    /** Revoking a refresh token deletes the rows; revoking an access token only ends its expiry now. The
        underlying IdP credential is forwarded first when a revocation path is configured. Any other token is
        passed over in silence; a client that does not authenticate is refused. */
    method RevokeToken(clientKnown: bool, token: ClientToken, forwards: bool, now: Time)
      returns (r: Result<Option<Token>, AuthError>)
      modifies this`rows
      ensures !clientKnown ==> r == Err(InvalidClient) && rows == old(rows)
      ensures clientKnown && IsRefresh(token) ==> rows == None
      ensures clientKnown && IsAccess(token) ==>
        rows == if old(rows).None? then None else Some(old(rows).value.(accessExpires := now))
      ensures clientKnown && !IsRefresh(token) && !IsAccess(token) ==> rows == old(rows) && r == Ok(None)
      ensures clientKnown ==>
        r.Ok? && (r.value.Some? <==> forwards && old(rows).Some? && (IsRefresh(token) || IsAccess(token)))
      ensures clientKnown && r.value.Some? ==>
        r.value.value == if IsRefresh(token) then old(rows).value.refreshToken else old(rows).value.accessToken
    {
      if !clientKnown {
        return Err(InvalidClient);
      }
      if token.Unreadable? || rows.None? {
        return Ok(None);
      }
      var sent := None;
      match token.kind {
        case RefreshToken =>
          if forwards { sent := Some(rows.value.refreshToken); }
          rows := None;
        case AccessToken =>
          if forwards { sent := Some(rows.value.accessToken); }
          rows := Some(rows.value.(accessExpires := now));
        case _ =>
      }
      return Ok(sent);
    }

    /** The auth dependency: re-mints a federated cookie off its own axp while that is not imminent, otherwise
        off the refreshed row, or off its axp again when the lock is held elsewhere; a failed grant propagates. A
        cookie without a row is re-minted for what is left of its own life. */
    method MaybeRefreshAuthCookie(cookie: CookieClaims, now: Time, lockGranted: bool, clock: Clocks, answer: Answer)
      returns (r: Result<Reissue, AuthError>, maxAge: int)
      modifies this
      ensures cookie.PlainCookie? ==> r == Ok(Lasting(maxAge))
      ensures cookie.PlainCookie? && cookie.exp.Some? && cookie.exp.value > 0 ==>
        IsMaxAge(maxAge, cookie.exp.value * SECOND - now)
      ensures cookie.PlainCookie? && (cookie.exp.Some? ==> cookie.exp.value <= 0) ==> maxAge == 3600
      ensures cookie.PlainCookie? || RemintBase(cookie.axp, false, now, cfg.drift).Some? ==>
        rows == old(rows) && presented == old(presented)
      ensures cookie.Federated? && (lockGranted || RemintBase(cookie.axp, false, now, cfg.drift).Some?) ==>
        match RemintBase(cookie.axp, false, now, cfg.drift)
        case Some(e) => r == Ok(Until(e))
        case None => r.Ok? ==> rows.Some? && r == Ok(Until(rows.value.accessExpires))
      ensures cookie.Federated? && old(rows).Some? && !lockGranted ==>
        r == Ok(Until(RemintBase(cookie.axp, true, now, cfg.drift).value))
        && rows == old(rows) && presented == old(presented)
      ensures r.Err? ==> rows == old(rows)
      ensures r.Ok? && r.value.Until? ==> IsMaxAge(maxAge, r.value.e - now)
    {
      maxAge := 0;
      match cookie {
        case PlainCookie(exp) =>
          maxAge := Max(1, EpochSecond(OwnExpiry(exp, now) - now));
          return Ok(Lasting(maxAge)), maxAge;
        case Federated(axp) =>
          if axp.Some? && axp.value * SECOND > now + cfg.drift * SECOND {
            maxAge := Max(1, (axp.value * SECOND - now) / SECOND);
            return Ok(Until(axp.value * SECOND)), maxAge;
          }
          var refreshed := RefreshAccessToken(lockGranted, clock, answer);
          match refreshed {
            case Err(LockTimeout) =>
              var fallback := if axp.Some? then axp.value * SECOND else now + SECOND;
              maxAge := Max(1, EpochSecond(fallback - now));
              return Ok(Until(fallback)), maxAge;
            case Err(e) => return Err(e), maxAge;
            case Ok(row) =>
              maxAge := Max(1, EpochSecond(row.accessExpires - now));
              return Ok(Until(row.accessExpires)), maxAge;
          }
      }
    }
  }

  /** The whole seconds left, one at the least. */
  predicate IsMaxAge(maxAge: int, left: Time) {
    maxAge >= 1 && if left < SECOND then maxAge == 1 else maxAge * SECOND <= left < (maxAge + 1) * SECOND
  }

  predicate IsRefresh(token: ClientToken) { token.Readable? && token.kind == RefreshToken }

  predicate IsAccess(token: ClientToken) { token.Readable? && token.kind == AccessToken }

  /** A presented token's own exp, or an hour for a token without one. */
  function OwnExpiry(exp: Option<int>, now: Time): Time {
    if exp.Some? && exp.value > 0 then exp.value * SECOND else now + 3600 * SECOND
  }
}
