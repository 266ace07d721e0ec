/** The token store, the authentication service and the access check as objects, each call
    run by itself. A call reads the clock several times; the readings never go back. */
module Auth {
  import opened Bytes
  import opened Lists
  import opened Tokens

  class TokenStore {
    var entries: map<Jti, Time>

    constructor ()
      ensures entries == map[]
    {
      entries := map[];
    }

    /** The last entry set for a jti decides, even where it ends earlier than the one before. */
    method Blacklist(jti: Jti, ttl: int, now: Time)
      modifies this
      ensures entries == Blacklisting(old(entries), jti, ttl, now)
      ensures forall j, t :: Tokens.IsBlacklisted(entries, j, t) <==>
                if j == jti && ttl > 0 then t < now + ttl else Tokens.IsBlacklisted(old(entries), j, t)
    {
      if ttl <= 0 { return; }
      entries := entries[jti := now + ttl];
    }

    method IsBlacklisted(jti: Jti, now: Time) returns (b: bool)
      ensures b <==> Tokens.IsBlacklisted(entries, jti, now)
    {
      b := jti in entries && now < entries[jti];
    }
  }

  datatype AuthError =
    | InvalidCredentials | ExpiredToken | InvalidToken | WrongTokenType | TokenRevoked | UserGone
    | Database(code: int)

  datatype Pair = Pair(access: Claims, refresh: Claims)
  datatype Answer = Issued(pair: Pair) | Refused(error: AuthError)

  /** What the users table answers to a lookup; `passwordMatches` matters to Login only. */
  datatype Lookup = Found(user: string, passwordMatches: bool) | NotFound | LookupFailed(code: int)

  /** An Authorization header: missing, of another scheme, or a bearer token. */
  datatype Header = Missing | OtherScheme | Bearer(token: Presented)

  class AuthService {
    const cfg: Config
    const store: TokenStore
    var issued: map<Jti, Claims>

    constructor (cfg: Config, store: TokenStore)
      ensures this.cfg == cfg && this.store == store && issued == map[]
    {
      this.cfg, this.store, issued := cfg, store, map[];
    }

    /** GeneratePair: an access and a refresh token with fresh ids, each signed at its own
        reading of the clock. */
    method GeneratePair(user: string, a: Jti, r: Jti, accessAt: Time, refreshAt: Time) returns (pair: Pair)
      requires a !in issued && r !in issued && a != r && accessAt <= refreshAt
      modifies this
      ensures pair == Pair(Sign(cfg, a, Access, user, accessAt), Sign(cfg, r, Kind.Refresh, user, refreshAt))
      ensures issued == old(issued)[a := pair.access][r := pair.refresh]
      ensures Describes(pair.access, a, Access, user, accessAt, cfg.accessTtl)
      ensures Describes(pair.refresh, r, Kind.Refresh, user, refreshAt, cfg.refreshTtl)
    {
      ExpiryBound(accessAt, cfg.accessTtl);
      ExpiryBound(refreshAt, cfg.refreshTtl);
      pair := Pair(Sign(cfg, a, Access, user, accessAt), Sign(cfg, r, Kind.Refresh, user, refreshAt));
      issued := issued[a := pair.access][r := pair.refresh];
    }

    /** Login: an unknown e-mail and a wrong password are refused alike. */
    method Login(lookup: Lookup, a: Jti, r: Jti, accessAt: Time, refreshAt: Time) returns (answer: Answer)
      requires a !in issued && r !in issued && a != r && accessAt <= refreshAt
      modifies this
      ensures answer.Issued? <==> lookup.Found? && lookup.passwordMatches
      ensures answer.Issued? ==>
                && Describes(answer.pair.access, a, Access, lookup.user, accessAt, cfg.accessTtl)
                && Describes(answer.pair.refresh, r, Kind.Refresh, lookup.user, refreshAt, cfg.refreshTtl)
                && issued == old(issued)[a := answer.pair.access][r := answer.pair.refresh]
      ensures !answer.Issued? ==> issued == old(issued)
      ensures answer == Refused(InvalidCredentials) <==> lookup.NotFound? || (lookup.Found? && !lookup.passwordMatches)
      ensures forall e :: answer == Refused(Database(e)) <==> lookup == LookupFailed(e)
      ensures answer.Issued? && a !in store.entries ==>
                forall v, t, answered ::
                  Accepts(store.entries, Genuine(answer.pair.access), v, t, answered) <==> v < answer.pair.access.exp
    {
      match lookup {
        case NotFound => return Refused(InvalidCredentials);
        case LookupFailed(e) => return Refused(Database(e));
        case Found(_, _) =>
      }
      if !lookup.passwordMatches { return Refused(InvalidCredentials); }
      var pair := GeneratePair(lookup.user, a, r, accessAt, refreshAt);
      answer := Issued(pair);
    }

    /** Logout: an accepted access token is refused by every later lookup up to its expiry;
        beyond the end of its entry, which is no earlier, a request that was validated before
        the expiry is let through. Any other token that parses has its jti blacklisted for 20
        minutes; garbage changes nothing. */
    method Logout(token: Presented, validated: Time, measured: Time, stored: Time)
      requires validated <= measured <= stored
      modifies store
      ensures token.Genuine? && token.claims.kind == Access && validated < token.claims.exp ==>
                var c := token.claims;
                && store.entries == (if measured < c.exp then old(store.entries)[c.jti := stored + (c.exp - measured)]
                                     else old(store.entries))
                && (forall v, t :: stored <= t < c.exp ==> !Accepts(store.entries, token, v, t, true))
                && (measured < c.exp ==>
                      forall v, t ::
                        Accepts(store.entries, token, v, t, true) <==> v < c.exp && stored + (c.exp - measured) <= t)
      ensures token != Garbage && !(token.Genuine? && token.claims.kind == Access && validated < token.claims.exp) ==>
                && store.entries == old(store.entries)[token.claims.jti := stored + FALLBACK]
                && forall t ::
                     Tokens.IsBlacklisted(store.entries, token.claims.jti, t) <==> t < stored + 1_200_000_000_000
      ensures token == Garbage ==> store.entries == old(store.entries)
    {
      var v := Validate(token, Access, validated);
      if v.Valid? {
        store.Blacklist(v.claims.jti, v.claims.exp - measured, stored);
      } else {
        var jti := ExtractJti(token);
        if jti.Some? { store.Blacklist(jti.value, FALLBACK, stored); }
      }
    }

    /** Refresh: validate, check the blacklist, look the user up, blacklist, issue. A token is
        exchanged exactly when it validates, is not blacklisted at the check and its user is
        found; from then until its expiry it is blacklisted. */
    method Refresh(token: Presented, lookup: Lookup, validated: Time, checked: Time, measured: Time, stored: Time,
                   accessAt: Time, refreshAt: Time, a: Jti, r: Jti) returns (answer: Answer)
      requires validated <= checked <= measured <= stored <= accessAt <= refreshAt
      requires a !in issued && r !in issued && a != r
      modifies this, store
      ensures answer.Issued? <==>
                && token.Genuine? && token.claims.kind == Kind.Refresh && validated < token.claims.exp
                && !(token.claims.jti in old(store.entries) && checked < old(store.entries)[token.claims.jti])
                && lookup.Found?
      ensures answer.Issued? ==>
                var c := token.claims;
                && Describes(answer.pair.access, a, Access, c.user, accessAt, cfg.accessTtl)
                && Describes(answer.pair.refresh, r, Kind.Refresh, c.user, refreshAt, cfg.refreshTtl)
                && issued == old(issued)[a := answer.pair.access][r := answer.pair.refresh]
                && store.entries == (if measured < c.exp then old(store.entries)[c.jti := stored + (c.exp - measured)]
                                     else old(store.entries))
                && (stored < c.exp ==> c.jti in store.entries && c.exp <= store.entries[c.jti])
      ensures !answer.Issued? ==> issued == old(issued) && store.entries == old(store.entries)
      ensures answer == Refused(ExpiredToken) <==> token.Genuine? && token.claims.exp <= validated
      ensures answer == Refused(WrongTokenType) <==>
                token.Genuine? && validated < token.claims.exp && token.claims.kind == Access
      ensures answer == Refused(TokenRevoked) <==>
                && Validate(token, Kind.Refresh, validated).Valid?
                && Tokens.IsBlacklisted(old(store.entries), token.claims.jti, checked)
      ensures answer == Refused(InvalidToken) <==> !token.Genuine?
      ensures answer == Refused(UserGone) <==>
                && Validate(token, Kind.Refresh, validated).Valid?
                && !Tokens.IsBlacklisted(old(store.entries), token.claims.jti, checked)
                && lookup.NotFound?
      ensures forall e :: answer == Refused(Database(e)) <==>
                && Validate(token, Kind.Refresh, validated).Valid?
                && !Tokens.IsBlacklisted(old(store.entries), token.claims.jti, checked)
                && lookup == LookupFailed(e)
    {
      var v := Validate(token, Kind.Refresh, validated);
      match v {
        case Expired => return Refused(ExpiredToken);
        case Invalid => return Refused(InvalidToken);
        case WrongType => return Refused(WrongTokenType);
        case Valid(_) =>
      }
      var revoked := store.IsBlacklisted(v.claims.jti, checked);
      if revoked { return Refused(TokenRevoked); }
      match lookup {
        case NotFound => return Refused(UserGone);
        case LookupFailed(e) => return Refused(Database(e));
        case Found(_, _) =>
      }
      store.Blacklist(v.claims.jti, v.claims.exp - measured, stored);
      var pair := GeneratePair(v.claims.user, a, r, accessAt, refreshAt);
      answer := Issued(pair);
    }

    /** The middleware: which user, if any, a request is let through as. The token is
        validated first; a lookup that then gets no answer counts as not revoked. */
    method JwtAuth(header: Header, validated: Time, lookedUp: Time, answered: bool) returns (user: Option<string>)
      requires validated <= lookedUp
      ensures user.Some? <==> header.Bearer? && Accepts(store.entries, header.token, validated, lookedUp, answered)
      ensures user.Some? <==>
                && header.Bearer? && header.token.Genuine?
                && header.token.claims.kind == Access && validated < header.token.claims.exp
                && !(answered && header.token.claims.jti in store.entries
                     && lookedUp < store.entries[header.token.claims.jti])
      ensures user.Some? ==> user.value == header.token.claims.user
    {
      if !header.Bearer? { return None; }
      var v := Validate(header.token, Access, validated);
      if !v.Valid? { return None; }
      if answered {
        var revoked := store.IsBlacklisted(v.claims.jti, lookedUp);
        if revoked { return None; }
      }
      user := Some(v.claims.user);
    }
  }

  // ---- Calls one after the other ----

  /** Whoever logs in is let through as himself until the access token expires, whether or not
      the lookup is answered, and from the completed Logout to that instant he is not. */
  method LoginThenLogout(service: AuthService, user: string, a: Jti, r: Jti, times: seq<Time>, answered: bool)
    returns (before: Option<string>, after: Option<string>)
    requires a !in service.issued && r !in service.issued && a != r && a !in service.store.entries
    requires |times| == 7 && forall i :: 0 <= i < 6 ==> times[i] <= times[i + 1]
    modifies service, service.store
    ensures a in service.issued
    ensures var exp := service.issued[a].exp;
            && exp % 1_000_000_000 == 0
            && times[0] + service.cfg.accessTtl - 1_000_000_000 < exp <= times[0] + service.cfg.accessTtl
            && (before == if times[2] < exp then Some(user) else None)
            && (times[6] < exp ==> after == None)
  {
    var answer := service.Login(Found(user, true), a, r, times[0], times[1]);
    var header := Bearer(Genuine(answer.pair.access));
    before := service.JwtAuth(header, times[2], times[3], answered);
    service.Logout(header.token, times[3], times[4], times[5]);
    after := service.JwtAuth(header, times[6], times[6], true);
  }

  /** Run one after the other, of two Refreshes of one token that both come before its expiry
      the second finds it revoked; the first answers with tokens of the same user. */
  method RefreshTwice(service: AuthService, c: Claims, lookup: Lookup, times: seq<Time>, ids: seq<Jti>)
    returns (first: Answer, second: Answer)
    requires lookup.Found? && c.kind == Kind.Refresh && c.jti !in service.store.entries
    requires |ids| == 4 && NoDup(ids) && forall j :: j in ids ==> j !in service.issued
    requires |times| == 8 && (forall i :: 0 <= i < 7 ==> times[i] <= times[i + 1]) && times[7] < c.exp
    modifies service, service.store
    ensures first.Issued? && first.pair.access.user == first.pair.refresh.user == c.user
    ensures second == Refused(TokenRevoked)
  {
    var token, last := Genuine(c), times[7];
    first := service.Refresh(token, lookup, times[0], times[1], times[2], times[3], times[4], times[5], ids[0], ids[1]);
    assert ids[2] in ids && ids[3] in ids;
    second := service.Refresh(token, lookup, times[6], last, last, last, last, last, ids[2], ids[3]);
  }
}
