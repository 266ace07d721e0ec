/** Token lifetimes: issued tokens, the blacklist with its expiring and overwritable entries,
    and Login, Logout, Refresh and the access check as interleaved steps under one clock. */
module Tokens {
  import opened Bytes
  import opened Lists

  type Time = int
  type Jti = nat

  const SECOND := 1_000_000_000
  const FALLBACK := 20 * 60 * SECOND

  datatype Kind = Access | Refresh
  datatype Claims = Claims(jti: Jti, kind: Kind, user: string, exp: Time)

  /** What a client sends: a token this server signed, a well-formed token it did not sign,
      or something that does not parse. */
  datatype Presented = Genuine(claims: Claims) | Unsigned(claims: Claims) | Garbage

  datatype Config = Config(accessTtl: nat, refreshTtl: nat)

  // ---- Signing and validating ----

  datatype Validation = Valid(claims: Claims) | Expired | Invalid | WrongType

  function Validate(t: Presented, expected: Kind, now: Time): Validation {
    match t
    case Genuine(c) => if now >= c.exp then Expired else if c.kind != expected then WrongType else Valid(c)
    case _ => Invalid
  }

  /** The jti of anything that parses, without looking at signature or expiry. */
  function ExtractJti(t: Presented): Option<Jti> {
    if t == Garbage then None else Some(t.claims.jti)
  }

  /** Expiry times are cut to whole seconds. */
  function ExpiryOf(now: Time, ttl: nat): Time { (now + ttl) / SECOND * SECOND }

  function Sign(cfg: Config, jti: Jti, kind: Kind, user: string, now: Time): Claims {
    Claims(jti, kind, user, ExpiryOf(now, if kind == Access then cfg.accessTtl else cfg.refreshTtl))
  }

  // ---- Blacklist ----

  /** SET with a TTL replaces whatever entry there was; a TTL that is not positive is skipped. */
  function Blacklisting(entries: map<Jti, Time>, jti: Jti, ttl: int, now: Time): map<Jti, Time> {
    if ttl <= 0 then entries else entries[jti := now + ttl]
  }

  predicate IsBlacklisted(entries: map<Jti, Time>, jti: Jti, now: Time) {
    jti in entries && now < entries[jti]
  }

  /** The middleware's decision on a bearer token: it validates the token, and then looks its
      jti up; a lookup that gets no answer lets the request through. */
  predicate Accepts(entries: map<Jti, Time>, t: Presented, validated: Time, lookedUp: Time, answered: bool) {
    var v := Validate(t, Access, validated);
    v.Valid? && !(answered && IsBlacklisted(entries, v.claims.jti, lookedUp))
  }

  // ---- Interleaved operations ----

  /** A request in flight, named by what it does next. */
  datatype Op =
    | LogoutTtl(claims: Claims)
    | LogoutSet(jti: Jti, ttl: int, validated: Option<Claims>)
    | RefreshCheck(claims: Claims)
    | RefreshUser(claims: Claims)
    | RefreshTtl(claims: Claims)
    | RefreshSet(claims: Claims, ttl: int)
    | RefreshIssue(claims: Claims)

  datatype State = State(
    now: Time,
    issued: map<Jti, Claims>,
    entries: map<Jti, Time>,
    ops: map<nat, Op>,
    logins: nat,                   // history: successful logins,
    loggedOut: set<Jti>,           // access tokens whose Logout has completed,
    spent: set<Jti>,               // refresh tokens a Refresh has blacklisted,
    exchanged: seq<Jti>,           // refresh tokens a Refresh has answered with a new pair,
    fallbacks: set<(Jti, Time)>)   // when Logout's fixed 20-minute entry was set

  datatype Step =
    | Tick(d: nat)
    | Login(user: string, access: Jti, refresh: Jti, at: Time)
    | LogoutBegin(op: nat, token: Presented)
    | RefreshBegin(op: nat, token: Presented)
    | Advance(op: nat)
    | Fail(op: nat)
    | Issue(op: nat, access: Jti, refresh: Jti, at: Time)

  const START := State(0, map[], map[], map[], 0, {}, {}, [], {})

  /** Signed tokens are only those issued, and new ids are fresh. */
  predicate Known(s: State, t: Presented) {
    t.Genuine? ==> t.claims.jti in s.issued && s.issued[t.claims.jti] == t.claims
  }

  predicate FreshPair(s: State, a: Jti, r: Jti) { a !in s.issued && r !in s.issued && a != r }

  /** A request may fail before any of its steps, when the store or the database answers with
      an error or, for a Refresh, when its user is gone. */
  predicate Enabled(s: State, step: Step) {
    match step
    case Tick(_) => true
    case Login(_, a, r, at) => FreshPair(s, a, r) && at <= s.now
    case LogoutBegin(op, t) => op !in s.ops && Known(s, t)
    case RefreshBegin(op, t) => op !in s.ops && Known(s, t)
    case Advance(op) => op in s.ops && !s.ops[op].RefreshIssue?
    case Fail(op) => op in s.ops
    case Issue(op, a, r, at) => op in s.ops && s.ops[op].RefreshIssue? && FreshPair(s, a, r) && at <= s.now
  }

  /** The access token is signed first, at an earlier reading of the clock. */
  function AddPair(cfg: Config, s: State, user: string, a: Jti, r: Jti, at: Time): map<Jti, Claims> {
    s.issued[a := Sign(cfg, a, Access, user, at)][r := Sign(cfg, r, Refresh, user, s.now)]
  }

  function Next(cfg: Config, s: State, step: Step): State
    requires Enabled(s, step)
  {
    match step
    case Tick(d) => s.(now := s.now + d)
    case Login(user, a, r, at) => s.(issued := AddPair(cfg, s, user, a, r, at), logins := s.logins + 1)
    case LogoutBegin(op, t) =>
      var v := Validate(t, Access, s.now);
      if v.Valid? then s.(ops := s.ops[op := LogoutTtl(v.claims)])
      else if t == Garbage then s
      else s.(ops := s.ops[op := LogoutSet(ExtractJti(t).value, FALLBACK, None)])
    case RefreshBegin(op, t) =>
      var v := Validate(t, Refresh, s.now);
      if v.Valid? then s.(ops := s.ops[op := RefreshCheck(v.claims)]) else s
    case Advance(op) => Step1(s, op)
    case Fail(op) => s.(ops := s.ops - {op})
    case Issue(op, a, r, at) =>
      var c := s.ops[op].claims;
      s.(issued := AddPair(cfg, s, c.user, a, r, at), exchanged := s.exchanged + [c.jti], ops := s.ops - {op})
  }

  /** The next step of a request, up to the point where it issues tokens. */
  function Step1(s: State, op: nat): State
    requires op in s.ops && !s.ops[op].RefreshIssue?
  {
    match s.ops[op]
    case LogoutTtl(c) => s.(ops := s.ops[op := LogoutSet(c.jti, c.exp - s.now, Some(c))])
    case LogoutSet(j, ttl, c) =>
      s.(entries := Blacklisting(s.entries, j, ttl, s.now),
         loggedOut := if c.Some? then s.loggedOut + {j} else s.loggedOut,
         fallbacks := if c.Some? then s.fallbacks else s.fallbacks + {(j, s.now)},
         ops := s.ops - {op})
    case RefreshCheck(c) =>
      s.(ops := if IsBlacklisted(s.entries, c.jti, s.now) then s.ops - {op} else s.ops[op := RefreshUser(c)])
    case RefreshUser(c) => s.(ops := s.ops[op := RefreshTtl(c)])
    case RefreshTtl(c) => s.(ops := s.ops[op := RefreshSet(c, c.exp - s.now)])
    case RefreshSet(c, ttl) =>
      s.(entries := Blacklisting(s.entries, c.jti, ttl, s.now), spent := s.spent + {c.jti},
         ops := s.ops[op := RefreshIssue(c)])
  }

  // ---- Runs ----

  /** What may be kept from happening: two overlapping Refreshes of one token; a fallback
      entry of Logout on a refresh token; a Refresh that reaches its blacklist check only
      after the expiry of its token. */
  datatype Guards = Guards(overlap: bool, fallback: bool, expiry: bool)

  const FREE := Guards(false, false, false)

  predicate IsRefresh(op: Op) { !op.LogoutTtl? && !op.LogoutSet? }

  predicate InFlight(s: State, j: Jti) {
    exists o :: o in s.ops && IsRefresh(s.ops[o]) && s.ops[o].claims.jti == j
  }

  function RefreshTokens(s: State): set<Jti> {
    set j | j in s.issued && s.issued[j].kind == Refresh
  }

  predicate Allowed(g: Guards, s: State, step: Step) {
    && Enabled(s, step)
    && (g.overlap && step.RefreshBegin? && step.token.Genuine? ==> !InFlight(s, step.token.claims.jti))
    && (g.fallback && step.Advance? && s.ops[step.op].LogoutSet? && s.ops[step.op].validated == None ==>
          s.ops[step.op].jti !in RefreshTokens(s))
    && (g.expiry && step.Advance? && s.ops[step.op].RefreshCheck? ==> s.now < s.ops[step.op].claims.exp)
  }

  ghost predicate Run(cfg: Config, g: Guards, s: State, steps: seq<Step>, t: State)
    decreases |steps|
  {
    if steps == [] then s == t
    else Allowed(g, s, steps[0]) && Run(cfg, g, Next(cfg, s, steps[0]), steps[1..], t)
  }

  ghost predicate Within(cfg: Config, g: Guards, s: State) {
    exists steps :: Run(cfg, g, START, steps, s)
  }

  ghost predicate Reachable(cfg: Config, s: State) { Within(cfg, FREE, s) }

  // ---- The invariant ----

  /** From now to its expiry the token is blacklisted. */
  predicate Covered(s: State, c: Claims) {
    s.now >= c.exp || (c.jti in s.entries && s.entries[c.jti] >= c.exp)
  }

  /** Its entry is one that a fallback Logout has set, for 20 minutes. */
  predicate Shortened(s: State, j: Jti) {
    j in s.entries && (j, s.entries[j] - FALLBACK) in s.fallbacks
  }

  predicate Owns(s: State, c: Claims, kind: Kind) {
    c.jti in s.issued && s.issued[c.jti] == c && c.kind == kind
  }

  predicate OpInv(s: State, op: Op) {
    match op
    case LogoutTtl(c) => Owns(s, c, Access)
    case LogoutSet(j, ttl, None) => ttl == FALLBACK
    case LogoutSet(j, ttl, Some(c)) => Owns(s, c, Access) && c.jti == j && s.now + ttl >= c.exp
    case RefreshSet(c, ttl) => Owns(s, c, Refresh) && s.now + ttl >= c.exp
    case RefreshIssue(c) => Owns(s, c, Refresh) && c.jti in s.spent
    case _ => Owns(s, op.claims, Refresh)
  }

  predicate TokenInv(cfg: Config, s: State, j: Jti)
    requires j in s.issued
  {
    var c := s.issued[j];
    && c.jti == j
    && c.exp <= s.now + (if c.kind == Access then cfg.accessTtl else cfg.refreshTtl)
    && (j in s.loggedOut ==> c.kind == Access && (cfg.accessTtl <= FALLBACK ==> Covered(s, c)))
    && (j in s.spent ==> c.kind == Refresh && (Covered(s, c) || Shortened(s, j)))
  }

  ghost predicate Inv(cfg: Config, s: State) {
    && (forall j :: j in s.issued ==> TokenInv(cfg, s, j))
    && (forall op :: op in s.ops ==> OpInv(s, s.ops[op]))
    && (forall op :: op in s.ops && IsRefresh(s.ops[op]) ==> cfg.refreshTtl > 0)
    && (forall j :: j in s.loggedOut + s.spent ==> j in s.issued)
  }

  lemma ExpiryBound(now: Time, ttl: nat)
    ensures now + ttl - 1_000_000_000 < ExpiryOf(now, ttl) <= now + ttl
    ensures ExpiryOf(now, ttl) % 1_000_000_000 == 0
  {
  }

  /** Time passing, or an entry set for this token until its expiry or by the fallback. */
  lemma TokenStep(cfg: Config, s: State, op: nat, j: Jti)
    requires j in s.issued && TokenInv(cfg, s, j)
    requires op in s.ops && OpInv(s, s.ops[op]) && !s.ops[op].RefreshIssue?
    ensures TokenInv(cfg, Step1(s, op), j)
  {
  }

  lemma OpFrame(s: State, t: State, op: Op)
    requires OpInv(s, op) && s.now <= t.now && s.spent <= t.spent
    requires forall j :: j in s.issued ==> j in t.issued && t.issued[j] == s.issued[j]
    ensures OpInv(t, op)
  {
  }

  lemma OwnStep(s: State, op: nat)
    requires op in s.ops && OpInv(s, s.ops[op]) && !s.ops[op].RefreshIssue?
    ensures op in Step1(s, op).ops ==> OpInv(Step1(s, op), Step1(s, op).ops[op])
  {
  }

  lemma AdvanceInv(cfg: Config, s: State, op: nat)
    requires Inv(cfg, s) && Enabled(s, Advance(op))
    ensures Inv(cfg, Step1(s, op))
  {
    var t := Step1(s, op);
    forall j | j in t.issued ensures TokenInv(cfg, t, j) { TokenStep(cfg, s, op, j); }
    OwnStep(s, op);
    forall o | o in t.ops && o != op ensures OpInv(t, t.ops[o]) { OpFrame(s, t, s.ops[o]); }
  }

  lemma PairInv(cfg: Config, s: State, user: string, a: Jti, r: Jti, at: Time, t: State)
    requires Inv(cfg, s) && FreshPair(s, a, r) && at <= s.now
    requires t.now == s.now && t.issued == AddPair(cfg, s, user, a, r, at) && t.entries == s.entries
    requires t.loggedOut == s.loggedOut && t.spent == s.spent && t.fallbacks == s.fallbacks
    requires forall o :: o in t.ops ==> o in s.ops && t.ops[o] == s.ops[o]
    ensures Inv(cfg, t)
  {
    forall j | j in t.issued ensures TokenInv(cfg, t, j) {
      if j in s.issued {
        assert TokenInv(cfg, s, j);
      } else {
        ExpiryBound(at, cfg.accessTtl);
        ExpiryBound(s.now, cfg.refreshTtl);
      }
    }
    forall o | o in t.ops ensures OpInv(t, t.ops[o]) { OpFrame(s, t, s.ops[o]); }
  }

  lemma BeginInv(cfg: Config, s: State, t: State, op: nat)
    requires Inv(cfg, s) && t.(ops := s.ops) == s
    requires forall o :: o in t.ops && o != op ==> o in s.ops && t.ops[o] == s.ops[o]
    requires op in t.ops ==> OpInv(s, t.ops[op]) && (IsRefresh(t.ops[op]) ==> cfg.refreshTtl > 0)
    ensures Inv(cfg, t)
  {
    forall j | j in t.issued ensures TokenInv(cfg, t, j) { assert TokenInv(cfg, s, j); }
    forall o | o in t.ops ensures OpInv(t, t.ops[o]) { OpFrame(s, t, t.ops[o]); }
  }

  lemma NextInv(cfg: Config, s: State, step: Step)
    requires Inv(cfg, s) && Enabled(s, step)
    ensures Inv(cfg, Next(cfg, s, step))
  {
    var t := Next(cfg, s, step);
    match step
    case Advance(op) => AdvanceInv(cfg, s, op);
    case Login(user, a, r, at) => PairInv(cfg, s, user, a, r, at, t);
    case Issue(op, a, r, at) => PairInv(cfg, s, s.ops[op].claims.user, a, r, at, t);
    case LogoutBegin(op, token) => BeginInv(cfg, s, t, op);
    case RefreshBegin(op, token) =>
      if token.Genuine? { assert TokenInv(cfg, s, token.claims.jti); }
      BeginInv(cfg, s, t, op);
    case Fail(op) => BeginInv(cfg, s, t, op);
    case Tick(d) =>
      forall j | j in t.issued ensures TokenInv(cfg, t, j) { assert TokenInv(cfg, s, j); }
      forall o | o in t.ops ensures OpInv(t, t.ops[o]) { OpFrame(s, t, s.ops[o]); }
  }

  lemma {:induction false} RunInv(cfg: Config, g: Guards, s: State, steps: seq<Step>, t: State)
    requires Inv(cfg, s) && Run(cfg, g, s, steps, t)
    ensures Inv(cfg, t)
    decreases |steps|
  {
    if steps != [] {
      NextInv(cfg, s, steps[0]);
      RunInv(cfg, g, Next(cfg, s, steps[0]), steps[1..], t);
    }
  }

  lemma ReachableInv(cfg: Config, g: Guards, s: State)
    requires Within(cfg, g, s)
    ensures Inv(cfg, s)
  {
    var steps :| Run(cfg, g, START, steps, s);
    RunInv(cfg, g, START, steps, s);
  }

  lemma {:induction false} RunSnoc(cfg: Config, g: Guards, s: State, steps: seq<Step>, t: State, step: Step)
    requires Run(cfg, g, s, steps, t) && Allowed(g, t, step)
    ensures Run(cfg, g, s, steps + [step], Next(cfg, t, step))
    decreases |steps|
  {
    if steps == [] {
      assert Run(cfg, g, Next(cfg, s, step), [], Next(cfg, t, step));
      assert ([] + [step])[1..] == [];
    } else {
      RunSnoc(cfg, g, Next(cfg, s, steps[0]), steps[1..], t, step);
      assert (steps + [step])[1..] == steps[1..] + [step];
    }
  }

  lemma WithinNext(cfg: Config, g: Guards, s: State, step: Step) returns (t: State)
    requires Within(cfg, g, s) && Allowed(g, s, step)
    ensures t == Next(cfg, s, step) && Within(cfg, g, t)
  {
    var steps :| Run(cfg, g, START, steps, s);
    RunSnoc(cfg, g, START, steps, s, step);
    t := Next(cfg, s, step);
  }

  /** A request that has begun can always take its next step, however the others stand, and can
      always fail, which leaves everything but itself as it is. */
  lemma NoRequestWaits(cfg: Config, s: State, op: nat, a: Jti, r: Jti)
    requires op in s.ops && FreshPair(s, a, r)
    ensures Enabled(s, Advance(op)) || Enabled(s, Issue(op, a, r, s.now))
    ensures Enabled(s, Fail(op)) && Next(cfg, s, Fail(op)) == s.(ops := s.ops - {op})
  {
  }

  /** The blacklist changes only where a Logout or Refresh comes to its SET, which decides for
      its jti from then on and leaves all others alone. */
  lemma OnlySetsBlacklist(cfg: Config, s: State, step: Step, j: Jti, t: Time)
    requires Enabled(s, step)
    ensures var sets := step.Advance? && (s.ops[step.op].LogoutSet? || s.ops[step.op].RefreshSet?);
            var jti := if !sets then 0
                       else if s.ops[step.op].LogoutSet? then s.ops[step.op].jti else s.ops[step.op].claims.jti;
            IsBlacklisted(Next(cfg, s, step).entries, j, t) <==>
              if sets && s.ops[step.op].ttl > 0 && j == jti then t < s.now + s.ops[step.op].ttl
              else j in s.entries && t < s.entries[j]
  {
  }

  /** Logged out are the access tokens whose validated Logout has come past its SET, spent the
      refresh tokens whose Refresh has, whether or not the SET still had a TTL to set. */
  lemma HistoryStep(cfg: Config, s: State, step: Step, j: Jti)
    requires Enabled(s, step)
    ensures j in Next(cfg, s, step).loggedOut <==>
              || j in s.loggedOut
              || (step.Advance? && s.ops[step.op].LogoutSet? && s.ops[step.op].validated.Some?
                  && s.ops[step.op].jti == j)
    ensures j in Next(cfg, s, step).spent <==>
              j in s.spent || (step.Advance? && s.ops[step.op].RefreshSet? && s.ops[step.op].claims.jti == j)
  {
  }

  // ---- What runs issue ----

  /** A Login or the end of a Refresh adds two tokens, for the user who logged in or whose token
      it was, and leaves all others as they are. */
  lemma PairIssued(cfg: Config, s: State, step: Step)
    requires Enabled(s, step) && (step.Login? || step.Issue?)
    ensures var t := Next(cfg, s, step);
            var user := if step.Login? then step.user else s.ops[step.op].claims.user;
            && t.issued.Keys == s.issued.Keys + {step.access, step.refresh}
            && (forall j :: j in s.issued ==> t.issued[j] == s.issued[j])
            && Describes(t.issued[step.access], step.access, Access, user, step.at, cfg.accessTtl)
            && Describes(t.issued[step.refresh], step.refresh, Refresh, user, s.now, cfg.refreshTtl)
  {
    ExpiryBound(step.at, cfg.accessTtl);
    ExpiryBound(s.now, cfg.refreshTtl);
  }

  predicate Describes(c: Claims, jti: Jti, kind: Kind, user: string, at: Time, ttl: nat) {
    && c.jti == jti && c.kind == kind && c.user == user
    && c.exp % 1_000_000_000 == 0 && at + ttl - 1_000_000_000 < c.exp <= at + ttl
  }

  predicate LoggedIn(steps: seq<Step>, user: string) {
    exists i :: 0 <= i < |steps| && steps[i].Login? && steps[i].user == user
  }

  lemma LoggedInFirst(steps: seq<Step>, user: string)
    requires steps != []
    ensures LoggedIn(steps, user) <==> (steps[0].Login? && steps[0].user == user) || LoggedIn(steps[1..], user)
  {
    if i :| 0 <= i < |steps[1..]| && steps[1..][i].Login? && steps[1..][i].user == user {
      assert steps[i + 1] == steps[1..][i];
    }
  }

  lemma NewOwner(cfg: Config, s: State, step: Step, j: Jti)
    requires Inv(cfg, s) && Enabled(s, step) && j in Next(cfg, s, step).issued
    ensures var user := Next(cfg, s, step).issued[j].user;
            (step.Login? && step.user == user) || exists k :: k in s.issued && s.issued[k].user == user
  {
    if step.Issue? { assert OpInv(s, s.ops[step.op]); }
  }

  /** Every token belongs to somebody who has logged in during the run, or who had a token. */
  lemma {:induction false} OwnersLoggedIn(cfg: Config, g: Guards, s: State, steps: seq<Step>, t: State, j: Jti)
    requires Inv(cfg, s) && Run(cfg, g, s, steps, t) && j in t.issued
    ensures LoggedIn(steps, t.issued[j].user) || exists k :: k in s.issued && s.issued[k].user == t.issued[j].user
    decreases |steps|
  {
    if steps != [] {
      var next := Next(cfg, s, steps[0]);
      NextInv(cfg, s, steps[0]);
      OwnersLoggedIn(cfg, g, next, steps[1..], t, j);
      LoggedInFirst(steps, t.issued[j].user);
      if k :| k in next.issued && next.issued[k].user == t.issued[j].user {
        NewOwner(cfg, s, steps[0], k);
      }
    }
  }

  function Logins(steps: seq<Step>): nat {
    if steps == [] then 0 else (if steps[0].Login? then 1 else 0) + Logins(steps[1..])
  }

  function Issues(steps: seq<Step>): nat {
    if steps == [] then 0 else (if steps[0].Issue? then 1 else 0) + Issues(steps[1..])
  }

  /** The histories count the Logins and the answered Refreshes of a run. */
  lemma {:induction false} RunCounts(cfg: Config, g: Guards, s: State, steps: seq<Step>, t: State)
    requires Run(cfg, g, s, steps, t)
    ensures t.logins == s.logins + Logins(steps)
    ensures |t.exchanged| == |s.exchanged| + Issues(steps)
    decreases |steps|
  {
    if steps != [] {
      RunCounts(cfg, g, Next(cfg, s, steps[0]), steps[1..], t);
    }
  }

  // ---- Logout is final ----

  /** What may be kept from happening in the access check: a lookup that gets no answer, and
      one that comes only after the token's expiry. */
  datatype CheckGuards = CheckGuards(answered: bool, inTime: bool)

  /** A request with token c is validated in s0 and its jti looked up in s1, after any steps of
      other requests. */
  ghost predicate Check(cfg: Config, g: CheckGuards, s0: State, steps: seq<Step>, s1: State,
                        c: Claims, answered: bool)
  {
    && Reachable(cfg, s0) && Run(cfg, FREE, s0, steps, s1) && Owns(s0, c, Access)
    && (g.answered ==> answered) && (g.inTime ==> s1.now < c.exp)
  }

  predicate LetThrough(s0: State, s1: State, c: Claims, answered: bool) {
    Accepts(s1.entries, Genuine(c), s0.now, s1.now, answered)
  }

  /** No request is let through whose token was logged out when it was looked up. */
  ghost predicate LogoutFinal(cfg: Config, g: CheckGuards) {
    forall s0, steps, s1, c, answered :: Check(cfg, g, s0, steps, s1, c, answered) && c.jti in s1.loggedOut ==>
      !LetThrough(s0, s1, c, answered)
  }

  /** No request is let through whose token was logged out before it was validated. */
  ghost predicate LogoutFinalBefore(cfg: Config, g: CheckGuards) {
    forall s0, steps, s1, c, answered :: Check(cfg, g, s0, steps, s1, c, answered) && c.jti in s0.loggedOut ==>
      !LetThrough(s0, s1, c, answered)
  }

  /** Access tokens are never valid, or lookups are answered and in time and access tokens live
      at most the 20 minutes of the fallback entry. */
  predicate Enough(cfg: Config, g: CheckGuards) {
    cfg.accessTtl == 0 || (g.answered && g.inTime && cfg.accessTtl <= FALLBACK)
  }

  lemma {:induction false} HistoryStays(cfg: Config, g: Guards, s: State, steps: seq<Step>, t: State, j: Jti)
    requires Run(cfg, g, s, steps, t)
    ensures j in s.issued ==> j in t.issued && t.issued[j] == s.issued[j]
    ensures j in s.loggedOut ==> j in t.loggedOut
    decreases |steps|
  {
    if steps != [] {
      HistoryStays(cfg, g, Next(cfg, s, steps[0]), steps[1..], t, j);
    }
  }

  lemma LoggedOutRefused(cfg: Config, g: CheckGuards, s0: State, steps: seq<Step>, s1: State, c: Claims, answered: bool)
    requires Enough(cfg, g) && Check(cfg, g, s0, steps, s1, c, answered) && c.jti in s1.loggedOut
    ensures !LetThrough(s0, s1, c, answered)
  {
    ReachableInv(cfg, FREE, s0);
    RunInv(cfg, FREE, s0, steps, s1);
    HistoryStays(cfg, FREE, s0, steps, s1, c.jti);
    assert TokenInv(cfg, s0, c.jti) && TokenInv(cfg, s1, c.jti);
  }

  /** An instant at which a token is issued without losing anything to whole seconds. */
  lemma FullSecond(ttl: nat) returns (d: nat)
    ensures ExpiryOf(d, ttl) == d + ttl
  {
    d := (SECOND - ttl % SECOND) % SECOND;
    assert (d + ttl) % SECOND == 0;
  }

  lemma LogoutCompletes(cfg: Config, s: State, c: Claims, op: nat) returns (t: State)
    requires Reachable(cfg, s) && Owns(s, c, Access) && s.now < c.exp && op !in s.ops
    ensures Reachable(cfg, t) && t.loggedOut == s.loggedOut + {c.jti} && t.entries == s.entries[c.jti := c.exp]
    ensures t.now == s.now && t.issued == s.issued && t.ops == s.ops
  {
    t := WithinNext(cfg, FREE, s, LogoutBegin(op, Genuine(c)));
    t := WithinNext(cfg, FREE, t, Advance(op));
    t := WithinNext(cfg, FREE, t, Advance(op));
    assert t.ops == s.ops;
  }

  /** A login followed at once by the Logout of its access token. */
  lemma FirstLogout(cfg: Config) returns (s: State, c: Claims)
    requires cfg.accessTtl > 0
    ensures Reachable(cfg, s) && Owns(s, c, Access) && c.exp == s.now + cfg.accessTtl && c.jti in s.loggedOut
    ensures s.entries == map[c.jti := c.exp] && s.ops == map[]
  {
    var d := FullSecond(cfg.accessTtl);
    s := START;
    assert Run(cfg, FREE, s, [], s);
    s := WithinNext(cfg, FREE, s, Tick(d));
    s := WithinNext(cfg, FREE, s, Login("u", 1, 2, d));
    c := s.issued[1];
    s := LogoutCompletes(cfg, s, c, 0);
  }

  /** A later Logout of the same jti without a valid signature shortens a long entry. */
  lemma LongTokensComeBack(cfg: Config) returns (s: State, c: Claims)
    requires cfg.accessTtl > FALLBACK
    ensures Reachable(cfg, s) && Owns(s, c, Access) && c.jti in s.loggedOut && s.now < c.exp
    ensures LetThrough(s, s, c, true)
  {
    s, c := FirstLogout(cfg);
    s := WithinNext(cfg, FREE, s, LogoutBegin(0, Unsigned(c)));
    s := WithinNext(cfg, FREE, s, Advance(0));
    s := WithinNext(cfg, FREE, s, Tick(FALLBACK));
  }

  /** A request validated just before the expiry and looked up at the expiry, when the entry
      that the Logout has set is gone. */
  lemma LateLookup(cfg: Config) returns (s0: State, step: Step, s1: State, c: Claims)
    requires cfg.accessTtl > 0
    ensures Reachable(cfg, s0) && Run(cfg, FREE, s0, [step], s1)
    ensures Owns(s0, c, Access) && c.jti in s0.loggedOut && LetThrough(s0, s1, c, true)
  {
    s0, c := FirstLogout(cfg);
    step := Tick(cfg.accessTtl);
    s1 := Next(cfg, s0, step);
    assert Run(cfg, FREE, s1, [], s1) && [step][1..] == [];
  }

  lemma NotEnough(cfg: Config, g: CheckGuards)
    returns (s0: State, steps: seq<Step>, s1: State, c: Claims, answered: bool)
    requires !Enough(cfg, g)
    ensures Check(cfg, g, s0, steps, s1, c, answered) && c.jti in s0.loggedOut && LetThrough(s0, s1, c, answered)
  {
    if !g.answered {
      s0, c := FirstLogout(cfg);
      steps, s1, answered := [], s0, false;
    } else if !g.inTime {
      var step;
      s0, step, s1, c := LateLookup(cfg);
      steps, answered := [step], true;
    } else {
      s0, c := LongTokensComeBack(cfg);
      steps, s1, answered := [], s0, true;
    }
  }

  /** However requests interleave, no request with a logged-out access token is let through
      exactly when the guards suffice for the lifetime of access tokens. It makes no difference
      whether the Logout had completed before the token was validated or before the lookup. */
  lemma LogoutPermanentExactly(cfg: Config, g: CheckGuards)
    ensures LogoutFinal(cfg, g) <==> Enough(cfg, g)
    ensures LogoutFinalBefore(cfg, g) <==> Enough(cfg, g)
  {
    if Enough(cfg, g) {
      forall s0, steps, s1, c, answered |
        Check(cfg, g, s0, steps, s1, c, answered) && (c.jti in s1.loggedOut || c.jti in s0.loggedOut)
        ensures !LetThrough(s0, s1, c, answered)
      {
        HistoryStays(cfg, FREE, s0, steps, s1, c.jti);
        LoggedOutRefused(cfg, g, s0, steps, s1, c, answered);
      }
    } else {
      var s0, steps, s1, c, answered := NotEnough(cfg, g);
      HistoryStays(cfg, FREE, s0, steps, s1, c.jti);
    }
  }

  // ---- A refresh token is spent once ----

  /** After a Refresh has blacklisted a token, a blacklist check finds it revoked until it
      expires, unless a fallback Logout carrying its jti ran at least 20 minutes before. */
  lemma SpentStaysRevoked(cfg: Config, s: State, c: Claims)
    requires Reachable(cfg, s) && Owns(s, c, Refresh) && c.jti in s.spent
    ensures IsBlacklisted(s.entries, c.jti, s.now) || s.now >= c.exp
            || exists t :: (c.jti, t) in s.fallbacks && t + FALLBACK <= s.now
  {
    ReachableInv(cfg, FREE, s);
    assert TokenInv(cfg, s, c.jti);
    if !Covered(s, c) {
      var t := s.entries[c.jti] - FALLBACK;
      assert (c.jti, t) in s.fallbacks;
    }
  }

  /** From behind the blacklist check a Refresh can run through at one instant. */
  lemma Exchange(cfg: Config, g: Guards, s: State, op: nat, a: Jti, r: Jti) returns (t: State)
    requires Within(cfg, g, s) && op in s.ops && s.ops[op].RefreshUser? && FreshPair(s, a, r)
    ensures Within(cfg, g, t)
    ensures var c := s.ops[op].claims;
            && t.exchanged == s.exchanged + [c.jti] && t.spent == s.spent + {c.jti}
            && t.issued == AddPair(cfg, s, c.user, a, r, s.now) && t.ops == s.ops - {op} && t.now == s.now
            && t.entries == if s.now < c.exp then s.entries[c.jti := c.exp] else s.entries
  {
    t := WithinNext(cfg, g, s, Advance(op));
    t := WithinNext(cfg, g, t, Advance(op));
    t := WithinNext(cfg, g, t, Advance(op));
    t := WithinNext(cfg, g, t, Issue(op, a, r, t.now));
    assert t.ops == s.ops - {op};
  }

  lemma BothPassCheck(cfg: Config, g: Guards, s: State, c: Claims, op: nat, op': nat) returns (t: State)
    requires Within(cfg, g, s) && !g.overlap
    requires Owns(s, c, Refresh) && s.now < c.exp && !IsBlacklisted(s.entries, c.jti, s.now)
    requires op !in s.ops && op' !in s.ops && op != op'
    ensures Within(cfg, g, t)
    ensures t == s.(ops := s.ops[op := RefreshUser(c)][op' := RefreshUser(c)])
  {
    t := WithinNext(cfg, g, s, RefreshBegin(op, Genuine(c)));
    t := WithinNext(cfg, g, t, RefreshBegin(op', Genuine(c)));
    t := WithinNext(cfg, g, t, Advance(op));
    t := WithinNext(cfg, g, t, Advance(op'));
    assert t.ops == s.ops[op := RefreshUser(c)][op' := RefreshUser(c)];
  }

  /** Two overlapping Refreshes of one acceptable token can both answer with a new pair: both
      pass the check before either blacklists it. */
  lemma OverlappingRefreshes(cfg: Config, g: Guards, s: State, c: Claims, op: nat, op': nat,
                             a: Jti, r: Jti, a': Jti, r': Jti)
    requires Within(cfg, g, s) && !g.overlap
    requires Owns(s, c, Refresh) && s.now < c.exp && !IsBlacklisted(s.entries, c.jti, s.now)
    requires op !in s.ops && op' !in s.ops && op != op'
    requires FreshPair(s, a, r) && FreshPair(s, a', r') && {a, r} !! {a', r'}
    ensures exists t :: Within(cfg, g, t) && t.exchanged == s.exchanged + [c.jti, c.jti]
  {
    var t := BothPassCheck(cfg, g, s, c, op, op');
    t := Exchange(cfg, g, t, op, a, r);
    t := Exchange(cfg, g, t, op', a', r');
    assert t.exchanged == s.exchanged + [c.jti, c.jti];
  }

  /** Under any guards, Refreshes of different tokens overlap freely. */
  lemma DifferentTokensOverlap(cfg: Config, g: Guards, s: State, c: Claims, c': Claims, op: nat, op': nat)
    requires Within(cfg, g, s) && op !in s.ops && op' !in s.ops && op != op' && c.jti != c'.jti
    requires Owns(s, c, Refresh) && Owns(s, c', Refresh) && s.now < c.exp && s.now < c'.exp
    requires !InFlight(s, c.jti) && !InFlight(s, c'.jti)
    ensures Within(cfg, g, s.(ops := s.ops[op := RefreshCheck(c)][op' := RefreshCheck(c')]))
  {
    var t := WithinNext(cfg, g, s, RefreshBegin(op, Genuine(c)));
    assert !InFlight(t, c'.jti);
    t := WithinNext(cfg, g, t, RefreshBegin(op', Genuine(c')));
  }

  /** A spent token can be exchanged once more, without any overlap, by a Refresh that
      validates it before it expires and checks the blacklist only after its entry is gone. */
  lemma RefreshAcrossExpiry(cfg: Config, g: Guards, s: State, c: Claims, op: nat, a: Jti, r: Jti)
    requires Within(cfg, g, s) && !g.expiry
    requires Owns(s, c, Refresh) && s.now < c.exp && c.jti in s.spent && !InFlight(s, c.jti)
    requires op !in s.ops && FreshPair(s, a, r)
    ensures exists t :: Within(cfg, g, t) && t.exchanged == s.exchanged + [c.jti]
  {
    var t := WithinNext(cfg, g, s, RefreshBegin(op, Genuine(c)));
    var d := if IsBlacklisted(s.entries, c.jti, s.now) then s.entries[c.jti] - s.now else 0;
    t := WithinNext(cfg, g, t, Tick(d));
    t := WithinNext(cfg, g, t, Advance(op));
    t := Exchange(cfg, g, t, op, a, r);
  }

  /** A spent token can be exchanged once more after a Logout that was given it: the fallback
      replaces its entry by one of 20 minutes. */
  lemma RefreshAfterFallback(cfg: Config, g: Guards, s: State, c: Claims, op: nat, a: Jti, r: Jti)
    requires Within(cfg, g, s) && !g.fallback
    requires Owns(s, c, Refresh) && c.jti in s.spent && s.now + FALLBACK < c.exp && !InFlight(s, c.jti)
    requires op !in s.ops && FreshPair(s, a, r)
    ensures exists t :: Within(cfg, g, t) && t.exchanged == s.exchanged + [c.jti]
  {
    var t := WithinNext(cfg, g, s, LogoutBegin(op, Genuine(c)));
    t := WithinNext(cfg, g, t, Advance(op));
    t := WithinNext(cfg, g, t, Tick(FALLBACK));
    assert !InFlight(t, c.jti);
    t := WithinNext(cfg, g, t, RefreshBegin(op, Genuine(c)));
    t := WithinNext(cfg, g, t, Advance(op));
    t := Exchange(cfg, g, t, op, a, r);
  }

  // ---- When every refresh token is exchanged at most once ----

  /** Refresh tokens are never valid, or no two Refreshes of one token overlap, none checks
      after the expiry, and no fallback entry can end before the expiry of a refresh token. */
  predicate Safe(cfg: Config, g: Guards) {
    cfg.refreshTtl == 0 || (g.overlap && g.expiry && (g.fallback || cfg.refreshTtl <= FALLBACK))
  }

  /** Refresh tokens a Refresh would accept now. */
  function Acceptable(s: State): set<Jti> {
    set j | j in RefreshTokens(s) && s.now < s.issued[j].exp && !IsBlacklisted(s.entries, j, s.now)
  }

  /** These are the tokens with which a Refresh that begins now gets past its blacklist check. */
  lemma AcceptableMeans(cfg: Config, s: State, c: Claims, op: nat)
    requires Inv(cfg, s) && Owns(s, c, Refresh) && op !in s.ops
    ensures var begun := Next(cfg, s, RefreshBegin(op, Genuine(c)));
            c.jti in Acceptable(s) <==> op in begun.ops && op in Next(cfg, begun, Advance(op)).ops
  {
    assert TokenInv(cfg, s, c.jti);
  }

  /** Refreshes that have blacklisted their token and not yet issued a pair. */
  function Issuing(s: State): set<nat> {
    set o | o in s.ops && s.ops[o].RefreshIssue?
  }

  /** Before it blacklists its token a Refresh holds an unspent one, and afterwards one that
      has not been exchanged. */
  predicate OnceOp(s: State, op: Op) {
    match op
    case RefreshUser(c) => c.jti !in s.spent
    case RefreshTtl(c) => c.jti !in s.spent
    case RefreshSet(c, _) => c.jti !in s.spent
    case RefreshIssue(c) => c.jti !in s.exchanged
    case _ => true
  }

  predicate SameToken(op: Op, op': Op) {
    IsRefresh(op) && IsRefresh(op') && op.claims.jti == op'.claims.jti
  }

  ghost predicate SpentCovered(s: State) {
    forall j :: j in s.spent ==> j in s.issued && Covered(s, s.issued[j])
  }

  ghost predicate OpsDistinct(s: State) {
    forall o, p :: o in s.ops && p in s.ops && SameToken(s.ops[o], s.ops[p]) ==> o == p
  }

  ghost predicate OpsOnce(s: State) {
    OpsDistinct(s) && forall o :: o in s.ops ==> OnceOp(s, s.ops[o])
  }

  ghost predicate ExchangedOnce(s: State) {
    NoDup(s.exchanged) && forall j :: j in s.exchanged ==> j in s.spent
  }

  /** Every refresh token comes from a login or from a spent one, which is used for at most one. */
  predicate Counted(s: State) {
    |RefreshTokens(s)| + |Issuing(s)| <= s.logins + |s.spent|
  }

  ghost predicate OnceInv(s: State) {
    SpentCovered(s) && OpsOnce(s) && ExchangedOnce(s) && Counted(s)
  }

  lemma SpentStep(cfg: Config, g: Guards, s: State, op: nat)
    requires Safe(cfg, g) && Inv(cfg, s) && SpentCovered(s) && Allowed(g, s, Advance(op))
    ensures SpentCovered(Step1(s, op))
  {
    var t := Step1(s, op);
    forall j | j in t.spent ensures j in t.issued && Covered(t, t.issued[j]) {
      assert OpInv(s, s.ops[op]);
      if j in s.issued { assert TokenInv(cfg, s, j); }
    }
  }

  /** A passed check means that the token was not spent. */
  lemma OwnOnce(cfg: Config, g: Guards, s: State, op: nat)
    requires Safe(cfg, g) && Inv(cfg, s) && SpentCovered(s) && ExchangedOnce(s) && Allowed(g, s, Advance(op))
    requires OnceOp(s, s.ops[op])
    ensures op in Step1(s, op).ops ==> OnceOp(Step1(s, op), Step1(s, op).ops[op])
  {
    var c := s.ops[op];
    assert OpInv(s, c);
    if c.RefreshCheck? && c.claims.jti in s.spent {
      assert Covered(s, c.claims);
    }
  }

  lemma OtherOnce(s: State, op: nat, o: nat)
    requires Enabled(s, Advance(op)) && o in s.ops && o != op
    requires OnceOp(s, s.ops[o]) && !SameToken(s.ops[o], s.ops[op])
    ensures OnceOp(Step1(s, op), s.ops[o])
  {
  }

  lemma OpsStep(cfg: Config, g: Guards, s: State, op: nat)
    requires Safe(cfg, g) && Inv(cfg, s) && OnceInv(s) && Allowed(g, s, Advance(op))
    ensures OpsOnce(Step1(s, op))
  {
    var t := Step1(s, op);
    DistinctStep(s, op);
    OwnOnce(cfg, g, s, op);
    forall o | o in t.ops && o != op ensures OnceOp(t, t.ops[o]) { OtherOnce(s, op, o); }
  }

  lemma DistinctStep(s: State, op: nat)
    requires OpsDistinct(s) && Enabled(s, Advance(op))
    ensures OpsDistinct(Step1(s, op))
  {
    var t := Step1(s, op);
    forall o, p | o in t.ops && p in t.ops && SameToken(t.ops[o], t.ops[p]) ensures o == p {
      assert SameToken(s.ops[o], s.ops[p]);
    }
  }

  lemma SpendCount(s: State, op: nat)
    requires Counted(s) && op in s.ops && s.ops[op].RefreshSet? && OnceOp(s, s.ops[op])
    ensures Counted(Step1(s, op))
  {
    var t := Step1(s, op);
    assert RefreshTokens(t) == RefreshTokens(s);
    assert Issuing(t) == Issuing(s) + {op} && op !in Issuing(s);
    assert |t.spent| == |s.spent| + 1;
  }

  lemma SameCount(s: State, op: nat)
    requires Counted(s) && Enabled(s, Advance(op)) && !s.ops[op].RefreshSet?
    ensures Counted(Step1(s, op))
  {
    assert RefreshTokens(Step1(s, op)) == RefreshTokens(s);
    assert Issuing(Step1(s, op)) == Issuing(s);
  }

  lemma AdvanceOnce(cfg: Config, g: Guards, s: State, op: nat)
    requires Safe(cfg, g) && Inv(cfg, s) && OnceInv(s) && Allowed(g, s, Advance(op))
    ensures OnceInv(Step1(s, op))
  {
    SpentStep(cfg, g, s, op);
    OpsStep(cfg, g, s, op);
    if s.ops[op].RefreshSet? { SpendCount(s, op); } else { SameCount(s, op); }
  }

  lemma PairTokens(cfg: Config, s: State, t: State, user: string, a: Jti, r: Jti, at: Time)
    requires FreshPair(s, a, r) && t.issued == AddPair(cfg, s, user, a, r, at)
    ensures |RefreshTokens(t)| == |RefreshTokens(s)| + 1
  {
    assert RefreshTokens(t) == RefreshTokens(s) + {r};
  }

  lemma OnceLogin(cfg: Config, s: State, user: string, a: Jti, r: Jti, at: Time)
    requires OnceInv(s) && Enabled(s, Login(user, a, r, at))
    ensures OnceInv(Next(cfg, s, Login(user, a, r, at)))
  {
    var t := Next(cfg, s, Login(user, a, r, at));
    PairTokens(cfg, s, t, user, a, r, at);
    assert Issuing(t) == Issuing(s);
    forall o | o in t.ops ensures OnceOp(t, t.ops[o]) { assert OnceOp(s, s.ops[o]); }
  }

  lemma IssueOps(cfg: Config, s: State, op: nat, a: Jti, r: Jti, at: Time)
    requires OpsOnce(s) && Enabled(s, Issue(op, a, r, at))
    ensures OpsOnce(Next(cfg, s, Issue(op, a, r, at)))
  {
    var t := Next(cfg, s, Issue(op, a, r, at));
    forall o | o in t.ops ensures OnceOp(t, t.ops[o]) {
      assert OnceOp(s, s.ops[o]) && !SameToken(s.ops[o], s.ops[op]);
    }
  }

  lemma IssueCount(cfg: Config, s: State, op: nat, a: Jti, r: Jti, at: Time)
    requires Counted(s) && Enabled(s, Issue(op, a, r, at))
    ensures Counted(Next(cfg, s, Issue(op, a, r, at)))
  {
    var t := Next(cfg, s, Issue(op, a, r, at));
    PairTokens(cfg, s, t, s.ops[op].claims.user, a, r, at);
    assert Issuing(t) == Issuing(s) - {op} && op in Issuing(s);
  }

  lemma IssueExchanged(cfg: Config, s: State, op: nat, a: Jti, r: Jti, at: Time)
    requires ExchangedOnce(s) && Enabled(s, Issue(op, a, r, at)) && OpInv(s, s.ops[op]) && OnceOp(s, s.ops[op])
    ensures ExchangedOnce(Next(cfg, s, Issue(op, a, r, at)))
  {
    NoDupConcat(s.exchanged, [s.ops[op].claims.jti]);
  }

  lemma OnceIssue(cfg: Config, s: State, op: nat, a: Jti, r: Jti, at: Time)
    requires Inv(cfg, s) && OnceInv(s) && Enabled(s, Issue(op, a, r, at))
    ensures OnceInv(Next(cfg, s, Issue(op, a, r, at)))
  {
    IssueOps(cfg, s, op, a, r, at);
    IssueCount(cfg, s, op, a, r, at);
    IssueExchanged(cfg, s, op, a, r, at);
  }

  lemma OnceAdd(s: State, op: nat, first: Op)
    requires OnceInv(s) && op !in s.ops
    requires IsRefresh(first) ==> first.RefreshCheck? && !InFlight(s, first.claims.jti)
    ensures OnceInv(s.(ops := s.ops[op := first]))
  {
    var t := s.(ops := s.ops[op := first]);
    assert RefreshTokens(t) == RefreshTokens(s) && Issuing(t) == Issuing(s);
    forall o | o in s.ops ensures OnceOp(t, t.ops[o]) { assert OnceOp(s, s.ops[o]); }
  }

  lemma OnceFail(s: State, op: nat)
    requires OnceInv(s) && op in s.ops
    ensures OnceInv(s.(ops := s.ops - {op}))
  {
    var t := s.(ops := s.ops - {op});
    assert RefreshTokens(t) == RefreshTokens(s) && Issuing(t) == Issuing(s) - {op};
    forall o | o in t.ops ensures OnceOp(t, t.ops[o]) { assert OnceOp(s, s.ops[o]); }
  }

  lemma OnceTick(s: State, d: nat)
    requires OnceInv(s)
    ensures OnceInv(s.(now := s.now + d))
  {
    var t := s.(now := s.now + d);
    assert RefreshTokens(t) == RefreshTokens(s) && Issuing(t) == Issuing(s);
    forall o | o in t.ops ensures OnceOp(t, t.ops[o]) { assert OnceOp(s, s.ops[o]); }
  }

  lemma OnceBegin(cfg: Config, g: Guards, s: State, op: nat, token: Presented)
    requires Safe(cfg, g) && Inv(cfg, s) && OnceInv(s) && Allowed(g, s, RefreshBegin(op, token))
    ensures OnceInv(Next(cfg, s, RefreshBegin(op, token)))
  {
    if Validate(token, Refresh, s.now).Valid? {
      assert TokenInv(cfg, s, token.claims.jti);
      OnceAdd(s, op, RefreshCheck(token.claims));
    }
  }

  lemma OnceLogout(cfg: Config, s: State, op: nat, token: Presented)
    requires OnceInv(s) && Enabled(s, LogoutBegin(op, token))
    ensures OnceInv(Next(cfg, s, LogoutBegin(op, token)))
  {
    var t := Next(cfg, s, LogoutBegin(op, token));
    if op in t.ops { OnceAdd(s, op, t.ops[op]); }
  }

  lemma OnceNext(cfg: Config, g: Guards, s: State, step: Step)
    requires Safe(cfg, g) && Inv(cfg, s) && OnceInv(s) && Allowed(g, s, step)
    ensures OnceInv(Next(cfg, s, step))
  {
    match step
    case Login(user, a, r, at) => OnceLogin(cfg, s, user, a, r, at);
    case Issue(op, a, r, at) => OnceIssue(cfg, s, op, a, r, at);
    case Advance(op) => AdvanceOnce(cfg, g, s, op);
    case RefreshBegin(op, token) => OnceBegin(cfg, g, s, op, token);
    case LogoutBegin(op, token) => OnceLogout(cfg, s, op, token);
    case Fail(op) => OnceFail(s, op);
    case Tick(d) => OnceTick(s, d);
  }

  lemma {:induction false} OnceRun(cfg: Config, g: Guards, s: State, steps: seq<Step>, t: State)
    requires Safe(cfg, g) && Inv(cfg, s) && OnceInv(s) && Run(cfg, g, s, steps, t)
    ensures Inv(cfg, t) && OnceInv(t)
    decreases |steps|
  {
    if steps != [] {
      NextInv(cfg, s, steps[0]);
      OnceNext(cfg, g, s, steps[0]);
      OnceRun(cfg, g, Next(cfg, s, steps[0]), steps[1..], t);
    }
  }

  /** In such runs no token is exchanged twice, and the refresh tokens that would be accepted
      never outnumber the successful logins, however many requests overlap. */
  lemma AcceptableNeverOutnumberLogins(cfg: Config, g: Guards, s: State)
    requires Safe(cfg, g) && Within(cfg, g, s)
    ensures NoDup(s.exchanged) && |Acceptable(s)| <= s.logins
    ensures forall steps :: Run(cfg, g, START, steps, s) ==> |Acceptable(s)| <= Logins(steps)
  {
    forall steps | Run(cfg, g, START, steps, s) ensures s.logins == Logins(steps) {
      RunCounts(cfg, g, START, steps, s);
    }
    var steps :| Run(cfg, g, START, steps, s);
    assert RefreshTokens(START) == {} && Issuing(START) == {};
    OnceRun(cfg, g, START, steps, s);
    SpentNotAcceptable(cfg, s);
    Subset(Acceptable(s) + s.spent, RefreshTokens(s));
    assert |Acceptable(s) + s.spent| == |Acceptable(s)| + |s.spent|;
  }

  lemma SpentNotAcceptable(cfg: Config, s: State)
    requires Inv(cfg, s) && SpentCovered(s)
    ensures s.spent <= RefreshTokens(s) && s.spent !! Acceptable(s)
  {
    forall j | j in s.spent ensures j in RefreshTokens(s) && j !in Acceptable(s) {
      assert TokenInv(cfg, s, j);
    }
  }

  lemma {:induction false} Subset(a: set<Jti>, b: set<Jti>)
    requires a <= b
    ensures |a| <= |b|
  {
    if a != {} {
      var x :| x in a;
      Subset(a - {x}, b - {x});
    }
  }

  /** A login whose refresh token is good for the whole of its lifetime. */
  lemma FirstLogin(cfg: Config, g: Guards) returns (s: State, c: Claims)
    requires cfg.refreshTtl > 0
    ensures Within(cfg, g, s) && Owns(s, c, Refresh) && c.exp == s.now + cfg.refreshTtl
    ensures s.issued.Keys == {1, 2} && s.entries == map[] && s.ops == map[] && s.exchanged == []
  {
    var d := FullSecond(cfg.refreshTtl);
    s := START;
    assert Run(cfg, g, s, [], s);
    s := WithinNext(cfg, g, s, Tick(d));
    s := WithinNext(cfg, g, s, Login("u", 1, 2, s.now));
    c := s.issued[2];
  }

  lemma FirstExchange(cfg: Config, g: Guards) returns (s: State, c: Claims)
    requires cfg.refreshTtl > 0
    ensures Within(cfg, g, s) && Owns(s, c, Refresh) && c.exp == s.now + cfg.refreshTtl
    ensures s.issued.Keys == {1, 2, 3, 4} && s.ops == map[] && s.exchanged == [c.jti] && c.jti in s.spent
  {
    s, c := FirstLogin(cfg, g);
    assert !InFlight(s, c.jti);
    s := WithinNext(cfg, g, s, RefreshBegin(0, Genuine(c)));
    s := WithinNext(cfg, g, s, Advance(0));
    s := Exchange(cfg, g, s, 0, 3, 4);
  }

  lemma UnsafeTwice(cfg: Config, g: Guards) returns (s: State)
    requires !Safe(cfg, g)
    ensures Within(cfg, g, s) && !NoDup(s.exchanged)
  {
    var c;
    if !g.overlap {
      s, c := FirstLogin(cfg, g);
      OverlappingRefreshes(cfg, g, s, c, 0, 1, 3, 4, 5, 6);
      s :| Within(cfg, g, s) && s.exchanged == [] + [c.jti, c.jti];
    } else {
      s, c := FirstExchange(cfg, g);
      if !g.expiry {
        RefreshAcrossExpiry(cfg, g, s, c, 0, 5, 6);
      } else {
        RefreshAfterFallback(cfg, g, s, c, 0, 5, 6);
      }
      s :| Within(cfg, g, s) && s.exchanged == [c.jti] + [c.jti];
    }
    assert s.exchanged[0] == s.exchanged[1];
  }

  /** Over all runs under the given guards, no refresh token is exchanged twice exactly when
      the guards are enough for the lifetime of refresh tokens: each of the three is needed. */
  lemma ExchangedOnceExactly(cfg: Config, g: Guards)
    ensures (forall s :: Within(cfg, g, s) ==> NoDup(s.exchanged)) <==> Safe(cfg, g)
  {
    if Safe(cfg, g) {
      forall s | Within(cfg, g, s) ensures NoDup(s.exchanged) { AcceptableNeverOutnumberLogins(cfg, g, s); }
    } else {
      var s := UnsafeTwice(cfg, g);
    }
  }
}
