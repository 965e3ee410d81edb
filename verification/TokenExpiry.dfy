/** Expiries of federated credentials: what the IdP advertises, what the rows record, and what the tokens
    minted from the rows (and the cookies re-minted from cookies) carry. */
module TokenExpiry {
  import opened Common

  function Max(a: int, b: int): int { if a > b then a else b }

  function Min(a: int, b: int): int { if a < b then a else b }

  /** int(t.timestamp()): truncation toward zero. */
  function EpochSecond(t: Time): int { if t >= 0 then t / SECOND else -(-t / SECOND) }

  lemma EpochSecondBelow(t: Time)
    requires t >= 0
    ensures EpochSecond(t) * SECOND == t - t % SECOND
    ensures EpochSecond(t) * SECOND <= t < (EpochSecond(t) + 1) * SECOND
    ensures EpochSecond(-t) == -EpochSecond(t)
  {
  }

  // ---------------------------------------------------------------- rows

  /** The drift tolerance and the fallback lifetimes, in seconds. */
  datatype IdpConfig = IdpConfig(drift: nat, accessFallback: nat, refreshFallback: nat)

  /** A lifetime as the IdP advertises it: numeric members of its response, None for an absent or
      non-numeric one. */
  datatype Lifetime = Lifetime(expiresIn: Option<real>, expiresAt: Option<real>)

  predicate Positive(x: Option<real>) { x.Some? && x.value > 0.0 }

  /** _idp_access_expiry and _idp_refresh_expiry, whose clock reads now. */
  function RowExpiry(l: Lifetime, fallback: nat, drift: nat, now: Time): Time {
    if Positive(l.expiresIn) then now + Max(0, l.expiresIn.value.Floor - drift) * SECOND
    else if Positive(l.expiresAt) then Max(0, l.expiresAt.value.Floor - drift) * SECOND
    else now + Max(1, fallback - drift) * SECOND
  }

  /** The instant the IdP advertised, or the fallback, counted from now. */
  function Promised(l: Lifetime, fallback: nat, now: Time): real {
    if Positive(l.expiresIn) then now as real + l.expiresIn.value * SECOND as real
    else if Positive(l.expiresAt) then l.expiresAt.value * SECOND as real
    else now as real + fallback as real * SECOND as real
  }

  /** A row's expiry never exceeds what was promised at the moment the response was processed, except for
      the one-second floor under a zero fallback. */
  lemma RowWithinPromise(l: Lifetime, fallback: nat, drift: nat, now: Time)
    ensures RowExpiry(l, fallback, drift, now) as real <= Promised(l, fallback, now) <==>
      Positive(l.expiresIn) || Positive(l.expiresAt) || fallback >= 1
  {
    if Positive(l.expiresIn) {
      WholeSeconds(l.expiresIn.value, drift);
    } else if Positive(l.expiresAt) {
      WholeSeconds(l.expiresAt.value, drift);
    }
  }

  lemma WholeSeconds(x: real, drift: nat)
    requires x > 0.0
    ensures (Max(0, x.Floor - drift) * SECOND) as real <= x * SECOND as real
  {
    var n := Max(0, x.Floor - drift);
    assert n as real <= x;
    assert (n * SECOND) as real == n as real * SECOND as real;
  }

  /** A refreshed row is good for some time after the answer exactly when the advertised whole seconds exceed
      the drift tolerance, or the advertised instant does by that much, or nothing usable was advertised. */
  lemma RefreshedRowLives(l: Lifetime, fallback: nat, drift: nat, now: Time)
    requires now >= 0
    ensures RowExpiry(l, fallback, drift, now) > now <==>
      if Positive(l.expiresIn) then l.expiresIn.value.Floor > drift
      else if Positive(l.expiresAt) then (l.expiresAt.value.Floor - drift) * SECOND > now
      else true
  {
  }

  /** e is what was promised less the drift tolerance, to the whole second: at most that, and within a second of
      it; what is left of a shorter lifetime is nothing (or one second of a fallback). */
  predicate Recorded(e: Time, l: Lifetime, fallback: nat, drift: nat, now: Time) {
    var kept := Promised(l, fallback, now) - drift as real * SECOND as real;
    if Positive(l.expiresIn) then
      (e - now) % SECOND == 0
      && if l.expiresIn.value < drift as real then e == now else kept - SECOND as real < e as real <= kept
    else if Positive(l.expiresAt) then
      e % SECOND == 0
      && if l.expiresAt.value < drift as real then e == 0 else kept - SECOND as real < e as real <= kept
    else if fallback > drift then e as real == kept
    else e == now + SECOND
  }

  /** What a row records of an answer, from both sides. */
  lemma RowExpiryExactly(l: Lifetime, fallback: nat, drift: nat, now: Time)
    ensures Recorded(RowExpiry(l, fallback, drift, now), l, fallback, drift, now)
  {
    if Positive(l.expiresIn) {
      KeptSeconds(l.expiresIn.value, drift);
      assert Max(0, l.expiresIn.value.Floor - drift) * SECOND % SECOND == 0;
    } else if Positive(l.expiresAt) {
      KeptSeconds(l.expiresAt.value, drift);
      assert Max(0, l.expiresAt.value.Floor - drift) * SECOND % SECOND == 0;
    }
  }

  lemma KeptSeconds(x: real, drift: nat)
    requires x > 0.0
    ensures var n := Max(0, x.Floor - drift);
      if x < drift as real then n == 0
      else (x - 1.0 - drift as real) * SECOND as real < (n * SECOND) as real <= (x - drift as real) * SECOND as real
  {
    var n := Max(0, x.Floor - drift);
    assert (n * SECOND) as real == n as real * SECOND as real;
  }

  // ---------------------------------------------------------------- minting

  /** The lifetime a mint asks for: AuthService replaces only what has run out by one second, TokenService
      (floored) allows nothing under one second. */
  function Ttl(e: Time, m: Time, floored: bool): Time {
    if floored then Max(e - m, SECOND) else if e - m <= 0 then SECOND else e - m
  }

  /** The exp claim: the lifetime is taken at m, the claim at the encryption service's own clock read m2. */
  function MintExp(e: Time, m: Time, m2: Time, floored: bool): int { EpochSecond(m2 + Ttl(e, m, floored)) }

  /** A minted credential outlives neither its row nor the floor by more than the gap between the reads. */
  lemma MintBound(e: Time, m: Time, m2: Time, floored: bool)
    requires 0 <= m <= m2
    ensures MintExp(e, m, m2, floored) * SECOND <= Max(e, m + SECOND) + (m2 - m)
  {
    EpochSecondBelow(m2 + Ttl(e, m, floored));
  }

  /** "Never outlives the federated credential" fails exactly when the row had already run out, or the gap
      between the two clock reads carries its expiry into a later second. */
  lemma OutlivesExactly(e: Time, m: Time, m2: Time)
    requires 0 <= m <= m2
    ensures MintExp(e, m, m2, false) * SECOND > e <==> e <= m || (m2 - m) >= SECOND - e % SECOND
  {
    EpochSecondBelow(m2 + Ttl(e, m, false));
    if e > m { NextSecond(e, m2 - m); }
  }

  lemma NextSecond(e: Time, gap: Time)
    requires e >= 0 && gap >= 0
    ensures EpochSecond(e + gap) * SECOND > e <==> gap >= SECOND - e % SECOND
  {
    EpochSecondBelow(e + gap);
    var q, r := e / SECOND, e % SECOND;
    assert e == q * SECOND + r;
    var p := EpochSecond(e + gap);
    assert p * SECOND > e <==> p >= q + 1;
    assert p >= q + 1 <==> e + gap >= (q + 1) * SECOND;
  }

  /** A mint is good at its own instant exactly when it was floored, its row had run out, or the rest of the
      row's life reaches the next whole second: without the floor the last second yields dead tokens. */
  lemma BornAlive(e: Time, m: Time, m2: Time, floored: bool)
    requires 0 <= m <= m2
    ensures MintExp(e, m, m2, floored) * SECOND > m2 <==> floored || e <= m || e - m >= SECOND - m2 % SECOND
  {
    var ttl := Ttl(e, m, floored);
    NextSecond(m2, ttl);
    assert m2 + ttl == m2 + (ttl);
  }

  /** The exp of a mint, from both sides: the last whole second of the row's life, carried over the gap between the
      clock reads; for a row that has run out, of one second from the second read; for a row in its last second, of
      its rest, or of one second where the mint is floored. */
  lemma MintExactly(e: Time, m: Time, m2: Time, floored: bool)
    requires 0 <= m <= m2
    ensures var until := if e - m >= SECOND || (e > m && !floored) then e + (m2 - m) else m2 + SECOND;
      MintExp(e, m, m2, floored) * SECOND <= until < (MintExp(e, m, m2, floored) + 1) * SECOND
  {
    EpochSecondBelow(m2 + Ttl(e, m, floored));
  }

  // ---------------------------------------------------------------- chains

  datatype Kind = Access | Refresh | Cookie | IdToken

  /** A credential as handed out: its exp, a cookie's axp, when its lifetime was taken and how long after
      that the exp was fixed, and the largest expiry its backing row had ever held by then. */
  datatype Credential = Credential(kind: Kind, exp: int, axp: Option<int>, minted: Time, gap: Time, longest: Time)

  /** One federated session: the two row expiries, the largest each ever held, the clock, and everything
      minted so far. */
  datatype Chain = Chain(access: Time, refresh: Time, longestAccess: Time, longestRefresh: Time, clock: Time,
                         minted: seq<Credential>)

  datatype Step =
    | Rewrite(r1: Time, r2: Time, accessLife: Lifetime, refreshLife: Lifetime)
    | RevokeAccess(at: Time)
    | Mint(kind: Kind, floored: bool, m: Time, m2: Time)
    | Remint(presented: nat, lockTimeout: bool, now: Time, m: Time, m2: Time)

  const ID_TOKEN_TTL: Time := 900 * SECOND

  /** The expiry a mint of this kind is synced to. */
  function Backing(c: Chain, kind: Kind, m: Time): Time {
    match kind
    case Refresh => c.refresh
    case IdToken => Min(m + ID_TOKEN_TTL, c.access)
    case _ => c.access
  }

  function Issue(c: Chain, kind: Kind, e: Time, floored: bool, m: Time, m2: Time): Credential {
    Credential(kind, MintExp(e, m, m2, floored), if kind == Cookie then Some(EpochSecond(e)) else None, m, m2 - m,
               if kind == Refresh then c.longestRefresh else c.longestAccess)
  }

  /** What a presented cookie is re-minted off: its own axp while that is beyond the drift tolerance; when
      another process holds the lock, its axp or one second from now. Otherwise the row is refreshed first,
      which is a Rewrite followed by a Mint. */
  function RemintBase(axp: Option<int>, lockTimeout: bool, now: Time, drift: nat): Option<Time> {
    if axp.Some? && axp.value * SECOND > now + drift * SECOND then Some(axp.value * SECOND)
    else if lockTimeout then Some(if axp.Some? then axp.value * SECOND else now + SECOND)
    else None
  }

  /** One step, with the clock reads in the order the code makes them; a step the clock or the code rules
      out changes nothing. */
  function Apply(cfg: IdpConfig, c: Chain, step: Step): Chain {
    match step
    case Rewrite(r1, r2, a, r) =>
      if !(c.clock <= r1 <= r2) then c
      else
        var refresh, access := RowExpiry(r, cfg.refreshFallback, cfg.drift, r1),
          RowExpiry(a, cfg.accessFallback, cfg.drift, r2);
        c.(refresh := refresh, access := access, longestRefresh := Max(c.longestRefresh, refresh),
           longestAccess := Max(c.longestAccess, access), clock := r2)
    case RevokeAccess(at) =>
      if at < c.clock then c else c.(access := at, longestAccess := Max(c.longestAccess, at), clock := at)
    case Mint(kind, floored, m, m2) =>
      if !(c.clock <= m <= m2) then c
      else c.(minted := c.minted + [Issue(c, kind, Backing(c, kind, m), floored, m, m2)], clock := m2)
    case Remint(i, lockTimeout, now, m, m2) =>
      if !(c.clock <= now <= m <= m2) || i >= |c.minted| || c.minted[i].kind != Cookie then c
      else match RemintBase(c.minted[i].axp, lockTimeout, now, cfg.drift)
        case None => c
        case Some(e) => c.(minted := c.minted + [Issue(c, Cookie, e, false, m, m2)], clock := m2)
  }

  /** The session begins with the callback, which persists both rows. */
  function Begin(start: Time): Chain { Chain(0, 0, 0, 0, start, []) }

  function Run(cfg: IdpConfig, start: Time, steps: seq<Step>): Chain {
    if steps == [] then Begin(start) else Apply(cfg, Run(cfg, start, steps[..|steps| - 1]), steps[|steps| - 1])
  }

  predicate WithinBound(x: Credential) {
    && x.exp * SECOND <= Max(x.longest, x.minted + SECOND) + x.gap
    && (x.axp.Some? ==> x.axp.value * SECOND <= Max(x.longest, x.minted + SECOND))
    && (x.kind == IdToken ==> x.exp * SECOND <= x.minted + ID_TOKEN_TTL + x.gap)
  }

  ghost predicate Inv(c: Chain) {
    && 0 <= c.clock && 0 <= c.access <= c.longestAccess && 0 <= c.refresh <= c.longestRefresh
    && forall i :: 0 <= i < |c.minted| ==>
         && WithinBound(c.minted[i]) && 0 <= c.minted[i].minted <= c.clock
         && c.minted[i].longest <= if c.minted[i].kind == Refresh then c.longestRefresh else c.longestAccess
  }

  lemma StepKeepsInv(cfg: IdpConfig, c: Chain, step: Step)
    requires Inv(c)
    ensures Inv(Apply(cfg, c, step))
  {
    match step
    case Rewrite(_, _, _, _) =>
    case RevokeAccess(_) =>
    case Mint(kind, floored, m, m2) =>
      if c.clock <= m <= m2 { IssueBounded(c, kind, Backing(c, kind, m), floored, m, m2); }
    case Remint(i, lockTimeout, now, m, m2) =>
      if c.clock <= now <= m <= m2 && i < |c.minted| && c.minted[i].kind == Cookie {
        var base := RemintBase(c.minted[i].axp, lockTimeout, now, cfg.drift);
        if base.Some? { IssueBounded(c, Cookie, base.value, false, m, m2); }
      }
  }

  lemma IssueBounded(c: Chain, kind: Kind, e: Time, floored: bool, m: Time, m2: Time)
    requires 0 <= m <= m2
    requires e <= Max(if kind == Refresh then c.longestRefresh else c.longestAccess, m + SECOND)
    requires kind == IdToken ==> e <= m + ID_TOKEN_TTL
    ensures WithinBound(Issue(c, kind, e, floored, m, m2))
  {
    MintBound(e, m, m2, floored);
    assert EpochSecond(e) * SECOND <= Max(e, 0);
  }

  lemma {:induction false} RunKeepsInv(cfg: IdpConfig, start: Time, steps: seq<Step>)
    requires start >= 0
    ensures Inv(Run(cfg, start, steps))
  {
    if steps != [] {
      RunKeepsInv(cfg, start, steps[..|steps| - 1]);
      StepKeepsInv(cfg, Run(cfg, start, steps[..|steps| - 1]), steps[|steps| - 1]);
    }
  }

  /** Over every chain of callback, refresh, revocation, mint, exchange and cookie re-mint: a credential's
      exp is at most the largest expiry its row ever held (or one second after its mint), plus the gap to
      the second clock read; an id_token lives at most 900 seconds more; and re-minting a cookie from cookies
      never moves axp past that either. */
  lemma CredentialsBounded(cfg: IdpConfig, start: Time, steps: seq<Step>, i: nat)
    requires start >= 0 && i < |Run(cfg, start, steps).minted|
    ensures var c := Run(cfg, start, steps); var x := c.minted[i];
      var longest := if x.kind == Refresh then c.longestRefresh else c.longestAccess;
      && x.exp * SECOND <= Max(longest, x.minted + SECOND) + x.gap
      && (x.axp.Some? ==> x.axp.value * SECOND <= Max(longest, x.minted + SECOND))
      && (x.kind == IdToken ==> x.exp * SECOND <= x.minted + ID_TOKEN_TTL + x.gap)
  {
    RunKeepsInv(cfg, start, steps);
  }

  /** A callback or refresh records both rows, each from its own lifetime and clock read. */
  lemma RewriteRecords(cfg: IdpConfig, c: Chain, r1: Time, r2: Time, accessLife: Lifetime, refreshLife: Lifetime)
    requires c.clock <= r1 <= r2
    ensures var t := Apply(cfg, c, Rewrite(r1, r2, accessLife, refreshLife));
      && Recorded(t.refresh, refreshLife, cfg.refreshFallback, cfg.drift, r1)
      && Recorded(t.access, accessLife, cfg.accessFallback, cfg.drift, r2)
  {
    RowExpiryExactly(refreshLife, cfg.refreshFallback, cfg.drift, r1);
    RowExpiryExactly(accessLife, cfg.accessFallback, cfg.drift, r2);
  }

  /** A credential minted off a row with a second or more to live lasts to within a second of its row, or of 900
      seconds for an id_token; a cookie carries the second in which its row expires. */
  lemma MintReachesItsRow(cfg: IdpConfig, start: Time, steps: seq<Step>, kind: Kind, floored: bool, m: Time, m2: Time)
    requires start >= 0 && Run(cfg, start, steps).clock <= m <= m2
    ensures var c := Run(cfg, start, steps);
      var t := Apply(cfg, c, Mint(kind, floored, m, m2));
      && |t.minted| == |c.minted| + 1
      && var x := t.minted[|c.minted|];
         && x.kind == kind && (x.axp.Some? <==> kind == Cookie)
         && (kind == Refresh && c.refresh >= m + SECOND ==> (x.exp + 1) * SECOND > c.refresh + (m2 - m))
         && (kind == Access || kind == Cookie || (kind == IdToken && c.access <= m + 900 * SECOND) ==>
               c.access >= m + SECOND ==> (x.exp + 1) * SECOND > c.access + (m2 - m))
         && (kind == IdToken && c.access > m + 900 * SECOND ==> (x.exp + 1) * SECOND > m2 + 900 * SECOND)
         && (kind == Cookie ==> x.axp.value * SECOND <= c.access < (x.axp.value + 1) * SECOND)
  {
    RunKeepsInv(cfg, start, steps);
    var c := Run(cfg, start, steps);
    MintExactly(Backing(c, kind, m), m, m2, floored);
    EpochSecondBelow(c.access);
  }

  /** Once the access row is revoked, what is minted off it lasts a second. */
  lemma RevokedRowMintsOneSecond(cfg: IdpConfig, c: Chain, at: Time, kind: Kind, floored: bool, m: Time, m2: Time)
    requires 0 <= c.clock <= at <= m <= m2 && kind != Refresh
    ensures var t := Apply(cfg, Apply(cfg, c, RevokeAccess(at)), Mint(kind, floored, m, m2));
      |t.minted| == |c.minted| + 1 && t.minted[|c.minted|].exp * SECOND <= m2 + SECOND
  {
    MintExactly(Min(m + ID_TOKEN_TTL, at), m, m2, floored);
    MintExactly(at, m, m2, floored);
  }

  /** A cookie is re-minted off its own axp while that is beyond the drift tolerance or the lock is held elsewhere,
      and that reproduces the axp: the chain does not drift. Without an axp a held lock gives it one second. */
  lemma RemintKeepsAxp(axp: int, lockTimeout: bool, now: Time, drift: nat)
    requires now >= 0 && axp >= 0
    ensures var base := RemintBase(Some(axp), lockTimeout, now, drift);
      && (base.Some? <==> lockTimeout || (axp - drift) * SECOND > now)
      && (base.Some? ==> EpochSecond(base.value) == axp)
    ensures RemintBase(None, lockTimeout, now, drift) == if lockTimeout then Some(now + SECOND) else None
  {
    assert axp * SECOND / SECOND == axp;
  }

  // ---------------------------------------------------------------- a credential that outlives its row

  const SEVENTY_SECONDS := Lifetime(Some(70.0), None)

  /** The IdP advertises 70 s at 1.9 s, of which 60 s are kept back; an access token minted at 2.0 s, its exp fixed
      at 2.1 s, is good until 12 s while the row expires at 11.9 s. */
  lemma AccessTokenOutlivesItsRow(fallback: nat)
    ensures var cfg := IdpConfig(60, fallback, fallback);
      var c := Run(cfg, 0, [Rewrite(1_900_000, 1_900_000, SEVENTY_SECONDS, SEVENTY_SECONDS),
                            Mint(Access, false, 2_000_000, 2_100_000)]);
      c.access == 11_900_000 && |c.minted| == 1 && c.minted[0].kind == Access
      && c.minted[0].exp * SECOND == 12_000_000 > c.access
  {
    var cfg := IdpConfig(60, fallback, fallback);
    var write := Rewrite(1_900_000, 1_900_000, SEVENTY_SECONDS, SEVENTY_SECONDS);
    var mint := Mint(Access, false, 2_000_000, 2_100_000);
    assert [write, mint][..1] == [write] && [write][..0] == [];
    assert 70.0.Floor == 70;
    var c := Apply(cfg, Begin(0), write);
    assert Run(cfg, 0, [write]) == c && c.access == 11_900_000;
    assert MintExp(11_900_000, 2_000_000, 2_100_000, false) == 12;
  }

  /** In the last second of its row, without the floor, a token is dead when it is handed out. */
  lemma TokenBornDead()
    ensures MintExp(11_900_000, 11_200_000, 11_200_000, false) * SECOND <= 11_200_000 < 11_900_000
  {
  }
}
