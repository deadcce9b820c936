/** The token manager: issuing pairs, rotating refresh tokens and revoking them. */
module RefreshTokens {
  import opened Text
  import opened CompactJwt

  /** `RefreshTokenRecord`, with time in exact seconds. */
  datatype Record = Record(subject: string, tenantId: Option<string>, expiresAt: real, revoked: bool)

  type Store = map<string, Record>

  datatype Config = Config(settings: Settings, accessTtl: real, refreshTtl: real)

  /** A text token is handed out together with the claims it encodes. */
  datatype TokenPair = TokenPair(accessToken: string, refreshToken: string)

  /** What issuing a pair draws from outside: two readings of the clock and two fresh ids. */
  datatype Draw = Draw(accessNow: real, refreshNow: real, accessId: string, refreshId: string)

  const RESERVED: set<string> := {"sub", "typ", "jti", "iat", "exp", "tenant_id", "iss", "aud"}

  function Optional(name: string, value: Option<string>): Claims {
    if value.Some? then map[name := TextClaim(value.value)] else map[]
  }

  /** The claims of a token before the caller's additional claims are laid over them. */
  function BaseClaims(cfg: Config, t: TokenType, subject: string, tenantId: Option<string>, jti: string, now: real)
    : Claims {
    var ttl := if t == Access then cfg.accessTtl else cfg.refreshTtl;
    map["sub" := TextClaim(subject), "typ" := TextClaim(TypeText(t)), "jti" := TextClaim(jti),
        "iat" := NumberClaim(Truncate(now)), "exp" := NumberClaim(Truncate(now + ttl))]
    + Optional("tenant_id", tenantId)
    + Optional("iss", cfg.settings.issuer)
    + Optional("aud", cfg.settings.audience)
  }

  function Token(cfg: Config, t: TokenType, subject: string, tenantId: Option<string>, jti: string, now: real,
                 extra: Claims): string {
    EncodeToken(cfg.settings.codec, BaseClaims(cfg, t, subject, tenantId, jti, now) + extra)
  }

  function NewRecord(cfg: Config, subject: string, tenantId: Option<string>, now: real): Record {
    Record(subject, tenantId, now + cfg.refreshTtl, false)
  }

  function Recorded(cfg: Config, store: Store, subject: string, tenantId: Option<string>, d: Draw): Store {
    store[d.refreshId := NewRecord(cfg, subject, tenantId, d.refreshNow)]
  }

  function Pair(cfg: Config, subject: string, tenantId: Option<string>, extra: Claims, d: Draw): TokenPair {
    TokenPair(Token(cfg, Access, subject, tenantId, d.accessId, d.accessNow, extra),
              Token(cfg, Refresh, subject, tenantId, d.refreshId, d.refreshNow, extra))
  }

  function Issue(cfg: Config, store: Store, subject: string, tenantId: Option<string>, extra: Claims, d: Draw)
    : (Store, TokenPair) {
    (Recorded(cfg, store, subject, tenantId, d), Pair(cfg, subject, tenantId, extra, d))
  }

  function Revoked(store: Store, jti: string): Store {
    if jti in store then store[jti := store[jti].(revoked := true)] else store
  }

  /** `decode_and_validate` at second `now` with a refresh token expected, then the `jti` claim. */
  function RefreshId(cfg: Config, token: string, now: int): Result<string, JwtError> {
    var claims :- DecodeAndValidate(cfg.settings, token, Some(Refresh), now);
    match Get(claims, "jti")
    case Some(TextClaim(jti)) => Ok(jti)
    case _ => Err(NoTokenId)
  }

  /** How a rotation ends: refused, on a record that has expired, or with success. */
  datatype Verdict = Refused(error: JwtError) | OnExpired(jti: string) | Rotated(jti: string)

  /** The checks of `rotate_refresh_token`; the clock is read at validation and at the check of the record. */
  function Check(cfg: Config, store: Store, token: string, validatedAt: real, checkedAt: real): (v: Verdict)
    ensures !v.Refused? ==> v.jti in store && !store[v.jti].revoked
  {
    match RefreshId(cfg, token, Truncate(validatedAt))
    case Err(e) => Refused(e)
    case Ok(jti) =>
      if jti !in store || store[jti].revoked then Refused(Replayed)
      else if store[jti].expiresAt <= checkedAt then OnExpired(jti)
      else Rotated(jti)
  }

  /** The records after a rotation that ends with `v`. */
  function Leaves(cfg: Config, store: Store, v: Verdict, d: Draw): Store
    requires !v.Refused? ==> v.jti in store
  {
    match v
    case Refused(_) => store
    case OnExpired(jti) => Revoked(store, jti)
    case Rotated(jti) => Recorded(cfg, Revoked(store, jti), store[jti].subject, store[jti].tenantId, d)
  }

  /** `rotate_refresh_token`; the clock is read once more to issue. */
  function Rotate(cfg: Config, store: Store, token: string, validatedAt: real, checkedAt: real, d: Draw)
    : (Store, Result<TokenPair, JwtError>)
  {
    var v := Check(cfg, store, token, validatedAt, checkedAt);
    (Leaves(cfg, store, v, d),
     match v
     case Refused(e) => Err(e)
     case OnExpired(_) => Err(Expired)
     case Rotated(jti) => Ok(Pair(cfg, store[jti].subject, store[jti].tenantId, map[], d)))
  }

  function Revoke(cfg: Config, store: Store, token: string, now: real): (Store, Result<(), JwtError>) {
    match RefreshId(cfg, token, Truncate(now))
    case Err(e) => (store, Err(e))
    case Ok(jti) => (Revoked(store, jti), Ok(()))
  }

  class JwtTokenManager {
    const cfg: Config
    var records: Store

    constructor (cfg: Config)
      ensures this.cfg == cfg && records == map[]
    {
      this.cfg := cfg;
      records := map[];
    }

    method IssueTokenPair(subject: string, tenantId: Option<string>, extra: Claims, d: Draw) returns (pair: TokenPair)
      modifies this
      ensures (records, pair) == Issue(cfg, old(records), subject, tenantId, extra, d)
    {
      var accessToken := Token(cfg, Access, subject, tenantId, d.accessId, d.accessNow, extra);
      var refreshToken := Token(cfg, Refresh, subject, tenantId, d.refreshId, d.refreshNow, extra);
      records := records[d.refreshId := Record(subject, tenantId, d.refreshNow + cfg.refreshTtl, false)];
      return TokenPair(accessToken, refreshToken);
    }

    method RevokeId(jti: string)
      modifies this
      ensures records == Revoked(old(records), jti)
    {
      if jti in records {
        records := records[jti := records[jti].(revoked := true)];
      }
    }

    method RotateRefreshToken(token: string, validatedAt: real, checkedAt: real, d: Draw)
      returns (r: Result<TokenPair, JwtError>)
      modifies this
      ensures (records, r) == Rotate(cfg, old(records), token, validatedAt, checkedAt, d)
    {
      var id := RefreshId(cfg, token, Truncate(validatedAt));
      if id.Err? {
        return Err(id.error);
      }
      var jti := id.value;
      if jti !in records || records[jti].revoked {
        return Err(Replayed);
      }
      var record := records[jti];
      if record.expiresAt <= checkedAt {
        RevokeId(jti);
        return Err(Expired);
      }
      RevokeId(jti);
      var pair := IssueTokenPair(record.subject, record.tenantId, map[], d);
      return Ok(pair);
    }

    method RevokeRefreshToken(token: string, now: real) returns (r: Result<(), JwtError>)
      modifies this
      ensures (records, r) == Revoke(cfg, old(records), token, now)
    {
      var id := RefreshId(cfg, token, Truncate(now));
      if id.Err? {
        return Err(id.error);
      }
      RevokeId(id.value);
      return Ok(());
    }
  }

  // ---- What an issued token says ----

  lemma TokenClaims(cfg: Config, t: TokenType, subject: string, tenantId: Option<string>,
                    jti: string, now: real, extra: Claims)
    requires Faithful(cfg.settings.codec)
    ensures ClaimsOf(cfg.settings.codec, Token(cfg, t, subject, tenantId, jti, now, extra))
         == Ok(BaseClaims(cfg, t, subject, tenantId, jti, now) + extra)
  {
    TokenRoundTrip(cfg.settings.codec, BaseClaims(cfg, t, subject, tenantId, jti, now) + extra);
  }

  lemma Overlaid(base: Claims, extra: Claims, name: string)
    ensures Get(base + extra, name) == if name in extra then Some(extra[name]) else Get(base, name)
  {
  }

  /** The claims that validation reads: the caller's additional claims win over those of the manager. */
  lemma ReservedNamesOverlaid(cfg: Config, t: TokenType, subject: string, tenantId: Option<string>,
                              jti: string, now: real, extra: Claims)
    ensures var claims := BaseClaims(cfg, t, subject, tenantId, jti, now) + extra;
            var ttl := if t == Access then cfg.accessTtl else cfg.refreshTtl;
            && Get(claims, "typ") == (if "typ" in extra then Some(extra["typ"]) else Some(TextClaim(TypeText(t))))
            && Get(claims, "exp")
               == (if "exp" in extra then Some(extra["exp"]) else Some(NumberClaim(Truncate(now + ttl))))
            && Get(claims, "jti") == (if "jti" in extra then Some(extra["jti"]) else Some(TextClaim(jti)))
            && (Matches(claims, "iss", cfg.settings.issuer) <==> Spares(extra, "iss", cfg.settings.issuer))
            && (Matches(claims, "aud", cfg.settings.audience) <==> Spares(extra, "aud", cfg.settings.audience))
  {
    var base := BaseClaims(cfg, t, subject, tenantId, jti, now);
    BaseNames(cfg, t, subject, tenantId, jti, now);
    Overlaid(base, extra, "typ");
    Overlaid(base, extra, "exp");
    Overlaid(base, extra, "jti");
    Overlaid(base, extra, "iss");
    Overlaid(base, extra, "aud");
  }

  /** The claims in an issued token, as far as validation reads them. */
  lemma IssuedClaims(cfg: Config, t: TokenType, subject: string, tenantId: Option<string>, jti: string, now: real,
                     extra: Claims) returns (claims: Claims)
    requires Faithful(cfg.settings.codec)
    ensures ClaimsOf(cfg.settings.codec, Token(cfg, t, subject, tenantId, jti, now, extra)) == Ok(claims)
    ensures var ttl := if t == Access then cfg.accessTtl else cfg.refreshTtl;
            && Get(claims, "typ") == (if "typ" in extra then Some(extra["typ"]) else Some(TextClaim(TypeText(t))))
            && Get(claims, "exp")
               == (if "exp" in extra then Some(extra["exp"]) else Some(NumberClaim(Truncate(now + ttl))))
            && Get(claims, "jti") == (if "jti" in extra then Some(extra["jti"]) else Some(TextClaim(jti)))
            && (Matches(claims, "iss", cfg.settings.issuer) <==> Spares(extra, "iss", cfg.settings.issuer))
            && (Matches(claims, "aud", cfg.settings.audience) <==> Spares(extra, "aud", cfg.settings.audience))
  {
    claims := BaseClaims(cfg, t, subject, tenantId, jti, now) + extra;
    TokenClaims(cfg, t, subject, tenantId, jti, now, extra);
    ReservedNamesOverlaid(cfg, t, subject, tenantId, jti, now, extra);
  }

  lemma BaseNames(cfg: Config, t: TokenType, subject: string, tenantId: Option<string>, jti: string, now: real)
    ensures var base := BaseClaims(cfg, t, subject, tenantId, jti, now);
            && Get(base, "jti") == Some(TextClaim(jti)) && Get(base, "typ") == Some(TextClaim(TypeText(t)))
            && Get(base, "exp")
               == Some(NumberClaim(Truncate(now + if t == Access then cfg.accessTtl else cfg.refreshTtl)))
            && Matches(base, "iss", cfg.settings.issuer) && Matches(base, "aud", cfg.settings.audience)
  {
  }

  /** If the caller uses none of the reserved names, all of them stay as issued. */
  lemma ReservedNamesKept(cfg: Config, t: TokenType, subject: string, tenantId: Option<string>,
                          jti: string, now: real, extra: Claims)
    requires RESERVED !! extra.Keys
    ensures var base := BaseClaims(cfg, t, subject, tenantId, jti, now);
            var claims := base + extra;
            && (forall name :: name in RESERVED ==> Get(claims, name) == Get(base, name))
            && Get(claims, "jti") == Some(TextClaim(jti))
            && Get(claims, "typ") == Some(TextClaim(TypeText(t)))
            && Get(claims, "exp")
                == Some(NumberClaim(Truncate(now + if t == Access then cfg.accessTtl else cfg.refreshTtl)))
            && Matches(claims, "iss", cfg.settings.issuer) && Matches(claims, "aud", cfg.settings.audience)
  {
    var base := BaseClaims(cfg, t, subject, tenantId, jti, now);
    assert "jti" in RESERVED && "typ" in RESERVED && "exp" in RESERVED && "iss" in RESERVED && "aud" in RESERVED;
    BaseNames(cfg, t, subject, tenantId, jti, now);
  }

  /** The second from which a refresh token counts as expired, if its claims say so at all. */
  function ExpirySecond(cfg: Config, extra: Claims, d: Draw): Option<int> {
    match Get(extra, "exp")
    case None => Some(Truncate(d.refreshNow + cfg.refreshTtl))
    case Some(NumberClaim(n)) => Some(n)
    case Some(_) => None
  }

  /** The id in a token issued as `own`: a `jti` among the additional claims replaces it. */
  function NamedId(extra: Claims, own: string): Option<string> {
    match Get(extra, "jti")
    case None => Some(own)
    case Some(TextClaim(jti)) => Some(jti)
    case Some(_) => None
  }

  /** A claim that the caller replaces is replaced by the same text. */
  predicate Spares(extra: Claims, name: string, expected: Option<string>) {
    expected.Some? && name in extra ==> extra[name] == TextClaim(expected.value)
  }

  /** Whether a refresh token issued with these additional claims passes validation at second `now`. */
  predicate Admissible(cfg: Config, extra: Claims, d: Draw, now: int) {
    && Spares(extra, "typ", Some("refresh"))
    && ExpirySecond(cfg, extra, d).Some? && now < ExpirySecond(cfg, extra, d).value
    && Spares(extra, "iss", cfg.settings.issuer)
    && Spares(extra, "aud", cfg.settings.audience)
  }

  /** When a text with these claims passes as a refresh token, and for which id. */
  lemma NamesId(cfg: Config, token: string, claims: Claims, now: int, id: string)
    requires ClaimsOf(cfg.settings.codec, token) == Ok(claims)
    ensures RefreshId(cfg, token, now) == Ok(id) <==>
            && Get(claims, "typ") == Some(TextClaim("refresh"))
            && "exp" in claims && claims["exp"].NumberClaim? && claims["exp"].n > now
            && Matches(claims, "iss", cfg.settings.issuer)
            && Matches(claims, "aud", cfg.settings.audience)
            && Get(claims, "jti") == Some(TextClaim(id))
    ensures RefreshId(cfg, token, now) == Err(WrongType) <==> Get(claims, "typ") != Some(TextClaim("refresh"))
    ensures RefreshId(cfg, token, now) == Err(NoTokenId) <==>
            && DecodeAndValidate(cfg.settings, token, Some(Refresh), now).Ok?
            && forall jti :: Get(claims, "jti") != Some(TextClaim(jti))
  {
  }

  /**
   * The id for which an issued refresh token passes, whatever the caller's additional claims: they
   * must leave type, issuer, audience and expiry as validation expects them, and their `jti` wins.
   */
  lemma TokenNamesExactly(cfg: Config, subject: string, tenantId: Option<string>, extra: Claims,
                          d: Draw, now: int, id: string)
    requires Faithful(cfg.settings.codec)
    ensures var token := Issue(cfg, map[], subject, tenantId, extra, d).1.refreshToken;
            RefreshId(cfg, token, now) == Ok(id) <==>
            Admissible(cfg, extra, d, now) && NamedId(extra, d.refreshId) == Some(id)
  {
    var claims := IssuedClaims(cfg, Refresh, subject, tenantId, d.refreshId, d.refreshNow, extra);
    PassesFor(cfg, Token(cfg, Refresh, subject, tenantId, d.refreshId, d.refreshNow, extra), claims, extra, d, now, id);
  }

  /** What the claims that validation reads mean for validity and id. */
  lemma PassesFor(cfg: Config, token: string, claims: Claims, extra: Claims, d: Draw, now: int, id: string)
    requires ClaimsOf(cfg.settings.codec, token) == Ok(claims)
    requires Get(claims, "typ") == if "typ" in extra then Some(extra["typ"]) else Some(TextClaim("refresh"))
    requires Get(claims, "exp") == if "exp" in extra then Some(extra["exp"])
                                   else Some(NumberClaim(Truncate(d.refreshNow + cfg.refreshTtl)))
    requires Get(claims, "jti") == if "jti" in extra then Some(extra["jti"]) else Some(TextClaim(d.refreshId))
    requires Matches(claims, "iss", cfg.settings.issuer) <==> Spares(extra, "iss", cfg.settings.issuer)
    requires Matches(claims, "aud", cfg.settings.audience) <==> Spares(extra, "aud", cfg.settings.audience)
    ensures RefreshId(cfg, token, now) == Ok(id) <==>
            Admissible(cfg, extra, d, now) && NamedId(extra, d.refreshId) == Some(id)
  {
    NamesId(cfg, token, claims, now, id);
  }

  /**
   * A refresh token names its own record exactly while it is admissible and the caller has put no
   * other `jti` into it; if the caller uses no reserved name, until the whole second of its expiry.
   */
  lemma IssuedTokenNamesRecord(cfg: Config, subject: string, tenantId: Option<string>, extra: Claims,
                               d: Draw, now: int)
    requires Faithful(cfg.settings.codec)
    ensures var token := Issue(cfg, map[], subject, tenantId, extra, d).1.refreshToken;
            && (RefreshId(cfg, token, now) == Ok(d.refreshId) <==>
                Admissible(cfg, extra, d, now) && Spares(extra, "jti", Some(d.refreshId)))
            && (RESERVED !! extra.Keys ==>
                RefreshId(cfg, token, now) ==
                if now < Truncate(d.refreshNow + cfg.refreshTtl) then Ok(d.refreshId) else Err(Expired))
  {
    TokenNamesExactly(cfg, subject, tenantId, extra, d, now, d.refreshId);
    if RESERVED !! extra.Keys {
      UnreservedClaimsKeep(cfg, subject, tenantId, extra, d, now);
    }
  }

  lemma UnreservedClaimsKeep(cfg: Config, subject: string, tenantId: Option<string>, extra: Claims,
                             d: Draw, now: int)
    requires Faithful(cfg.settings.codec) && RESERVED !! extra.Keys
    ensures RefreshId(cfg, Token(cfg, Refresh, subject, tenantId, d.refreshId, d.refreshNow, extra), now) ==
            if now < Truncate(d.refreshNow + cfg.refreshTtl) then Ok(d.refreshId) else Err(Expired)
  {
    ReservedNamesKept(cfg, Refresh, subject, tenantId, d.refreshId, d.refreshNow, extra);
    TokenClaims(cfg, Refresh, subject, tenantId, d.refreshId, d.refreshNow, extra);
  }

  /** An admissible token whose additional claims hold another `jti` names that record instead of its own. */
  lemma OverriddenIdWins(cfg: Config, subject: string, tenantId: Option<string>, extra: Claims,
                         d: Draw, now: int, other: string)
    requires Faithful(cfg.settings.codec) && other != d.refreshId
    ensures var token := Issue(cfg, map[], subject, tenantId, extra, d).1.refreshToken;
            RefreshId(cfg, token, now) == Ok(other) <==>
            Admissible(cfg, extra, d, now) && Get(extra, "jti") == Some(TextClaim(other))
  {
    TokenNamesExactly(cfg, subject, tenantId, extra, d, now, other);
  }

  /** The access token of a pair is of the wrong type for rotation, unless the caller replaced its type. */
  lemma AccessTokenIsNoRefresh(cfg: Config, subject: string, tenantId: Option<string>, extra: Claims,
                               d: Draw, now: int)
    requires Faithful(cfg.settings.codec)
    ensures RefreshId(cfg, Token(cfg, Access, subject, tenantId, d.accessId, d.accessNow, extra), now) == Err(WrongType)
            <==> Get(extra, "typ") != Some(TextClaim("refresh"))
  {
    var token := Token(cfg, Access, subject, tenantId, d.accessId, d.accessNow, extra);
    var claims := IssuedClaims(cfg, Access, subject, tenantId, d.accessId, d.accessNow, extra);
    NamesId(cfg, token, claims, now, "");
    assert "access"[0] != "refresh"[0];
  }

  /** A record that lets its token rotate at the moment `now`. */
  predicate Rotatable(store: Store, jti: string, now: real) {
    jti in store && !store[jti].revoked && now < store[jti].expiresAt
  }

  /**
   * A freshly issued refresh token rotates exactly while it is admissible and the record it names is
   * neither revoked nor expired: its own record, unless the caller's `jti` names another.
   */
  lemma FreshTokenRotates(cfg: Config, store: Store, subject: string, tenantId: Option<string>,
                          extra: Claims, d: Draw, validatedAt: real, checkedAt: real, e: Draw)
    requires Faithful(cfg.settings.codec)
    ensures var (after, pair) := Issue(cfg, store, subject, tenantId, extra, d);
            var (_, r) := Rotate(cfg, after, pair.refreshToken, validatedAt, checkedAt, e);
            var named := NamedId(extra, d.refreshId);
            && (r.Ok? <==>
                && Admissible(cfg, extra, d, Truncate(validatedAt))
                && named.Some? && Rotatable(after, named.value, checkedAt))
            && Rotatable(after, d.refreshId, checkedAt) == (checkedAt < d.refreshNow + cfg.refreshTtl)
    ensures var (after, pair) := Issue(cfg, store, subject, tenantId, extra, d);
            Rotate(cfg, after, pair.accessToken, validatedAt, checkedAt, e) == (after, Err(WrongType))
            <==> Get(extra, "typ") != Some(TextClaim("refresh"))
  {
    RefreshHalfRotates(cfg, store, subject, tenantId, extra, d, validatedAt, checkedAt, e);
    AccessHalfNever(cfg, store, subject, tenantId, extra, d, validatedAt, checkedAt, e);
  }

  lemma RefreshHalfRotates(cfg: Config, store: Store, subject: string, tenantId: Option<string>, extra: Claims,
                           d: Draw, validatedAt: real, checkedAt: real, e: Draw)
    requires Faithful(cfg.settings.codec)
    ensures var (after, pair) := Issue(cfg, store, subject, tenantId, extra, d);
            var (_, r) := Rotate(cfg, after, pair.refreshToken, validatedAt, checkedAt, e);
            var named := NamedId(extra, d.refreshId);
            && (r.Ok? <==>
                && Admissible(cfg, extra, d, Truncate(validatedAt))
                && named.Some? && Rotatable(after, named.value, checkedAt))
            && Rotatable(after, d.refreshId, checkedAt) == (checkedAt < d.refreshNow + cfg.refreshTtl)
  {
    RefreshHalfChecked(cfg, store, subject, tenantId, extra, d, validatedAt, checkedAt);
  }

  lemma AccessHalfNever(cfg: Config, store: Store, subject: string, tenantId: Option<string>, extra: Claims,
                        d: Draw, validatedAt: real, checkedAt: real, e: Draw)
    requires Faithful(cfg.settings.codec)
    ensures var (after, pair) := Issue(cfg, store, subject, tenantId, extra, d);
            Rotate(cfg, after, pair.accessToken, validatedAt, checkedAt, e) == (after, Err(WrongType))
            <==> Get(extra, "typ") != Some(TextClaim("refresh"))
  {
    AccessTokenIsNoRefresh(cfg, subject, tenantId, extra, d, Truncate(validatedAt));
  }

  lemma RefreshHalfChecked(cfg: Config, store: Store, subject: string, tenantId: Option<string>, extra: Claims,
                           d: Draw, validatedAt: real, checkedAt: real)
    requires Faithful(cfg.settings.codec)
    ensures var (after, token) := (Recorded(cfg, store, subject, tenantId, d),
                                   Pair(cfg, subject, tenantId, extra, d).refreshToken);
            var named := NamedId(extra, d.refreshId);
            Check(cfg, after, token, validatedAt, checkedAt).Rotated? <==>
            && Admissible(cfg, extra, d, Truncate(validatedAt))
            && named.Some? && Rotatable(after, named.value, checkedAt)
  {
    var token, now := Pair(cfg, subject, tenantId, extra, d).refreshToken, Truncate(validatedAt);
    if NamedId(extra, d.refreshId).Some? {
      TokenNamesExactly(cfg, subject, tenantId, extra, d, now, NamedId(extra, d.refreshId).value);
    }
    if RefreshId(cfg, token, now).Ok? {
      TokenNamesExactly(cfg, subject, tenantId, extra, d, now, RefreshId(cfg, token, now).value);
    }
  }

  // ---- Whole runs ----

  datatype Event =
    | Issuing(subject: string, tenantId: Option<string>, extra: Claims, draw: Draw)
    | Rotating(token: string, validatedAt: real, checkedAt: real, draw: Draw)
    | Revoking(token: string, now: real)

  /** A run of the manager, the last event outermost; anyone may present any text as a token. */
  datatype History = Start | Then(before: History, event: Event)

  function After(cfg: Config, h: History): Store {
    match h
    case Start => map[]
    case Then(before, event) =>
      var store := After(cfg, before);
      match event
      case Issuing(subject, tenantId, extra, d) => Recorded(cfg, store, subject, tenantId, d)
      case Rotating(token, validatedAt, checkedAt, d) =>
        Leaves(cfg, store, Check(cfg, store, token, validatedAt, checkedAt), d)
      case Revoking(token, now) => Revoke(cfg, store, token, now).0
  }

  /** Ids are fresh: no record is ever written over another. */
  predicate FreshIds(cfg: Config, h: History) {
    h.Then? ==>
      && FreshIds(cfg, h.before)
      && (!h.event.Revoking? ==> h.event.draw.refreshId !in After(cfg, h.before))
  }

  /** `After` is what the operations leave, one after another. */
  lemma AfterIsOperations(cfg: Config, h: History)
    requires h.Then?
    ensures var store := After(cfg, h.before);
            match h.event
            case Issuing(subject, tenantId, extra, d) =>
              After(cfg, h) == Issue(cfg, store, subject, tenantId, extra, d).0
            case Rotating(token, validatedAt, checkedAt, d) =>
              && After(cfg, h) == Rotate(cfg, store, token, validatedAt, checkedAt, d).0
              && (Rotates(cfg, h) <==> Rotate(cfg, store, token, validatedAt, checkedAt, d).1.Ok?)
            case Revoking(token, now) => After(cfg, h) == Revoke(cfg, store, token, now).0
  {
  }

  /** How the rotation that the last event attempts ends. */
  function LastVerdict(cfg: Config, h: History): Verdict
    requires h.Then? && h.event.Rotating?
  {
    Check(cfg, After(cfg, h.before), h.event.token, h.event.validatedAt, h.event.checkedAt)
  }

  /** The last event rotates a token with success. */
  predicate Rotates(cfg: Config, h: History) { h.Then? && h.event.Rotating? && LastVerdict(cfg, h).Rotated? }

  /** The id of the record that the last event, a successful rotation, uses up. */
  function RotatedId(cfg: Config, h: History): string
    requires Rotates(cfg, h)
  {
    LastVerdict(cfg, h).jti
  }

  /** How often `token` was rotated with success. */
  function Rotations(cfg: Config, h: History, token: string): nat {
    if h.Start? then 0
    else Rotations(cfg, h.before, token) + if Rotates(cfg, h) && h.event.token == token then 1 else 0
  }

  /** How often record `jti` was used up by a successful rotation, of whatever text. */
  function UsedUp(cfg: Config, h: History, jti: string): nat {
    if h.Start? then 0
    else UsedUp(cfg, h.before, jti) + if Rotates(cfg, h) && RotatedId(cfg, h) == jti then 1 else 0
  }

  /** Run `h` goes on from run `past`. */
  predicate Extends(h: History, past: History) {
    h == past || (h.Then? && Extends(h.before, past))
  }

  /** The id a text carries does not depend on the moment at which it is validated. */
  lemma IdIsTimeless(cfg: Config, token: string, now: int, later: int)
    requires RefreshId(cfg, token, now).Ok? && RefreshId(cfg, token, later).Ok?
    ensures RefreshId(cfg, token, now) == RefreshId(cfg, token, later)
  {
  }

  lemma StepKeepsRevoked(cfg: Config, h: History, jti: string)
    requires FreshIds(cfg, h) && h.Then?
    requires jti in After(cfg, h.before) && After(cfg, h.before)[jti].revoked
    ensures jti in After(cfg, h) && After(cfg, h)[jti].revoked
  {
  }

  /** Once revoked, a record stays revoked in every continuation of the run. */
  lemma {:induction false} RevokedForever(cfg: Config, past: History, h: History, jti: string)
    requires FreshIds(cfg, h) && Extends(h, past)
    requires jti in After(cfg, past) && After(cfg, past)[jti].revoked
    ensures jti in After(cfg, h) && After(cfg, h)[jti].revoked
  {
    if h != past {
      RevokedForever(cfg, past, h.before, jti);
      StepKeepsRevoked(cfg, h, jti);
    }
  }

  /** The record a successful rotation uses up is revoked right after it. */
  lemma RotationRevokes(cfg: Config, h: History)
    requires FreshIds(cfg, h) && Rotates(cfg, h)
    ensures var jti := RotatedId(cfg, h);
            && jti in After(cfg, h.before) && !After(cfg, h.before)[jti].revoked
            && jti in After(cfg, h) && After(cfg, h)[jti].revoked
  {
  }

  lemma {:induction false} UsedUpIsRevoked(cfg: Config, h: History, jti: string)
    requires FreshIds(cfg, h) && UsedUp(cfg, h, jti) > 0
    ensures jti in After(cfg, h) && After(cfg, h)[jti].revoked
  {
    if Rotates(cfg, h) && RotatedId(cfg, h) == jti {
      RotationRevokes(cfg, h);
    } else {
      UsedUpIsRevoked(cfg, h.before, jti);
      StepKeepsRevoked(cfg, h, jti);
    }
  }

  /** In every run, whatever texts are presented, no record is used up by two successful rotations. */
  lemma {:induction false} RecordRotatesAtMostOnce(cfg: Config, h: History, jti: string)
    requires FreshIds(cfg, h)
    ensures UsedUp(cfg, h, jti) <= 1
  {
    if h.Then? {
      RecordRotatesAtMostOnce(cfg, h.before, jti);
      if Rotates(cfg, h) && RotatedId(cfg, h) == jti && UsedUp(cfg, h.before, jti) > 0 {
        UsedUpIsRevoked(cfg, h.before, jti);
        RotationRevokes(cfg, h);
        assert false;
      }
    }
  }

  /** Every successful rotation of a text uses up the one record it names. */
  lemma {:induction false} RotationsUseUp(cfg: Config, h: History, token: string, now: int)
    requires RefreshId(cfg, token, now).Ok?
    ensures Rotations(cfg, h, token) <= UsedUp(cfg, h, RefreshId(cfg, token, now).value)
  {
    if h.Then? {
      RotationsUseUp(cfg, h.before, token, now);
      if Rotates(cfg, h) && h.event.token == token {
        IdIsTimeless(cfg, token, now, Truncate(h.event.validatedAt));
      }
    }
  }

  /** In every run, whatever texts are presented, no token is rotated with success twice. */
  lemma {:induction false} RotatesAtMostOnce(cfg: Config, h: History, token: string)
    requires FreshIds(cfg, h)
    ensures Rotations(cfg, h, token) <= 1
  {
    if h.Then? {
      if Rotates(cfg, h) && h.event.token == token {
        RotationsUseUp(cfg, h, token, Truncate(h.event.validatedAt));
        RecordRotatesAtMostOnce(cfg, h, RotatedId(cfg, h));
      } else {
        RotatesAtMostOnce(cfg, h.before, token);
      }
    }
  }

  /** After a token was revoked with success, it is never rotated again. */
  lemma RevokedNeverRotates(cfg: Config, past: History, h: History)
    requires FreshIds(cfg, h) && past.Then? && past.event.Revoking? && h.Then? && Extends(h.before, past)
    requires var id := RefreshId(cfg, past.event.token, Truncate(past.event.now));
             id.Ok? && id.value in After(cfg, past.before)
    ensures Rotates(cfg, h) ==> h.event.token != past.event.token
  {
    var jti := RefreshId(cfg, past.event.token, Truncate(past.event.now)).value;
    RevokedForever(cfg, past, h.before, jti);
    if Rotates(cfg, h) && h.event.token == past.event.token {
      RotationRevokes(cfg, h);
      IdIsTimeless(cfg, h.event.token, Truncate(past.event.now), Truncate(h.event.validatedAt));
      assert false;
    }
  }

  // ---- Chains ----

  /** The id of the first record of the chain that record `jti` belongs to. */
  function Root(cfg: Config, h: History, jti: string): string {
    if h.Start? then jti
    else if Rotates(cfg, h) && h.event.draw.refreshId == jti then Root(cfg, h.before, RotatedId(cfg, h))
    else Root(cfg, h.before, jti)
  }

  /** Ids that are not recorded are the root of nothing but themselves. */
  lemma {:induction false} UnknownRoots(cfg: Config, h: History, jti: string, other: string)
    requires FreshIds(cfg, h) && jti !in After(cfg, h)
    ensures Root(cfg, h, jti) == jti
    ensures other in After(cfg, h) ==> Root(cfg, h, other) != jti
  {
    if h.Then? {
      UnknownRoots(cfg, h.before, jti, other);
      if Rotates(cfg, h) {
        RotationRevokes(cfg, h);
        UnknownRoots(cfg, h.before, jti, RotatedId(cfg, h));
      }
      if h.event.Issuing? && other == h.event.draw.refreshId {
        UnknownRoots(cfg, h.before, other, other);
      }
    }
  }

  predicate Usable(cfg: Config, h: History, jti: string) {
    jti in After(cfg, h) && !After(cfg, h)[jti].revoked
  }

  /** Each chain started by one issued pair has at most one unrevoked record at any time. */
  lemma {:induction false} OneUsablePerChain(cfg: Config, h: History, a: string, b: string)
    requires FreshIds(cfg, h) && Usable(cfg, h, a) && Usable(cfg, h, b)
    requires Root(cfg, h, a) == Root(cfg, h, b)
    ensures a == b
  {
    if h.Then? && a != b {
      if Rotates(cfg, h) {
        var (used, next) := (RotatedId(cfg, h), h.event.draw.refreshId);
        RotationRevokes(cfg, h);
        var x, y := if a == next then used else a, if b == next then used else b;
        assert Usable(cfg, h.before, x) && Usable(cfg, h.before, y);
        OneUsablePerChain(cfg, h.before, x, y);
      } else if h.event.Issuing? && (a == h.event.draw.refreshId || b == h.event.draw.refreshId) {
        UnknownRoots(cfg, h.before, h.event.draw.refreshId, if a == h.event.draw.refreshId then b else a);
        assert false;
      } else {
        OneUsablePerChain(cfg, h.before, a, b);
      }
    }
  }

  // ---- What the tokens of a pair say, and what each operation leaves in the store ----

  /** A claim is the caller's, if there is one of that name, and otherwise `own`. */
  predicate Says(claims: Claims, extra: Claims, name: string, own: Option<Claim>) {
    Get(claims, name) == if name in extra then Some(extra[name]) else own
  }

  function TextOf(value: Option<string>): Option<Claim> {
    match value
    case None => None
    case Some(text) => Some(TextClaim(text))
  }

  /** Every claim of a token, by name. */
  ghost predicate SaysExactly(cfg: Config, claims: Claims, extra: Claims, t: TokenType, subject: string,
                              tenantId: Option<string>, jti: string, now: real, ttl: real) {
    && Says(claims, extra, "sub", Some(TextClaim(subject)))
    && Says(claims, extra, "typ", Some(TextClaim(if t == Access then "access" else "refresh")))
    && Says(claims, extra, "jti", Some(TextClaim(jti)))
    && Says(claims, extra, "iat", Some(NumberClaim(Truncate(now))))
    && Says(claims, extra, "exp", Some(NumberClaim(Truncate(now + ttl))))
    && Says(claims, extra, "tenant_id", TextOf(tenantId))
    && Says(claims, extra, "iss", TextOf(cfg.settings.issuer))
    && Says(claims, extra, "aud", TextOf(cfg.settings.audience))
    && forall name :: name !in RESERVED ==> Says(claims, extra, name, None)
  }

  lemma BaseSays(cfg: Config, t: TokenType, subject: string, tenantId: Option<string>, jti: string, now: real)
    ensures SaysExactly(cfg, BaseClaims(cfg, t, subject, tenantId, jti, now), map[], t, subject, tenantId, jti, now,
                        if t == Access then cfg.accessTtl else cfg.refreshTtl)
  {
    BaseAlways(cfg, t, subject, tenantId, jti, now);
    BaseHasNoOther(cfg, t, subject, tenantId, jti, now);
  }

  lemma BaseAlways(cfg: Config, t: TokenType, subject: string, tenantId: Option<string>, jti: string, now: real)
    ensures var base, ttl := BaseClaims(cfg, t, subject, tenantId, jti, now),
                             if t == Access then cfg.accessTtl else cfg.refreshTtl;
            && Says(base, map[], "sub", Some(TextClaim(subject)))
            && Says(base, map[], "typ", Some(TextClaim(if t == Access then "access" else "refresh")))
            && Says(base, map[], "jti", Some(TextClaim(jti)))
            && Says(base, map[], "iat", Some(NumberClaim(Truncate(now))))
            && Says(base, map[], "exp", Some(NumberClaim(Truncate(now + ttl))))
  {
  }

  lemma BaseHasNoOther(cfg: Config, t: TokenType, subject: string, tenantId: Option<string>, jti: string, now: real)
    ensures var base := BaseClaims(cfg, t, subject, tenantId, jti, now);
            forall name :: name !in RESERVED ==> Says(base, map[], name, None)
  {
  }

  lemma OverlaySays(base: Claims, extra: Claims, name: string, own: Option<Claim>)
    requires Says(base, map[], name, own)
    ensures Says(base + extra, extra, name, own)
  {
  }

  lemma TokenSays(cfg: Config, t: TokenType, subject: string, tenantId: Option<string>, jti: string, now: real,
                  extra: Claims) returns (claims: Claims)
    requires Faithful(cfg.settings.codec)
    ensures ClaimsOf(cfg.settings.codec, Token(cfg, t, subject, tenantId, jti, now, extra)) == Ok(claims)
    ensures SaysExactly(cfg, claims, extra, t, subject, tenantId, jti, now,
                        if t == Access then cfg.accessTtl else cfg.refreshTtl)
  {
    var base := BaseClaims(cfg, t, subject, tenantId, jti, now);
    claims := base + extra;
    TokenClaims(cfg, t, subject, tenantId, jti, now, extra);
    BaseSays(cfg, t, subject, tenantId, jti, now);
    forall name, own | Says(base, map[], name, own) ensures Says(base + extra, extra, name, own) {
      OverlaySays(base, extra, name, own);
    }
  }

  /** What the tokens of an issued pair say, and the record that is kept of the refresh token. */
  lemma IssuedPairSays(cfg: Config, store: Store, subject: string, tenantId: Option<string>, extra: Claims, d: Draw)
    returns (access: Claims, refresh: Claims)
    requires Faithful(cfg.settings.codec)
    ensures var pair := Issue(cfg, store, subject, tenantId, extra, d).1;
            && ClaimsOf(cfg.settings.codec, pair.accessToken) == Ok(access)
            && ClaimsOf(cfg.settings.codec, pair.refreshToken) == Ok(refresh)
    ensures SaysExactly(cfg, access, extra, Access, subject, tenantId, d.accessId, d.accessNow, cfg.accessTtl)
    ensures SaysExactly(cfg, refresh, extra, Refresh, subject, tenantId, d.refreshId, d.refreshNow, cfg.refreshTtl)
    ensures var after := Issue(cfg, store, subject, tenantId, extra, d).0;
            && after.Keys == store.Keys + {d.refreshId}
            && after[d.refreshId] == Record(subject, tenantId, d.refreshNow + cfg.refreshTtl, false)
            && forall jti :: jti in store && jti != d.refreshId ==> after[jti] == store[jti]
  {
    access, refresh := PairSays(cfg, subject, tenantId, extra, d);
    RecordedExactly(cfg, store, subject, tenantId, d);
  }

  lemma RecordedExactly(cfg: Config, store: Store, subject: string, tenantId: Option<string>, d: Draw)
    ensures var after := Recorded(cfg, store, subject, tenantId, d);
            && after.Keys == store.Keys + {d.refreshId}
            && after[d.refreshId] == Record(subject, tenantId, d.refreshNow + cfg.refreshTtl, false)
            && forall jti :: jti in store && jti != d.refreshId ==> after[jti] == store[jti]
  {
  }

  lemma PairSays(cfg: Config, subject: string, tenantId: Option<string>, extra: Claims, d: Draw)
    returns (access: Claims, refresh: Claims)
    requires Faithful(cfg.settings.codec)
    ensures var pair := Pair(cfg, subject, tenantId, extra, d);
            && ClaimsOf(cfg.settings.codec, pair.accessToken) == Ok(access)
            && ClaimsOf(cfg.settings.codec, pair.refreshToken) == Ok(refresh)
    ensures SaysExactly(cfg, access, extra, Access, subject, tenantId, d.accessId, d.accessNow, cfg.accessTtl)
    ensures SaysExactly(cfg, refresh, extra, Refresh, subject, tenantId, d.refreshId, d.refreshNow, cfg.refreshTtl)
  {
    access := TokenSays(cfg, Access, subject, tenantId, d.accessId, d.accessNow, extra);
    refresh := TokenSays(cfg, Refresh, subject, tenantId, d.refreshId, d.refreshNow, extra);
  }

  /** All records but `jti` are as before. */
  predicate OthersKept(before: Store, after: Store, jti: string) {
    && (forall other :: other in before && other != jti ==> other in after && after[other] == before[other])
    && (forall other :: other in after && other != jti ==> other in before)
  }

  /** `after` differs from `before` in that record `jti` is revoked. */
  predicate RevokedOnly(before: Store, after: Store, jti: string) {
    && jti in before && jti in after && OthersKept(before, after, jti)
    && after[jti] == Record(before[jti].subject, before[jti].tenantId, before[jti].expiresAt, true)
  }

  /**
   * A rotation that succeeds carries subject and tenant of the used record over to both new tokens and
   * the new record, with no further claims, and revokes the used record.
   */
  lemma RotatedPairSays(cfg: Config, store: Store, token: string, validatedAt: real, checkedAt: real, d: Draw)
    returns (access: Claims, refresh: Claims, used: string, revoked: Store)
    requires Faithful(cfg.settings.codec) && Rotate(cfg, store, token, validatedAt, checkedAt, d).1.Ok?
    ensures RefreshId(cfg, token, Truncate(validatedAt)) == Ok(used) && RevokedOnly(store, revoked, used)
    ensures !store[used].revoked && checkedAt < store[used].expiresAt
    ensures var pair := Rotate(cfg, store, token, validatedAt, checkedAt, d).1.value;
            && ClaimsOf(cfg.settings.codec, pair.accessToken) == Ok(access)
            && ClaimsOf(cfg.settings.codec, pair.refreshToken) == Ok(refresh)
    ensures var owner := store[used];
            && SaysExactly(cfg, access, map[], Access, owner.subject, owner.tenantId, d.accessId, d.accessNow,
                           cfg.accessTtl)
            && SaysExactly(cfg, refresh, map[], Refresh, owner.subject, owner.tenantId, d.refreshId, d.refreshNow,
                           cfg.refreshTtl)
    ensures var after := Rotate(cfg, store, token, validatedAt, checkedAt, d).0;
            && OthersKept(revoked, after, d.refreshId)
            && d.refreshId in after
            && after[d.refreshId]
               == Record(store[used].subject, store[used].tenantId, d.refreshNow + cfg.refreshTtl, false)
  {
    used, revoked := RotationLeaves(cfg, store, token, validatedAt, checkedAt, d);
    access, refresh := PairSays(cfg, store[used].subject, store[used].tenantId, map[], d);
  }

  lemma RotationLeaves(cfg: Config, store: Store, token: string, validatedAt: real, checkedAt: real, d: Draw)
    returns (used: string, revoked: Store)
    requires Rotate(cfg, store, token, validatedAt, checkedAt, d).1.Ok?
    ensures RefreshId(cfg, token, Truncate(validatedAt)) == Ok(used) && RevokedOnly(store, revoked, used)
    ensures !store[used].revoked && checkedAt < store[used].expiresAt
    ensures var (after, pair) := Rotate(cfg, store, token, validatedAt, checkedAt, d);
            var owner := store[used];
            && pair == Ok(Pair(cfg, owner.subject, owner.tenantId, map[], d))
            && OthersKept(revoked, after, d.refreshId)
            && d.refreshId in after
            && after[d.refreshId] == Record(owner.subject, owner.tenantId, d.refreshNow + cfg.refreshTtl, false)
  {
    used := RefreshId(cfg, token, Truncate(validatedAt)).value;
    revoked := Revoked(store, used);
  }

  /** How a rotation fails, in order, and what it leaves: a record found expired is revoked. */
  lemma RotationRefusedExactly(cfg: Config, store: Store, token: string, validatedAt: real, checkedAt: real, d: Draw)
    ensures var (after, r) := Rotate(cfg, store, token, validatedAt, checkedAt, d);
            var id := RefreshId(cfg, token, Truncate(validatedAt));
            && (id.Err? ==> r == Err(id.error) && after == store)
            && (id.Ok? && (id.value !in store || store[id.value].revoked) ==> r == Err(Replayed) && after == store)
            && (id.Ok? && id.value in store && !store[id.value].revoked ==>
                 && (r.Err? <==> checkedAt >= store[id.value].expiresAt)
                 && (r.Err? ==> r == Err(Expired) && RevokedOnly(store, after, id.value)))
  {
  }

  /** Revoking revokes the record the token names and nothing else; any valid token is taken. */
  lemma RevokeExactly(cfg: Config, store: Store, token: string, now: real)
    ensures var (after, r) := Revoke(cfg, store, token, now);
            var id := RefreshId(cfg, token, Truncate(now));
            && (r.Ok? <==> id.Ok?)
            && (id.Err? ==> r == Err(id.error))
            && (id.Ok? && id.value in store ==> RevokedOnly(store, after, id.value))
            && (!(id.Ok? && id.value in store) ==> after == store)
  {
  }
}
