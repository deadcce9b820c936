/** Compact tokens: three base64url segments joined by dots (section 7.1 of RFC 7515). */
module CompactJwt {
  import opened Text
  import opened Base64Url

  datatype Claim = TextClaim(s: string) | NumberClaim(n: int) | OtherClaim

  type Claims = map<string, Claim>

  datatype TokenType = Access | Refresh

  datatype JwtError =
    | NotThreeSegments | BadSignature | BadPayload | WrongType | NoExpiry | Expired | WrongIssuer | WrongAudience
    | NoTokenId | Replayed

  /**
   * JSON and HMAC, which stay uninterpreted: `dumps` and `loads` for objects, the keyed digest of a
   * signing input, and the encoded header, which never varies.
   */
  datatype Codec = Codec(dumps: Claims -> seq<Byte>, loads: seq<Byte> -> Option<Claims>,
                         digest: string -> seq<Byte>, header: seq<Byte>)

  /** The one thing assumed of JSON: an object that was written is read back. */
  ghost predicate Faithful(codec: Codec) { forall c: Claims :: codec.loads(codec.dumps(c)) == Some(c) }

  datatype Settings = Settings(codec: Codec, issuer: Option<string>, audience: Option<string>)

  // ---- Segments ----

  /** `text.split(".")`. */
  function Split(s: string): (parts: seq<string>)
    ensures parts != []
  {
    if s == "" then [""]
    else
      var rest := Split(s[1..]);
      if s[0] == '.' then [""] + rest else [[s[0]] + rest[0]] + rest[1..]
  }

  function Join(a: string, b: string, c: string): string { a + ("." + (b + ("." + c))) }

  predicate NoDot(s: string) { forall i :: 0 <= i < |s| ==> s[i] != '.' }

  lemma {:induction false} SplitNoDot(s: string)
    requires NoDot(s)
    ensures Split(s) == [s]
  {
    if s != "" {
      SplitNoDot(s[1..]);
      assert s == [s[0]] + s[1..];
    }
  }

  lemma {:induction false} SplitAtDot(s: string, rest: string)
    requires NoDot(s)
    ensures Split(s + ("." + rest)) == [s] + Split(rest)
  {
    var whole := s + ("." + rest);
    if s == "" {
      assert whole == "." + rest && whole[1..] == rest;
    } else {
      assert whole[1..] == s[1..] + ("." + rest);
      SplitAtDot(s[1..], rest);
      assert ([s[1..]] + Split(rest))[1..] == Split(rest);
      assert s == [s[0]] + s[1..];
    }
  }

  /** Three segments without dots split back into just those three. */
  lemma SplitJoin(a: string, b: string, c: string)
    requires NoDot(a) && NoDot(b) && NoDot(c)
    ensures Split(Join(a, b, c)) == [a, b, c]
  {
    SplitAtDot(a, b + ("." + c));
    SplitAtDot(b, c);
    SplitNoDot(c);
  }

  /** The first segment of a text, and what follows its dot. */
  lemma {:induction false} SplitHead(s: string) returns (tail: string)
    ensures NoDot(Split(s)[0])
    ensures |Split(s)| == 1 ==> s == Split(s)[0]
    ensures |Split(s)| > 1 ==> s == Split(s)[0] + ("." + tail) && Split(tail) == Split(s)[1..]
  {
    if s == "" {
      tail := "";
    } else {
      var c, more, rest := s[0], s[1..], Split(s[1..]);
      assert s == [c] + more;
      if c == '.' {
        tail := more;
        assert s == "" + ("." + tail) && Split(s)[1..] == rest;
      } else {
        tail := SplitHead(more);
        assert Split(s)[0] == [c] + rest[0] && Split(s)[1..] == rest[1..];
        assert |rest| > 1 ==> [c] + (rest[0] + ("." + tail)) == [c] + rest[0] + ("." + tail);
      }
    }
  }

  /** A text that splits into three segments is three dot-free texts joined. */
  lemma ThreeSegments(s: string)
    requires |Split(s)| == 3
    ensures var parts := Split(s);
            s == Join(parts[0], parts[1], parts[2]) && NoDot(parts[0]) && NoDot(parts[1]) && NoDot(parts[2])
  {
    var parts := Split(s);
    var tail := SplitHead(s);
    assert parts[1..] == Split(tail);
    var last := SplitHead(tail);
    assert Split(tail)[1..] == Split(last);
    var none := SplitHead(last);
    assert parts[1] == Split(tail)[0] && parts[2] == Split(last)[0];
  }

  // ---- Tokens ----

  function Signature(codec: Codec, header: string, payload: string): string {
    UrlEncode(codec.digest(header + ("." + payload)))
  }

  /** `_encode_token`. */
  function EncodeToken(codec: Codec, claims: Claims): string {
    var header, payload := UrlEncode(codec.header), UrlEncode(codec.dumps(claims));
    Join(header, payload, Signature(codec, header, payload))
  }

  /** The claims of a text that has three segments, a matching signature and an object as payload. */
  function ClaimsOf(codec: Codec, token: string): Result<Claims, JwtError> {
    var parts := Split(token);
    if |parts| != 3 then Err(NotThreeSegments)
    else if Signature(codec, parts[0], parts[1]) != parts[2] then Err(BadSignature)
    else match UrlDecode(parts[1])
      case None => Err(BadPayload)
      case Some(raw) =>
        match codec.loads(raw)
        case None => Err(BadPayload)
        case Some(claims) => Ok(claims)
  }

  function TypeText(t: TokenType): string { if t == Access then "access" else "refresh" }

  function Get(claims: Claims, name: string): Option<Claim> {
    if name in claims then Some(claims[name]) else None
  }

  /** `expected is None`, or the claim has the expected text. */
  predicate Matches(claims: Claims, name: string, expected: Option<string>) {
    expected.None? || Get(claims, name) == Some(TextClaim(expected.value))
  }

  /** The checks on the claims themselves, in the order in which they are made; `now` is in whole seconds. */
  function Validate(st: Settings, claims: Claims, expected: Option<TokenType>, now: int): Result<Claims, JwtError> {
    if expected.Some? && Get(claims, "typ") != Some(TextClaim(TypeText(expected.value))) then Err(WrongType)
    else match Get(claims, "exp")
      case Some(NumberClaim(exp)) =>
        if exp <= now then Err(Expired)
        else if !Matches(claims, "iss", st.issuer) then Err(WrongIssuer)
        else if !Matches(claims, "aud", st.audience) then Err(WrongAudience)
        else Ok(claims)
      case _ => Err(NoExpiry)
  }

  /** `decode_and_validate`. */
  function DecodeAndValidate(st: Settings, token: string, expected: Option<TokenType>, now: int)
    : Result<Claims, JwtError> {
    var claims :- ClaimsOf(st.codec, token);
    Validate(st, claims, expected, now)
  }

  lemma EncodedHasNoDot(bytes: seq<Byte>)
    ensures NoDot(UrlEncode(bytes))
  {
    PadRestores(bytes);
  }

  /** Decoding an encoded token yields its own claims. */
  lemma TokenRoundTrip(codec: Codec, claims: Claims)
    requires Faithful(codec)
    ensures ClaimsOf(codec, EncodeToken(codec, claims)) == Ok(claims)
  {
    var header, payload := UrlEncode(codec.header), UrlEncode(codec.dumps(claims));
    EncodedHasNoDot(codec.header);
    EncodedHasNoDot(codec.dumps(claims));
    EncodedHasNoDot(codec.digest(header + ("." + payload)));
    SplitJoin(header, payload, Signature(codec, header, payload));
    UrlRoundTrip(codec.dumps(claims));
  }

  /** An encoded token passes validation, with its own claims, exactly when the claims meet every check. */
  lemma TokenAcceptedExactly(st: Settings, claims: Claims, expected: Option<TokenType>, now: int)
    requires Faithful(st.codec)
    ensures DecodeAndValidate(st, EncodeToken(st.codec, claims), expected, now) == Ok(claims) <==>
            && (expected.Some? ==> Get(claims, "typ") == Some(TextClaim(TypeText(expected.value))))
            && "exp" in claims && claims["exp"].NumberClaim? && claims["exp"].n > now
            && Matches(claims, "iss", st.issuer)
            && Matches(claims, "aud", st.audience)
  {
    TokenRoundTrip(st.codec, claims);
  }

  /** Whatever text is accepted is three joined segments of which the last signs the first two. */
  lemma AcceptedIsSigned(st: Settings, token: string, expected: Option<TokenType>, now: int)
    returns (header: string, payload: string)
    requires DecodeAndValidate(st, token, expected, now).Ok?
    ensures token == Join(header, payload, Signature(st.codec, header, payload)) && NoDot(header) && NoDot(payload)
  {
    ThreeSegments(token);
    header, payload := Split(token)[0], Split(token)[1];
  }

  // ---- Tampering, and the order of the checks ----

  /** The keyed digest tells signing inputs apart. */
  ghost predicate Distinguishes(codec: Codec) { forall a, b :: codec.digest(a) == codec.digest(b) ==> a == b }

  lemma DotSplits(a: string, b: string, c: string, d: string)
    requires NoDot(a) && NoDot(c) && a + ("." + b) == c + ("." + d)
    ensures a == c && b == d
  {
    SplitAtDot(a, b);
    SplitAtDot(c, d);
    assert ([a] + Split(b))[0] == ([c] + Split(d))[0];
    assert (a + ("." + b))[|a| + 1..] == b && (c + ("." + d))[|c| + 1..] == d;
  }

  /** Of two accepted texts with the same last segment, neither differs from the other in header or payload. */
  lemma TamperEvident(st: Settings, token: string, other: string, expected: Option<TokenType>, now: int)
    requires Distinguishes(st.codec)
    requires DecodeAndValidate(st, token, expected, now).Ok? && DecodeAndValidate(st, other, expected, now).Ok?
    requires Split(token)[2] == Split(other)[2]
    ensures token == other
  {
    var header, payload := AcceptedIsSigned(st, token, expected, now);
    var header', payload' := AcceptedIsSigned(st, other, expected, now);
    SignedLast(st.codec, token, header, payload);
    SignedLast(st.codec, other, header', payload');
    SignatureDistinguishes(st.codec, header, payload, header', payload');
  }

  lemma SignatureDistinguishes(codec: Codec, header: string, payload: string, header': string, payload': string)
    requires Distinguishes(codec) && NoDot(header) && NoDot(header')
    requires Signature(codec, header, payload) == Signature(codec, header', payload')
    ensures header == header' && payload == payload'
  {
    UrlRoundTrip(codec.digest(header + ("." + payload)));
    UrlRoundTrip(codec.digest(header' + ("." + payload')));
    DotSplits(header, payload, header', payload');
  }

  lemma SignedLast(codec: Codec, token: string, header: string, payload: string)
    requires token == Join(header, payload, Signature(codec, header, payload)) && NoDot(header) && NoDot(payload)
    ensures Split(token) == [header, payload, Signature(codec, header, payload)]
  {
    EncodedHasNoDot(codec.digest(header + ("." + payload)));
    SplitJoin(header, payload, Signature(codec, header, payload));
  }

  /**
   * Any text is refused unless it is three segments without dots, the last signs the first two, and
   * the second is the base64url form of an object; what is left are the checks on its claims.
   */
  lemma TextRefusedExactly(st: Settings, token: string, expected: Option<TokenType>, now: int)
    ensures var r := DecodeAndValidate(st, token, expected, now);
            && (r == Err(NotThreeSegments) <==>
                forall a, b, c :: NoDot(a) && NoDot(b) && NoDot(c) ==> token != Join(a, b, c))
            && forall a, b, c :: NoDot(a) && NoDot(b) && NoDot(c) && token == Join(a, b, c) ==>
                 var signed := c == UrlEncode(st.codec.digest(a + ("." + b)));
                 var readable := UrlDecode(b).Some? && st.codec.loads(UrlDecode(b).value).Some?;
                 && (r == Err(BadSignature) <==> !signed)
                 && (r == Err(BadPayload) <==> signed && !readable)
                 && (r.Ok? ==> signed && readable && st.codec.loads(UrlDecode(b).value) == Some(r.value))
  {
    forall a, b, c | NoDot(a) && NoDot(b) && NoDot(c) && token == Join(a, b, c) ensures Split(token) == [a, b, c] {
      SplitJoin(a, b, c);
    }
    if |Split(token)| == 3 {
      ThreeSegments(token);
    }
  }

  /**
   * How an encoded token is refused: by the first of type, presence of an expiry, expiry, issuer and
   * audience that does not hold. An expiry at this very second is over.
   */
  lemma TokenRefusedExactly(st: Settings, claims: Claims, expected: Option<TokenType>, now: int)
    requires Faithful(st.codec)
    ensures var r := DecodeAndValidate(st, EncodeToken(st.codec, claims), expected, now);
            var name := if expected == Some(Access) then "access" else "refresh";
            var typed := expected.None? || Get(claims, "typ") == Some(TextClaim(name));
            var dated := "exp" in claims && claims["exp"].NumberClaim?;
            var inTime := typed && dated && now < claims["exp"].n;
            var issued := st.issuer.None? || Get(claims, "iss") == Some(TextClaim(st.issuer.value));
            var addressed := st.audience.None? || Get(claims, "aud") == Some(TextClaim(st.audience.value));
            && (r == Err(WrongType) <==> !typed)
            && (r == Err(NoExpiry) <==> typed && !dated)
            && (r == Err(Expired) <==> typed && dated && !inTime)
            && (r == Err(WrongIssuer) <==> inTime && !issued)
            && (r == Err(WrongAudience) <==> inTime && issued && !addressed)
            && (r == Ok(claims) <==> inTime && issued && addressed)
  {
    TokenRoundTrip(st.codec, claims);
  }
}
