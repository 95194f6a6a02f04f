/** The authorization-code flow with PKCE of client/services/spotify.ts:
    the code verifier, its S256 challenge, the authorize request, and the
    token bundles built from the token endpoint's responses. */
module SpotifyAuth {
  import opened Wrappers
  import opened JsValues
  import opened TokenBundles

  newtype byte = x: int | 0 <= x < 256

  // ---------------------------------------------------------------------
  // The code verifier: 32 random bytes written in hexadecimal.
  // ---------------------------------------------------------------------

  predicate IsHexDigit(c: char) {
    ('0' <= c <= '9') || ('a' <= c <= 'f')
  }

  /** The lower-case digit of `Number.prototype.toString(16)`. */
  function HexDigit(d: int): (c: char)
    requires 0 <= d < 16
    ensures IsHexDigit(c)
  {
    if d < 10 then ('0' as int + d) as char else ('a' as int + d - 10) as char
  }

  /** `b.toString(16)`: one digit below 16, two from 16 on. */
  function ByteToHex(b: byte): (r: string)
    ensures |r| == (if b < 16 then 1 else 2)
    ensures forall c :: c in r ==> IsHexDigit(c)
  {
    if b < 16 then [HexDigit(b as int)] else [HexDigit(b as int / 16), HexDigit(b as int % 16)]
  }

  /** The verifier as the code builds it, `bytes.map(b => b.toString(16)).join('')`:
      hexadecimal digits only, between one and two per byte. */
  function VerifierAsWritten(bytes: seq<byte>): (r: string)
    ensures |bytes| <= |r| <= 2 * |bytes|
    ensures forall c :: c in r ==> IsHexDigit(c)
  {
    if bytes == [] then ""
    else VerifierAsWritten(bytes[..|bytes| - 1]) + ByteToHex(bytes[|bytes| - 1])
  }

  /** Each byte of 16 or more adds a second digit. */
  function CountAtLeast16(bytes: seq<byte>): (n: nat)
    ensures n <= |bytes|
  {
    if bytes == [] then 0
    else CountAtLeast16(bytes[..|bytes| - 1]) + (if bytes[|bytes| - 1] >= 16 then 1 else 0)
  }

  lemma {:induction false} VerifierAsWrittenLength(bytes: seq<byte>)
    ensures |VerifierAsWritten(bytes)| == |bytes| + CountAtLeast16(bytes)
  {
    if bytes != [] {
      VerifierAsWrittenLength(bytes[..|bytes| - 1]);
    }
  }

  /** `unreserved` characters of section 4.1 of RFC 7636. */
  predicate IsUnreserved(c: char) {
    ('A' <= c <= 'Z') || ('a' <= c <= 'z') || ('0' <= c <= '9') || c == '-' || c == '.' || c == '_' || c == '~'
  }

  /** `code-verifier = 43*128unreserved`, section 4.1 of RFC 7636. */
  predicate IsCodeVerifier(s: string) {
    43 <= |s| <= 128 && forall c :: c in s ==> IsUnreserved(c)
  }

  /** When at most ten of the 32 bytes are 16 or more, the verifier as
      written is shorter than RFC 7636 allows. */
  lemma VerifierAsWrittenTooShort(bytes: seq<byte>)
    requires |bytes| == 32 && CountAtLeast16(bytes) <= 10
    ensures |VerifierAsWritten(bytes)| < 43
    ensures !IsCodeVerifier(VerifierAsWritten(bytes))
  {
    VerifierAsWrittenLength(bytes);
  }

  /** Thirty-two zero bytes give a verifier of 32 characters. */
  lemma VerifierAsWrittenZeroBytes(bytes: seq<byte>)
    requires bytes == seq(32, _ => 0 as byte)
    ensures |VerifierAsWritten(bytes)| == 32
  {
    ZeroBytesCount(bytes);
    VerifierAsWrittenLength(bytes);
  }

  lemma {:induction false} ZeroBytesCount(bytes: seq<byte>)
    requires forall k :: 0 <= k < |bytes| ==> bytes[k] < 16
    ensures CountAtLeast16(bytes) == 0
  {
    if bytes != [] {
      ZeroBytesCount(bytes[..|bytes| - 1]);
    }
  }

  /** Without padding two different byte strings can give the same
      verifier: the digits do not say where a byte ends. */
  lemma VerifierAsWrittenAmbiguous(a: seq<byte>, b: seq<byte>)
    requires a == [1, 35] && b == [18, 3]
    ensures a != b && VerifierAsWritten(a) == VerifierAsWritten(b)
  {
    assert a[..1] == [1] && b[..1] == [18];
    assert VerifierAsWritten(a) == "123";
    assert VerifierAsWritten(b) == "123";
  }

  /** Two digits per byte, as `b.toString(16).padStart(2, '0')`. */
  function ByteToHexPadded(b: byte): (r: string)
    ensures |r| == 2 && IsHexDigit(r[0]) && IsHexDigit(r[1])
  {
    [HexDigit(b as int / 16), HexDigit(b as int % 16)]
  }

  /** The verifier with every byte written as two digits. */
  function Verifier(bytes: seq<byte>): (r: string)
    ensures |r| == 2 * |bytes|
    ensures forall c :: c in r ==> IsHexDigit(c)
  {
    if bytes == [] then ""
    else Verifier(bytes[..|bytes| - 1]) + ByteToHexPadded(bytes[|bytes| - 1])
  }

  /** Thirty-two random bytes always give a verifier RFC 7636 accepts. */
  lemma VerifierIsCodeVerifier(bytes: seq<byte>)
    requires |bytes| == 32
    ensures IsCodeVerifier(Verifier(bytes))
  {}

  /** The value of a digit; a digit's value is its place in the
      alphabet. */
  function HexValue(c: char): (d: int)
    requires IsHexDigit(c)
    ensures 0 <= d < 16 && HexDigit(d) == c
  {
    if c <= '9' then c as int - '0' as int else c as int - 'a' as int + 10
  }

  lemma HexValueOfDigit(d: int)
    requires 0 <= d < 16
    ensures HexValue(HexDigit(d)) == d
  {}

  /** Reads two digits per byte back. */
  function DecodeHex(s: string): seq<byte>
    requires |s| % 2 == 0 && forall c :: c in s ==> IsHexDigit(c)
  {
    if s == [] then []
    else
      var n := |s| - 2;
      assert s[n] in s && s[n + 1] in s;
      DecodeHex(s[..n]) + [(HexValue(s[n]) * 16 + HexValue(s[n + 1])) as byte]
  }

  /** The padded verifier loses nothing: the bytes can be read back. */
  lemma {:induction false} VerifierRoundTrip(bytes: seq<byte>)
    ensures DecodeHex(Verifier(bytes)) == bytes
  {
    if bytes != [] {
      var init, last := bytes[..|bytes| - 1], bytes[|bytes| - 1];
      var s := Verifier(bytes);
      assert s[..|s| - 2] == Verifier(init);
      VerifierRoundTrip(init);
      assert s[|s| - 2] == HexDigit(last as int / 16) && s[|s| - 1] == HexDigit(last as int % 16);
      HexValueOfDigit(last as int / 16);
      HexValueOfDigit(last as int % 16);
    }
  }

  // ---------------------------------------------------------------------
  // Base64 (RFC 4648) and the challenge fix-up.
  // ---------------------------------------------------------------------

  /** The character for a 6-bit value: table 1 in section 4 of RFC 4648,
      or, URL-safe, table 2 in section 5, which differs for 62 and 63. */
  function Base64Char(x: int, urlSafe: bool): (c: char)
    requires 0 <= x < 64
    ensures c != '='
  {
    if x < 26 then ('A' as int + x) as char
    else if x < 52 then ('a' as int + x - 26) as char
    else if x < 62 then ('0' as int + x - 52) as char
    else if x == 62 then (if urlSafe then '-' else '+')
    else (if urlSafe then '_' else '/')
  }

  /** The 6-bit groups of `bytes`, the last one filled up with zero bits. */
  function Sextets(bytes: seq<byte>): (r: seq<int>)
    ensures |r| == (4 * |bytes| + 2) / 3
    ensures forall k :: 0 <= k < |r| ==> 0 <= r[k] < 64
    decreases |bytes|
  {
    if |bytes| == 0 then []
    else
      var b0 := bytes[0] as int;
      if |bytes| == 1 then [b0 / 4, (b0 % 4) * 16]
      else
        var b1 := bytes[1] as int;
        if |bytes| == 2 then [b0 / 4, (b0 % 4) * 16 + b1 / 16, (b1 % 16) * 4]
        else
          var b2 := bytes[2] as int;
          [b0 / 4, (b0 % 4) * 16 + b1 / 16, (b1 % 16) * 4 + b2 / 64, b2 % 64] + Sextets(bytes[3..])
  }

  function Spell(xs: seq<int>, urlSafe: bool): (r: string)
    requires forall k :: 0 <= k < |xs| ==> 0 <= xs[k] < 64
    ensures |r| == |xs|
  {
    seq(|xs|, k requires 0 <= k < |xs| => Base64Char(xs[k], urlSafe))
  }

  /** Base64 with padding, section 4 of RFC 4648: what `btoa` returns for
      the bytes as a binary string. */
  function Base64(bytes: seq<byte>): string {
    Spell(Sextets(bytes), false) + (if |bytes| % 3 == 1 then "==" else if |bytes| % 3 == 2 then "=" else "")
  }

  /** Base64url without padding, sections 5 and 3.2 of RFC 4648, as
      section 4.2 of RFC 7636 requires for the challenge. */
  function Base64Url(bytes: seq<byte>): string {
    Spell(Sextets(bytes), true)
  }

  /** `replaceAll(from, to)` for a one-character pattern. */
  function ReplaceAll(s: string, from: char, to: string): (r: string)
    ensures from !in to ==> from !in r
  {
    if s == [] then []
    else (if s[0] == from then to else [s[0]]) + ReplaceAll(s[1..], from, to)
  }

  lemma {:induction false} ReplaceAllConcat(a: string, b: string, from: char, to: string)
    ensures ReplaceAll(a + b, from, to) == ReplaceAll(a, from, to) + ReplaceAll(b, from, to)
  {
    if a == [] {
      assert a + b == b;
    } else {
      assert (a + b)[0] == a[0];
      assert (a + b)[1..] == a[1..] + b;
      ReplaceAllConcat(a[1..], b, from, to);
    }
  }

  lemma {:induction false} ReplaceAllKeepsAbsent(s: string, from: char, to: string, c: char)
    requires c !in s && c !in to
    ensures c !in ReplaceAll(s, from, to)
  {
    if s != [] {
      assert s[0] != c && c !in s[1..];
      ReplaceAllKeepsAbsent(s[1..], from, to, c);
    }
  }

  /** The fix-up of lines 17-19: drop `=`, then `+` to `-`, then `/` to `_`. */
  function Fixup(s: string): (r: string)
    ensures '=' !in r && '+' !in r && '/' !in r
  {
    var s1 := ReplaceAll(s, '=', "");
    var s2 := ReplaceAll(s1, '+', "-");
    ReplaceAllKeepsAbsent(s1, '+', "-", '=');
    ReplaceAllKeepsAbsent(s2, '/', "_", '=');
    ReplaceAllKeepsAbsent(s2, '/', "_", '+');
    ReplaceAll(ReplaceAll(ReplaceAll(s, '=', ""), '+', "-"), '/', "_")
  }

  lemma FixupConcat(a: string, b: string)
    ensures Fixup(a + b) == Fixup(a) + Fixup(b)
  {
    ReplaceAllConcat(a, b, '=', "");
    ReplaceAllConcat(ReplaceAll(a, '=', ""), ReplaceAll(b, '=', ""), '+', "-");
    ReplaceAllConcat(ReplaceAll(ReplaceAll(a, '=', ""), '+', "-"), ReplaceAll(ReplaceAll(b, '=', ""), '+', "-"), '/', "_");
  }

  /** What the fix-up does to one character other than `=`. */
  function FixChar(c: char): char {
    if c == '+' then '-' else if c == '/' then '_' else c
  }

  lemma ReplaceAllSingle(c: char, from: char, to: string)
    ensures ReplaceAll([c], from, to) == if c == from then to else [c]
  {
    assert [c][1..] == [];
  }

  lemma FixupChar(c: char)
    requires c != '='
    ensures Fixup([c]) == [FixChar(c)]
  {
    ReplaceAllSingle(c, '=', "");
    ReplaceAllSingle(c, '+', "-");
    ReplaceAllSingle(if c == '+' then '-' else c, '/', "_");
  }

  /** Every character other than `=` is kept, in order, with `+` and `/`
      turned into `-` and `_`. */
  lemma {:induction false} FixupKeepsOthers(s: string)
    requires '=' !in s
    ensures |Fixup(s)| == |s|
    ensures forall k :: 0 <= k < |s| ==> Fixup(s)[k] == FixChar(s[k])
  {
    if s != [] {
      assert s == [s[0]] + s[1..];
      FixupConcat([s[0]], s[1..]);
      FixupChar(s[0]);
      FixupKeepsOthers(s[1..]);
    }
  }

  lemma FixupPadding()
    ensures Fixup("=") == "" && Fixup("==") == ""
  {
    ReplaceAllSingle('=', '=', "");
    assert "==" == "=" + "=";
    FixupConcat("=", "=");
  }

  /** The fix-up turns the standard encoding into the unpadded URL-safe
      one. */
  lemma FixupBase64(bytes: seq<byte>)
    ensures Fixup(Base64(bytes)) == Base64Url(bytes)
  {
    var std := Spell(Sextets(bytes), false);
    var pad := if |bytes| % 3 == 1 then "==" else if |bytes| % 3 == 2 then "=" else "";
    FixupConcat(std, pad);
    FixupPadding();
    assert pad == "" ==> Fixup(pad) == "";
    FixupKeepsOthers(std);
    assert Fixup(std) == Spell(Sextets(bytes), true);
  }

  /** A SHA-256 digest of 32 bytes: 44 characters with padding, a
      challenge of 43. */
  lemma DigestLengths(digest: seq<byte>)
    requires |digest| == 32
    ensures |Base64(digest)| == 44
    ensures |Fixup(Base64(digest))| == 43
  {
    FixupBase64(digest);
  }

  /** `new TextEncoder().encode(s)` for a string of ASCII characters. */
  predicate IsAscii(s: string) {
    forall k :: 0 <= k < |s| ==> s[k] <= '\U{007F}'
  }

  function AsciiBytes(s: string): (r: seq<byte>)
    requires IsAscii(s)
    ensures |r| == |s|
  {
    seq(|s|, k requires 0 <= k < |s| => s[k] as int as byte)
  }

  /** `generateVerifierAndChallenge`, with the random bytes and the SHA-256
      digest given: the challenge is `BASE64URL(SHA256(ASCII(verifier)))`,
      section 4.2 of RFC 7636. */
  function VerifierAndChallenge(randomBytes: seq<byte>, sha256: seq<byte> -> seq<byte>): (r: (string, string))
    requires |randomBytes| == 32
    ensures IsCodeVerifier(r.0)
    ensures IsAscii(r.0)
    ensures r.1 == Base64Url(sha256(AsciiBytes(r.0)))
    ensures forall c :: c in r.1 ==> IsUnreserved(c)
  {
    var verifier := Verifier(randomBytes);
    assert forall k :: 0 <= k < |verifier| ==> verifier[k] in verifier;
    var digest := sha256(AsciiBytes(verifier));
    var challenge := Fixup(Base64(digest));
    VerifierIsCodeVerifier(randomBytes);
    FixupBase64(digest);
    ChallengeUnreserved(digest);
    (verifier, challenge)
  }

  /** `generateVerifierAndChallenge` as written, with the unpadded verifier
      of line 12: between 32 and 64 hexadecimal digits, and the challenge
      of exactly that text. */
  function VerifierAndChallengeAsWritten(randomBytes: seq<byte>, sha256: seq<byte> -> seq<byte>): (r: (string, string))
    requires |randomBytes| == 32
    ensures |r.0| == 32 + CountAtLeast16(randomBytes)
    ensures 32 <= |r.0| <= 64
    ensures forall c :: c in r.0 ==> IsHexDigit(c)
    ensures IsAscii(r.0)
    ensures r.1 == Base64Url(sha256(AsciiBytes(r.0)))
    ensures forall c :: c in r.1 ==> IsUnreserved(c)
  {
    var verifier := VerifierAsWritten(randomBytes);
    assert forall k :: 0 <= k < |verifier| ==> verifier[k] in verifier;
    var digest := sha256(AsciiBytes(verifier));
    var challenge := Fixup(Base64(digest));
    VerifierAsWrittenLength(randomBytes);
    FixupBase64(digest);
    ChallengeUnreserved(digest);
    (verifier, challenge)
  }

  lemma ChallengeUnreserved(digest: seq<byte>)
    ensures forall c :: c in Base64Url(digest) ==> IsUnreserved(c)
  {}

  // ---------------------------------------------------------------------
  // The authorize request and the token requests.
  // ---------------------------------------------------------------------

  const CLIENT_ID: string := "6f335e84feea4d1d99bec6e126bdc17d"
  const SCOPE: string := "playlist-read-private playlist-read-collaborative"
  const REDIRECT_URI: string := "http://localhost:5173/auth/callback"

  /** The `URLSearchParams` value of a name: the first pair with it. */
  function Param(params: seq<(string, string)>, name: string): Option<string> {
    if params == [] then None
    else if params[0].0 == name then Some(params[0].1)
    else Param(params[1..], name)
  }

  lemma {:induction false} ParamAt(params: seq<(string, string)>, i: nat, name: string)
    requires i < |params| && params[i].0 == name
    requires forall k :: 0 <= k < i ==> params[k].0 != name
    ensures Param(params, name) == Some(params[i].1)
  {
    if i > 0 {
      ParamAt(params[1..], i - 1, name);
    }
  }

  /** The query of the authorize URL, in insertion order. */
  function AuthorizeParams(challenge: string): seq<(string, string)> {
    [("response_type", "code"),
     ("client_id", CLIENT_ID),
     ("scope", SCOPE),
     ("code_challenge_method", "S256"),
     ("code_challenge", challenge),
     ("redirect_uri", REDIRECT_URI)]
  }

  /** Every authorize request asks for a code, declares S256 and carries
      the challenge it was given. */
  lemma AuthorizeParamsCarry(challenge: string)
    ensures Param(AuthorizeParams(challenge), "response_type") == Some("code")
    ensures Param(AuthorizeParams(challenge), "code_challenge_method") == Some("S256")
    ensures Param(AuthorizeParams(challenge), "code_challenge") == Some(challenge)
    ensures Param(AuthorizeParams(challenge), "client_id") == Some(CLIENT_ID)
    ensures Param(AuthorizeParams(challenge), "redirect_uri") == Some(REDIRECT_URI)
    ensures Param(AuthorizeParams(challenge), "scope") == Some(SCOPE)
  {
    var ps := AuthorizeParams(challenge);
    ParamAt(ps, 0, "response_type");
    ParamAt(ps, 1, "client_id");
    ParamAt(ps, 2, "scope");
    ParamAt(ps, 3, "code_challenge_method");
    ParamAt(ps, 4, "code_challenge");
    ParamAt(ps, 5, "redirect_uri");
  }

  /** The form body of the code exchange. */
  function CodeExchangeParams(verifier: string, authCode: string): seq<(string, string)> {
    [("client_id", CLIENT_ID),
     ("grant_type", "authorization_code"),
     ("code", authCode),
     ("redirect_uri", REDIRECT_URI),
     ("code_verifier", verifier)]
  }

  /** The form body of a refresh. */
  function RefreshParams(refreshToken: string): seq<(string, string)> {
    [("client_id", CLIENT_ID),
     ("grant_type", "refresh_token"),
     ("refresh_token", refreshToken)]
  }

  /** The code exchange sends the code and the verifier it was given; a
      refresh sends the refresh token. */
  lemma TokenParamsCarry(verifier: string, authCode: string, refreshToken: string)
    ensures Param(CodeExchangeParams(verifier, authCode), "grant_type") == Some("authorization_code")
    ensures Param(CodeExchangeParams(verifier, authCode), "code") == Some(authCode)
    ensures Param(CodeExchangeParams(verifier, authCode), "code_verifier") == Some(verifier)
    ensures Param(RefreshParams(refreshToken), "grant_type") == Some("refresh_token")
    ensures Param(RefreshParams(refreshToken), "refresh_token") == Some(refreshToken)
  {
    var ps := CodeExchangeParams(verifier, authCode);
    ParamAt(ps, 1, "grant_type");
    ParamAt(ps, 2, "code");
    ParamAt(ps, 4, "code_verifier");
    ParamAt(RefreshParams(refreshToken), 1, "grant_type");
    ParamAt(RefreshParams(refreshToken), 2, "refresh_token");
  }

  // ---------------------------------------------------------------------
  // Token responses and bundles.
  // ---------------------------------------------------------------------

  /** What `fetch` resolved to: `ok`, `status`, and the outcome of
      `res.json()`. */
  datatype TokenResponse = TokenResponse(ok: bool, status: int, body: Result<JsValue, string>)

  /** Why a token request rejects. `NotOk` carries the status and the
      endpoint text of the error message: "/token" for the code exchange,
      "/api/token" for the refresh. Both requests go to the same URL,
      `BASE_URL` + "/token", whose path is /api/token, so the two messages
      name it differently. */
  datatype TokenError =
    | NotOk(status: int, messagePath: string)
    | BadJson(message: string)
    | TypeError

  /** The object literal of lines 71-76 and 96-101. */
  function BundleObject(accessToken: JsValue, nowMs: int, expirySeconds: JsValue, refreshToken: JsValue): JsValue {
    Obj(map["accessToken" := accessToken,
            "issueTime" := Date(nowMs),
            "expirySeconds" := expirySeconds,
            "refreshToken" := refreshToken])
  }

  /** Reads the three members of a response body into a bundle, the refresh
      token passed through `fallback`. The first read throws on a null or
      undefined body; once it succeeds the other two reads cannot throw. */
  function BundleFrom(body: JsValue, nowMs: int, fallback: JsValue -> JsValue): Result<JsValue, TokenError> {
    match ReadProperty(body, "access_token")
    case Failure(_) => Failure(TypeError)
    case Success(accessToken) =>
      Success(BundleObject(accessToken, nowMs, Property(body, "expires_in"),
                           fallback(Property(body, "refresh_token"))))
  }

  /** The shared shape of both requests: a not-OK status rejects, then the
      body is parsed and read. */
  function TokenOutcome(res: TokenResponse, messagePath: string, nowMs: int, fallback: JsValue -> JsValue): Result<JsValue, TokenError> {
    if !res.ok then Failure(NotOk(res.status, messagePath))
    else if res.body.Failure? then Failure(BadJson(res.body.error))
    else BundleFrom(res.body.value, nowMs, fallback)
  }

  /** `fetchAccessToken` after its request: the bundle's refresh token is
      whatever the response carries, undefined if nothing. */
  function FetchAccessToken(res: TokenResponse, nowMs: int): Result<JsValue, TokenError> {
    TokenOutcome(res, "/token", nowMs, v => v)
  }

  /** `refreshAccessToken` after its request: `body.refresh_token ?? refreshToken`. */
  function RefreshAccessToken(res: TokenResponse, nowMs: int, refreshToken: string): Result<JsValue, TokenError> {
    TokenOutcome(res, "/api/token", nowMs, v => Coalesce(v, Str(refreshToken)))
  }

  /** A not-OK response rejects with its status and the endpoint text of
      its error message, and produces no bundle. */
  lemma NotOkRejects(res: TokenResponse, nowMs: int, refreshToken: string)
    requires !res.ok
    ensures FetchAccessToken(res, nowMs) == Failure(NotOk(res.status, "/token"))
    ensures RefreshAccessToken(res, nowMs, refreshToken) == Failure(NotOk(res.status, "/api/token"))
  {}

  /** An OK response with an object body gives a bundle whose access token
      and expiry are copied from the response, stamped with the current
      time. */
  lemma BundleCopiesResponse(res: TokenResponse, nowMs: int, refreshToken: string)
    requires res.ok && res.body.Success? && res.body.value.Obj?
    ensures FetchAccessToken(res, nowMs).Success? && RefreshAccessToken(res, nowMs, refreshToken).Success?
    ensures var a := FetchAccessToken(res, nowMs).value;
            var b := RefreshAccessToken(res, nowMs, refreshToken).value;
      && Property(a, "accessToken") == Property(b, "accessToken") == Property(res.body.value, "access_token")
      && Property(a, "expirySeconds") == Property(b, "expirySeconds") == Property(res.body.value, "expires_in")
      && Property(a, "issueTime") == Property(b, "issueTime") == Date(nowMs)
      && Property(a, "refreshToken") == Property(res.body.value, "refresh_token")
  {}

  /** On a refresh the new refresh token is the response's if it has one,
      otherwise the one passed in. */
  lemma RefreshKeepsRefreshToken(res: TokenResponse, nowMs: int, refreshToken: string)
    requires res.ok && res.body.Success? && res.body.value.Obj?
    ensures var rt := Property(res.body.value, "refresh_token");
      && (rt.Null? || rt.Undefined? ==> Property(RefreshAccessToken(res, nowMs, refreshToken).value, "refreshToken") == Str(refreshToken))
      && (!rt.Null? && !rt.Undefined? ==> Property(RefreshAccessToken(res, nowMs, refreshToken).value, "refreshToken") == rt)
  {}

  /** A refresh answered with a string access token and a numeric expiry
      gives a bundle that passes `validateTokenBundle`, whether or not the
      response carries a new refresh token. */
  lemma RefreshedBundleValid(res: TokenResponse, nowMs: int, refreshToken: string)
    requires res.ok && res.body.Success? && res.body.value.Obj?
    requires Property(res.body.value, "access_token").Str? && Property(res.body.value, "expires_in").Num?
    requires var rt := Property(res.body.value, "refresh_token"); rt.Str? || rt.Null? || rt.Undefined?
    ensures RefreshAccessToken(res, nowMs, refreshToken).Success?
    ensures ValidateTokenBundle(RefreshAccessToken(res, nowMs, refreshToken).value)
  {}

  /** A code exchange answered without a refresh token gives a bundle that
      fails `validateTokenBundle`. */
  lemma CodeBundleWithoutRefreshTokenInvalid(res: TokenResponse, nowMs: int)
    requires res.ok && res.body.Success? && res.body.value.Obj?
    requires "refresh_token" !in res.body.value.fields
    ensures FetchAccessToken(res, nowMs).Success?
    ensures !ValidateTokenBundle(FetchAccessToken(res, nowMs).value)
  {}

  /** A body of `null` makes the property reads throw. */
  lemma NullBodyRejects(res: TokenResponse, nowMs: int, refreshToken: string)
    requires res.ok && res.body == Success(Null)
    ensures FetchAccessToken(res, nowMs) == Failure(TypeError)
    ensures RefreshAccessToken(res, nowMs, refreshToken) == Failure(TypeError)
  {}
}
