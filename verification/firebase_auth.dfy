/**
 * The bearer-token extractor of the authentication layer: pulling the credential out of an
 * `Authorization: Bearer <token>` header (the header form of section 2.1 of RFC 6750) and the
 * rejection rule of the request extractor. The token verifier itself (key download and RS256
 * decoding) is a parameter.
 */
module FirebaseAuth {
  import opened Wrappers
  import opened Strings
  import opened Http
  import opened AuthTypes

  /** Request headers: lower-case header name to the bytes of its first value. */
  type HeaderMap = map<string, seq<Byte>>

  /** `headers.get("Authorization")` looks the name up in its normalised, lower-case form. */
  const AuthorizationHeader: string := "authorization"

  /** The scheme prefix, matched case-sensitively and including its trailing space. */
  const BearerPrefix: string := "Bearer "

  const MissingHeaderMessage: string := "Missing or invalid Authorization header"
  const VerificationFailedPrefix: string := "Token verification failed: "

  /** A header byte that `HeaderValue::to_str` accepts: a tab or a visible ASCII character. */
  predicate IsVisibleAscii(b: Byte) {
    b == 9 || 32 <= b < 127
  }

  /** `HeaderValue::to_str`: the value as text when every byte is visible ASCII. */
  function ToStr(v: seq<Byte>): (r: Option<string>)
    ensures r.Some? <==> forall i :: 0 <= i < |v| ==> IsVisibleAscii(v[i])
    ensures r.Some? ==> |r.value| == |v| && forall i :: 0 <= i < |v| ==> r.value[i] as int == v[i]
  {
    if forall i :: 0 <= i < |v| ==> IsVisibleAscii(v[i]) then
      Some(seq(|v|, i requires 0 <= i < |v| => v[i] as char))
    else
      None
  }

  /** `str::trim_start_matches` for a non-empty string pattern: strips every leading copy of `p`. */
  function TrimStartMatches(s: string, p: string): (r: string)
    requires |p| > 0
    ensures IsSuffix(r, s)
    ensures !StartsWith(r, p)
    decreases |s|
  {
    if StartsWith(s, p) then TrimStartMatches(s[|p|..], p) else s
  }

  /** How many copies of `p` `TrimStartMatches` removes. */
  function StrippedCopies(s: string, p: string): nat
    requires |p| > 0
    decreases |s|
  {
    if StartsWith(s, p) then 1 + StrippedCopies(s[|p|..], p) else 0
  }

  /** The input is exactly the stripped copies followed by the result. */
  lemma {:induction false} TrimStartMatchesSplits(s: string, p: string)
    requires |p| > 0
    ensures s == Repeat(p, StrippedCopies(s, p)) + TrimStartMatches(s, p)
    decreases |s|
  {
    if StartsWith(s, p) {
      TrimStartMatchesSplits(s[|p|..], p);
      assert s == p + s[|p|..];
    }
  }

  /**
   * The converse: whenever `s` is some number of copies of `p` followed by a `t` that does not
   * begin with `p`, trimming yields exactly `t`. Together with TrimStartMatchesSplits this pins
   * the result down as the unique such `t`.
   */
  lemma {:induction false} TrimStartMatchesUnique(p: string, k: nat, t: string)
    requires |p| > 0
    requires !StartsWith(t, p)
    ensures TrimStartMatches(Repeat(p, k) + t, p) == t
  {
    if k == 0 {
      assert Repeat(p, k) + t == t;
    } else {
      var rest := Repeat(p, k - 1) + t;
      assert Repeat(p, k) + t == p + rest by {
        assert Repeat(p, k) == p + Repeat(p, k - 1);
      }
      LeadingCopyStripped(p, rest);
      TrimStartMatchesUnique(p, k - 1, t);
    }
  }

  /** One leading copy of `p` is stripped and trimming goes on with what follows it. */
  lemma LeadingCopyStripped(p: string, rest: string)
    requires |p| > 0
    ensures TrimStartMatches(p + rest, p) == TrimStartMatches(rest, p)
  {
    var s := p + rest;
    assert s[..|p|] == p && s[|p|..] == rest;
  }

  /** `extract_token`: the bearer token of the request, or None. */
  function ExtractToken(headers: HeaderMap): (r: Option<string>)
    ensures r.Some? <==>
      && AuthorizationHeader in headers
      && ToStr(headers[AuthorizationHeader]).Some?
      && StartsWith(ToStr(headers[AuthorizationHeader]).value, BearerPrefix)
    ensures r.Some? ==>
      var value := ToStr(headers[AuthorizationHeader]).value;
      && IsSuffix(r.value, value)
      && |r.value| + |BearerPrefix| <= |value|
      && !StartsWith(r.value, BearerPrefix)
    ensures r.Some? ==>
      var value := ToStr(headers[AuthorizationHeader]).value;
      && StrippedCopies(value, BearerPrefix) >= 1
      && value == Repeat(BearerPrefix, StrippedCopies(value, BearerPrefix)) + r.value
  {
    if AuthorizationHeader !in headers then None
    else
      match ToStr(headers[AuthorizationHeader])
      case None => None
      case Some(value) =>
        if StartsWith(value, BearerPrefix) then
          TrimStartMatchesSplits(value, BearerPrefix);
          Some(TrimStartMatches(value, BearerPrefix))
        else None
  }

  /** A header reading `"Bearer " + t`, where `t` does not itself begin with the prefix, yields `t`. */
  lemma BearerTokenRoundTrip(headers: HeaderMap, t: string)
    requires AuthorizationHeader in headers
    requires ToStr(headers[AuthorizationHeader]) == Some(BearerPrefix + t)
    requires !StartsWith(t, BearerPrefix)
    ensures ExtractToken(headers) == Some(t)
  {
    assert Repeat(BearerPrefix, 1) == BearerPrefix;
    TrimStartMatchesUnique(BearerPrefix, 1, t);
  }

  /** The bare value `"Bearer "` is accepted and yields the empty token. */
  lemma BareBearerYieldsEmptyToken(headers: HeaderMap)
    requires AuthorizationHeader in headers
    requires ToStr(headers[AuthorizationHeader]) == Some(BearerPrefix)
    ensures ExtractToken(headers) == Some("")
  {
    assert BearerPrefix + "" == BearerPrefix;
    BearerTokenRoundTrip(headers, "");
  }

  /** Repeated prefixes are all removed: `"Bearer Bearer " + t` also yields `t`. */
  lemma RepeatedBearerStripped(headers: HeaderMap, t: string)
    requires AuthorizationHeader in headers
    requires ToStr(headers[AuthorizationHeader]) == Some(BearerPrefix + BearerPrefix + t)
    requires !StartsWith(t, BearerPrefix)
    ensures ExtractToken(headers) == Some(t)
  {
    assert Repeat(BearerPrefix, 2) + t == BearerPrefix + BearerPrefix + t;
    TrimStartMatchesUnique(BearerPrefix, 2, t);
  }

  /** The scheme match is case-sensitive: a lower-case scheme is refused. */
  lemma LowerCaseSchemeRefused(headers: HeaderMap, t: string)
    requires AuthorizationHeader in headers
    requires ToStr(headers[AuthorizationHeader]) == Some("bearer " + t)
    ensures ExtractToken(headers) == None
  {
    var value := "bearer " + t;
    assert value[0] != BearerPrefix[0];
  }

  /**
   * `from_request_parts` of the `FirebaseAuth` extractor: a missing or malformed header is
   * rejected before the verifier is consulted; a verifier error becomes a 401 carrying its text.
   */
  function Authenticate(headers: HeaderMap, verify: string -> Result<Claims, string>): (r: Result<Claims, Rejection>)
    ensures ExtractToken(headers).None? ==>
      r == Failure(Rejection(StatusUnauthorized, MissingHeaderMessage))
    ensures ExtractToken(headers).Some? ==>
      match verify(ExtractToken(headers).value)
      case Success(claims) => r == Success(claims)
      case Failure(e) => r == Failure(Rejection(StatusUnauthorized, VerificationFailedPrefix + e))
    ensures r.Failure? ==> r.error.status == StatusUnauthorized
  {
    match ExtractToken(headers)
    case None => Failure(Rejection(StatusUnauthorized, MissingHeaderMessage))
    case Some(token) =>
      match verify(token)
      case Success(claims) => Success(claims)
      case Failure(e) => Failure(Rejection(StatusUnauthorized, VerificationFailedPrefix + e))
  }

  /** Without a usable header the verifier is never called: any two verifiers give the same answer. */
  lemma NoTokenNeverVerifies(headers: HeaderMap, v1: string -> Result<Claims, string>, v2: string -> Result<Claims, string>)
    requires ExtractToken(headers).None?
    ensures Authenticate(headers, v1) == Authenticate(headers, v2)
  {
  }

  /** The verifier sees exactly the extracted token: verifiers that agree on it give the same answer. */
  lemma VerifierSeesOnlyTheToken(headers: HeaderMap, v1: string -> Result<Claims, string>, v2: string -> Result<Claims, string>)
    requires ExtractToken(headers).Some?
    requires v1(ExtractToken(headers).value) == v2(ExtractToken(headers).value)
    ensures Authenticate(headers, v1) == Authenticate(headers, v2)
  {
  }
}
