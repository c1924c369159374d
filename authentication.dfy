/**
 * The `OptionalAuth` request extractor: optional HTTP Basic authentication
 * (section 2 of RFC 7617) against one user name and password taken from the
 * process environment. It never fails: a missing, malformed or wrong
 * `Authorization` header, or a missing configured credential, all give
 * `authenticated() == false`.
 *
 * The header value enters as the text `HeaderValue::to_str` produced, or
 * `None` when there is no `Authorization` header or it is not visible ASCII.
 * The two configured values enter as the results of reading
 * `PORTFOLIO_USER` and `PORTFOLIO_PASSWORD`, `None` when unset.
 */
module Authentication {
  import opened Types
  import Base64
  import Utf8

  /** The extractor's value: whether the request carried the configured credentials. */
  datatype OptionalAuth = OptionalAuth(flag: bool) {
    /** `OptionalAuth::authenticated`: true for the authenticated value only. */
    function Authenticated(): (r: bool)
      ensures r <==> this == OptionalAuth(true)
    {
      flag
    }
  }

  /** `actix_web::Error`; the extractor never produces one. */
  datatype ActixError = ActixError

  /** `OptionalAuth::new`. */
  function New(authenticated: bool): (a: OptionalAuth)
    ensures a.Authenticated() == authenticated
  {
    OptionalAuth(authenticated)
  }

  const BasicPrefix: string := "Basic "

  /** `str::strip_prefix`: the rest of `s` after `prefix`, if `s` starts with it. */
  function StripPrefix(s: string, prefix: string): (r: Option<string>)
    ensures r.Some? ==> s == prefix + r.value
    ensures r.None? ==> !(|prefix| <= |s| && s[..|prefix|] == prefix)
  {
    if |prefix| <= |s| && s[..|prefix|] == prefix then Some(s[|prefix|..]) else None
  }

  lemma StripPrefixOf(prefix: string, rest: string)
    ensures StripPrefix(prefix + rest, prefix) == Some(rest)
  {
    var s := prefix + rest;
    assert s[..|prefix|] == prefix && s[|prefix|..] == rest;
  }

  /** `str::split_once`: the text before and after the first `sep`, if there is one. */
  function SplitOnce(s: string, sep: char): (r: Option<(string, string)>)
    ensures r.None? <==> sep !in s
    ensures r.Some? ==> sep !in r.value.0 && s == r.value.0 + [sep] + r.value.1
    decreases |s|
  {
    if |s| == 0 then None
    else if s[0] == sep then Some(([], s[1..]))
    else
      match SplitOnce(s[1..], sep)
      case None => None
      case Some((before, after)) => Some(([s[0]] + before, after))
  }

  /** Splitting at the first separator recovers a prefix that contains none. */
  lemma {:induction false} SplitOnceOf(before: string, sep: char, after: string)
    requires sep !in before
    ensures SplitOnce(before + [sep] + after, sep) == Some((before, after))
    decreases |before|
  {
    if |before| == 0 {
      var s := before + [sep] + after;
      assert s[0] == sep && s[1..] == after;
    } else {
      var rest := before[1..] + [sep] + after;
      SplitOnceOf(before[1..], sep, after);
      SplitOnceCons(before[0], rest, sep, before[1..], after);
      assert [before[0]] + rest == before + [sep] + after;
      assert [before[0]] + before[1..] == before;
    }
  }

  lemma SplitOnceCons(c: char, rest: string, sep: char, before: string, after: string)
    requires c != sep && SplitOnce(rest, sep) == Some((before, after))
    ensures SplitOnce([c] + rest, sep) == Some(([c] + before, after))
  {
    var s := [c] + rest;
    assert s[0] == c && s[1..] == rest;
  }

  /**
   * The credential-parsing chain of `from_request`: strip `"Basic "`, decode
   * Base64, require UTF-8, split at the first `:`.
   */
  function Credentials(header: string): (r: Option<(string, string)>)
    ensures r.Some? ==> ':' !in r.value.0 && header == BasicHeader(r.value.0, r.value.1)
  {
    match StripPrefix(header, BasicPrefix)
    case None => None
    case Some(encoded) =>
      match Base64.Decode(encoded)
      case None => None
      case Some(bytes) =>
        match Utf8.Decode(bytes)
        case None => None
        case Some(text) =>
          Base64.EncodeDecode(encoded);
          Utf8.EncodeDecode(bytes);
          SplitOnce(text, ':')
  }

  /** The header a client sends for `user` and `pass` (section 2 of RFC 7617). */
  function BasicHeader(user: string, pass: string): string {
    BasicPrefix + Base64.Encode(Utf8.Encode(user + [':'] + pass))
  }

  /** A header yields the pair `(user, pass)` exactly when it is the Basic header for them and `user` has no colon. */
  lemma CredentialsCharacterization(header: string, user: string, pass: string)
    ensures Credentials(header) == Some((user, pass)) <==> ':' !in user && header == BasicHeader(user, pass)
  {
    var text := user + [':'] + pass;
    if ':' !in user && header == BasicHeader(user, pass) {
      var bytes := Utf8.Encode(text);
      var encoded := Base64.Encode(bytes);
      StripPrefixOf(BasicPrefix, encoded);
      Base64.DecodeEncode(bytes);
      Utf8.DecodeEncode(text);
      SplitOnceOf(user, ':', pass);
    }
  }

  /** The `.map(...).unwrap_or(false)` end of the chain: exact comparison of both halves. */
  function IsAuthorized(envUser: string, envPass: string, header: Option<string>): (r: bool)
    ensures r <==> ':' !in envUser && header == Some(BasicHeader(envUser, envPass))
  {
    match header
    case None => false
    case Some(h) =>
      CredentialsCharacterization(h, envUser, envPass);
      match Credentials(h)
      case None => false
      case Some((user, pass)) => user == envUser && pass == envPass
  }

  /** `OptionalAuth::from_request`: always `Ok`, authenticated only when both credentials are configured. */
  function FromRequest(envUser: Option<string>, envPass: Option<string>, header: Option<string>): (r: Result<OptionalAuth, ActixError>)
    ensures r.Ok?
    ensures envUser.None? || envPass.None? ==> !r.value.Authenticated()
  {
    if envUser.None? then Ok(New(false))
    else if envPass.None? then Ok(New(false))
    else Ok(New(IsAuthorized(envUser.value, envPass.value, header)))
  }

  /**
   * Exactly one header value authenticates: the Basic header for the
   * configured pair, and none at all when the configured user name contains
   * a colon or either credential is unset.
   */
  lemma FromRequestAuthenticatesExactly(envUser: Option<string>, envPass: Option<string>, header: Option<string>)
    ensures FromRequest(envUser, envPass, header).value.Authenticated() <==>
      envUser.Some? && envPass.Some? && ':' !in envUser.value && header == Some(BasicHeader(envUser.value, envPass.value))
  {
  }

  /** Round trip: the Basic header for `user` and `pass` authenticates exactly when both equal the configured values. */
  lemma BasicHeaderRoundTrip(envUser: string, envPass: string, user: string, pass: string)
    requires ':' !in user
    ensures FromRequest(Some(envUser), Some(envPass), Some(BasicHeader(user, pass))).value.Authenticated() <==>
      user == envUser && pass == envPass
  {
    CredentialsCharacterization(BasicHeader(user, pass), user, pass);
  }

  /** A configured user name containing `:` can never authenticate: the user part is cut at the first colon. */
  lemma ColonInUserNeverAuthenticates(envUser: string, envPass: string, header: Option<string>)
    requires ':' in envUser
    ensures !FromRequest(Some(envUser), Some(envPass), header).value.Authenticated()
  {
    FromRequestAuthenticatesExactly(Some(envUser), Some(envPass), header);
  }

  /** The scheme name is matched case-sensitively: `basic` with a lower-case `b` never authenticates. */
  lemma SchemeIsCaseSensitive(envUser: Option<string>, envPass: Option<string>, token: string)
    ensures !FromRequest(envUser, envPass, Some("basic " + token)).value.Authenticated()
  {
    var h := "basic " + token;
    assert h[0] == 'b' != BasicPrefix[0];
  }

  /** Each stage of the chain rejects on its own: bad Base64, bad UTF-8, or no colon. */
  lemma MalformedCredentialsRejected(envUser: Option<string>, envPass: Option<string>, token: string)
    requires Base64.Decode(token).None?
      || Utf8.Decode(Base64.Decode(token).value).None?
      || ':' !in Utf8.Decode(Base64.Decode(token).value).value
    ensures !FromRequest(envUser, envPass, Some(BasicPrefix + token)).value.Authenticated()
  {
    StripPrefixOf(BasicPrefix, token);
  }
}
