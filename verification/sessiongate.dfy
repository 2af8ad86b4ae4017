/** The session layer of the service: `requireSession`, the gate in front of the
    table routes, and `setSessionCookie` / `clearSessionCookie`, which issue and
    withdraw the session cookie. Firebase's session-cookie verifier and minter are
    parameters: functions from their input to a result, `None` standing for a
    rejection (a thrown error). */
module SessionGate {
  import opened Wrappers
  import opened JsText
  import UriCodec
  import opened Cookies

  /** The decoded claims `verifySessionCookie` yields; the handlers use the `uid`. */
  datatype Identity = Identity(uid: string)

  /** How a request leaves the gate. `Threw` is the URIError of `parseCookies`, which
      escapes the gate because the parse happens before its `try`. */
  datatype Verdict = Threw | NotSignedIn | InvalidSession | Admitted(user: Identity)

  /** Lifetime given to `createSessionCookie`: seven days, in milliseconds. */
  const SessionLifetimeMs: int := 7 * 24 * 60 * 60 * 1000

  /** `req.headers.cookie || ''`: an absent header reads as the empty header. */
  function CookieHeaderText(header: Option<string>): string
  {
    match header
    case None => ""
    case Some(h) => h
  }

  /** `cookies.session` when it is truthy: an absent cookie and an empty one are
      both no credential. */
  function SessionValue(cookies: map<string, string>): Option<string>
  {
    if SessionCookie in cookies && cookies[SessionCookie] != "" then Some(cookies[SessionCookie])
    else None
  }

  /** The decision `requireSession` takes once the header is parsed (`None` when the
      parse threw), when the verifier answers as `verify` does. */
  function Decide(parsed: Option<map<string, string>>, verify: string -> Option<Identity>): Verdict {
    match parsed
    case None => Threw
    case Some(cookies) =>
      match SessionValue(cookies)
      case None => NotSignedIn
      case Some(token) =>
        match verify(token)
        case None => InvalidSession
        case Some(user) => Admitted(user)
  }

  /** The decision `requireSession` takes for a request carrying `header`. */
  function Gate(header: Option<string>, verify: string -> Option<Identity>): Verdict {
    Decide(ParseCookies(CookieHeaderText(header)), verify)
  }

  /** One request as the handlers see it: the `Cookie` header it arrived with, the
      user the gate attaches, the reply sent, the `Set-Cookie` header written, the
      credentials handed to the verifier, and how many times the guarded handler
      (`next`) ran. */
  class Exchange {
    const cookieHeader: Option<string>
    var user: Option<Identity>
    var reply: Option<Reply>
    var setCookie: seq<string>
    var verified: seq<string>
    var handlerRuns: nat

    /** A request that has not been answered yet. */
    constructor (header: Option<string>)
      ensures cookieHeader == header
      ensures user == None && reply == None && setCookie == [] && verified == [] && handlerRuns == 0
    {
      cookieHeader := header;
      user := None;
      reply := None;
      setCookie := [];
      verified := [];
      handlerRuns := 0;
    }

    /** `requireSession(req, res, next)`. `threw` reports the URIError that leaves the
        gate without a reply. */
    method RequireSession(verify: string -> Option<Identity>) returns (threw: bool)
      modifies this
      ensures threw <==> Gate(cookieHeader, verify) == Threw
      ensures Outcome(ParseCookies(CookieHeaderText(cookieHeader)), verify, old(user), old(reply), old(verified), old(handlerRuns))
      ensures setCookie == old(setCookie)
    {
      var parsed := ParseCookies(CookieHeaderText(cookieHeader));
      threw := Respond(parsed, verify);
    }

    /** What the gate leaves behind for an already parsed header: the verifier is
        consulted only for a non-empty session cookie, and the handler runs exactly
        once, only for a verified one. */
    ghost predicate Outcome(parsed: Option<map<string, string>>, verify: string -> Option<Identity>,
                            user0: Option<Identity>, reply0: Option<Reply>, verified0: seq<string>, runs0: nat)
      reads this
    {
      match Decide(parsed, verify)
      case Threw =>
        user == user0 && reply == reply0 && verified == verified0 && handlerRuns == runs0
      case NotSignedIn =>
        reply == Some(Reply(401, "Not signed in")) && user == user0
        && verified == verified0 && handlerRuns == runs0
      case InvalidSession =>
        reply == Some(Reply(401, "Invalid session")) && user == user0
        && verified == verified0 + [SessionValue(parsed.value).value] && handlerRuns == runs0
      case Admitted(u) =>
        user == Some(u) && reply == reply0
        && verified == verified0 + [SessionValue(parsed.value).value] && handlerRuns == runs0 + 1
    }

    /** The steps of `requireSession` after `parseCookies` has returned. */
    method Respond(parsed: Option<map<string, string>>, verify: string -> Option<Identity>) returns (threw: bool)
      modifies this
      ensures threw <==> Decide(parsed, verify) == Threw
      ensures Outcome(parsed, verify, old(user), old(reply), old(verified), old(handlerRuns))
      ensures setCookie == old(setCookie)
    {
      if parsed.None? {
        return true;
      }
      var token := SessionValue(parsed.value);
      if token.None? {
        reply := Some(Reply(401, "Not signed in"));
        return false;
      }
      verified := verified + [token.value];
      var outcome := verify(token.value);
      if outcome.None? {
        reply := Some(Reply(401, "Invalid session"));
        return false;
      }
      user := outcome;
      handlerRuns := handlerRuns + 1;
      return false;
    }

    /** `setSessionCookie(res, idToken)`: mints a session cookie valid for seven days
        and writes it with `Max-Age=604800`. `ok` is false when minting throws, in
        which case no header is written. */
    method SetSessionCookie(idToken: string, mint: (string, int) -> Option<string>, cfg: CookieConfig)
      returns (ok: bool)
      modifies this
      ensures ok <==> mint(idToken, SessionLifetimeMs).Some?
      ensures ok ==> setCookie == [SetCookieLine(SessionCookie, mint(idToken, SessionLifetimeMs).value, Some(604800), cfg)]
      ensures !ok ==> setCookie == old(setCookie)
      ensures user == old(user) && reply == old(reply) && verified == old(verified) && handlerRuns == old(handlerRuns)
    {
      var expiresInMs := 7 * 24 * 60 * 60 * 1000;
      var minted := mint(idToken, expiresInMs);
      if minted.None? {
        return false;
      }
      var line := BuildCookie(SessionCookie, minted.value, Some(expiresInMs / 1000), cfg);
      setCookie := [line];
      return true;
    }

    /** `clearSessionCookie(res)`: overwrites the session cookie with an empty value
        that expires at once. */
    method ClearSessionCookie(cfg: CookieConfig)
      modifies this
      ensures setCookie == [SetCookieLine(SessionCookie, "", Some(0), cfg)]
      ensures user == old(user) && reply == old(reply) && verified == old(verified) && handlerRuns == old(handlerRuns)
    {
      var line := BuildCookie(SessionCookie, "", Some(0), cfg);
      setCookie := [line];
    }
  }

  // ---- What the gate decides ---------------------------------------------------------

  /** Without a header, or without a non-empty `session` cookie in it, the request is
      not signed in, whatever the verifier would say. */
  lemma NoSessionNotSignedIn(header: Option<string>, verify: string -> Option<Identity>)
    requires ParseCookies(CookieHeaderText(header)).Some?
    requires SessionValue(ParseCookies(CookieHeaderText(header)).value).None?
    ensures Gate(header, verify) == NotSignedIn
  {
  }

  /** A request without a `Cookie` header is not signed in. */
  lemma MissingHeaderNotSignedIn(verify: string -> Option<Identity>)
    ensures Gate(None, verify) == NotSignedIn
  {
    EmptyHeader();
  }

  /** A header that fails to parse leaves the gate with the URIError, whatever session
      cookie it also carries and whatever the verifier would say. */
  lemma MalformedHeaderThrows(a: string, b: string, verify: string -> Option<Identity>)
    requires ParseCookies(a).None? || ParseCookies(b).None?
    ensures Gate(Some(a + ";" + b), verify) == Threw
  {
    MalformedSegmentFailsHeader(a, b);
  }

  /** A valid session cookie followed by a cookie with a broken escape (`x=%zz`) does
      not get the request in. */
  lemma StrayCookieLocksOut(token: string, verify: string -> Option<Identity>)
    ensures Gate(Some(SessionCookie + "=" + UriCodec.Encode(token) + ";" + "x=%zz"), verify) == Threw
  {
    StrayCookieFails();
    MalformedHeaderThrows(SessionCookie + "=" + UriCodec.Encode(token), "x=%zz", verify);
  }

  lemma StrayCookieFails()
    ensures ParseCookies("x=%zz") == None
  {
    StrayCookieText();
    assert PlainName("x") by {
      assert !IsTrimmable('x');
    }
    BrokenEscapeFails("x");
  }

  lemma StrayCookieText()
    ensures "x" + "=" + "%zz" == "x=%zz"
  {
  }

  /** The gate on a header that parses to `parsed`. */
  lemma GateOfParsed(h: string, verify: string -> Option<Identity>)
    ensures Gate(Some(h), verify) == Decide(ParseCookies(h), verify)
  {
  }

  /** The cookie the browser echoes, `session=<encoded credential>`, reaches the
      verifier as the credential that was issued: it is admitted exactly when the
      verifier accepts that credential, and an empty credential is not signed in. */
  lemma EchoedSessionDecision(token: string, verify: string -> Option<Identity>)
    ensures token == "" ==> Gate(Some(SessionCookie + "=" + UriCodec.Encode(token)), verify) == NotSignedIn
    ensures token != "" && verify(token).None? ==>
      Gate(Some(SessionCookie + "=" + UriCodec.Encode(token)), verify) == InvalidSession
    ensures token != "" && verify(token).Some? ==>
      Gate(Some(SessionCookie + "=" + UriCodec.Encode(token)), verify) == Admitted(verify(token).value)
  {
    var pair := SessionCookie + "=" + UriCodec.Encode(token);
    SessionNameIsPlain();
    GateOfParsed(pair, verify);
    EchoedPair(SessionCookie, token);
  }

  /** Other cookies sent before the session cookie do not change the decision, as long
      as they parse. */
  lemma EarlierCookiesIgnored(a: string, token: string, verify: string -> Option<Identity>)
    requires ParseCookies(a).Some?
    ensures Gate(Some(a + ";" + (SessionCookie + "=" + UriCodec.Encode(token))), verify)
      == Gate(Some(SessionCookie + "=" + UriCodec.Encode(token)), verify)
  {
    var pair := SessionCookie + "=" + UriCodec.Encode(token);
    GateOfParsed(a + ";" + pair, verify);
    GateOfParsed(pair, verify);
    SessionNameIsPlain();
    EchoedPair(SessionCookie, token);
    ParseAround(a, pair);
    var m := ParseCookies(a).value;
    assert ParseCookies(a + ";" + pair) == Some(m + map[SessionCookie := token]);
    SessionOverrides(m, token, verify);
  }

  lemma SessionOverrides(m: map<string, string>, token: string, verify: string -> Option<Identity>)
    ensures Decide(Some(m + map[SessionCookie := token]), verify) == Decide(Some(map[SessionCookie := token]), verify)
  {
    assert SessionValue(m + map[SessionCookie := token]) == SessionValue(map[SessionCookie := token]);
  }

  /** After sign-out the browser echoes `session=` (or nothing): either way the next
      request is not signed in. */
  lemma SignedOutNotSignedIn(verify: string -> Option<Identity>)
    ensures Gate(Some(SessionCookie + "=" + UriCodec.Encode("")), verify) == NotSignedIn
    ensures Gate(None, verify) == NotSignedIn
  {
    EchoedSessionDecision("", verify);
    MissingHeaderNotSignedIn(verify);
  }

  /** The first `;`-separated piece of a `Set-Cookie` line, the part a browser stores
      and sends back, is the encoded pair. */
  lemma IssuedPairFirst(name: string, value: string, maxAge: Option<int>, cfg: CookieConfig)
    requires ';' !in name
    ensures Split(SetCookieLine(name, value, maxAge, cfg), ';')[0] == name + "=" + UriCodec.Encode(value)
  {
    var pair := name + "=" + UriCodec.Encode(value);
    var secure := if cfg.secure then "; " + "Secure" else "";
    var age := if maxAge.Some? then "; " + "Max-Age=" + IntToDecimal(maxAge.value) else "";
    var tail := " " + "Path=/" + "; " + "HttpOnly" + "; " + "SameSite=" + cfg.sameSite + secure + age;
    UriCodec.EncodeAvoidsDelimiters(value);
    assert ';' !in pair;
    SeparatorLiteral();
    IssuedLineShape(pair, "; ", [';'], " ", "Path=/", "HttpOnly", "SameSite=", cfg.sameSite, secure, age);
    SplitAroundPiece(pair, ';', tail);
  }

  lemma SeparatorLiteral()
    ensures "; " == [';'] + " "
  {
  }

  lemma IssuedLineShape(pair: string, sep: string, semi: string, sp: string, path: string, flag: string,
                        key: string, policy: string, secure: string, maxAge: string)
    requires sep == semi + sp
    ensures pair + sep + path + sep + flag + sep + key + policy + secure + maxAge
      == pair + semi + (sp + path + sep + flag + sep + key + policy + secure + maxAge)
  {
  }

  /** What sign-in writes, sent back by the browser, admits the user the verifier finds
      for the minted credential. */
  lemma IssuedCookieAdmits(minted: string, maxAge: Option<int>, cfg: CookieConfig, verify: string -> Option<Identity>)
    requires minted != "" && verify(minted).Some?
    ensures var stored := Split(SetCookieLine(SessionCookie, minted, maxAge, cfg), ';')[0];
      Gate(Some(stored), verify) == Admitted(verify(minted).value)
  {
    SessionNameIsPlain();
    IssuedPairFirst(SessionCookie, minted, maxAge, cfg);
    EchoedSessionDecision(minted, verify);
  }

  /** The line sign-out writes keeps only the bare name as its pair, so the cookie the
      browser would echo is empty, and it ends in `Max-Age=0`, which makes the browser
      drop the cookie at once. */
  lemma ClearedLine(cfg: CookieConfig)
    ensures Split(SetCookieLine(SessionCookie, "", Some(0), cfg), ';')[0] == SessionCookie + "="
    ensures SetCookieLine(SessionCookie, "", Some(0), cfg)
      == SetCookieLine(SessionCookie, "", None, cfg) + "; " + "Max-Age=" + "0"
  {
    SessionNameIsPlain();
    EmptyValueEncoding();
    IssuedPairFirst(SessionCookie, "", Some(0), cfg);
  }

  lemma EmptyValueEncoding()
    ensures UriCodec.Encode("") == "" && IntToDecimal(0) == "0"
  {
  }
}
