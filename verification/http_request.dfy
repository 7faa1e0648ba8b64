/** The pure parts of the request-parse callbacks (`HttpRequest::parse`).
    The tokenizer itself (llhttp) is not part of this model: a parse is
    modelled as the sequence of tokens it reports, each applied to the request
    by the callback the source installs for it. A callback that fails stops
    the parse. */
module Requests {
  import opened Wrappers
  import opened Text
  import opened Headers
  import Methods

  type uint16 = x: int | 0 <= x < 0x1_0000

  datatype Version = Version(major: uint16, minor: uint16)

  /** `ProtocolType`: `kUnknown` and `kHttp`. */
  datatype ProtocolType = UnknownProtocol | Http

  datatype HttpRequest = HttpRequest(
    httpMethod: Methods.HttpMethod,
    path: string,
    query: string,
    url: string,
    version: Version,
    host: string,
    ip: string,
    protocol: ProtocolType,
    headers: HttpHeader)

  /** A request before any callback ran. The source leaves the method, the
      version and the protocol uninitialised; the model starts them at GET,
      0.0 and `kUnknown`. */
  function NewRequest(): (r: HttpRequest)
    ensures Valid(r.headers) && Size(r.headers) == 0
  {
    HttpRequest(Methods.Get, "", "", "", Version(0, 0), "", "", UnknownProtocol, EmptyHeader())
  }

  datatype ParseError = UnsupportedMethod(token: string)

  // ---------------------------------------------------------------------------
  // on_method
  // ---------------------------------------------------------------------------

  /** `strncmp(lit, tok, |tok|) == 0`, with `lit` read as a NUL-terminated C
      string: the comparison stops at the first difference, at a NUL common to
      both, or after `|tok|` characters. */
  function StrnEqual(lit: string, tok: string): (b: bool)
    ensures tok <= lit ==> b
    ensures b && '\0' !in tok ==> tok <= lit
    decreases |tok|
  {
    if |tok| == 0 then true
    else
      var a := if |lit| > 0 then lit[0] else '\0';
      if a != tok[0] then false
      else if a == '\0' then true
      else StrnEqual(lit[1..], tok[1..])
  }

  /** For NUL-free strings, the bounded comparison succeeds exactly when the
      token is a prefix of the literal, so it also accepts truncated names. */
  lemma {:induction false} StrnEqualIsPrefix(lit: string, tok: string)
    requires '\0' !in lit && '\0' !in tok
    ensures StrnEqual(lit, tok) <==> tok <= lit
    decreases |tok|
  {
    if |tok| > 0 && |lit| > 0 && lit[0] == tok[0] {
      StrnEqualIsPrefix(lit[1..], tok[1..]);
      if tok[1..] <= lit[1..] {
        assert tok == [tok[0]] + tok[1..];
        assert lit == [lit[0]] + lit[1..];
      }
    }
  }

  /** The cascade of `strncmp` tests in `on_method`, in source order. */
  function MethodOfToken(tok: string): (r: Option<Methods.HttpMethod>)
    ensures r.Some? ==> StrnEqual(Methods.Name(r.value), tok)
    ensures r.Some? ==> forall m :: Methods.Index(m) < Methods.Index(r.value) ==> !StrnEqual(Methods.Name(m), tok)
    ensures r.None? ==> forall m :: !StrnEqual(Methods.Name(m), tok)
  {
    if StrnEqual("GET", tok) then Some(Methods.Get)
    else if StrnEqual("HEAD", tok) then Some(Methods.Head)
    else if StrnEqual("POST", tok) then Some(Methods.Post)
    else if StrnEqual("PUT", tok) then Some(Methods.Put)
    else if StrnEqual("DELETE", tok) then Some(Methods.Delete)
    else if StrnEqual("CONNECT", tok) then Some(Methods.Connect)
    else if StrnEqual("OPTIONS", tok) then Some(Methods.Options)
    else if StrnEqual("TRACE", tok) then Some(Methods.Trace)
    else if StrnEqual("PATCH", tok) then Some(Methods.Patch)
    else None
  }

  /** `on_method`: a recognised token sets the method; any other token makes
      the callback return -1, which aborts the parse. */
  function OnMethod(req: HttpRequest, tok: string): (r: Result<HttpRequest, ParseError>)
    ensures r.Success? <==> MethodOfToken(tok).Some?
    ensures r.Success? ==> r.value == req.(httpMethod := MethodOfToken(tok).value)
    ensures r.Failure? ==> r.error == UnsupportedMethod(tok)
  {
    match MethodOfToken(tok)
    case Some(m) => Success(req.(httpMethod := m))
    case None => Failure(UnsupportedMethod(tok))
  }

  lemma NamesAreNulFree(m: Methods.HttpMethod)
    ensures '\0' !in Methods.Name(m)
  {
  }

  /** Each of the nine method names maps to its own method. */
  lemma MethodNamesRecognised(m: Methods.HttpMethod)
    ensures MethodOfToken(Methods.Name(m)) == Some(m)
  {
    var n := Methods.Name(m);
    NamesAreNulFree(m);
    forall m' | '\0' !in Methods.Name(m')
      ensures StrnEqual(Methods.Name(m'), n) <==> n <= Methods.Name(m')
    {
      StrnEqualIsPrefix(Methods.Name(m'), n);
    }
    NamesAreNulFree(Methods.Get);
    NamesAreNulFree(Methods.Head);
    NamesAreNulFree(Methods.Post);
    NamesAreNulFree(Methods.Put);
    NamesAreNulFree(Methods.Delete);
    NamesAreNulFree(Methods.Connect);
    NamesAreNulFree(Methods.Options);
    NamesAreNulFree(Methods.Trace);
    NamesAreNulFree(Methods.Patch);
  }

  /** A NUL-free token is accepted exactly when it is a prefix of one of the
      nine names, and the method chosen is one whose name it prefixes. */
  lemma MethodTokenAccepted(tok: string)
    requires '\0' !in tok
    ensures MethodOfToken(tok).Some? <==> exists m :: tok <= Methods.Name(m)
    ensures MethodOfToken(tok).Some? ==> tok <= Methods.Name(MethodOfToken(tok).value)
  {
    forall m
      ensures StrnEqual(Methods.Name(m), tok) <==> tok <= Methods.Name(m)
    {
      NamesAreNulFree(m);
      StrnEqualIsPrefix(Methods.Name(m), tok);
    }
    assert Methods.Name(Methods.Get) == "GET";
    assert Methods.Name(Methods.Head) == "HEAD";
    assert Methods.Name(Methods.Post) == "POST";
    assert Methods.Name(Methods.Put) == "PUT";
    assert Methods.Name(Methods.Delete) == "DELETE";
    assert Methods.Name(Methods.Connect) == "CONNECT";
    assert Methods.Name(Methods.Options) == "OPTIONS";
    assert Methods.Name(Methods.Trace) == "TRACE";
    assert Methods.Name(Methods.Patch) == "PATCH";
  }

  /** Because the comparison is bounded by the token's length, truncated
      names are accepted: `GE` and the empty token both select GET, and `P`
      selects POST. */
  lemma TruncatedMethodTokens()
    ensures MethodOfToken("GE") == Some(Methods.Get)
    ensures MethodOfToken("") == Some(Methods.Get)
    ensures MethodOfToken("P") == Some(Methods.Post)
  {
    assert MethodOfToken("GE") == Some(Methods.Get) by {
      assert "GE" <= "GET";
    }
    assert MethodOfToken("P") == Some(Methods.Post) by {
      assert !StrnEqual("GET", "P") && !StrnEqual("HEAD", "P");
      assert "P" <= "POST";
    }
  }

  /** The comparison is case-sensitive and reads at most the name and its
      NUL: a lower-case or over-long token is rejected. */
  lemma RejectedMethodTokens()
    ensures MethodOfToken("get") == None
    ensures MethodOfToken("GETS") == None
  {
    assert MethodOfToken("get") == None by {
      assert "get"[0] == 'g';
    }
    assert MethodOfToken("GETS") == None by {
      assert !StrnEqual("", "S");
      assert "GETS"[1..] == "ETS" && "GET"[1..] == "ET";
    }
  }

  // ---------------------------------------------------------------------------
  // on_url
  // ---------------------------------------------------------------------------

  /** The split done by the pattern `^([^?]*)(\?([^#]*))?`: the path is
      everything before the first `?`; the query is what follows that `?` up
      to the first `#`, and is empty when there is no `?`. */
  function SplitUrl(url: string): (r: (string, string))
    ensures r.0 <= url && '?' !in r.0
    ensures |r.0| == |url| ==> r.1 == ""
    ensures |r.0| < |url| ==> url[|r.0|] == '?' && '#' !in r.1 && r.1 <= url[|r.0| + 1..]
    ensures |r.0| < |url| && |r.0| + 1 + |r.1| < |url| ==> url[|r.0| + 1 + |r.1|] == '#'
  {
    var path := TakeUntil(url, '?');
    if |path| == |url| then (path, "")
    else (path, TakeUntil(url[|path| + 1..], '#'))
  }

  /** The facts `SplitUrl` ensures determine it: any path and query that
      stop where the pattern's groups stop are the split. */
  lemma SplitUrlUnique(url: string, path: string, query: string)
    requires path <= url && '?' !in path
    requires |path| == |url| ==> query == ""
    requires |path| < |url| ==> url[|path|] == '?' && '#' !in query && query <= url[|path| + 1..]
    requires |path| < |url| && |path| + 1 + |query| < |url| ==> url[|path| + 1 + |query|] == '#'
    ensures SplitUrl(url) == (path, query)
  {
    TakeUntilUnique(url, '?', path);
    if |path| < |url| {
      var rest := url[|path| + 1..];
      assert |query| < |rest| ==> rest[|query|] == '#';
      TakeUntilUnique(rest, '#', query);
    }
  }

  /** Without a fragment, the path, a `?` and the query put back together
      give the URL. */
  lemma UrlRecompose(url: string)
    requires '?' in url && '#' !in url
    ensures SplitUrl(url).0 + "?" + SplitUrl(url).1 == url
  {
    var p := TakeUntil(url, '?');
    TakeUntilPresent(url, '?');
    var rest := url[|p| + 1..];
    TakeUntilAbsent(rest, '#');
    assert SplitUrl(url) == (p, rest);
    JoinAround(url, |p|, p, rest);
  }

  /** A string is its part before `i`, the character at `i`, and the rest. */
  lemma JoinAround(s: string, i: nat, before: string, after: string)
    requires i < |s| && before == s[..i] && after == s[i + 1..]
    ensures before + [s[i]] + after == s
  {
  }

  /** A path without `?` and a query without `#` are recovered from their join. */
  lemma UrlSplitRoundTrip(path: string, query: string)
    requires '?' !in path && '#' !in query
    ensures SplitUrl(path + "?" + query) == (path, query)
  {
    var url := path + "?" + query;
    TakeUntilStops(path, '?', query);
    assert url[|path| + 1..] == query;
    TakeUntilAbsent(query, '#');
  }

  /** The two shapes of URL the request line carries in practice: without a
      `?` it is all path, and without a `#` it is path, `?`, query. */
  lemma SplitUrlCases(url: string)
    ensures '?' !in url ==> SplitUrl(url) == (url, "")
    ensures '?' in url && '#' !in url ==> SplitUrl(url).0 + "?" + SplitUrl(url).1 == url
  {
    if '?' !in url {
      TakeUntilAbsent(url, '?');
    } else if '#' !in url {
      UrlRecompose(url);
    }
  }

  /** `on_url`: the raw URL and its decomposition are stored, nothing else
      changes. The path runs to the first `?`; after that `?` the query runs
      to the first `#` or the end. A URL without `?` is all path; one with a
      `?` and no `#` is the path, the `?` and the query. */
  function OnUrl(req: HttpRequest, tok: string): (r: HttpRequest)
    ensures r == req.(url := tok, path := r.path, query := r.query)
    ensures r.path <= tok && '?' !in r.path
    ensures |r.path| < |tok| ==> tok[|r.path|] == '?' && r.query <= tok[|r.path| + 1..] && '#' !in r.query
    ensures |r.path| < |tok| && |r.path| + 1 + |r.query| < |tok| ==> tok[|r.path| + 1 + |r.query|] == '#'
    ensures '?' !in tok ==> r.path == tok && r.query == ""
    ensures '?' in tok && '#' !in tok ==> r.path + "?" + r.query == tok
  {
    SplitUrlCases(tok);
    var (path, query) := SplitUrl(tok);
    req.(url := tok, path := path, query := query)
  }

  // ---------------------------------------------------------------------------
  // on_header_field / on_header_value
  // ---------------------------------------------------------------------------

  /** The host part of a `Host` value: everything before the first `:`. */
  function HostOf(value: string): (h: string)
    ensures h <= value && ':' !in h
    ensures |h| < |value| ==> value[|h|] == ':'
    ensures ':' !in value ==> h == value
  {
    TakeUntil(value, ':')
  }

  /** A `host:port` value yields the host. */
  lemma HostOfWithPort(host: string, port: string)
    requires ':' !in host
    ensures HostOf(host + ":" + port) == host
  {
    TakeUntilStops(host, ':', port);
  }

  /** `on_header_field`: an entry with an empty value is inserted, which
      changes nothing if the name is already present. */
  function OnHeaderField(req: HttpRequest, field: string): (r: HttpRequest)
    ensures Contains(r.headers, field)
    ensures r == req.(headers := r.headers)
    ensures Valid(req.headers) ==> Valid(r.headers)
    ensures Contains(req.headers, field) ==> r == req
    ensures Valid(req.headers) && !Contains(req.headers, field) ==> Get(r.headers, field) == Some("")
    ensures forall m :: Lower(m) != Lower(field) ==> Get(r.headers, m) == Get(req.headers, m)
  {
    var h := Set(req.headers, field, "");
    assert !Contains(req.headers, field) ==> h.entries[|req.headers.entries|].key == Lower(field);
    assert Valid(req.headers) && !Contains(req.headers, field) ==> Get(h, field) == Some("") by {
      if Valid(req.headers) {
        SetThenGet(req.headers, field, "", field);
      }
    }
    assert forall m :: Lower(m) != Lower(field) ==> Get(h, m) == Get(req.headers, m) by {
      forall m | Lower(m) != Lower(field)
        ensures Get(h, m) == Get(req.headers, m)
      {
        SetKeepsOthers(req.headers, field, "", m);
      }
    }
    req.(headers := h)
  }

  /** `on_header_value` for the entry the preceding field created or found:
      the value is stored only if the entry's value is still empty (otherwise
      the source logs a warning and drops it); if the entry's key is `host`,
      the request's host is set from this value either way. */
  function OnHeaderValue(req: HttpRequest, field: string, value: string): (r: HttpRequest)
    requires Contains(req.headers, field)
    ensures r == req.(headers := r.headers, host := r.host)
    ensures Valid(req.headers) ==> Valid(r.headers)
    ensures Valid(req.headers) ==>
      Get(r.headers, field) == (if Get(req.headers, field) == Some("") then Some(value) else Get(req.headers, field))
    ensures Valid(req.headers) ==> forall m :: Lower(m) != Lower(field) ==> Get(r.headers, m) == Get(req.headers, m)
    ensures Lower(field) == "host" ==> r.host == HostOf(value) && ':' !in r.host
    ensures Lower(field) != "host" ==> r.host == req.host
  {
    var key := Lower(field);
    var h := if Get(req.headers, field) == Some("") then UpdateValue(req.headers, key, value) else req.headers;
    var host := if key == "host" then HostOf(value) else req.host;
    assert Valid(req.headers) && Get(req.headers, field) == Some("") ==>
      Get(h, field) == Some(value)
      && forall m :: Lower(m) != Lower(field) ==> Get(h, m) == Get(req.headers, m) by {
      if Valid(req.headers) && Get(req.headers, field) == Some("") {
        UpdateThenGet(req.headers, field, value, field);
        forall m | Lower(m) != Lower(field)
          ensures Get(h, m) == Get(req.headers, m)
        {
          UpdateThenGet(req.headers, field, value, m);
        }
      }
    }
    req.(headers := h, host := host)
  }

  /** One header as the tokenizer reports it: its field, then its value. */
  function OnHeader(req: HttpRequest, field: string, value: string): (r: HttpRequest)
    ensures r == req.(headers := r.headers, host := r.host)
    ensures Contains(r.headers, field)
    ensures Valid(req.headers) ==> Valid(r.headers)
    ensures Lower(field) != "host" ==> r.host == req.host
  {
    OnHeaderValue(OnHeaderField(req, field), field, value)
  }

  /** Duplicate headers: the first non-empty value under a name (in any
      spelling) is kept and later values are dropped; other names are not
      touched; the host follows every `Host` value seen. */
  lemma HeaderFirstNonEmptyWins(req: HttpRequest, field: string, value: string, m: string)
    requires Valid(req.headers)
    ensures var r := OnHeader(req, field, value);
      && (Lower(m) == Lower(field) ==>
            Get(r.headers, m) == (if Get(req.headers, field).Some? && Get(req.headers, field).value != ""
                                  then Get(req.headers, field) else Some(value)))
      && (Lower(m) != Lower(field) ==> Get(r.headers, m) == Get(req.headers, m))
      && Size(r.headers) == Size(req.headers) + (if Contains(req.headers, field) then 0 else 1)
      && r.host == (if Lower(field) == "host" then HostOf(value) else req.host)
  {
    var f := OnHeaderField(req, field);
    SetThenGet(req.headers, field, "", field);
    if Lower(m) == Lower(field) {
      SetThenGet(req.headers, field, "", m);
    } else {
      SetKeepsOthers(req.headers, field, "", m);
    }
    if Get(f.headers, field) == Some("") {
      UpdateThenGet(f.headers, field, value, m);
    }
  }

  // ---------------------------------------------------------------------------
  // on_version
  // ---------------------------------------------------------------------------

  /** The shape `^(\d+)\.(\d+)$`: digits, one dot, digits. */
  predicate IsVersionToken(tok: string) {
    var major := TakeUntil(tok, '.');
    && 0 < |major| < |tok| - 1
    && AllDigits(major)
    && AllDigits(tok[|major| + 1..])
  }

  /** `on_version`: a `major.minor` token sets both numbers (`atoi` stored in
      a 16-bit field); any other token leaves the request as it was and does
      not fail the parse. */
  function OnVersion(req: HttpRequest, tok: string): (r: HttpRequest)
    ensures r == req.(version := r.version)
    ensures !IsVersionToken(tok) ==> r == req
  {
    if IsVersionToken(tok) then
      var major := TakeUntil(tok, '.');
      req.(version := Version(DigitsValue(major) % 0x1_0000, DigitsValue(tok[|major| + 1..]) % 0x1_0000))
    else req
  }

  /** Any two non-empty digit strings joined by a dot are read as the version
      they spell, each number reduced to 16 bits. */
  lemma VersionDigits(req: HttpRequest, major: string, minor: string)
    requires |major| > 0 && |minor| > 0 && AllDigits(major) && AllDigits(minor)
    ensures OnVersion(req, major + "." + minor).version
         == Version(DigitsValue(major) % 0x1_0000, DigitsValue(minor) % 0x1_0000)
  {
    var tok := major + "." + minor;
    assert '.' !in major;
    TakeUntilStops(major, '.', minor);
    assert tok[|major| + 1..] == minor;
  }

  lemma Decimal16(a: uint16)
    ensures DigitsValue(Decimal(a)) % 0x1_0000 == a
  {
    DecimalRoundTrip(a);
  }

  /** Rendering two numbers as `a.b` and reading them back gives them again. */
  lemma VersionRoundTrip(req: HttpRequest, a: uint16, b: uint16)
    ensures OnVersion(req, Decimal(a) + "." + Decimal(b)).version == Version(a, b)
  {
    var da, db := Decimal(a), Decimal(b);
    VersionDigits(req, da, db);
    Decimal16(a);
    Decimal16(b);
  }

  // ---------------------------------------------------------------------------
  // The parse as a whole
  // ---------------------------------------------------------------------------

  /** What the tokenizer reports, in order. */
  datatype Token =
    | MethodToken(text: string)
    | UrlToken(text: string)
    | VersionToken(text: string)
    | HeaderToken(field: string, value: string)

  function Apply(req: HttpRequest, t: Token): (r: Result<HttpRequest, ParseError>)
    ensures Valid(req.headers) && r.Success? ==> Valid(r.value.headers)
    ensures r.Failure? <==> t.MethodToken? && MethodOfToken(t.text).None?
  {
    match t
    case MethodToken(s) => OnMethod(req, s)
    case UrlToken(s) => Success(OnUrl(req, s))
    case VersionToken(s) => Success(OnVersion(req, s))
    case HeaderToken(f, v) => Success(OnHeader(req, f, v))
  }

  /** Runs the callbacks over the tokens, stopping at the first failure (the
      tokenizer then reports a user error and `parse` returns false). */
  function Parse(req: HttpRequest, ts: seq<Token>): (r: Result<HttpRequest, ParseError>)
    ensures Valid(req.headers) && r.Success? ==> Valid(r.value.headers)
    decreases |ts|
  {
    if |ts| == 0 then Success(req)
    else match Apply(req, ts[0])
      case Failure(e) => Failure(e)
      case Success(next) => Parse(next, ts[1..])
  }

  /** A parse fails exactly when one of its method tokens is not recognised,
      and then it reports that token. */
  lemma {:induction false} ParseFailsIffUnknownMethod(req: HttpRequest, ts: seq<Token>)
    ensures Parse(req, ts).Failure? <==>
      exists k :: 0 <= k < |ts| && ts[k].MethodToken? && MethodOfToken(ts[k].text).None?
    ensures Parse(req, ts).Failure? ==>
      exists k :: 0 <= k < |ts| && ts[k].MethodToken? && Parse(req, ts).error == UnsupportedMethod(ts[k].text)
    decreases |ts|
  {
    if |ts| > 0 {
      match Apply(req, ts[0])
      case Failure(e) =>
      case Success(next) =>
        ParseFailsIffUnknownMethod(next, ts[1..]);
        assert forall k :: 0 < k < |ts| ==> ts[k] == ts[1..][k - 1];
    }
  }

  /** Parsing from token `k` on is one callback, then parsing from `k + 1`. */
  lemma ParseAt(req: HttpRequest, ts: seq<Token>, k: nat, next: HttpRequest)
    requires k < |ts| && Apply(req, ts[k]) == Success(next)
    ensures Parse(req, ts[k..]) == Parse(next, ts[k + 1..])
  {
    assert ts[k..][0] == ts[k];
    assert ts[k..][1..] == ts[k + 1..];
  }

  /** Five callbacks in a row that all succeed. */
  lemma ParseFive(ts: seq<Token>, r0: HttpRequest, r1: HttpRequest, r2: HttpRequest, r3: HttpRequest,
                  r4: HttpRequest, r5: HttpRequest)
    requires |ts| == 5
    requires Apply(r0, ts[0]) == Success(r1) && Apply(r1, ts[1]) == Success(r2) && Apply(r2, ts[2]) == Success(r3)
    requires Apply(r3, ts[3]) == Success(r4) && Apply(r4, ts[4]) == Success(r5)
    ensures Parse(r0, ts) == Success(r5)
  {
    assert ts[0..] == ts;
    ParseAt(r0, ts, 0, r1);
    ParseAt(r1, ts, 1, r2);
    ParseAt(r2, ts, 2, r3);
    ParseAt(r3, ts, 3, r4);
    ParseAt(r4, ts, 4, r5);
    assert ts[5..] == [];
  }

  /** A request line followed by two headers, the method recognised: the
      parse is the five callbacks applied in order. */
  lemma ParseRequestLineAndTwoHeaders(start: HttpRequest, ts: seq<Token>, m: string, meth: Methods.HttpMethod,
                                      url: string, ver: string, f1: string, v1: string, f2: string, v2: string)
    requires MethodOfToken(m) == Some(meth)
    requires |ts| == 5 && ts[0] == MethodToken(m) && ts[1] == UrlToken(url) && ts[2] == VersionToken(ver)
    requires ts[3] == HeaderToken(f1, v1) && ts[4] == HeaderToken(f2, v2)
    ensures Parse(start, ts) ==
      Success(OnHeader(OnHeader(OnVersion(OnUrl(start.(httpMethod := meth), url), ver), f1, v1), f2, v2))
  {
    var r1 := start.(httpMethod := meth);
    var r2 := OnUrl(r1, url);
    var r3 := OnVersion(r2, ver);
    var r4 := OnHeader(r3, f1, v1);
    var r5 := OnHeader(r4, f2, v2);
    ParseFive(ts, start, r1, r2, r3, r4, r5);
  }

  lemma ExampleUrl(req: HttpRequest)
    ensures OnUrl(req, "/hello" + "?" + "param=123&test=abc").path == "/hello"
    ensures OnUrl(req, "/hello" + "?" + "param=123&test=abc").query == "param=123&test=abc"
  {
    UrlSplitRoundTrip("/hello", "param=123&test=abc");
  }

  lemma ExampleVersion(req: HttpRequest)
    ensures OnVersion(req, "1" + "." + "1").version == Version(1, 1)
  {
    assert Decimal(1) == "1";
    VersionRoundTrip(req, 1, 1);
  }

  lemma ExampleHost(req: HttpRequest)
    requires Valid(req.headers) && !Contains(req.headers, "host")
    ensures OnHeader(req, "Host", "localhost" + ":" + "8080").host == "localhost"
    ensures Get(OnHeader(req, "Host", "localhost" + ":" + "8080").headers, "host") == Some("localhost" + ":" + "8080")
  {
    assert Lower("Host") == "host";
    assert Lower("host") == "host";
    HostOfWithPort("localhost", "8080");
    HeaderFirstNonEmptyWins(req, "Host", "localhost" + ":" + "8080", "host");
  }

  lemma ExampleHeaderName(req: HttpRequest)
    requires Valid(req.headers) && !Contains(req.headers, "HeaderName")
    ensures OnHeader(req, "HeaderName", "header value").host == req.host
    ensures Get(OnHeader(req, "HeaderName", "header value").headers, "HeaderName") == Some("header value")
    ensures Get(OnHeader(req, "HeaderName", "header value").headers, "host") == Get(req.headers, "host")
  {
    assert Lower("HeaderName") == "headername";
    assert Lower("host") == "host";
    HeaderFirstNonEmptyWins(req, "HeaderName", "header value", "HeaderName");
    HeaderFirstNonEmptyWins(req, "HeaderName", "header value", "host");
  }

  lemma ExampleMethod(req: HttpRequest)
    ensures Apply(req, MethodToken("GET")) == Success(req.(httpMethod := Methods.Get))
  {
    MethodNamesRecognised(Methods.Get);
    assert Methods.Name(Methods.Get) == "GET";
  }

  /** The two headers of the example below, on a request with no headers yet. */
  lemma ExampleHeaders(r3: HttpRequest, r4: HttpRequest, r5: HttpRequest)
    requires r3.headers == EmptyHeader()
    requires r4 == OnHeader(r3, "Host", "localhost" + ":" + "8080")
    requires r5 == OnHeader(r4, "HeaderName", "header value")
    ensures r5 == r3.(headers := r5.headers, host := r5.host)
    ensures r5.host == "localhost"
    ensures Get(r5.headers, "host") == Some("localhost" + ":" + "8080")
    ensures Get(r5.headers, "HeaderName") == Some("header value")
  {
    ExampleHost(r3);
    assert !Contains(r4.headers, "HeaderName") by {
      assert Size(r4.headers) == 1;
      assert |r4.headers.entries[0].key| == |"Host"| != |Lower("HeaderName")|;
    }
    ExampleHeaderName(r4);
  }

  /** The request of the server test `test_get_simple_text`, reduced to the
      two headers the test asserts: `GET /hello?param=123&test=abc HTTP/1.1`
      with `Host: localhost:8080` and `HeaderName: header value`. curl also
      sends `User-Agent` and `Accept` between them; those names are distinct,
      so they change neither asserted field. */
  lemma GetHelloExample(start: HttpRequest, tokens: seq<Token>)
    requires start == NewRequest()
    requires tokens == [
        MethodToken("GET"), UrlToken("/hello" + "?" + "param=123&test=abc"), VersionToken("1" + "." + "1"),
        HeaderToken("Host", "localhost" + ":" + "8080"), HeaderToken("HeaderName", "header value")]
    ensures var r := Parse(start, tokens);
      && r.Success?
      && r.value.httpMethod == Methods.Get
      && r.value.url == "/hello" + "?" + "param=123&test=abc"
      && r.value.path == "/hello"
      && r.value.query == "param=123&test=abc"
      && r.value.version == Version(1, 1)
      && r.value.host == "localhost"
      && Get(r.value.headers, "host") == Some("localhost" + ":" + "8080")
      && Get(r.value.headers, "HeaderName") == Some("header value")
  {
    var url, ver := "/hello" + "?" + "param=123&test=abc", "1" + "." + "1";
    var host := "localhost" + ":" + "8080";
    MethodNamesRecognised(Methods.Get);
    assert Methods.Name(Methods.Get) == "GET";
    ParseRequestLineAndTwoHeaders(start, tokens, "GET", Methods.Get, url, ver, "Host", host, "HeaderName", "header value");
    var r1 := start.(httpMethod := Methods.Get);
    var r2 := OnUrl(r1, url);
    ExampleUrl(r1);
    var r3 := OnVersion(r2, ver);
    ExampleVersion(r2);
    var r4 := OnHeader(r3, "Host", host);
    var r5 := OnHeader(r4, "HeaderName", "header value");
    ExampleHeaders(r3, r4, r5);
  }
}
