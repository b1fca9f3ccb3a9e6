/**
 * The client page `Home`: its tokenizer, the `?url=` fallback that turns a
 * pasted URL into a domain, and the state the lookup and back actions change.
 *
 * `fetch` followed by `res.json()` is the parameter `fetch`, a function from
 * the request's `domain` parameter to a parsed body or a failure; the
 * translated failure text `t("home.queryFailed")` is the parameter
 * `failedMessage`; the `new URL(...).hostname` parse is the parameter
 * `hostname`, which gives `None` when the constructor throws.
 */
module HomeView {
  import opened Wrappers
  import Text
  import WhoisRoute
  import Expiry

  /** The separators of `split(/[\n,]/)`. */
  const ClientSeparators: set<char> := {'\n', ','}

  /** `input.split(/[\n,]/).map((d) => d.trim()).filter((d) => d)`. */
  function ClientTokens(input: string): seq<string> {
    Text.Tokens(Text.SplitOn(input, ClientSeparators))
  }

  /** The `domain` parameter a lookup sends: the tokens joined by commas, or
      nothing when there are no tokens and `handleLookup` returns early. */
  function RequestParam(input: string): Option<string> {
    var tokens := ClientTokens(input);
    if tokens == [] then None else Some(Text.Join(tokens, ","))
  }

  /** The length of a leading `https://` or `http://`, else 0 (the anchored,
      case-sensitive `^https?:\/\/`). */
  function SchemeLength(s: string): nat {
    if |s| >= 8 && s[..8] == "https://" then 8
    else if |s| >= 7 && s[..7] == "http://" then 7
    else 0
  }

  /** The index of the first `/` in `s`, or `|s|` when there is none. */
  function SlashIndex(s: string): (i: nat)
    ensures i <= |s|
    ensures forall k :: 0 <= k < i ==> s[k] != '/'
    ensures i < |s| ==> s[i] == '/'
  {
    if s == [] || s[0] == '/' then 0 else 1 + SlashIndex(s[1..])
  }

  /** A position that has no `/` before it and a `/` (or the end) at it is the
      first slash. */
  lemma SlashIndexAt(s: string, i: nat)
    requires i <= |s| && (i < |s| ==> s[i] == '/')
    requires forall k :: 0 <= k < i ==> s[k] != '/'
    ensures SlashIndex(s) == i
  {
  }

  /** `s.replace(/^https?:\/\//, "").split("/")[0]`. */
  function UrlFallback(s: string): string {
    var rest := s[SchemeLength(s)..];
    rest[..SlashIndex(rest)]
  }

  /** What a finished lookup leaves in `results`: the parsed body, or on a
      fetch or parse failure the single entry `error ↦ {found: false, error}`. */
  datatype FetchOutcome = Fetched(body: WhoisRoute.Body) | FetchFailed

  function ResultsAfter(outcome: FetchOutcome, failedMessage: string): WhoisRoute.Body {
    match outcome
    case Fetched(body) => body
    case FetchFailed => WhoisRoute.Entries(map["error" := WhoisRoute.Failed(Some(false), failedMessage)])
  }

  datatype ViewMode = Card | List

  /** The state of the `Home` component: its `useState` values and the
      `hasProcessedUrl` ref. */
  class Home {
    var domains: string
    var results: Option<WhoisRoute.Body>
    var loading: bool
    var showResults: bool
    var viewMode: ViewMode
    var sortBy: Expiry.SortBy
    var hasProcessedUrl: bool

    constructor ()
      ensures domains == "" && results == None && !loading && !showResults
      ensures viewMode == Card && sortBy == Expiry.ExpiresAsc && !hasProcessedUrl
    {
      domains := "";
      results := None;
      loading := false;
      showResults := false;
      viewMode := Card;
      sortBy := Expiry.ExpiresAsc;
      hasProcessedUrl := false;
    }

    /** `handleLookup(domainOverride)`: with no tokens nothing changes and no
        request is sent; otherwise the request carries the joined tokens and
        the view ends showing its outcome, no longer loading. */
    method Lookup(domainOverride: Option<string>, fetch: string -> FetchOutcome, failedMessage: string)
      returns (request: Option<string>)
      modifies this
      ensures request == RequestParam(domainOverride.GetOr(old(domains)))
      ensures request.None? ==>
        && results == old(results) && loading == old(loading) && showResults == old(showResults)
      ensures request.Some? ==>
        && results == Some(ResultsAfter(fetch(request.value), failedMessage))
        && showResults && !loading
      ensures domains == old(domains) && viewMode == old(viewMode) && sortBy == old(sortBy)
      ensures hasProcessedUrl == old(hasProcessedUrl)
    {
      var domainInput := domainOverride.GetOr(domains);
      ghost var expected := RequestParam(domainInput);
      if Text.Trim(domainInput) == "" {
        ClientTokensShape(domainInput);
        assert expected == None;
        return None;
      }
      var domainList := ClientTokens(domainInput);
      if |domainList| == 0 {
        assert expected == None;
        return None;
      }
      assert expected == Some(Text.Join(domainList, ","));
      var domainParam := Text.Join(domainList, ",");
      request := Some(domainParam);
      Fetch(domainParam, fetch, failedMessage);
    }

    /** The request itself: loading while it is pending, then either the parsed
        body or the failure entry, shown. */
    method Fetch(domainParam: string, fetch: string -> FetchOutcome, failedMessage: string)
      modifies this
      ensures results == Some(ResultsAfter(fetch(domainParam), failedMessage))
      ensures showResults && !loading
      ensures domains == old(domains) && viewMode == old(viewMode) && sortBy == old(sortBy)
      ensures hasProcessedUrl == old(hasProcessedUrl)
    {
      loading := true;
      results := None;
      match fetch(domainParam) {
        case Fetched(data) =>
          results := Some(data);
          showResults := true;
        case FetchFailed =>
          results := Some(WhoisRoute.Entries(map["error" := WhoisRoute.Failed(Some(false), failedMessage)]));
          showResults := true;
      }
      loading := false;
    }

    /** `handleBack`: leave the results view and drop the results, keeping the
        input text, the view mode and the sort order. */
    method Back()
      modifies this
      ensures !showResults && results == None
      ensures domains == old(domains) && viewMode == old(viewMode) && sortBy == old(sortBy)
      ensures loading == old(loading) && hasProcessedUrl == old(hasProcessedUrl)
    {
      showResults := false;
      results := None;
    }

    /** The `?url=` effect: once only, take the trimmed parameter's host name
        (or the fallback when it does not parse as a URL), put it in the input
        and look it up. */
    method ProcessUrl(urlParam: Option<string>, hostname: string -> Option<string>,
                      fetch: string -> FetchOutcome, failedMessage: string)
      returns (request: Option<string>)
      modifies this
      ensures old(hasProcessedUrl) ==> hasProcessedUrl
      ensures !old(hasProcessedUrl) ==> (hasProcessedUrl <==> urlParam.Some? && urlParam.value != "")
      ensures old(hasProcessedUrl) || UrlTarget(urlParam, hostname).None? ==>
        && request.None?
        && domains == old(domains) && results == old(results) && loading == old(loading)
        && showResults == old(showResults)
      ensures !old(hasProcessedUrl) && UrlTarget(urlParam, hostname).Some? ==>
        && domains == UrlTarget(urlParam, hostname).value
        && request == RequestParam(domains)
        && (request.None? ==>
              results == old(results) && loading == old(loading) && showResults == old(showResults))
        && (request.Some? ==>
              results == Some(ResultsAfter(fetch(request.value), failedMessage)) && showResults && !loading)
      ensures viewMode == old(viewMode) && sortBy == old(sortBy)
    {
      request := None;
      if hasProcessedUrl {
        return;
      }
      if urlParam.Some? && urlParam.value != "" {
        hasProcessedUrl := true;
        var domainToCheck := Text.Trim(urlParam.value);
        match hostname(domainToCheck) {
          case Some(h) => domainToCheck := h;
          case None => domainToCheck := UrlFallback(domainToCheck);
        }
        if domainToCheck != "" {
          domains := domainToCheck;
          request := Lookup(Some(domainToCheck), fetch, failedMessage);
        }
      }
    }
  }

  /** The domain the `?url=` effect looks up, if any: the host name of the
      trimmed parameter, or its fallback, when the parameter is present and
      that name is non-empty. */
  function UrlTarget(urlParam: Option<string>, hostname: string -> Option<string>): (r: Option<string>)
    ensures r.Some? ==> r.value != "" && urlParam.Some? && urlParam.value != ""
  {
    if urlParam.None? || urlParam.value == "" then None
    else
      var trimmed := Text.Trim(urlParam.value);
      var host := hostname(trimmed).GetOr(UrlFallback(trimmed));
      if host == "" then None else Some(host)
  }

  // ---------------------------------------------------------------------------
  // Lemmas
  // ---------------------------------------------------------------------------

  /** Every client token is non-empty, trimmed, and holds neither a newline
      nor a comma; an input that trims to nothing yields no tokens. */
  lemma ClientTokensShape(input: string)
    ensures forall t :: t in ClientTokens(input) ==> Text.IsToken(t, ClientSeparators)
    ensures Text.Trim(input) == "" ==> ClientTokens(input) == []
  {
    Text.TokensAvoid(Text.SplitOn(input, ClientSeparators), ClientSeparators);
    if Text.Trim(input) == "" {
      Text.SplitOnBlank(input, ClientSeparators);
      Text.TokensOfBlank(Text.SplitOn(input, ClientSeparators));
    }
  }

  /** The server's `parseDomains` reads back exactly the client's token list
      from the parameter the client sends. */
  lemma RequestRoundTrip(input: string)
    requires RequestParam(input).Some?
    ensures WhoisRoute.ParseDomains(RequestParam(input).value) == ClientTokens(input)
  {
    var tokens := ClientTokens(input);
    ClientTokensShape(input);
    forall t | t in tokens ensures Text.IsToken(t, {','}) {
      assert Text.IsToken(t, ClientSeparators);
    }
    WhoisRoute.ParseDomainsJoin(tokens);
  }

  /** What the server answers a parameter that reads back as `tokens`. */
  lemma AnswerFor<D>(param: string, tokens: seq<string>, resolve: string -> WhoisRoute.Lookup<D>, toIso: D -> Option<string>)
    requires WhoisRoute.ParseDomains(param) == tokens && tokens != []
    ensures var invalid := WhoisRoute.InvalidDomains(tokens);
      invalid != [] ==>
        WhoisRoute.Handle(Some(param), resolve, toIso)
        == WhoisRoute.Response(400, WhoisRoute.ErrorMessage(WhoisRoute.InvalidDomainsPrefix + Text.Join(invalid, ", ")))
    ensures var invalid := WhoisRoute.InvalidDomains(tokens);
      invalid == [] ==>
        && WhoisRoute.Handle(Some(param), resolve, toIso).status == 200
        && WhoisRoute.Handle(Some(param), resolve, toIso).body.Entries?
        && WhoisRoute.Handle(Some(param), resolve, toIso).body.results.Keys == set t | t in tokens
  {
    var invalid := WhoisRoute.InvalidDomains(tokens);
    if invalid != [] {
      assert invalid[0] in invalid;
      WhoisRoute.HandleInvalid(param, resolve, toIso);
    } else {
      assert forall t :: t in tokens ==> !(t in invalid);
      WhoisRoute.HandleSuccess(param, resolve, toIso);
    }
  }

  /** What the server answers a request from the page: never "parameter
      required" nor "no domains"; 400 listing exactly the malformed tokens when
      there are any, otherwise 200 with one key per distinct client token. */
  lemma RequestOutcome<D>(input: string, resolve: string -> WhoisRoute.Lookup<D>, toIso: D -> Option<string>)
    requires RequestParam(input).Some?
    ensures var invalid := WhoisRoute.InvalidDomains(ClientTokens(input));
      invalid != [] ==>
        WhoisRoute.Handle(RequestParam(input), resolve, toIso)
        == WhoisRoute.Response(400, WhoisRoute.ErrorMessage(WhoisRoute.InvalidDomainsPrefix + Text.Join(invalid, ", ")))
    ensures var invalid := WhoisRoute.InvalidDomains(ClientTokens(input));
      invalid == [] ==>
        && WhoisRoute.Handle(RequestParam(input), resolve, toIso).status == 200
        && WhoisRoute.Handle(RequestParam(input), resolve, toIso).body.Entries?
        && WhoisRoute.Handle(RequestParam(input), resolve, toIso).body.results.Keys == set t | t in ClientTokens(input)
  {
    RequestRoundTrip(input);
    AnswerFor(RequestParam(input).value, ClientTokens(input), resolve, toIso);
  }

  /** The fallback leaves no `/`, and it is what lies between at most one
      leading `http://` or `https://` and the first `/` after it. */
  lemma UrlFallbackShape(s: string)
    ensures '/' !in UrlFallback(s)
    ensures var n := SchemeLength(s);
      && n in {0, 7, 8}
      && (n == 8 <==> |s| >= 8 && s[..8] == "https://")
      && (n == 7 <==> |s| >= 7 && s[..7] == "http://")
      && s[n..][..|UrlFallback(s)|] == UrlFallback(s)
      && (n + |UrlFallback(s)| < |s| ==> s[n + |UrlFallback(s)|] == '/')
  {
    var rest := s[SchemeLength(s)..];
    var r := UrlFallback(s);
    assert forall k :: 0 <= k < |r| ==> r[k] == rest[k] && r[k] != '/';
    if |s| >= 8 && s[..8] == "https://" {
      assert s[..7][4] == 's' != "http://"[4];
    }
  }

  /** The text after the scheme, up to a `/` or the end, is the fallback. */
  lemma FallbackAfter(s: string, n: nat, host: string, path: string)
    requires SchemeLength(s) == n && n <= |s| && s[n..] == host + path
    requires '/' !in host && (path == "" || path[0] == '/')
    ensures UrlFallback(s) == host
  {
    SlashIndexAt(host + path, |host|);
    assert (host + path)[..|host|] == host;
  }

  /** `https://` is removed. */
  lemma FallbackOfHttps(host: string, path: string)
    requires '/' !in host && (path == "" || path[0] == '/')
    ensures UrlFallback("https://" + host + path) == host
  {
    var s := "https://" + host + path;
    assert s[..8] == "https://";
    assert s[8..] == host + path;
    FallbackAfter(s, 8, host, path);
  }

  /** `http://` is removed, once. */
  lemma FallbackOfHttp(host: string, path: string)
    requires '/' !in host && (path == "" || path[0] == '/')
    ensures UrlFallback("http://" + host + path) == host
  {
    var s := "http://" + host + path;
    assert s[4] == ':';
    assert |s| >= 8 ==> s[..8] != "https://" by {
      if |s| >= 8 { assert s[..8][4] != "https://"[4]; }
    }
    assert s[..7] == "http://";
    assert s[7..] == host + path;
    FallbackAfter(s, 7, host, path);
  }

  /** Text that does not start with a lower-case `h` keeps its prefix. */
  lemma FallbackWithoutScheme(host: string, path: string)
    requires '/' !in host && (path == "" || path[0] == '/')
    requires host != "" && host[0] != 'h'
    ensures UrlFallback(host + path) == host
  {
    var s := host + path;
    assert s[0] == host[0];
    assert |s| >= 8 ==> s[..8] != "https://" by {
      if |s| >= 8 { assert s[..8][0] != "https://"[0]; }
    }
    assert |s| >= 7 ==> s[..7] != "http://" by {
      if |s| >= 7 { assert s[..7][0] != "http://"[0]; }
    }
    assert s[0..] == s;
    FallbackAfter(s, 0, host, path);
  }

  /** The scheme and the path are removed. */
  lemma UrlFallbackHttps()
    ensures UrlFallback("https://example.com/path") == "example.com"
  {
    FallbackOfHttps("example.com", "/path");
    assert "https://" + "example.com" + "/path" == "https://example.com/path";
  }

  /** Only one scheme is removed. */
  lemma UrlFallbackOneScheme()
    ensures UrlFallback("http://http://example.com") == "http:"
  {
    FallbackOfHttp("http:", "//example.com");
    assert "http://" + "http:" + "//example.com" == "http://http://example.com";
  }

  /** The scheme is matched case-sensitively. */
  lemma UrlFallbackCaseSensitive()
    ensures UrlFallback("HTTP://example.com") == "HTTP:"
  {
    FallbackWithoutScheme("HTTP:", "//example.com");
    assert "HTTP:" + "//example.com" == "HTTP://example.com";
  }
}
