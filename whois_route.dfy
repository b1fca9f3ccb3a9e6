/**
 * The `GET /api/whois?domain=<list>` handler: it tokenizes the comma list,
 * validates it in three steps, then looks up every domain and collects one
 * entry per domain into a keyed record, turning each lookup failure into an
 * error entry for that domain only.
 *
 * The WHOIS/RDAP client is the parameter `resolve`, a function from a domain
 * to a failure or the client's record. The client's `Date` is the type
 * parameter `D`, and `Date.prototype.toISOString` is the parameter `toIso`,
 * which gives `None` when it would throw (an invalid date).
 */
module WhoisRoute {
  import opened Wrappers
  import Text
  import DomainGrammar

  datatype Registrar = Registrar(id: string, name: string, email: Option<string>, reseller: Option<string>)

  /** The dates the lookup client reports, each possibly absent. */
  datatype Timestamps<D> = Timestamps(created: Option<D>, updated: Option<D>, expires: Option<D>)

  /** The lookup client's result record: only the fields the handler reads. */
  datatype ClientRecord<D> = ClientRecord(
    found: bool,
    registrar: Option<Registrar>,
    status: Option<seq<string>>,
    nameservers: Option<seq<string>>,
    ts: Option<Timestamps<D>>)

  /** One call of the lookup client: it rejects, or it resolves to a record. */
  datatype Lookup<D> = Rejected | Resolved(record: ClientRecord<D>)

  /** The `ts` object of a response entry: ISO-8601 strings, each possibly absent. */
  datatype IsoTimes = IsoTimes(created: Option<string>, updated: Option<string>, expires: Option<string>)

  /** What `queryWhois` returns. */
  datatype WhoisInfo = WhoisInfo(
    found: bool,
    registrar: Option<Registrar>,
    status: Option<seq<string>>,
    nameservers: Option<seq<string>>,
    ts: IsoTimes)

  /** One value of the result record: a lookup's data, or an error object
      (`found` is absent in the handler's error objects). */
  datatype DomainEntry = Info(info: WhoisInfo) | Failed(found: Option<bool>, error: string)

  /** A JSON response body: an error object, or the record keyed by domain. */
  datatype Body = ErrorMessage(error: string) | Entries(results: map<string, DomainEntry>)

  datatype Response = Response(status: int, body: Body)

  const MissingParameterMessage := "Domain parameter is required"
  const NoDomainsMessage := "Invalid domain format"
  const InvalidDomainsPrefix := "Invalid domain format: "
  /** The per-domain failure text, "查询失败" ("query failed"). */
  const LookupFailedMessage := "\U{67E5}\U{8BE2}\U{5931}\U{8D25}"

  /** The three dates of a `ts` object, named. */
  datatype DateField = Created | Updated | Expires

  function Supplied<D>(ts: Option<Timestamps<D>>, f: DateField): Option<D> {
    match ts
    case None => None
    case Some(t) =>
      match f
      case Created => t.created
      case Updated => t.updated
      case Expires => t.expires
  }

  function Emitted(ts: IsoTimes, f: DateField): Option<string> {
    match f
    case Created => ts.created
    case Updated => ts.updated
    case Expires => ts.expires
  }

  /** `ts?.<field>?.toISOString()`: `Some(None)` when the date is absent,
      `Some(Some(iso))` when it converts, `None` when the conversion throws. */
  function ConvertDate<D>(d: Option<D>, toIso: D -> Option<string>): Option<Option<string>> {
    match d
    case None => Some(None)
    case Some(x) =>
      match toIso(x)
      case None => None
      case Some(iso) => Some(Some(iso))
  }

  /** The ISO date conversion succeeds for every date the client supplied. */
  ghost predicate DatesConvert<D>(ts: Option<Timestamps<D>>, toIso: D -> Option<string>) {
    forall f: DateField :: Supplied(ts, f).Some? ==> toIso(Supplied(ts, f).value).Some?
  }

  /** `queryWhois(domain)`: `None` when the awaited lookup rejects or a date
      conversion throws (the handler's inner `catch`), otherwise the reshaped
      record. */
  function QueryWhois<D>(domain: string, resolve: string -> Lookup<D>, toIso: D -> Option<string>): Option<WhoisInfo> {
    match resolve(domain)
    case Rejected => None
    case Resolved(c) =>
      var created := ConvertDate(Supplied(c.ts, Created), toIso);
      var updated := ConvertDate(Supplied(c.ts, Updated), toIso);
      var expires := ConvertDate(Supplied(c.ts, Expires), toIso);
      if created.None? || updated.None? || expires.None? then None
      else
        Some(WhoisInfo(c.found, c.registrar, c.status, c.nameservers,
                       IsoTimes(created.value, updated.value, expires.value)))
  }

  /** `queryWhois` fails exactly when the lookup rejects or a supplied date has
      no ISO form. Otherwise `found`, `registrar`, `status` and `nameservers`
      are copied, a `ts` object is always emitted, and each of its dates is
      present exactly when the client supplied it, as that date's ISO form:
      nothing is invented or defaulted. */
  lemma QueryWhoisShape<D>(domain: string, resolve: string -> Lookup<D>, toIso: D -> Option<string>)
    ensures var r := QueryWhois(domain, resolve, toIso);
      r.Some? <==> resolve(domain).Resolved? && DatesConvert(resolve(domain).record.ts, toIso)
    ensures var r := QueryWhois(domain, resolve, toIso);
      r.Some? ==>
        var c := resolve(domain).record;
        && r.value.found == c.found
        && r.value.registrar == c.registrar
        && r.value.status == c.status
        && r.value.nameservers == c.nameservers
        && forall f: DateField ::
             && (Emitted(r.value.ts, f).Some? <==> Supplied(c.ts, f).Some?)
             && (Supplied(c.ts, f).Some? ==> Some(Emitted(r.value.ts, f).value) == toIso(Supplied(c.ts, f).value))
  {
    if resolve(domain).Resolved? {
      var c := resolve(domain).record;
      if !DatesConvert(c.ts, toIso) {
        var f: DateField :| Supplied(c.ts, f).Some? && toIso(Supplied(c.ts, f).value).None?;
        assert ConvertDate(Supplied(c.ts, f), toIso).None?;
      }
      if DatesConvert(c.ts, toIso) {
        assert Supplied(c.ts, Created).None? || toIso(Supplied(c.ts, Created).value).Some?;
        assert Supplied(c.ts, Updated).None? || toIso(Supplied(c.ts, Updated).value).Some?;
        assert Supplied(c.ts, Expires).None? || toIso(Supplied(c.ts, Expires).value).Some?;
      }
    }
  }

  /** The value the handler stores for one domain: the reshaped record, or
      the failure object when `queryWhois` throws. */
  function EntryFor<D>(domain: string, resolve: string -> Lookup<D>, toIso: D -> Option<string>): DomainEntry {
    match QueryWhois(domain, resolve, toIso)
    case Some(info) => Info(info)
    case None => Failed(None, LookupFailedMessage)
  }

  /** `parseDomains(param)`: split on commas, trim, drop the empty pieces. */
  function ParseDomains(param: string): seq<string> {
    Text.Tokens(Text.SplitOn(param, {','}))
  }

  /** `domains.filter((d) => !isValidDomain(d))`: it holds exactly the
      malformed tokens. */
  function InvalidDomains(domains: seq<string>): (r: seq<string>)
    ensures forall d :: d in r <==> d in domains && !DomainGrammar.IsValidDomain(d)
  {
    if domains == [] then []
    else
      var rest := InvalidDomains(domains[1..]);
      assert domains == [domains[0]] + domains[1..];
      if DomainGrammar.IsValidDomain(domains[0]) then rest else [domains[0]] + rest
  }

  /** The record the lookup loop builds: one key per distinct domain. */
  function BatchResults<D>(domains: seq<string>, resolve: string -> Lookup<D>, toIso: D -> Option<string>): map<string, DomainEntry> {
    map d | d in domains :: EntryFor(d, resolve, toIso)
  }

  /** The handler as a function of the `domain` query parameter (`None` when
      it is absent). */
  function Handle<D>(param: Option<string>, resolve: string -> Lookup<D>, toIso: D -> Option<string>): Response {
    if param.None? || param.value == "" then
      Response(400, ErrorMessage(MissingParameterMessage))
    else
      var domains := ParseDomains(param.value);
      if |domains| == 0 then
        Response(400, ErrorMessage(NoDomainsMessage))
      else
        var invalid := InvalidDomains(domains);
        if |invalid| > 0 then
          Response(400, ErrorMessage(InvalidDomainsPrefix + Text.Join(invalid, ", ")))
        else
          Response(200, Entries(BatchResults(domains, resolve, toIso)))
  }

  /** `GET`: the validation cascade with its early returns, then the loop that
      writes `results[domain]` for each domain in turn (the concurrent
      `Promise.all` fan-out, run one domain after another). */
  method Get<D>(param: Option<string>, resolve: string -> Lookup<D>, toIso: D -> Option<string>) returns (response: Response)
    ensures response == Handle(param, resolve, toIso)
  {
    if param.None? || param.value == "" {
      return Response(400, ErrorMessage(MissingParameterMessage));
    }
    var domains := ParseDomains(param.value);
    if |domains| == 0 {
      return Response(400, ErrorMessage(NoDomainsMessage));
    }
    var invalid := InvalidDomains(domains);
    if |invalid| > 0 {
      return Response(400, ErrorMessage(InvalidDomainsPrefix + Text.Join(invalid, ", ")));
    }
    var results := LookUpAll(domains, resolve, toIso);
    response := Response(200, Entries(results));
  }

  /** The body of the `Promise.all` fan-out: every domain is looked up and its
      entry written under its own key, a failed lookup as the error object. */
  method LookUpAll<D>(domains: seq<string>, resolve: string -> Lookup<D>, toIso: D -> Option<string>)
    returns (results: map<string, DomainEntry>)
    ensures results == BatchResults(domains, resolve, toIso)
  {
    results := map[];
    var i := 0;
    assert domains[..0] == [];
    assert BatchResults([], resolve, toIso) == map[];
    while i < |domains|
      invariant 0 <= i <= |domains|
      invariant results == BatchResults(domains[..i], resolve, toIso)
    {
      var domain := domains[i];
      match QueryWhois(domain, resolve, toIso) {
        case Some(info) =>
          assert EntryFor(domain, resolve, toIso) == Info(info);
          results := results[domain := Info(info)];
        case None =>
          assert EntryFor(domain, resolve, toIso) == Failed(None, LookupFailedMessage);
          results := results[domain := Failed(None, LookupFailedMessage)];
      }
      BatchResultsSnoc(domains[..i], domain, resolve, toIso);
      assert domains[..i + 1] == domains[..i] + [domain];
      i := i + 1;
    }
    assert domains[..i] == domains;
  }

  /** Writing one more domain's entry extends the record by that key, and a
      repeated domain overwrites its own key with the same entry. */
  lemma BatchResultsSnoc<D>(domains: seq<string>, d: string, resolve: string -> Lookup<D>, toIso: D -> Option<string>)
    ensures BatchResults(domains + [d], resolve, toIso) == BatchResults(domains, resolve, toIso)[d := EntryFor(d, resolve, toIso)]
  {
    var m := BatchResults(domains + [d], resolve, toIso);
    var m' := BatchResults(domains, resolve, toIso)[d := EntryFor(d, resolve, toIso)];
    assert forall x :: x in domains + [d] <==> x in domains || x == d;
    assert m.Keys == m'.Keys;
  }

  // ---------------------------------------------------------------------------
  // Tokenizer lemmas
  // ---------------------------------------------------------------------------

  /** Every parsed domain is non-empty, trimmed and comma-free, and there are
      at most one more domains than commas. */
  lemma ParseDomainsTokens(param: string)
    ensures forall d :: d in ParseDomains(param) ==> Text.IsToken(d, {','})
    ensures |ParseDomains(param)| <= Text.CountIn(param, {','}) + 1
  {
    Text.TokensAvoid(Text.SplitOn(param, {','}), {','});
  }

  /** Parsing keeps input order: the list of `a + "," + b` is that of `a`
      followed by that of `b`. */
  lemma ParseDomainsAppend(a: string, b: string)
    ensures ParseDomains(a + "," + b) == ParseDomains(a) + ParseDomains(b)
  {
    Text.SplitOnAround(a, ',', b, {','});
    Text.TokensAppend(Text.SplitOn(a, {','}), Text.SplitOn(b, {','}));
  }

  /** Joining tokens with commas and parsing the result gives the tokens back. */
  lemma ParseDomainsJoin(domains: seq<string>)
    requires forall d :: d in domains ==> Text.IsToken(d, {','})
    ensures ParseDomains(Text.Join(domains, ",")) == domains
  {
    if domains != [] {
      Text.SplitOnJoin(domains, ',', {','});
      Text.TokensOfTokens(domains, {','});
    }
  }

  /** A value of only commas and whitespace parses to no domains. */
  lemma ParseDomainsBlank(param: string)
    requires forall k :: 0 <= k < |param| ==> Text.IsSpace(param[k]) || param[k] == ','
    ensures ParseDomains(param) == []
  {
    Text.SplitOnBlank(param, {','});
    Text.TokensOfBlank(Text.SplitOn(param, {','}));
  }

  /** Filtering keeps order: the failing tokens of `a + b` are those of `a`
      followed by those of `b`. */
  lemma {:induction false} InvalidDomainsAppend(a: seq<string>, b: seq<string>)
    ensures InvalidDomains(a + b) == InvalidDomains(a) + InvalidDomains(b)
  {
    if a == [] {
      assert a + b == b;
    } else {
      assert (a + b)[0] == a[0] && (a + b)[1..] == a[1..] + b;
      InvalidDomainsAppend(a[1..], b);
    }
  }

  /** Duplicates are kept: each malformed token occurs in the filtered list as
      often as in the input, and a valid one not at all. */
  lemma {:induction false} InvalidDomainsCounts(domains: seq<string>, d: string)
    ensures !DomainGrammar.IsValidDomain(d) ==> multiset(InvalidDomains(domains))[d] == multiset(domains)[d]
    ensures DomainGrammar.IsValidDomain(d) ==> multiset(InvalidDomains(domains))[d] == 0
  {
    if domains != [] {
      InvalidDomainsCounts(domains[1..], d);
      assert domains == [domains[0]] + domains[1..];
    }
  }

  // ---------------------------------------------------------------------------
  // Handler lemmas
  // ---------------------------------------------------------------------------

  /** An absent or empty parameter is refused as missing; a non-empty one of
      only commas and whitespace is refused as having no domains. */
  lemma HandleMissingOrBlank<D>(param: Option<string>, resolve: string -> Lookup<D>, toIso: D -> Option<string>)
    ensures param.None? || param == Some("") ==>
      Handle(param, resolve, toIso) == Response(400, ErrorMessage(MissingParameterMessage))
    ensures param.Some? && param.value != "" &&
            (forall k :: 0 <= k < |param.value| ==> Text.IsSpace(param.value[k]) || param.value[k] == ',') ==>
      Handle(param, resolve, toIso) == Response(400, ErrorMessage(NoDomainsMessage))
  {
    if param.Some? && param.value != "" &&
       (forall k :: 0 <= k < |param.value| ==> Text.IsSpace(param.value[k]) || param.value[k] == ',') {
      ParseDomainsBlank(param.value);
    }
  }

  /** When some parsed token is malformed the answer is 400 and its message
      lists exactly the failing tokens, in input order. */
  lemma HandleInvalid<D>(param: string, resolve: string -> Lookup<D>, toIso: D -> Option<string>)
    requires exists d :: d in ParseDomains(param) && !DomainGrammar.IsValidDomain(d)
    ensures Handle(Some(param), resolve, toIso)
         == Response(400, ErrorMessage(InvalidDomainsPrefix + Text.Join(InvalidDomains(ParseDomains(param)), ", ")))
  {
    var d :| d in ParseDomains(param) && !DomainGrammar.IsValidDomain(d);
    assert d in InvalidDomains(ParseDomains(param));
    assert param != "" by {
      assert Text.SplitOn("", {','}) == [""];
    }
  }

  /** No lookup is made for a request with a malformed token: the answer is
      the same whatever the lookup client and the date conversion do. */
  lemma HandleInvalidNoLookup<D>(param: string, resolve: string -> Lookup<D>, toIso: D -> Option<string>,
                                 resolve': string -> Lookup<D>, toIso': D -> Option<string>)
    requires exists d :: d in ParseDomains(param) && !DomainGrammar.IsValidDomain(d)
    ensures Handle(Some(param), resolve, toIso) == Handle(Some(param), resolve', toIso')
  {
    HandleInvalid(param, resolve, toIso);
    HandleInvalid(param, resolve', toIso');
  }

  /** Every failing token appears in full in the 400 message, at the offset
      its place in the list gives. */
  lemma InvalidMessageNamesEach(invalid: seq<string>, i: nat)
    requires i < |invalid|
    ensures var msg := InvalidDomainsPrefix + Text.Join(invalid, ", ");
            var off := |InvalidDomainsPrefix| + Text.PartOffset(invalid, ", ", i);
            off + |invalid[i]| <= |msg| && msg[off..off + |invalid[i]|] == invalid[i]
  {
    Text.PartAfterPrefix(InvalidDomainsPrefix, invalid, ", ", i);
  }

  /** Once every token is valid the answer is 200 and its record has exactly
      one key per distinct token, each holding that domain's entry. */
  lemma HandleSuccess<D>(param: string, resolve: string -> Lookup<D>, toIso: D -> Option<string>)
    requires |ParseDomains(param)| > 0
    requires forall d :: d in ParseDomains(param) ==> DomainGrammar.IsValidDomain(d)
    ensures Handle(Some(param), resolve, toIso) == Response(200, Entries(BatchResults(ParseDomains(param), resolve, toIso)))
    ensures BatchResults(ParseDomains(param), resolve, toIso).Keys == set d | d in ParseDomains(param)
    ensures forall d :: d in ParseDomains(param) ==>
      BatchResults(ParseDomains(param), resolve, toIso)[d] == EntryFor(d, resolve, toIso)
  {
    var domains := ParseDomains(param);
    NonEmptyParam(param);
    AllValidNoInvalid(domains);
  }

  /** A list of valid domains has nothing to report. */
  lemma {:induction false} AllValidNoInvalid(domains: seq<string>)
    requires forall d :: d in domains ==> DomainGrammar.IsValidDomain(d)
    ensures InvalidDomains(domains) == []
  {
    if domains != [] {
      assert domains[0] in domains;
      AllValidNoInvalid(domains[1..]);
    }
  }

  /** Only a non-empty parameter can parse to any domain. */
  lemma NonEmptyParam(param: string)
    requires |ParseDomains(param)| > 0
    ensures param != ""
  {
  }

  /** The handler answers 200 exactly when the parameter is present and parses
      to a non-empty list of valid domains. */
  lemma HandleStatus<D>(param: Option<string>, resolve: string -> Lookup<D>, toIso: D -> Option<string>)
    ensures Handle(param, resolve, toIso).status == 200 <==>
      && param.Some?
      && |ParseDomains(param.value)| > 0
      && forall d :: d in ParseDomains(param.value) ==> DomainGrammar.IsValidDomain(d)
    ensures Handle(param, resolve, toIso).status in {200, 400}
  {
    if param.None? || param.value == "" {
      HandleMissingOrBlank(param, resolve, toIso);
      if param.Some? {
        assert Text.SplitOn("", {','}) == [""];
      }
    } else {
      var domains := ParseDomains(param.value);
      if |domains| > 0 {
        if exists d :: d in domains && !DomainGrammar.IsValidDomain(d) {
          HandleInvalid(param.value, resolve, toIso);
        } else {
          HandleSuccess(param.value, resolve, toIso);
        }
      }
    }
  }

  /** Per-domain isolation: a domain's entry depends on that domain's lookup
      alone, so two clients that agree on `d` give `d` the same entry however
      they differ on every other domain. */
  lemma EntryIsolation<D>(param: string, d: string, resolve: string -> Lookup<D>, resolve': string -> Lookup<D>,
                              toIso: D -> Option<string>)
    requires resolve(d) == resolve'(d)
    requires Handle(Some(param), resolve, toIso).status == 200
    requires d in ParseDomains(param)
    ensures Handle(Some(param), resolve', toIso).status == 200
    ensures Handle(Some(param), resolve, toIso).body.results[d] == Handle(Some(param), resolve', toIso).body.results[d]
  {
    HandleStatus(Some(param), resolve, toIso);
    HandleSuccess(param, resolve, toIso);
    HandleSuccess(param, resolve', toIso);
  }

  /** A rejected lookup becomes the failure object under its own key. */
  lemma RejectedLookupEntry<D>(param: string, d: string, resolve: string -> Lookup<D>, toIso: D -> Option<string>)
    requires resolve(d).Rejected?
    requires Handle(Some(param), resolve, toIso).status == 200
    requires d in ParseDomains(param)
    ensures Handle(Some(param), resolve, toIso).body.results[d] == Failed(None, LookupFailedMessage)
  {
    HandleStatus(Some(param), resolve, toIso);
    HandleSuccess(param, resolve, toIso);
  }
}
