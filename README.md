# WHOIS batch lookup — a verified model

This project models the core of a web WHOIS/RDAP lookup service in Dafny.

- **Server side.** The `GET /api/whois?domain=<list>` handler
  (`src/app/api/whois/route.ts`). It splits a comma-separated parameter into
  domain tokens and checks each against the regular expression
  `^[a-zA-Z0-9][a-zA-Z0-9-]{0,61}[a-zA-Z0-9]?\.[a-zA-Z]{2,}$`. It answers one
  of three 400 errors, or a 200 record with one entry per distinct domain.
  Each entry is the reshaped lookup record, or `{error: "查询失败"}` when that
  domain's lookup failed.
- **Client side.** The home page (`src/app/page.tsx`):
  - its newline-or-comma tokenizer, which feeds the server's tokenizer;
  - the `?url=` fallback that strips a scheme and a path;
  - the expiry classification against the thresholds 30 and 60 days
    (`src/types/enums.ts`);
  - the comparator that orders the result entries;
  - the state changes of the lookup, back and `?url=` actions.

Modules, one per file:

| file | module | contents |
|---|---|---|
| `wrappers.dfy` | `Wrappers` | `Option` |
| `text.dfy` | `Text` | JavaScript `trim` (the exact ECMAScript whitespace set), `split` on characters, `join`, and the `map(trim).filter(nonEmpty)` chain |
| `domain_grammar.dfy` | `DomainGrammar` | `isValidDomain`, and a proof that it decides the regular expression |
| `whois_route.dfy` | `WhoisRoute` | `parseDomains`, `queryWhois`, the handler as a function (`Handle`) and as a method with the lookup loop (`Get`, `LookUpAll`) |
| `expiry.dfy` | `Expiry` | `getExpirationStatus` and the sort comparator, with `sort` as a stable insertion sort |
| `home_view.dfy` | `HomeView` | the client tokenizer, the URL fallback, and the class `Home` holding the page state |

Abstractions:

- The WHOIS client is a function `resolve` from a domain to `Rejected` or
  `Resolved(record)`.
- `Date` is a type parameter `D`. `toISOString` is a function `toIso` that
  gives `None` where it would throw.
- On the client, `fetch` followed by `res.json()` is a function from the
  request parameter to a parsed body or a failure. `new URL(...).hostname`
  is a function that gives `None` where the constructor throws.
- The expiry day count and the millisecond timestamp of an ISO string are
  inputs.
- `localeCompare` is a function parameter.

## Model

| member | source | states |
|---|---|---|
| DomainGrammar.IsValidDomain | src/app/api/whois/route.ts:6-8 | `isValidDomain`: the string splits at its first dot into a valid label and a valid TLD. That this decides the regular expression is stated by `IsValidDomainIsRegex`. |
| DomainGrammar.IsValidDomainIsRegex | src/app/api/whois/route.ts:4-8 | The dot-splitting check (label of 1–63 label characters starting with a letter or digit, a 63-character label ending in one, one dot, a TLD of two or more ASCII letters) holds exactly when some division of the string among the parts of the regular expression matches. |
| DomainGrammar.ValidDomainHasOneDot | src/app/api/whois/route.ts:4 | Every accepted domain contains exactly one dot. |
| DomainGrammar.ValidDomainOfParts | src/app/api/whois/route.ts:4-8 | Any valid label, a dot and any valid TLD together form an accepted domain. |
| DomainGrammar.TrailingHyphenAccepted | src/app/api/whois/route.ts:4 | `a-.com` and a 62-character label ending in `-` are accepted. |
| DomainGrammar.FullLengthLabelEndsInAlnum | src/app/api/whois/route.ts:4 | A 63-character label ending in `-` is rejected; 63 letters are accepted. |
| DomainGrammar.LeadingHyphenRejected | src/app/api/whois/route.ts:4 | No string starting with a hyphen is accepted. |
| DomainGrammar.TwoDotsRejected | src/app/api/whois/route.ts:4 | No string with two dots is accepted. |
| DomainGrammar.ShortTldRejected | src/app/api/whois/route.ts:4 | A dot-free name followed by a dot and a TLD of fewer than two characters is rejected. |
| DomainGrammar.LeadingHyphenExample | src/app/api/whois/route.ts:4 | `-a.com` is rejected. |
| DomainGrammar.SubdomainExample | src/app/api/whois/route.ts:4 | `www.example.com` is rejected. |
| DomainGrammar.ShortTldExample | src/app/api/whois/route.ts:4 | `example.c` is rejected. |
| DomainGrammar.PlainDomainAccepted | src/app/api/whois/route.ts:4-8 | `example.com` is accepted. |
| Text.LeadingSpace | src/app/api/whois/route.ts:13 | The count lies within the string, covers only whitespace, and stops just before the first non-whitespace character. |
| Text.TrailingSpace | src/app/api/whois/route.ts:13 | The count lies within the string, covers only whitespace at its end, and stops just after the last non-whitespace character. |
| Text.Trim | src/app/api/whois/route.ts:13 | The result is the slice of the input that starts after its leading whitespace and is followed only by whitespace, so what is removed is whitespace at both ends. The result has no whitespace at either end; it is empty exactly when the input is all whitespace; a trimmed input is returned unchanged. |
| Text.TrimAvoids | src/app/api/whois/route.ts:13 | Trimming introduces no character that was not in the input. |
| Text.SplitOn | src/app/api/whois/route.ts:12 | There is one more piece than separators, and no piece contains a separator. |
| Text.SplitOnAround | src/app/api/whois/route.ts:12 | Splitting `a + c + b` at separator `c` yields the pieces of `a` followed by the pieces of `b`. |
| Text.SplitOnJoin | src/app/api/whois/route.ts:12 | Splitting a separator-joined list of separator-free parts gives back the parts. |
| Text.Tokens | src/app/api/whois/route.ts:13-14 | There are at most as many tokens as pieces, and every token is non-empty and trimmed. |
| Text.TokensAppend | src/app/api/whois/route.ts:13-14 | Trim-and-filter distributes over concatenation, keeping order. |
| Text.TokensOfTokens | src/app/api/whois/route.ts:13-14 | A list already made of tokens passes through unchanged. |
| Text.Join | src/app/api/whois/route.ts:55 | `join`: the parts with the separator between neighbours. `PartOffset` states that each part occurs in it in full; `SplitOnJoin` that splitting gives the parts back. |
| Text.PartOffset | src/app/api/whois/route.ts:55 | Each part of a `join` occurs in full in the joined string, at the returned offset. |
| Text.PartAfterPrefix | src/app/api/whois/route.ts:55 | Behind any prefix, each part of a `join` still occurs in full, shifted by the prefix length. |
| WhoisRoute.ParseDomains | src/app/api/whois/route.ts:10-15 | `parseDomains`: split on commas, trim each piece, drop the empty ones. Its properties are the `ParseDomains…` lemmas below. |
| WhoisRoute.ParseDomainsTokens | src/app/api/whois/route.ts:10-15 | Every parsed domain is non-empty, trimmed and comma-free, and there are at most (commas + 1) of them. |
| WhoisRoute.ParseDomainsAppend | src/app/api/whois/route.ts:10-15 | Parsing keeps input order: `a + "," + b` parses to the domains of `a` followed by those of `b`. |
| WhoisRoute.ParseDomainsJoin | src/app/api/whois/route.ts:10-15 | A list of non-empty, trimmed, comma-free strings joined with `","` parses back to that exact list. |
| WhoisRoute.ParseDomainsBlank | src/app/api/whois/route.ts:10-15 | A value made only of commas and whitespace parses to no domains. |
| WhoisRoute.QueryWhois | src/app/api/whois/route.ts:17-29 | `queryWhois`: the reshaped record, or no record where the lookup rejects or `toISOString` throws. What it keeps and converts is stated by `QueryWhoisShape`. |
| WhoisRoute.QueryWhoisShape | src/app/api/whois/route.ts:17-29 | The reshaping fails exactly when the lookup rejects or a supplied date has no ISO form. Otherwise it copies `found`, `registrar`, `status` and `nameservers`, always emits `ts`, and each of `created`, `updated`, `expires` is present exactly when supplied, as its ISO conversion. |
| WhoisRoute.InvalidDomains | src/app/api/whois/route.ts:52 | A token is in the list exactly when it was parsed and fails the grammar. |
| WhoisRoute.InvalidDomainsAppend | src/app/api/whois/route.ts:52 | The failing tokens keep input order. |
| WhoisRoute.InvalidDomainsCounts | src/app/api/whois/route.ts:52 | Each failing token appears as many times as in the input (duplicates kept); valid tokens not at all. |
| WhoisRoute.EntryFor | src/app/api/whois/route.ts:65-69 | One domain's value in the record: the reshaped record, or `{error: "查询失败"}` when `queryWhois` fails. `RejectedLookupEntry` and `EntryIsolation` state its properties. |
| WhoisRoute.BatchResults | src/app/api/whois/route.ts:61-71 | The record the lookup loop builds: each distinct domain mapped to its own entry. `LookUpAll`, `BatchResultsSnoc` and `EntryIsolation` state its properties. |
| WhoisRoute.Handle | src/app/api/whois/route.ts:32-73 | The handler as a function of the optional `domain` parameter. Its cases are stated by `HandleMissingOrBlank`, `HandleInvalid`, `HandleSuccess` and `HandleStatus`, and `Get` is proved to compute it. |
| WhoisRoute.Get | src/app/api/whois/route.ts:32-73 | The handler with its early returns and lookup loop produces exactly the response `Handle` describes. |
| WhoisRoute.LookUpAll | src/app/api/whois/route.ts:60-71 | The loop writing `results[domain]` for each domain in turn builds the map from each distinct domain to its entry. |
| WhoisRoute.BatchResultsSnoc | src/app/api/whois/route.ts:66-68 | Writing one more domain adds or overwrites only that domain's key, with that domain's own entry. |
| WhoisRoute.HandleMissingOrBlank | src/app/api/whois/route.ts:36-50 | An absent or empty parameter gives 400 "Domain parameter is required"; a non-empty value of only commas and whitespace gives 400 "Invalid domain format". |
| WhoisRoute.HandleInvalid | src/app/api/whois/route.ts:52-58 | If any parsed token is malformed, the response is 400 with "Invalid domain format: " followed by exactly the failing tokens joined by ", ". |
| WhoisRoute.HandleInvalidNoLookup | src/app/api/whois/route.ts:52-58 | With a malformed token, the response does not depend on the lookup client or the date conversion: no lookup is made. |
| WhoisRoute.InvalidMessageNamesEach | src/app/api/whois/route.ts:55 | Every failing token appears in full in the 400 message. |
| WhoisRoute.HandleSuccess | src/app/api/whois/route.ts:60-73 | With a non-empty list of valid domains, the response is 200; its key set is exactly the set of parsed tokens; each value is that domain's entry. |
| WhoisRoute.AllValidNoInvalid | src/app/api/whois/route.ts:52-53 | A list of valid domains has no failing tokens. |
| WhoisRoute.HandleStatus | src/app/api/whois/route.ts:36-73 | The status is 200 exactly when the parameter is present and parses to a non-empty list of valid domains; it is always 200 or 400. |
| WhoisRoute.EntryIsolation | src/app/api/whois/route.ts:63-70 | A domain's entry depends only on that domain's lookup: two clients that agree on it give it the same entry, however they differ elsewhere. |
| WhoisRoute.RejectedLookupEntry | src/app/api/whois/route.ts:65-69 | A rejected lookup becomes `{error: "查询失败"}` under its own key, in a 200 response. |
| Expiry.Classify | src/app/page.tsx:62-69 | The if/else chain of `getExpirationStatus` against `EXPIRATION_THRESHOLDS`. `GetExpirationStatus` states each band and `ClassifyMonotone` its monotonicity. |
| Expiry.GetExpirationStatus | src/app/page.tsx:45-80 | The result is `null` exactly when the expiry is absent or empty. Otherwise `days` is the day count; the status is CRITICAL iff days ≤ 30, WARNING iff 30 < days ≤ 60, SAFE iff days > 60; the colour is that status's colour. |
| Expiry.ClassifyMonotone | src/types/enums.ts:76-79 | With the thresholds 30 and 60, more days left never gives a more severe status. |
| Expiry.ExpiresAt | src/app/page.tsx:246-247 | The timestamp an entry sorts by, 0 for a missing or empty expiry and for an error entry. `SortByExpiry` states the order in its terms. |
| Expiry.Compare | src/app/page.tsx:240-251 | The sort comparator for each `SortBy`. `SortByExpiry` states the order it produces. |
| Expiry.Insert | src/app/page.tsx:239-252 | Insertion adds exactly the one element. |
| Expiry.SortEntries | src/app/page.tsx:239-252 | The sorted entries are a permutation of the input. |
| Expiry.InsertSorted | src/app/page.tsx:239-252 | With a key-subtracting comparator, insertion into a key-sorted list keeps it sorted. |
| Expiry.SortEntriesSorted | src/app/page.tsx:239-252 | With a key-subtracting comparator, the sorted output is in non-decreasing key order. |
| Expiry.InsertStable | src/app/page.tsx:239-252 | With a comparator that makes entries of equal timestamp compare equal, an inserted entry goes in front of every entry with its timestamp, and the others keep their order. |
| Expiry.SortEntriesStable | src/app/page.tsx:239-252 | With such a comparator the sort is stable: the entries with any one timestamp come out in their input order. |
| Expiry.SortByExpiry | src/app/page.tsx:239-252 | Every order is a permutation of the entries. Ascending gives non-decreasing expiry timestamps and descending non-increasing ones, with a missing or empty expiry (or an error entry) as 0. In both expiry orders, entries with the same timestamp keep their input order. |
| HomeView.ClientTokens | src/app/page.tsx:97-100 | The client tokenizer: split on newlines and commas, trim, drop the empty pieces. `ClientTokensShape` states its properties. |
| HomeView.RequestParam | src/app/page.tsx:101-106 | The `domain` parameter a lookup sends: the tokens joined by `","`, or no request when there are none. `RequestRoundTrip` states that the server parses it back to the tokens. |
| HomeView.ClientTokensShape | src/app/page.tsx:95-101 | Every client token is non-empty, trimmed, and holds no newline and no comma; an input that trims to nothing gives no tokens. |
| HomeView.RequestRoundTrip | src/app/page.tsx:97-106 | The server's `parseDomains` applied to the parameter the page sends gives back exactly the page's token list. |
| HomeView.AnswerFor | src/app/api/whois/route.ts:43-73 | For a parameter that parses to a given non-empty token list, the answer is 400 listing the failing tokens, or 200 keyed by exactly the tokens. |
| HomeView.RequestOutcome | src/app/page.tsx:106-107 | A request from the page is never refused as missing or empty. It is answered 400 listing exactly the malformed client tokens, or 200 with one key per distinct client token. |
| HomeView.ResultsAfter | src/app/page.tsx:109-113 | What a settled fetch leaves in `results`: the parsed body, or the single `error` entry on failure. `Home.Fetch` and `Home.Lookup` state it in context. |
| HomeView.SchemeLength | src/app/page.tsx:130 | The length of a leading `https://` or `http://`, or 0. `UrlFallbackShape` states when each length is chosen. |
| HomeView.UrlFallback | src/app/page.tsx:130 | The regular-expression fallback for an unparsable URL. `UrlFallbackShape` and the `Fallback…` lemmas state its shape. |
| HomeView.SlashIndex | src/app/page.tsx:130 | The index is the first `/` (or the end): no `/` before it. |
| HomeView.UrlFallbackShape | src/app/page.tsx:130 | The fallback contains no `/`. The removed scheme is 0, 7 or 8 characters: 8 exactly when the string starts with `https://`, 7 exactly when it starts with `http://`. The fallback is the text after the scheme, up to the first `/` or the end. |
| HomeView.FallbackAfter | src/app/page.tsx:130 | When the text after the removed scheme is a slash-free name followed by nothing or by a `/`, the fallback is that name. |
| HomeView.FallbackOfHttps | src/app/page.tsx:130 | For any slash-free name and any path that is empty or starts with `/`, `https://` + name + path becomes the name. |
| HomeView.FallbackOfHttp | src/app/page.tsx:130 | For any slash-free name and any path that is empty or starts with `/`, `http://` + name + path becomes the name, even when the name itself starts with `http:`. |
| HomeView.FallbackWithoutScheme | src/app/page.tsx:130 | A slash-free name that does not start with a lower-case `h`, followed by an empty or `/`-led path, keeps only the name. |
| HomeView.UrlFallbackHttps | src/app/page.tsx:130 | `https://example.com/path` becomes `example.com`. |
| HomeView.UrlFallbackOneScheme | src/app/page.tsx:130 | Only one scheme is stripped: `http://http://example.com` becomes `http:`. |
| HomeView.UrlFallbackCaseSensitive | src/app/page.tsx:130 | The scheme match is case-sensitive: `HTTP://example.com` becomes `HTTP:`. |
| HomeView.Home.constructor | src/app/page.tsx:85-91 | The initial state: empty input, no results, not loading, results hidden, card view, ascending expiry order, URL not yet processed. |
| HomeView.Home.Lookup | src/app/page.tsx:93-118 | The request is the tokens joined by `","`, or nothing when there are no tokens. With no request, nothing changes. With a request, the results are the fetched body (or the single `error ↦ {found: false, error: msg}` entry on failure), they are shown, and loading has ended. The input, view mode and sort order are kept. |
| HomeView.Home.Fetch | src/app/page.tsx:103-115 | After the request settles, the results are the parsed body, or on a fetch or parse failure the single `error ↦ {found: false, error: msg}` entry. They are shown and loading has ended; the input, view mode and sort order are kept. |
| HomeView.Home.Back | src/app/page.tsx:141-144 | The results are hidden and dropped; the input, view mode, sort order and loading flag are unchanged. |
| HomeView.UrlTarget | src/app/page.tsx:122-132 | A domain to look up exists only for a present, non-empty `url` parameter, and it is never empty. |
| HomeView.Home.ProcessUrl | src/app/page.tsx:120-139 | Once the URL has been processed, nothing further happens. Otherwise the once-flag is set exactly when the `url` parameter is present and non-empty. When the trimmed parameter's host name (or its fallback) is non-empty, it is placed in the input and looked up exactly as `Lookup` does; otherwise no request is sent and the results are untouched. View mode and sort order are always kept. |

## Left out

- The `@cleandns/whois-rdap` client (route.ts:18) is a foreign network call. It is the parameter `resolve`.
- Next.js request and response objects, query-string decoding, `fetch`, `res.json()` and `encodeURIComponent` are I/O plumbing. The handler is a function from the optional parameter to a status and a body; on the client the fetch is a parameter.
- `Promise.all` concurrency (route.ts:63-71) is run one domain after another. The model assumes that repeated lookups of one domain agree, because `resolve` is a function. In the code, each occurrence of a duplicate token triggers its own call, and the last one to settle wins.
- The outer `catch` and its 500 response (route.ts:74-80) are not modelled. The inner `catch` absorbs every per-domain failure, but `NextResponse.json(results)` (route.ts:73) also runs inside the outer `try`. The 500 is therefore reachable only if serialising a resolver record throws, and serialisation is not modelled.
- `console.error` logging is left out as I/O.
- `Date` arithmetic, `Math.ceil` over a floating-point division, and `new Date(s).getTime()` (page.tsx:55-58, 246-247) involve floating point and clocks. The day count and the timestamps are inputs.
- `toLocaleDateString` (page.tsx:146-150) is locale-dependent formatting, so it is left out.
- `Expiry.SortByExpiry`: for the domain order (page.tsx:243-245) only the permutation is proved. `localeCompare` is an abstract parameter, so no ordering can be stated for it.
- `Expiry.SortEntries` models `Array.prototype.sort` as an insertion sort. The engine's algorithm may compare in another order, but `sort` is required to be stable, and for a consistent comparator the stable order is unique. Stability is proved for the expiry orders (`Expiry.SortEntriesStable`).
- An expiry string that does not parse (a `NaN` timestamp in the comparator) is not modelled: the timestamps are integers.
- `Expiry.SortByExpiry` only takes the entries of a 200 record. It does not model sorting the entries of a 400 body `{error: ...}`, which the page would also render.
- The order of `Object.entries` is an input sequence. The model does not derive it from the record's insertion order.
- The `new URL(...)` host-name parse (page.tsx:127-128) is a library parser. It is the parameter `hostname`; only the regular-expression fallback (page.tsx:130) is modelled.
- `setTimeout` (page.tsx:134-136) is collapsed: `ProcessUrl` calls `Lookup` directly.
- The intermediate `loading = true`, `results = null` state that the page shows while the fetch is pending is not observable in the model. `Lookup` states the settled state.
- `HomeView.Home.Lookup`: `onClick={handleLookup}` (page.tsx:201, 414) passes the click event as `domainOverride`. The model takes an optional string instead. In the code the event object, not being `null` or `undefined`, would become `domainInput`, and `domainInput.trim()` (page.tsx:95-96) would then throw a `TypeError`. This reading of the source is a possible bug; it was not executed.
- `setViewMode` and `setSortBy` wiring, all JSX rendering, the i18n lookups, the icons, the static marketing data, and the other pages and components are left out: they are presentation.
- Strings are sequences of Unicode scalar values, not UTF-16 code units. This matters only for characters outside the Basic Multilingual Plane, which none of the grammar's classes contain.

## Notes on the code

- The regular expression allows exactly one dot, so `www.example.com` is rejected (`DomainGrammar.TwoDotsRejected`). It lets a label of up to 62 characters end in a hyphen, so `a-.com` is accepted (`DomainGrammar.TrailingHyphenAccepted`).
- `!domainParam` treats an empty value as missing, so an empty parameter gets "Domain parameter is required" (`WhoisRoute.HandleMissingOrBlank`). Only a non-empty value of commas and whitespace gets "Invalid domain format".
- The per-domain entry of a failed lookup is always the fixed text "查询失败" (`WhoisRoute.LookupFailedMessage`), whatever the failure was.
- A throwing `toISOString` (an invalid `Date`) lands in the inner `catch`, so it also gives the per-domain failure entry (`WhoisRoute.QueryWhoisShape`).
