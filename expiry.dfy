/**
 * The results view's treatment of expiry dates: `getExpirationStatus`, which
 * classifies the days left against the thresholds of `EXPIRATION_THRESHOLDS`,
 * and the comparator handed to `Object.entries(results).sort(...)`.
 *
 * The day count (`Math.ceil` of the millisecond difference from now) is taken
 * as an input, and so are the parse of an ISO string to a millisecond
 * timestamp (`new Date(s).getTime()`) and `localeCompare`.
 */
module Expiry {
  import opened Wrappers
  import WhoisRoute

  /** `EXPIRATION_THRESHOLDS`. */
  const CriticalDays := 30
  const WarningDays := 60

  datatype StatusType = Critical | Warning | Safe

  /** How urgent a status is; a larger number is more severe. */
  function Severity(t: StatusType): nat {
    match t
    case Safe => 0
    case Warning => 1
    case Critical => 2
  }

  /** The colour `EXPIRATION_STATUS_CONFIG` gives each status. */
  function ColorOf(t: StatusType): string {
    match t
    case Critical => "text-red-600"
    case Warning => "text-yellow-600"
    case Safe => "text-green-600"
  }

  /** The if/else chain of `getExpirationStatus`. */
  function Classify(days: int): StatusType {
    if days <= CriticalDays then Critical
    else if days <= WarningDays then Warning
    else Safe
  }

  /** What `getExpirationStatus` reports, without the rendered icon and label. */
  datatype ExpirationStatus = ExpirationStatus(status: StatusType, color: string, days: int)

  /** `getExpirationStatus(expiresDate)`, with `diffDays` the day count the
      source computes from it: `null` for an absent or empty date. */
  function GetExpirationStatus(expiresDate: Option<string>, diffDays: int): (r: Option<ExpirationStatus>)
    ensures r.None? <==> expiresDate.None? || expiresDate.value == ""
    ensures r.Some? ==> r.value.days == diffDays && r.value.color == ColorOf(r.value.status)
    ensures r.Some? ==> (r.value.status == Critical <==> diffDays <= CriticalDays)
    ensures r.Some? ==> (r.value.status == Warning <==> CriticalDays < diffDays <= WarningDays)
    ensures r.Some? ==> (r.value.status == Safe <==> diffDays > WarningDays)
  {
    if expiresDate.None? || expiresDate.value == "" then None
    else
      var t := Classify(diffDays);
      Some(ExpirationStatus(t, ColorOf(t), diffDays))
  }

  /** More days left never gives a more severe status. */
  lemma ClassifyMonotone(d1: int, d2: int)
    requires d1 <= d2
    ensures Severity(Classify(d2)) <= Severity(Classify(d1))
  {
  }

  // ---------------------------------------------------------------------------
  // Sorting the result entries
  // ---------------------------------------------------------------------------

  /** `SortBy`. */
  datatype SortBy = ExpiresAsc | ExpiresDesc | ByDomain

  /** One element of `Object.entries(results)`. */
  type Entry = (string, WhoisRoute.DomainEntry)

  /** `data.ts?.expires ? new Date(data.ts.expires).getTime() : 0`: a missing
      or empty expiry counts as timestamp 0. */
  function ExpiresAt(e: Entry, timeOf: string -> int): int {
    match e.1
    case Info(info) =>
      (match info.ts.expires
       case Some(s) => if s != "" then timeOf(s) else 0
       case None => 0)
    case Failed(_, _) => 0
  }

  /** The comparator passed to `sort`: negative when `a` goes first. */
  function Compare(sortBy: SortBy, a: Entry, b: Entry, timeOf: string -> int,
                   localeCompare: (string, string) -> int): int {
    match sortBy
    case ByDomain => localeCompare(a.0, b.0)
    case ExpiresAsc => ExpiresAt(a, timeOf) - ExpiresAt(b, timeOf)
    case ExpiresDesc => ExpiresAt(b, timeOf) - ExpiresAt(a, timeOf)
  }

  /** Inserts `x` before the first element it does not compare after, so that
      equal elements keep their order. */
  function Insert(x: Entry, s: seq<Entry>, cmp: (Entry, Entry) -> int): (r: seq<Entry>)
    ensures multiset(r) == multiset(s) + multiset{x}
  {
    if s == [] then [x]
    else if cmp(x, s[0]) <= 0 then [x] + s
    else
      assert s == [s[0]] + s[1..];
      [s[0]] + Insert(x, s[1..], cmp)
  }

  /** `Array.prototype.sort` with comparator `cmp`, as an insertion sort (stable,
      as the language has required of `sort` since ECMAScript 2019). */
  function SortEntries(s: seq<Entry>, cmp: (Entry, Entry) -> int): (r: seq<Entry>)
    ensures multiset(r) == multiset(s)
  {
    if s == [] then []
    else
      assert s == [s[0]] + s[1..];
      Insert(s[0], SortEntries(s[1..], cmp), cmp)
  }

  /** `s` is in non-decreasing order of `key`. */
  ghost predicate SortedBy(s: seq<Entry>, key: Entry -> int) {
    forall i, j :: 0 <= i < j < |s| ==> key(s[i]) <= key(s[j])
  }

  lemma {:induction false} InsertSorted(x: Entry, s: seq<Entry>, cmp: (Entry, Entry) -> int, key: Entry -> int)
    requires forall a, b :: cmp(a, b) == key(a) - key(b)
    requires SortedBy(s, key)
    ensures SortedBy(Insert(x, s, cmp), key)
  {
    if s != [] && cmp(x, s[0]) > 0 {
      InsertSorted(x, s[1..], cmp, key);
      var r := Insert(x, s[1..], cmp);
      assert forall e :: e in r ==> e == x || e in s[1..] by {
        forall e | e in r ensures e == x || e in s[1..] {
          assert e in multiset(r);
        }
      }
      assert forall j :: 0 <= j < |r| ==> key(s[0]) <= key(r[j]) by {
        forall j | 0 <= j < |r| ensures key(s[0]) <= key(r[j]) {
          assert r[j] in r;
        }
      }
    }
  }

  /** A comparator that subtracts keys sorts by that key. */
  lemma {:induction false} SortEntriesSorted(s: seq<Entry>, cmp: (Entry, Entry) -> int, key: Entry -> int)
    requires forall a, b :: cmp(a, b) == key(a) - key(b)
    ensures SortedBy(SortEntries(s, cmp), key)
  {
    if s != [] {
      SortEntriesSorted(s[1..], cmp, key);
      InsertSorted(s[0], SortEntries(s[1..], cmp), cmp, key);
    }
  }

  /** The entries of `s` whose expiry timestamp is `t`, in their order in `s`. */
  function SameExpiry(s: seq<Entry>, timeOf: string -> int, t: int): seq<Entry> {
    if s == [] then []
    else (if ExpiresAt(s[0], timeOf) == t then [s[0]] else []) + SameExpiry(s[1..], timeOf, t)
  }

  /** Inserting `x` puts it in front of every entry with its timestamp, when
      the comparator calls entries with equal timestamps equal. */
  lemma {:induction false} InsertStable(x: Entry, s: seq<Entry>, cmp: (Entry, Entry) -> int,
                                        timeOf: string -> int, t: int)
    requires forall a, b :: ExpiresAt(a, timeOf) == ExpiresAt(b, timeOf) ==> cmp(a, b) == 0
    ensures SameExpiry(Insert(x, s, cmp), timeOf, t)
         == (if ExpiresAt(x, timeOf) == t then [x] else []) + SameExpiry(s, timeOf, t)
  {
    var hx := if ExpiresAt(x, timeOf) == t then [x] else [];
    if s == [] {
    } else if cmp(x, s[0]) <= 0 {
      assert ([x] + s)[1..] == s;
    } else {
      InsertStable(x, s[1..], cmp, timeOf, t);
      var r := Insert(x, s[1..], cmp);
      var h0 := if ExpiresAt(s[0], timeOf) == t then [s[0]] else [];
      var rest := SameExpiry(s[1..], timeOf, t);
      assert ([s[0]] + r)[1..] == r;
      assert SameExpiry([s[0]] + r, timeOf, t) == h0 + (hx + rest);
      assert SameExpiry(s, timeOf, t) == h0 + rest;
      assert ExpiresAt(x, timeOf) != ExpiresAt(s[0], timeOf);
      if hx == [] {
        assert hx + rest == rest && hx + (h0 + rest) == h0 + rest;
      } else {
        assert h0 == [] && h0 + (hx + rest) == hx + rest && h0 + rest == rest;
      }
    }
  }

  /** The sort is stable for such a comparator: entries with the same
      timestamp keep their relative order. */
  lemma {:induction false} SortEntriesStable(s: seq<Entry>, cmp: (Entry, Entry) -> int,
                                             timeOf: string -> int, t: int)
    requires forall a, b :: ExpiresAt(a, timeOf) == ExpiresAt(b, timeOf) ==> cmp(a, b) == 0
    ensures SameExpiry(SortEntries(s, cmp), timeOf, t) == SameExpiry(s, timeOf, t)
  {
    if s != [] {
      SortEntriesStable(s[1..], cmp, timeOf, t);
      InsertStable(s[0], SortEntries(s[1..], cmp), cmp, timeOf, t);
    }
  }

  /** The expiry orders: ascending gives non-decreasing timestamps, descending
      non-increasing ones, entries with the same timestamp keep their order,
      and every order is a permutation of the entries. */
  lemma SortByExpiry(entries: seq<Entry>, sortBy: SortBy, timeOf: string -> int,
                     localeCompare: (string, string) -> int)
    ensures var r := SortEntries(entries, (a, b) => Compare(sortBy, a, b, timeOf, localeCompare));
      && multiset(r) == multiset(entries)
      && (sortBy == ExpiresAsc ==>
            forall i, j :: 0 <= i < j < |r| ==> ExpiresAt(r[i], timeOf) <= ExpiresAt(r[j], timeOf))
      && (sortBy == ExpiresDesc ==>
            forall i, j :: 0 <= i < j < |r| ==> ExpiresAt(r[i], timeOf) >= ExpiresAt(r[j], timeOf))
      && (sortBy != ByDomain ==>
            forall t :: SameExpiry(r, timeOf, t) == SameExpiry(entries, timeOf, t))
  {
    var cmp := (a, b) => Compare(sortBy, a, b, timeOf, localeCompare);
    if sortBy == ExpiresAsc {
      SortEntriesSorted(entries, cmp, e => ExpiresAt(e, timeOf));
    } else if sortBy == ExpiresDesc {
      SortEntriesSorted(entries, cmp, e => -ExpiresAt(e, timeOf));
    }
    if sortBy != ByDomain {
      forall t ensures SameExpiry(SortEntries(entries, cmp), timeOf, t) == SameExpiry(entries, timeOf, t) {
        SortEntriesStable(entries, cmp, timeOf, t);
      }
    }
  }
}
