/**
 * The server's domain-name check, `isValidDomain`, which tests the regular
 * expression
 *
 *     ^[a-zA-Z0-9][a-zA-Z0-9-]{0,61}[a-zA-Z0-9]?\.[a-zA-Z]{2,}$
 *
 * `IsValidDomain` decides it by locating the dot; `RegexMatch` states what the
 * expression matches, part by part, and `IsValidDomainIsRegex` shows the two
 * agree on every string.
 */
module DomainGrammar {
  import opened Wrappers
  import Text

  predicate IsAsciiLetter(c: char) {
    ('a' <= c <= 'z') || ('A' <= c <= 'Z')
  }

  predicate IsAsciiAlnum(c: char) {
    IsAsciiLetter(c) || ('0' <= c <= '9')
  }

  /** The class `[a-zA-Z0-9-]`. */
  predicate IsLabelChar(c: char) {
    IsAsciiAlnum(c) || c == '-'
  }

  /** The longest label the expression admits (section 2.3.4 of RFC 1035). */
  const MaxLabelLength := 63

  /** The part before the dot: 1 to 63 characters from `[a-zA-Z0-9-]`,
      starting with a letter or digit; only a label of the full 63 characters
      must also end in a letter or digit. */
  predicate ValidLabel(l: string) {
    && 1 <= |l| <= MaxLabelLength
    && IsAsciiAlnum(l[0])
    && (forall k :: 0 <= k < |l| ==> IsLabelChar(l[k]))
    && (|l| == MaxLabelLength ==> IsAsciiAlnum(l[|l| - 1]))
  }

  /** The part after the dot: two or more ASCII letters. */
  predicate ValidTld(t: string) {
    |t| >= 2 && forall k :: 0 <= k < |t| ==> IsAsciiLetter(t[k])
  }

  /** The index of the first `.` in `s`, if any. */
  function FirstDot(s: string): (r: Option<nat>)
    ensures r.Some? ==> r.value < |s| && s[r.value] == '.'
    ensures r.Some? ==> forall k :: 0 <= k < r.value ==> s[k] != '.'
    ensures r.None? ==> forall k :: 0 <= k < |s| ==> s[k] != '.'
  {
    if s == [] then None
    else if s[0] == '.' then Some(0)
    else match FirstDot(s[1..]) {
      case None => None
      case Some(d) => Some(d + 1)
    }
  }

  /** `isValidDomain(domain)`. */
  predicate IsValidDomain(s: string) {
    match FirstDot(s)
    case None => false
    case Some(d) => ValidLabel(s[..d]) && ValidTld(s[d + 1..])
  }

  /** The expression matches `s` with `[a-zA-Z0-9]` on `s[0]`, the repeated
      class `[a-zA-Z0-9-]{0,61}` on `s[1..i]`, the optional `[a-zA-Z0-9]?` on
      `s[i..j]`, the escaped dot on `s[j]` and `[a-zA-Z]{2,}` on the rest. */
  ghost predicate RegexMatchAt(s: string, i: nat, j: nat) {
    && 1 <= i <= 62 && i <= j <= i + 1 && j < |s|
    && IsAsciiAlnum(s[0])
    && (forall k :: 1 <= k < i ==> IsLabelChar(s[k]))
    && (forall k :: i <= k < j ==> IsAsciiAlnum(s[k]))
    && s[j] == '.'
    && |s| - (j + 1) >= 2
    && (forall k :: j < k < |s| ==> IsAsciiLetter(s[k]))
  }

  /** `domainRegex.test(s)`: some way of dividing `s` among the parts of the
      expression succeeds. */
  ghost predicate RegexMatch(s: string) {
    exists i: nat, j: nat :: RegexMatchAt(s, i, j)
  }

  // ---------------------------------------------------------------------------
  // Lemmas
  // ---------------------------------------------------------------------------

  /** The dot-splitting check accepts exactly the strings the regular
      expression matches. */
  lemma IsValidDomainIsRegex(s: string)
    ensures IsValidDomain(s) <==> RegexMatch(s)
  {
    if IsValidDomain(s) {
      var d := FirstDot(s).value;
      assert s[..d][0] == s[0];
      assert forall k :: 0 <= k < d ==> s[..d][k] == s[k];
      assert forall k :: d < k < |s| ==> s[d + 1..][k - d - 1] == s[k];
      if d <= 62 {
        assert RegexMatchAt(s, d, d);
      } else {
        assert RegexMatchAt(s, 62, 63);
      }
    }
    if RegexMatch(s) {
      var i: nat, j: nat :| RegexMatchAt(s, i, j);
      assert forall k :: 0 <= k < j ==> IsLabelChar(s[k]);
      assert FirstDot(s) == Some(j);
      assert forall k :: 0 <= k < j ==> s[..j][k] == s[k];
      assert forall k :: j < k < |s| ==> s[j + 1..][k - j - 1] == s[k];
      assert ValidLabel(s[..j]);
      assert ValidTld(s[j + 1..]);
    }
  }

  /** A valid domain holds exactly one dot: the one between label and TLD. */
  lemma ValidDomainHasOneDot(s: string)
    requires IsValidDomain(s)
    ensures Text.CountIn(s, {'.'}) == 1
  {
    var d := FirstDot(s).value;
    var name, tld := s[..d], s[d + 1..];
    assert s == name + ['.'] + tld;
    assert Text.Avoids(name, {'.'}) by {
      forall k | 0 <= k < |name| ensures name[k] !in {'.'} {
        assert IsLabelChar(name[k]);
      }
    }
    assert Text.Avoids(tld, {'.'}) by {
      forall k | 0 <= k < |tld| ensures tld[k] !in {'.'} {
        assert IsAsciiLetter(tld[k]);
      }
    }
    Text.CountInAvoids(name, {'.'});
    Text.CountInAvoids(tld, {'.'});
    Text.CountInAppend(name + ['.'], tld, {'.'});
    Text.CountInAppend(name, ['.'], {'.'});
  }

  /** A label of up to 62 characters may end in a hyphen. */
  lemma TrailingHyphenAccepted()
    ensures IsValidDomain("a-.com")
    ensures IsValidDomain(seq(61, _ => 'a') + "-.io")
  {
    assert FirstDot("a-.com") == Some(2);
    var s := seq(61, _ => 'a') + "-.io";
    assert forall k :: 0 <= k < 62 ==> s[k] != '.';
    assert s[62] == '.';
    assert s[..62] == seq(61, _ => 'a') + "-";
    assert s[63..] == "io";
  }

  /** A 63-character label may not end in a hyphen. */
  lemma FullLengthLabelEndsInAlnum()
    ensures !IsValidDomain(seq(62, _ => 'a') + "-.io")
    ensures IsValidDomain(seq(63, _ => 'a') + ".io")
  {
    var s := seq(62, _ => 'a') + "-.io";
    assert forall k :: 0 <= k < 63 ==> s[k] != '.';
    assert s[63] == '.';
    assert s[..63][62] == '-';
    var t := seq(63, _ => 'a') + ".io";
    assert forall k :: 0 <= k < 63 ==> t[k] != '.';
    assert t[63] == '.';
    assert t[64..] == "io";
  }

  /** A name may not start with a hyphen. */
  lemma LeadingHyphenRejected(s: string)
    requires |s| > 0 && s[0] == '-'
    ensures !IsValidDomain(s)
  {
    match FirstDot(s) {
      case None =>
      case Some(d) =>
        if d > 0 { assert s[..d][0] == '-'; }
    }
  }

  /** A name with two dots is rejected: the second falls in the TLD. */
  lemma TwoDotsRejected(s: string, i: nat, j: nat)
    requires i < j < |s| && s[i] == '.' && s[j] == '.'
    ensures !IsValidDomain(s)
  {
    var d := FirstDot(s).value;
    assert s[d + 1..][j - d - 1] == '.';
  }

  /** A TLD of fewer than two characters is rejected. */
  lemma ShortTldRejected(name: string, tld: string)
    requires '.' !in name && |tld| < 2
    ensures !IsValidDomain(name + "." + tld)
  {
    var s := name + "." + tld;
    assert s[|name|] == '.';
    assert forall k :: 0 <= k < |name| ==> s[k] == name[k];
    assert FirstDot(s) == Some(|name|);
    assert s[|name| + 1..] == tld;
  }

  /** A leading hyphen is rejected. */
  lemma LeadingHyphenExample()
    ensures !IsValidDomain("-a.com")
  {
    LeadingHyphenRejected("-a.com");
  }

  /** A subdomain is rejected. */
  lemma SubdomainExample()
    ensures !IsValidDomain("www.example.com")
  {
    TwoDotsRejected("www.example.com", 3, 11);
  }

  /** A one-letter TLD is rejected. */
  lemma ShortTldExample()
    ensures !IsValidDomain("example.c")
  {
    ShortTldRejected("example", "c");
    assert "example" + "." + "c" == "example.c";
  }

  /** Every valid label joined to a valid TLD by one dot is accepted. */
  lemma ValidDomainOfParts(name: string, tld: string)
    requires ValidLabel(name) && ValidTld(tld)
    ensures IsValidDomain(name + "." + tld)
  {
    var s := name + "." + tld;
    assert s[|name|] == '.';
    assert forall k :: 0 <= k < |name| ==> s[k] == name[k] && IsLabelChar(name[k]);
    assert s[..|name|] == name;
    assert s[|name| + 1..] == tld;
  }

  /** An ordinary second-level name is accepted. */
  lemma PlainDomainAccepted()
    ensures IsValidDomain("example.com")
  {
    assert ValidLabel("example") by {
      forall k | 0 <= k < 7 ensures IsLabelChar("example"[k]) { }
    }
    assert ValidTld("com") by {
      forall k | 0 <= k < 3 ensures IsAsciiLetter("com"[k]) { }
    }
    ValidDomainOfParts("example", "com");
    assert "example" + "." + "com" == "example.com";
  }
}
