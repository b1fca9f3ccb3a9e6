/**
 * The string operations that both tokenizers are built from: JavaScript's
 * `String.prototype.trim`, `String.prototype.split` on single characters,
 * `Array.prototype.join`, and the `.map(trim).filter(nonEmpty)` chain.
 */
module Text {

  /** The characters `trim` removes: ECMAScript WhiteSpace and LineTerminator,
      with the Unicode space separators (category Zs). */
  predicate IsSpace(c: char) {
    || c == '\t' || c == '\n' || c == '\U{B}' || c == '\U{C}' || c == '\r'
    || c == ' ' || c == '\U{A0}' || c == '\U{1680}'
    || ('\U{2000}' <= c <= '\U{200A}')
    || c == '\U{2028}' || c == '\U{2029}' || c == '\U{202F}' || c == '\U{205F}'
    || c == '\U{3000}' || c == '\U{FEFF}'
  }

  predicate AllSpace(s: string) {
    forall k :: 0 <= k < |s| ==> IsSpace(s[k])
  }

  /** No leading and no trailing whitespace. */
  predicate IsTrimmed(s: string) {
    |s| > 0 ==> !IsSpace(s[0]) && !IsSpace(s[|s| - 1])
  }

  /** `s` contains none of the characters in `cs`. */
  predicate Avoids(s: string, cs: set<char>) {
    forall k :: 0 <= k < |s| ==> s[k] !in cs
  }

  /** What the tokenizers keep: non-empty, trimmed, and free of separators. */
  predicate IsToken(t: string, seps: set<char>) {
    t != "" && IsTrimmed(t) && Avoids(t, seps)
  }

  /** The number of characters of `s` that belong to `cs`. */
  function CountIn(s: string, cs: set<char>): nat {
    if s == [] then 0 else (if s[0] in cs then 1 else 0) + CountIn(s[1..], cs)
  }

  /** The number of whitespace characters at the start of `s`. */
  function LeadingSpace(s: string): (n: nat)
    ensures n <= |s| && AllSpace(s[..n])
    ensures n < |s| ==> !IsSpace(s[n])
  {
    if s == [] || !IsSpace(s[0]) then 0
    else
      var n := 1 + LeadingSpace(s[1..]);
      assert forall k :: 1 <= k < n ==> s[k] == s[1..][k - 1];
      n
  }

  /** The number of whitespace characters at the end of `s`. */
  function TrailingSpace(s: string): (n: nat)
    ensures n <= |s| && AllSpace(s[|s| - n..])
    ensures n < |s| ==> !IsSpace(s[|s| - n - 1])
  {
    if s == [] || !IsSpace(s[|s| - 1]) then 0
    else
      var n := 1 + TrailingSpace(s[..|s| - 1]);
      assert forall k :: |s| - n <= k < |s| - 1 ==> s[k] == s[..|s| - 1][k];
      n
  }

  /** `String.prototype.trim`: the result is the window of `s` that starts
      after its leading whitespace and is followed only by whitespace, so what
      is removed is whitespace at both ends and nothing else; no whitespace is
      left at either end of the result, it is empty exactly when `s` is all
      whitespace, and a string that is already trimmed is left alone. */
  function Trim(s: string): (r: string)
    ensures var i := LeadingSpace(s);
      i + |r| <= |s| && r == s[i..i + |r|] && AllSpace(s[..i]) && AllSpace(s[i + |r|..])
    ensures IsTrimmed(r)
    ensures r == "" <==> AllSpace(s)
    ensures IsTrimmed(s) ==> r == s
  {
    var a := LeadingSpace(s);
    if a == |s| then
      assert s[..a] == s;
      ""
    else
      var b := TrailingSpace(s);
      assert b <= |s| - a - 1;
      var r := s[a..|s| - b];
      assert r[0] == s[a] && r[|r| - 1] == s[|s| - b - 1];
      assert s[a + |r|..] == s[|s| - b..];
      assert IsTrimmed(s) ==> a == 0 && b == 0 && r == s;
      r
  }

  /** Trimming only removes characters. */
  lemma TrimAvoids(s: string, cs: set<char>)
    requires Avoids(s, cs)
    ensures Avoids(Trim(s), cs)
  {
    var r := Trim(s);
    var i := LeadingSpace(s);
    assert forall k :: 0 <= k < |r| ==> r[k] == s[i + k];
  }

  /** `s.split(c)` for every separator character `c` in `seps` at once (the
      regex split `/[\n,]/` when `seps` has two characters). Empty pieces are
      kept, and the empty string splits into one empty piece. */
  function SplitOn(s: string, seps: set<char>): (r: seq<string>)
    ensures |r| == CountIn(s, seps) + 1
    ensures forall p :: p in r ==> Avoids(p, seps)
  {
    if s == [] then [""]
    else
      var rest := SplitOn(s[1..], seps);
      if s[0] in seps then [""] + rest
      else
        var first := [s[0]] + rest[0];
        assert Avoids(first, seps) by {
          assert rest[0] in rest;
          forall k | 0 <= k < |first| ensures first[k] !in seps {
            if k > 0 { assert first[k] == rest[0][k - 1]; }
          }
        }
        [first] + rest[1..]
  }

  /** `parts.join(sep)`. */
  function Join(parts: seq<string>, sep: string): string {
    if |parts| == 0 then ""
    else if |parts| == 1 then parts[0]
    else parts[0] + sep + Join(parts[1..], sep)
  }

  /** `pieces.map((d) => d.trim()).filter((d) => d)`: each piece trimmed, the
      empty ones dropped. */
  function Tokens(pieces: seq<string>): (r: seq<string>)
    ensures |r| <= |pieces|
    ensures forall t :: t in r ==> t != "" && IsTrimmed(t)
  {
    if pieces == [] then []
    else
      var t := Trim(pieces[0]);
      (if t == "" then [] else [t]) + Tokens(pieces[1..])
  }

  // ---------------------------------------------------------------------------
  // Lemmas
  // ---------------------------------------------------------------------------

  lemma {:induction false} CountInAppend(a: string, b: string, cs: set<char>)
    ensures CountIn(a + b, cs) == CountIn(a, cs) + CountIn(b, cs)
  {
    if a != [] {
      assert (a + b)[0] == a[0] && (a + b)[1..] == a[1..] + b;
      CountInAppend(a[1..], b, cs);
      assert CountIn(a + b, cs) == (if a[0] in cs then 1 else 0) + CountIn(a[1..] + b, cs);
    } else {
      assert a + b == b;
    }
  }

  lemma {:induction false} CountInAvoids(a: string, cs: set<char>)
    requires Avoids(a, cs)
    ensures CountIn(a, cs) == 0
  {
    if a != [] {
      CountInAvoids(a[1..], cs);
    }
  }

  /** Splitting a string that holds no separator yields that string alone. */
  lemma {:induction false} SplitOnAvoiding(a: string, seps: set<char>)
    requires Avoids(a, seps)
    ensures SplitOn(a, seps) == [a]
  {
    if a != [] {
      SplitOnAvoiding(a[1..], seps);
      assert [a[0]] + a[1..] == a;
    }
  }

  /** Splitting distributes over a separator: `(a + c + b).split(c)` is
      `a.split(c)` followed by `b.split(c)`. */
  lemma {:induction false} SplitOnAround(a: string, c: char, b: string, seps: set<char>)
    requires c in seps
    ensures SplitOn(a + [c] + b, seps) == SplitOn(a, seps) + SplitOn(b, seps)
  {
    if a == [] {
      assert a + [c] + b == [c] + b;
      assert ([c] + b)[1..] == b;
    } else {
      assert (a + [c] + b)[1..] == a[1..] + [c] + b;
      SplitOnAround(a[1..], c, b, seps);
    }
  }

  /** Splitting a joined list of separator-free parts gives the parts back. */
  lemma {:induction false} SplitOnJoin(parts: seq<string>, c: char, seps: set<char>)
    requires |parts| > 0 && c in seps
    requires forall p :: p in parts ==> Avoids(p, seps)
    ensures SplitOn(Join(parts, [c]), seps) == parts
  {
    assert parts[0] in parts;
    SplitOnAvoiding(parts[0], seps);
    if |parts| > 1 {
      SplitOnJoin(parts[1..], c, seps);
      SplitOnAround(parts[0], c, Join(parts[1..], [c]), seps);
      assert [parts[0]] + parts[1..] == parts;
    }
  }

  /** Trimming and filtering distribute over concatenation, in order. */
  lemma {:induction false} TokensAppend(p: seq<string>, q: seq<string>)
    ensures Tokens(p + q) == Tokens(p) + Tokens(q)
  {
    if p != [] {
      assert (p + q)[0] == p[0] && (p + q)[1..] == p[1..] + q;
      TokensAppend(p[1..], q);
      var t := Trim(p[0]);
      var head := if t == "" then [] else [t];
      assert Tokens(p + q) == head + Tokens(p[1..] + q);
      assert Tokens(p) == head + Tokens(p[1..]);
    } else {
      assert p + q == q;
    }
  }

  /** Trimming only removes characters, so a separator-free piece yields
      separator-free tokens. */
  lemma {:induction false} TokensAvoid(pieces: seq<string>, seps: set<char>)
    requires forall p :: p in pieces ==> Avoids(p, seps)
    ensures forall t :: t in Tokens(pieces) ==> IsToken(t, seps)
  {
    if pieces != [] {
      assert pieces[0] in pieces;
      TrimAvoids(pieces[0], seps);
      TokensAvoid(pieces[1..], seps);
    }
  }

  /** A list that already consists of tokens passes through unchanged. */
  lemma {:induction false} TokensOfTokens(parts: seq<string>, seps: set<char>)
    requires forall t :: t in parts ==> IsToken(t, seps)
    ensures Tokens(parts) == parts
  {
    if parts != [] {
      assert parts[0] in parts;
      TokensOfTokens(parts[1..], seps);
      assert [parts[0]] + parts[1..] == parts;
    }
  }

  /** A string made only of whitespace and separators splits into pieces made
      only of whitespace. */
  lemma {:induction false} SplitOnBlank(s: string, seps: set<char>)
    requires forall k :: 0 <= k < |s| ==> IsSpace(s[k]) || s[k] in seps
    ensures forall p :: p in SplitOn(s, seps) ==> AllSpace(p)
  {
    if s != [] {
      SplitOnBlank(s[1..], seps);
      var rest := SplitOn(s[1..], seps);
      if s[0] !in seps {
        assert rest[0] in rest;
        var first := [s[0]] + rest[0];
        assert AllSpace(first) by {
          forall k | 0 <= k < |first| ensures IsSpace(first[k]) {
            if k > 0 { assert first[k] == rest[0][k - 1]; }
          }
        }
        forall p | p in SplitOn(s, seps) ensures AllSpace(p) {
          if p != first { assert p in rest[1..]; }
        }
      }
    }
  }

  /** Whitespace-only pieces leave no tokens. */
  lemma {:induction false} TokensOfBlank(pieces: seq<string>)
    requires forall p :: p in pieces ==> AllSpace(p)
    ensures Tokens(pieces) == []
  {
    if pieces != [] {
      assert pieces[0] in pieces;
      TokensOfBlank(pieces[1..]);
    }
  }

  /** Where the `i`-th part starts in the joined string: every part occurs in
      the join, in full. */
  function PartOffset(parts: seq<string>, sep: string, i: nat): (off: nat)
    requires i < |parts|
    ensures off + |parts[i]| <= |Join(parts, sep)|
    ensures Join(parts, sep)[off..off + |parts[i]|] == parts[i]
  {
    if i == 0 then 0
    else
      var rest := Join(parts[1..], sep);
      var off := |parts[0]| + |sep| + PartOffset(parts[1..], sep, i - 1);
      assert Join(parts, sep) == (parts[0] + sep) + rest;
      assert Join(parts, sep)[off..off + |parts[i]|] == rest[off - |parts[0]| - |sep|..off - |parts[0]| - |sep| + |parts[i]|];
      off
  }

  /** A slice of `p + j` beyond the prefix `p` is the matching slice of `j`. */
  lemma SliceAfterPrefix(p: string, j: string, a: nat, b: nat)
    requires a <= b <= |j|
    ensures (p + j)[|p| + a..|p| + b] == j[a..b]
  {
    assert forall k :: |p| + a <= k < |p| + b ==> (p + j)[k] == j[k - |p|];
  }

  /** Behind a prefix, every part of a join still occurs in full. */
  lemma PartAfterPrefix(p: string, parts: seq<string>, sep: string, i: nat)
    requires i < |parts|
    ensures var off := |p| + PartOffset(parts, sep, i);
      off + |parts[i]| <= |p + Join(parts, sep)| && (p + Join(parts, sep))[off..off + |parts[i]|] == parts[i]
  {
    var joined := Join(parts, sep);
    var off := PartOffset(parts, sep, i);
    SliceAfterPrefix(p, joined, off, off + |parts[i]|);
  }
}
