/** The Python string built-ins the crawler relies on: `str.startswith`, `str.lower`,
    `str.strip`, `re.sub` with a literal pattern and `str(int)`. */
module PyStr {

  predicate StartsWith(s: string, prefix: string) {
    |prefix| <= |s| && s[..|prefix|] == prefix
  }

  /** `s.startswith(a + b)` splits into a test on `a` and a test on what follows it. */
  lemma StartsWithConcat(s: string, a: string, b: string)
    ensures StartsWith(s, a + b) <==> StartsWith(s, a) && StartsWith(s[|a|..], b)
  {
    if StartsWith(s, a) && StartsWith(s[|a|..], b) {
      assert s[..|a + b|] == s[..|a|] + s[|a|..][..|b|];
    }
    if StartsWith(s, a + b) {
      assert s[..|a|] == (a + b)[..|a|] == a;
      assert s[|a|..][..|b|] == s[..|a + b|][|a|..] == b;
    }
  }

  /** Lower-casing of one character, as far as it can matter when the result is compared
      with ASCII text: the letters A-Z, and the Kelvin sign, which Python lower-cases to 'k'. */
  function LowerChar(c: char): char {
    if 'A' <= c <= 'Z' then (c as int + 32) as char
    else if c == '\U{212A}' then 'k'
    else c
  }

  /** `str.lower`: same length; each ASCII capital becomes its small letter, the Kelvin
      sign becomes `k`, and every other character is left as it was. */
  function Lower(s: string): (r: string)
    ensures |r| == |s|
    ensures forall i :: 0 <= i < |r| ==> !('A' <= r[i] <= 'Z')
    ensures forall i :: 0 <= i < |s| && 'A' <= s[i] <= 'Z' ==> r[i] as int == s[i] as int + 32
    ensures forall i :: 0 <= i < |s| && s[i] == '\U{212A}' ==> r[i] == 'k'
    ensures forall i :: 0 <= i < |s| && !('A' <= s[i] <= 'Z') && s[i] != '\U{212A}' ==> r[i] == s[i]
  {
    seq(|s|, i requires 0 <= i < |s| => LowerChar(s[i]))
  }

  /** Lower-casing twice is lower-casing once. */
  lemma LowerIdempotent(s: string)
    ensures Lower(Lower(s)) == Lower(s)
  {
  }

  /** The characters for which Python's `str.isspace` holds. */
  predicate IsSpace(c: char) {
    || '\t' <= c <= '\r'
    || '\U{1C}' <= c <= ' '
    || c == '\U{85}' || c == '\U{A0}' || c == '\U{1680}'
    || '\U{2000}' <= c <= '\U{200A}'
    || c == '\U{2028}' || c == '\U{2029}' || c == '\U{202F}' || c == '\U{205F}' || c == '\U{3000}'
  }

  /** Length of the longest all-whitespace prefix of `s`. */
  function LeadingSpaces(s: string): (k: nat)
    ensures k <= |s|
    ensures forall i :: 0 <= i < k ==> IsSpace(s[i])
    ensures k < |s| ==> !IsSpace(s[k])
  {
    if s == [] || !IsSpace(s[0]) then 0 else 1 + LeadingSpaces(s[1..])
  }

  /** Length of the longest all-whitespace suffix of `s`. */
  function TrailingSpaces(s: string): (k: nat)
    ensures k <= |s|
    ensures forall i :: |s| - k <= i < |s| ==> IsSpace(s[i])
    ensures k < |s| ==> !IsSpace(s[|s| - 1 - k])
  {
    if s == [] || !IsSpace(s[|s| - 1]) then 0 else 1 + TrailingSpaces(s[..|s| - 1])
  }

  /** `s.strip()`: the slice of `s` left once whitespace is removed from both ends. */
  function Strip(s: string): (r: string)
    ensures LeadingSpaces(s) + |r| <= |s|
    ensures r == s[LeadingSpaces(s)..LeadingSpaces(s) + |r|]
    ensures forall k :: LeadingSpaces(s) + |r| <= k < |s| ==> IsSpace(s[k])
    ensures r != [] ==> !IsSpace(r[0]) && !IsSpace(r[|r| - 1])
  {
    var a := LeadingSpaces(s);
    var t := s[a..];
    var b := TrailingSpaces(t);
    t[..|t| - b]
  }

  /** `pat` occurs in `s` starting at index `i`. */
  predicate MatchAt(s: string, pat: string, i: int) {
    0 <= i && i + |pat| <= |s| && s[i..i + |pat|] == pat
  }

  ghost predicate Occurs(s: string, pat: string) {
    exists i :: MatchAt(s, pat, i)
  }

  /** `re.sub(pat, '', s)` for a pattern without metacharacters: scanning left to right,
      every non-overlapping match is deleted and every other character kept. */
  function RemoveAll(s: string, pat: string): (r: string)
    requires pat != []
    ensures |r| <= |s|
    decreases |s|
  {
    if |s| < |pat| then s
    else if s[..|pat|] == pat then RemoveAll(s[|pat|..], pat)
    else [s[0]] + RemoveAll(s[1..], pat)
  }

  /** Without a match, nothing is removed. */
  lemma {:induction false} RemoveAllNoMatch(s: string, pat: string)
    requires pat != [] && !Occurs(s, pat)
    ensures RemoveAll(s, pat) == s
    decreases |s|
  {
    if |s| >= |pat| {
      assert !MatchAt(s, pat, 0);
      assert !Occurs(s[1..], pat) by {
        forall i | MatchAt(s[1..], pat, i) ensures MatchAt(s, pat, i + 1) {
          assert s[i + 1..i + 1 + |pat|] == s[1..][i..i + |pat|];
        }
      }
      RemoveAllNoMatch(s[1..], pat);
    }
  }

  /** One step of the scan when no match starts at the current position. */
  lemma RemoveAllKeep(s: string, pat: string)
    requires pat != [] && |s| > 0 && !MatchAt(s, pat, 0)
    ensures RemoveAll(s, pat) == [s[0]] + RemoveAll(s[1..], pat)
  {
    if |s| < |pat| {
      assert RemoveAll(s[1..], pat) == s[1..];
    }
  }

  /** One step of the scan when a match starts at the current position. */
  lemma RemoveAllDrop(s: string, pat: string)
    requires pat != [] && MatchAt(s, pat, 0)
    ensures RemoveAll(s, pat) == s[..0] + RemoveAll(s[|pat|..], pat)
  {
    assert s[..|pat|] == pat;
    assert s[..0] == [];
  }

  /** No match of `pat` starts before index `i` of `s`. */
  predicate NoMatchBefore(s: string, pat: string, i: int) {
    forall j :: 0 <= j < i ==> !MatchAt(s, pat, j)
  }

  /** The text before the first match is kept as it is, the match is deleted, and the scan
      resumes right after it. */
  lemma RemoveAllFirstMatch(s: string, pat: string, i: nat)
    requires pat != [] && MatchAt(s, pat, i) && NoMatchBefore(s, pat, i)
    ensures RemoveAll(s, pat) == s[..i] + RemoveAll(s[i + |pat|..], pat)
  {
    RemoveAllKeepPrefix(s, pat, i);
    MatchSuffix(s, pat, i);
    RemoveAllDrop(s[i..], pat);
    assert s[i..][|pat|..] == s[i + |pat|..];
  }

  /** While no match has started, the scanned characters are kept unchanged. */
  lemma {:induction false} RemoveAllKeepPrefix(s: string, pat: string, k: nat)
    requires pat != [] && k <= |s| && NoMatchBefore(s, pat, k)
    ensures RemoveAll(s, pat) == s[..k] + RemoveAll(s[k..], pat)
  {
    if k == 0 {
      assert s[..0] == [] && s[0..] == s;
    } else {
      RemoveAllKeepPrefix(s, pat, k - 1);
      KeepAt(s, pat, k);
      JoinAt(s, k, RemoveAll(s[k..], pat));
    }
  }

  /** The scan keeps character `k - 1` when no match starts there. */
  lemma KeepAt(s: string, pat: string, k: nat)
    requires pat != [] && 0 < k <= |s| && !MatchAt(s, pat, k - 1)
    ensures RemoveAll(s[k - 1..], pat) == [s[k - 1]] + RemoveAll(s[k..], pat)
  {
    var u := s[k - 1..];
    MatchSuffix(s, pat, k - 1);
    RemoveAllKeep(u, pat);
    assert u[1..] == s[k..];
  }

  lemma JoinAt(s: string, k: nat, rest: string)
    requires 0 < k <= |s|
    ensures s[..k - 1] + ([s[k - 1]] + rest) == s[..k] + rest
  {
    assert s[..k - 1] + [s[k - 1]] == s[..k];
  }

  /** A match at `k` is a match at the start of `s[k..]`. */
  lemma MatchSuffix(s: string, pat: string, k: nat)
    requires k <= |s|
    ensures MatchAt(s, pat, k) <==> MatchAt(s[k..], pat, 0)
  {
    if k + |pat| <= |s| {
      assert s[k..][0..|pat|] == s[k..k + |pat|];
    }
  }

  /** A text that does not start with the pattern's first character, followed by a text
      without the pattern, does not contain the pattern. */
  lemma NoMatchAfterOther(c: char, t: string, pat: string)
    requires pat != [] && c != pat[0] && !Occurs(t, pat)
    ensures !Occurs([c] + t, pat)
  {
    var s := [c] + t;
    forall i | 0 <= i && i + |pat| <= |s| ensures !MatchAt(s, pat, i) {
      if i == 0 {
        assert s[0..|pat|][0] == c;
      } else {
        assert s[i..i + |pat|] == t[i - 1..i - 1 + |pat|];
        assert !MatchAt(t, pat, i - 1);
      }
    }
  }

  function DigitChar(d: nat): char
    requires d < 10
  {
    ('0' as int + d) as char
  }

  predicate IsDigit(c: char) {
    '0' <= c <= '9'
  }

  /** `str(n)` for a non-negative integer: its decimal digits, most significant first. */
  function Decimal(n: nat): (s: string)
    ensures |s| > 0
    ensures forall i :: 0 <= i < |s| ==> IsDigit(s[i])
    ensures s[0] == '0' ==> n == 0
    decreases n
  {
    if n < 10 then [DigitChar(n)] else Decimal(n / 10) + [DigitChar(n % 10)]
  }

  /** `int(s)` for a string of decimal digits. */
  function DecimalValue(s: string): nat
    requires forall i :: 0 <= i < |s| ==> IsDigit(s[i])
    decreases |s|
  {
    if s == [] then 0
    else
      assert IsDigit(s[|s| - 1]);
      DecimalValue(s[..|s| - 1]) * 10 + (s[|s| - 1] as int - '0' as int)
  }

  /** Reading back the digits of `n` gives `n`. */
  lemma {:induction false} DecimalRoundTrip(n: nat)
    ensures DecimalValue(Decimal(n)) == n
    decreases n
  {
    if n >= 10 {
      var s := Decimal(n);
      assert s[..|s| - 1] == Decimal(n / 10);
      DecimalRoundTrip(n / 10);
    }
  }

  /** Different numbers have different decimal spellings. */
  lemma DecimalInjective(m: nat, n: nat)
    ensures Decimal(m) == Decimal(n) <==> m == n
  {
    DecimalRoundTrip(m);
    DecimalRoundTrip(n);
  }
}
