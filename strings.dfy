/**
 * The string operations the JavaScript sources lean on: `trim`, `toLowerCase`,
 * `includes`, `split`/`join`, `replace`, `parseInt(s, 10)` and the decimal
 * rendering of a non-negative integer. Strings are `seq<char>`; white space
 * and letter case are those of ASCII.
 */
module Strings {
  import opened Wrappers

  // ---------------------------------------------------------------------
  // White space and trimming

  /** The ASCII white-space characters that `String.prototype.trim` removes. */
  predicate IsSpace(c: char) {
    c == ' ' || c == '\t' || c == '\n' || c == '\r' || c == '\U{000B}' || c == '\U{000C}'
  }

  /** The first index at or after `i` that does not hold white space, or `|s|`. */
  function SkipSpaces(s: string, i: nat): (k: nat)
    requires i <= |s|
    ensures i <= k <= |s|
    ensures forall j :: i <= j < k ==> IsSpace(s[j])
    ensures k == |s| || !IsSpace(s[k])
    decreases |s| - i
  {
    if i < |s| && IsSpace(s[i]) then SkipSpaces(s, i + 1) else i
  }

  /** The end of `s[lo..j]` once its trailing white space is dropped. */
  function BackSpaces(s: string, lo: nat, j: nat): (e: nat)
    requires lo <= j <= |s|
    ensures lo <= e <= j
    ensures forall m :: e <= m < j ==> IsSpace(s[m])
    ensures e == lo || !IsSpace(s[e - 1])
    decreases j
  {
    if lo < j && IsSpace(s[j - 1]) then BackSpaces(s, lo, j - 1) else j
  }

  /** The number of white-space characters `s` starts with. */
  function LeadingSpaces(s: string): (k: nat)
    ensures k <= |s|
    ensures forall i :: 0 <= i < k ==> IsSpace(s[i])
    ensures k == |s| || !IsSpace(s[k])
  {
    SkipSpaces(s, 0)
  }

  /** `s.trim()`: `s` without its leading and trailing white space. */
  function Trim(s: string): (r: string)
    ensures LeadingSpaces(s) + |r| <= |s|
    ensures r == s[LeadingSpaces(s)..LeadingSpaces(s) + |r|]
    ensures forall i :: 0 <= i < |s| && !(LeadingSpaces(s) <= i < LeadingSpaces(s) + |r|) ==> IsSpace(s[i])
    ensures r == [] || (!IsSpace(r[0]) && !IsSpace(r[|r| - 1]))
  {
    var k := LeadingSpaces(s);
    var e := BackSpaces(s, k, |s|);
    assert k < e ==> s[k..e][0] == s[k] && s[k..e][e - k - 1] == s[e - 1];
    s[k..e]
  }

  /** True when `s.trim() === ''`. */
  predicate IsBlank(s: string) {
    Trim(s) == []
  }

  lemma BlankIffAllSpace(s: string)
    ensures IsBlank(s) <==> forall i :: 0 <= i < |s| ==> IsSpace(s[i])
  {
    if !IsBlank(s) {
      assert s[LeadingSpaces(s)] == Trim(s)[0];
    }
  }

  lemma TrimIdempotent(s: string)
    ensures Trim(Trim(s)) == Trim(s)
  {
    var r := Trim(s);
    assert LeadingSpaces(r) == 0;
    assert BackSpaces(r, 0, |r|) == |r|;
  }

  predicate AllSpace(s: string) {
    forall i :: 0 <= i < |s| ==> IsSpace(s[i])
  }

  /** Trimmed text is determined by the layout: white space, then a core with no white space at its ends, then white space. */
  lemma TrimUnique(s: string, a: string, r: string, b: string)
    requires s == a + r + b && AllSpace(a) && AllSpace(b)
    requires r == [] || (!IsSpace(r[0]) && !IsSpace(r[|r| - 1]))
    ensures Trim(s) == r
  {
    var k := LeadingSpaces(s);
    assert forall i :: 0 <= i < |a| ==> s[i] == a[i];
    assert forall i :: |a| <= i < |a| + |r| ==> s[i] == r[i - |a|];
    assert forall i :: |a| + |r| <= i < |s| ==> s[i] == b[i - |a| - |r|];
    if r == [] {
      assert AllSpace(s);
      BlankIffAllSpace(s);
    } else {
      assert !IsSpace(s[|a|]) && !IsSpace(s[|a| + |r| - 1]);
      assert k == |a|;
      var e := BackSpaces(s, k, |s|);
      assert e == |a| + |r|;
      assert s[k..e] == r;
    }
  }

  lemma AllSpaceConcat(x: string, y: string)
    requires AllSpace(x) && AllSpace(y)
    ensures AllSpace(x + y)
  {
    forall i | 0 <= i < |x + y| ensures IsSpace((x + y)[i]) {
      if i >= |x| { assert (x + y)[i] == y[i - |x|]; }
    }
  }

  /** `s` is its leading white space, its trimmed text and its trailing white space. */
  lemma TrimLayout(s: string)
    ensures AllSpace(s[..LeadingSpaces(s)])
    ensures AllSpace(s[LeadingSpaces(s) + |Trim(s)|..])
    ensures s == s[..LeadingSpaces(s)] + Trim(s) + s[LeadingSpaces(s) + |Trim(s)|..]
  {
    var k := LeadingSpaces(s);
    var r := Trim(s);
    var b := s[k + |r|..];
    forall i | 0 <= i < |b| ensures IsSpace(b[i]) { assert b[i] == s[k + |r| + i]; }
  }

  lemma SeqRegroup(p: string, a: string, r: string, b: string, q: string)
    ensures p + (a + r + b) + q == (p + a) + r + (b + q)
  {
  }

  /** Surrounding white space does not change the trimmed text. */
  lemma TrimPadded(s: string, p: string, q: string)
    requires AllSpace(p) && AllSpace(q)
    ensures Trim(p + s + q) == Trim(s)
  {
    var k := LeadingSpaces(s);
    var r := Trim(s);
    var a := s[..k];
    var b := s[k + |r|..];
    TrimLayout(s);
    AllSpaceConcat(p, a);
    AllSpaceConcat(b, q);
    var padded := (p + a) + r + (b + q);
    TrimUnique(padded, p + a, r, b + q);
    assert s == a + r + b;
    SeqRegroup(p, a, r, b, q);
    assert p + s + q == padded;
  }

  // ---------------------------------------------------------------------
  // Letter case

  function LowerChar(c: char): (d: char)
    ensures 'A' <= c <= 'Z' ==> 'a' <= d <= 'z'
    ensures !('A' <= c <= 'Z') ==> d == c
  {
    if 'A' <= c <= 'Z' then (c as int + 32) as char else c
  }

  /** `s.toLowerCase()` on ASCII letters. */
  function ToLower(s: string): (r: string)
    ensures |r| == |s|
    ensures forall i :: 0 <= i < |s| ==> r[i] == LowerChar(s[i])
  {
    if s == [] then [] else [LowerChar(s[0])] + ToLower(s[1..])
  }

  lemma ToLowerIdempotent(s: string)
    ensures ToLower(ToLower(s)) == ToLower(s)
  {
    var r := ToLower(s);
    assert forall i :: 0 <= i < |r| ==> ToLower(r)[i] == r[i];
  }

  /** Lowering case never creates or removes white space. */
  lemma LowerCharKeepsSpace(c: char)
    ensures IsSpace(LowerChar(c)) <==> IsSpace(c)
  {
  }

  // ---------------------------------------------------------------------
  // Prefixes, suffixes and substrings

  predicate StartsWith(s: string, prefix: string) {
    |prefix| <= |s| && s[..|prefix|] == prefix
  }

  predicate EndsWith(s: string, suffix: string) {
    |suffix| <= |s| && s[|s| - |suffix|..] == suffix
  }

  /** `s.includes(sub)`, computed by scanning. */
  function Contains(s: string, sub: string): (b: bool)
    decreases |s|
  {
    StartsWith(s, sub) || (s != [] && Contains(s[1..], sub))
  }

  /** `pat` occurs in `s` starting at index `i`. */
  predicate MatchesAt(s: string, pat: string, i: int) {
    0 <= i && i + |pat| <= |s| && s[i..i + |pat|] == pat
  }

  /** `sub` occurs in `s` at some position. */
  ghost predicate OccursIn(sub: string, s: string) {
    exists i :: MatchesAt(s, sub, i)
  }

  lemma {:induction false} ContainsIffOccurs(s: string, sub: string)
    ensures Contains(s, sub) <==> OccursIn(sub, s)
    decreases |s|
  {
    if StartsWith(s, sub) {
      assert MatchesAt(s, sub, 0);
    } else if s == [] {
      assert |sub| > 0;
    } else {
      ContainsIffOccurs(s[1..], sub);
      if OccursIn(sub, s[1..]) {
        var i :| MatchesAt(s[1..], sub, i);
        assert s[1..][i..i + |sub|] == s[i + 1..i + 1 + |sub|];
        assert MatchesAt(s, sub, i + 1);
      }
      if OccursIn(sub, s) {
        var i :| MatchesAt(s, sub, i);
        assert i != 0;
        assert s[1..][i - 1..i - 1 + |sub|] == s[i..i + |sub|];
        assert MatchesAt(s[1..], sub, i - 1);
      }
    }
  }

  /** Index of the first `c` in `s`, or `|s|` when there is none. */
  function IndexOf(s: string, c: char): (k: nat)
    ensures k <= |s|
    ensures k < |s| ==> s[k] == c
    ensures forall i :: 0 <= i < k ==> s[i] != c
  {
    if s == [] then 0 else if s[0] == c then 0 else 1 + IndexOf(s[1..], c)
  }

  /** Index of the first occurrence of `pat` in `s` at or after `i`, or `|s| + 1` when there is none. */
  function FindFrom(s: string, pat: string, i: nat): (k: nat)
    requires i <= |s|
    ensures i <= k <= |s| + 1
    ensures k <= |s| ==> MatchesAt(s, pat, k)
    ensures forall j :: i <= j < k ==> !MatchesAt(s, pat, j)
    decreases |s| - i
  {
    if MatchesAt(s, pat, i) then i
    else if i == |s| then |s| + 1
    else FindFrom(s, pat, i + 1)
  }

  /** Index of the first occurrence of `pat` in `s`, or `|s| + 1` when there is none. */
  function Find(s: string, pat: string): (k: nat)
    ensures k <= |s| + 1
    ensures k <= |s| ==> MatchesAt(s, pat, k)
    ensures forall i :: 0 <= i < k ==> !MatchesAt(s, pat, i)
  {
    FindFrom(s, pat, 0)
  }

  /** `s.replace(pat, rep)` with a string pattern: only the first occurrence is replaced. */
  function ReplaceFirst(s: string, pat: string, rep: string): (r: string)
  {
    var k := Find(s, pat);
    if k <= |s| then s[..k] + rep + s[k + |pat|..] else s
  }

  /** `s.replace(/x/g, y)` for a one-character pattern. */
  function ReplaceAllChar(s: string, x: char, y: char): (r: string)
    ensures |r| == |s|
    ensures forall i :: 0 <= i < |s| ==> r[i] == (if s[i] == x then y else s[i])
  {
    if s == [] then [] else [if s[0] == x then y else s[0]] + ReplaceAllChar(s[1..], x, y)
  }

  // ---------------------------------------------------------------------
  // split and join on one separator character

  /** `s.split(c)`: the maximal runs between separators, always at least one. */
  function Split(s: string, c: char): (parts: seq<string>)
    ensures |parts| >= 1
    decreases |s|
  {
    var k := IndexOf(s, c);
    if k == |s| then [s] else [s[..k]] + Split(s[k + 1..], c)
  }

  /** `parts.join(sep)`. */
  function Join(parts: seq<string>, sep: string): (r: string)
  {
    if parts == [] then []
    else if |parts| == 1 then parts[0]
    else parts[0] + sep + Join(parts[1..], sep)
  }

  lemma {:induction false} JoinSplit(s: string, c: char)
    ensures Join(Split(s, c), [c]) == s
    decreases |s|
  {
    var k := IndexOf(s, c);
    if k < |s| {
      JoinSplit(s[k + 1..], c);
      assert s == s[..k] + [c] + s[k + 1..];
    }
  }

  /** Splitting at the first separator peels off the field before it. */
  lemma SplitStep(s: string, c: char, k: nat)
    requires k == IndexOf(s, c) && k < |s|
    ensures Split(s, c) == [s[..k]] + Split(s[k + 1..], c)
  {
  }

  /** The first field of `s.split(c)`: everything before the first `c`. */
  lemma SplitHead(s: string, c: char)
    ensures Split(s, c)[0] == s[..IndexOf(s, c)]
  {
  }

  // ---------------------------------------------------------------------
  // Decimal numerals

  predicate IsDigit(c: char) {
    '0' <= c <= '9'
  }

  predicate AllDigits(s: string) {
    forall i :: 0 <= i < |s| ==> IsDigit(s[i])
  }

  function DigitChar(d: nat): (c: char)
    requires d < 10
    ensures IsDigit(c)
  {
    ('0' as int + d) as char
  }

  function DigitValue(c: char): (d: nat)
    requires IsDigit(c)
    ensures d < 10 && DigitChar(d) == c
  {
    c as int - '0' as int
  }

  /** The number a run of decimal digits denotes. */
  function DigitsValue(s: string): nat
    requires AllDigits(s)
  {
    if s == [] then 0 else DigitsValue(s[..|s| - 1]) * 10 + DigitValue(s[|s| - 1])
  }

  /** `String(n)` for a non-negative integer: its decimal numeral without leading zeros. */
  function NatToString(n: nat): (s: string)
    ensures |s| >= 1 && AllDigits(s)
    ensures |s| > 1 ==> s[0] != '0'
  {
    if n < 10 then [DigitChar(n)] else NatToString(n / 10) + [DigitChar(n % 10)]
  }

  /** The longest run of digits at the start of `s`. */
  function DigitPrefix(s: string): (r: string)
    ensures AllDigits(r) && StartsWith(s, r)
    ensures |r| < |s| ==> !IsDigit(s[|r|])
  {
    if s != [] && IsDigit(s[0]) then [s[0]] + DigitPrefix(s[1..]) else []
  }

  /**
   * `parseInt(s, 10)`: leading white space is skipped, an optional sign is
   * read, then the longest run of digits; `NaN` (no digit at all) is `None`.
   */
  function ParseInt(s: string): (r: Option<int>)
  {
    var t := s[LeadingSpaces(s)..];
    var negative := t != [] && t[0] == '-';
    var body := if t != [] && (t[0] == '-' || t[0] == '+') then t[1..] else t;
    var ds := DigitPrefix(body);
    if ds == [] then None
    else if negative then Some(-(DigitsValue(ds) as int))
    else Some(DigitsValue(ds) as int)
  }

  lemma {:induction false} DigitsValueOfNatToString(n: nat)
    ensures DigitsValue(NatToString(n)) == n
  {
    if n >= 10 {
      DigitsValueOfNatToString(n / 10);
      var s := NatToString(n);
      assert s[..|s| - 1] == NatToString(n / 10);
    }
  }

  lemma {:induction false} DigitPrefixOfDigits(s: string, rest: string)
    requires AllDigits(s)
    requires rest == [] || !IsDigit(rest[0])
    ensures DigitPrefix(s + rest) == s
  {
    if s != [] {
      assert (s + rest)[1..] == s[1..] + rest;
      DigitPrefixOfDigits(s[1..], rest);
    } else {
      assert s + rest == rest;
    }
  }

  /** Numerals round-trip: `parseInt(String(n), 10) === n`. */
  lemma ParseIntOfNatToString(n: nat)
    ensures ParseInt(NatToString(n)) == Some(n as int)
  {
    var s := NatToString(n);
    ParseIntStopsAtNonDigit(s, []);
    assert s + [] == s;
    DigitsValueOfNatToString(n);
  }

  /** `parseInt` reads only the digits before the first non-digit. */
  lemma ParseIntStopsAtNonDigit(ds: string, rest: string)
    requires AllDigits(ds) && ds != []
    requires rest == [] || !IsDigit(rest[0])
    ensures ParseInt(ds + rest) == Some(DigitsValue(ds) as int)
  {
    var s := ds + rest;
    assert s[0] == ds[0];
    assert LeadingSpaces(s) == 0 by { assert !IsSpace(s[0]); }
    DigitPrefixOfDigits(ds, rest);
  }
}
