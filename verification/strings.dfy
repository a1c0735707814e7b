/** Character classes and string operations the JavaScript code relies on:
    `\s` and `trim()`, `toLowerCase()`, `includes()`, `.length`, number
    formatting inside template literals, and `replace(/R+/g, "-")`.

    A JavaScript string is a sequence of UTF-16 code units; a Dafny `string`
    is a sequence of Unicode scalar values. `Utf16Length` gives back the
    JavaScript `.length`. Lower-casing is modelled for ASCII letters only. */
module Strings {
  import opened Wrappers
  import opened Seqs

  /** The characters ECMAScript counts as white space, both for the regular
      expression class `\s` and for `String.prototype.trim`: the WhiteSpace
      production (TAB, VT, FF, SP, NBSP, ZWNBSP and the space separators of
      category Zs) and the LineTerminator production (LF, CR, LS, PS). */
  predicate IsWhitespace(c: char) {
    || c == '\t' || c == '\n' || c == '\U{0B}' || c == '\U{0C}' || c == '\r'
    || c == ' ' || c == '\U{A0}' || c == '\U{1680}'
    || ('\U{2000}' <= c <= '\U{200A}')
    || c == '\U{2028}' || c == '\U{2029}' || c == '\U{202F}' || c == '\U{205F}'
    || c == '\U{3000}' || c == '\U{FEFF}'
  }

  /** A string read from the environment is truthy when it is set and not
      empty: the test `if (!value)` fails exactly then. */
  predicate Truthy(value: Option<string>) {
    value.Some? && value.value != ""
  }

  predicate IsUpper(c: char) {
    'A' <= c <= 'Z'
  }

  /** The regular-expression class `[a-z0-9]`. */
  predicate IsLowerAlnum(c: char) {
    'a' <= c <= 'z' || '0' <= c <= '9'
  }

  /** An ASCII letter of either case, or an ASCII digit. */
  predicate IsAsciiAlnum(c: char) {
    IsLowerAlnum(c) || IsUpper(c)
  }

  /** The regular-expression class `[a-z0-9-]`. */
  predicate IsSlugChar(c: char) {
    IsLowerAlnum(c) || c == '-'
  }

  /** `toLowerCase` on one character, ASCII letters only. */
  function LowerChar(c: char): (d: char)
    ensures IsUpper(c) ==> d as int == c as int + 32
    ensures !IsUpper(c) ==> d == c
    ensures !IsUpper(d)
    ensures IsLowerAlnum(d) <==> IsAsciiAlnum(c)
    ensures IsWhitespace(d) <==> IsWhitespace(c)
  {
    if IsUpper(c) then (c as int + 32) as char else c
  }

  /** `s.toLowerCase()`, ASCII letters only. */
  function Lower(s: string): (r: string)
    ensures |r| == |s|
    ensures forall i :: 0 <= i < |s| ==> r[i] == LowerChar(s[i])
  {
    seq(|s|, i requires 0 <= i < |s| => LowerChar(s[i]))
  }

  lemma LowerAppend(a: string, b: string)
    ensures Lower(a + b) == Lower(a) + Lower(b)
  {
  }

  /** Lower-casing leaves a string without upper-case letters unchanged. */
  lemma LowerNoUpper(s: string)
    requires forall i :: 0 <= i < |s| ==> !IsUpper(s[i])
    ensures Lower(s) == s
  {
  }

  /** JavaScript's `.length`: a character outside the Basic Multilingual
      Plane occupies two UTF-16 code units. */
  function Utf16Length(s: string): (n: nat)
    ensures |s| <= n <= 2 * |s|
    ensures (forall i :: 0 <= i < |s| ==> s[i] as int <= 0xFFFF) ==> n == |s|
  {
    if s == [] then 0
    else Utf16Length(s[..|s| - 1]) + (if s[|s| - 1] as int > 0xFFFF then 2 else 1)
  }

  /** A character outside the Basic Multilingual Plane: a surrogate pair in
      UTF-16. */
  predicate IsSupplementary(c: char) {
    c as int > 0xFFFF
  }

  /** `.length` adds up over concatenation. */
  lemma {:induction false} Utf16LengthAppend(a: string, b: string)
    ensures Utf16Length(a + b) == Utf16Length(a) + Utf16Length(b)
    decreases |b|
  {
    if b != [] {
      var ab := a + b;
      assert ab[..|ab| - 1] == a + b[..|b| - 1];
      assert ab[|ab| - 1] == b[|b| - 1];
      Utf16LengthAppend(a, b[..|b| - 1]);
    } else {
      assert a + b == a;
    }
  }

  /** `.length` is exact: one code unit per character plus one more for
      each character outside the Basic Multilingual Plane. */
  lemma {:induction false} Utf16LengthExact(s: string)
    ensures Utf16Length(s) == |s| + Count(s, IsSupplementary)
    decreases |s|
  {
    if s != [] {
      assert s == [s[0]] + s[1..];
      Utf16LengthAppend([s[0]], s[1..]);
      assert [s[0]][..0] == [];
      Utf16LengthExact(s[1..]);
    }
  }

  // ---------------------------------------------------------------------------
  // Runs of a character class

  /** Length of the longest prefix of `s` whose characters all satisfy `p`. */
  function PrefixRun(s: string, p: char -> bool): (n: nat)
    ensures n <= |s|
    ensures forall i :: 0 <= i < n ==> p(s[i])
    ensures n < |s| ==> !p(s[n])
  {
    if s == [] || !p(s[0]) then 0 else 1 + PrefixRun(s[1..], p)
  }

  /** The prefix run of a concatenation crosses into the second part only
      when the first part is one run. */
  lemma {:induction false} PrefixRunAppend(a: string, b: string, p: char -> bool)
    ensures PrefixRun(a + b, p)
         == if PrefixRun(a, p) < |a| then PrefixRun(a, p) else |a| + PrefixRun(b, p)
    decreases |a|
  {
    if a == [] {
      assert a + b == b;
    } else {
      assert (a + b)[0] == a[0];
      if p(a[0]) {
        assert (a + b)[1..] == a[1..] + b;
        PrefixRunAppend(a[1..], b, p);
      }
    }
  }

  /** `s.replace(/R+/g, "-")` for a character class R given as `p`: every
      maximal run of characters satisfying `p` becomes one hyphen; every
      other character is kept in place. */
  function ReplaceRuns(s: string, p: char -> bool): (r: string)
    ensures |r| <= |s|
    ensures |s| > 0 ==> |r| > 0 && r[0] == (if p(s[0]) then '-' else s[0])
    ensures forall i :: 0 <= i < |r| ==> r[i] == '-' || !p(r[i])
    decreases |s|
  {
    if s == [] then []
    else if p(s[0]) then "-" + ReplaceRuns(s[PrefixRun(s, p)..], p)
    else [s[0]] + ReplaceRuns(s[1..], p)
  }

  /** When the hyphen itself belongs to the class, every hyphen ReplaceRuns
      writes is followed by a character outside the class: the output has no
      two hyphens in a row. */
  lemma {:induction false} ReplaceRunsSingleHyphens(s: string, p: char -> bool)
    requires p('-')
    ensures forall i :: 0 <= i < |ReplaceRuns(s, p)| - 1 && ReplaceRuns(s, p)[i] == '-'
              ==> !p(ReplaceRuns(s, p)[i + 1])
    decreases |s|
  {
    if s != [] {
      var k := ResumeAt(s, p);
      ReplaceRunsSingleHyphens(s[k..], p);
      var r, t := ReplaceRuns(s, p), ReplaceRuns(s[k..], p);
      assert r[1..] == t;
      if |t| > 0 && r[0] == '-' {
        assert !p(t[0]);
      }
    }
  }

  /** A character outside the class survives ReplaceRuns, and apart from the
      hyphens it writes, ReplaceRuns introduces no character. */
  lemma {:induction false} ReplaceRunsKeeps(s: string, p: char -> bool)
    ensures forall i :: 0 <= i < |s| && !p(s[i]) ==> s[i] in ReplaceRuns(s, p)
    ensures forall c :: c in ReplaceRuns(s, p) && c != '-' ==> c in s
    decreases |s|
  {
    if s != [] {
      var k := if p(s[0]) then PrefixRun(s, p) else 1;
      ReplaceRunsKeeps(s[k..], p);
      assert forall i :: k <= i < |s| ==> s[i] == s[k..][i - k];
    }
  }

  /** A string in which every character of the class is a lone hyphen is a
      fixed point of ReplaceRuns. */
  lemma {:induction false} ReplaceRunsIdentity(s: string, p: char -> bool)
    requires forall i :: 0 <= i < |s| && p(s[i]) ==> s[i] == '-'
    requires forall i :: 0 <= i < |s| - 1 && p(s[i]) ==> !p(s[i + 1])
    ensures ReplaceRuns(s, p) == s
    decreases |s|
  {
    if s == [] {
    } else if p(s[0]) {
      assert PrefixRun(s, p) == 1 by {
        if |s| > 1 {
          assert !p(s[1]);
          assert PrefixRun(s[1..], p) == 0;
        }
      }
      ReplaceRunsIdentity(s[1..], p);
    } else {
      ReplaceRunsIdentity(s[1..], p);
    }
  }

  /** A non-empty run becomes exactly one hyphen. */
  lemma ReplaceRunsOfRun(s: string, p: char -> bool)
    requires |s| > 0
    requires forall i :: 0 <= i < |s| ==> p(s[i])
    ensures ReplaceRuns(s, p) == "-"
  {
    assert PrefixRun(s, p) == |s|;
  }

  /** Where ReplaceRuns resumes after the first character of `s` and the run
      it may start. */
  function ResumeAt(s: string, p: char -> bool): (k: nat)
    requires |s| > 0
    ensures 1 <= k <= |s|
  {
    if p(s[0]) then PrefixRun(s, p) else 1
  }

  /** ReplaceRuns works piecewise, unless the cut splits a run in two. */
  lemma {:induction false} ReplaceRunsAppend(a: string, b: string, p: char -> bool)
    requires !(|a| > 0 && |b| > 0 && p(a[|a| - 1]) && p(b[0]))
    ensures ReplaceRuns(a + b, p) == ReplaceRuns(a, p) + ReplaceRuns(b, p)
    decreases |a|
  {
    if a == [] {
      assert a + b == b;
    } else {
      var k := ResumeAt(a, p);
      if k < |a| {
        assert a[k..][|a[k..]| - 1] == a[|a| - 1];
        ReplaceRunsAppend(a[k..], b, p);
        ReplaceRunsAppendStep(a, b, p);
      } else {
        ReplaceRunsAppendLast(a, b, p);
      }
    }
  }

  lemma ReplaceRunsAppendStep(a: string, b: string, p: char -> bool)
    requires |a| > 0 && ResumeAt(a, p) < |a|
    requires ReplaceRuns(a[ResumeAt(a, p)..] + b, p)
          == ReplaceRuns(a[ResumeAt(a, p)..], p) + ReplaceRuns(b, p)
    ensures ReplaceRuns(a + b, p) == ReplaceRuns(a, p) + ReplaceRuns(b, p)
  {
    var k := ResumeAt(a, p);
    var ab := a + b;
    var head := if p(a[0]) then "-" else [a[0]];
    var rest, rb := ReplaceRuns(a[k..], p), ReplaceRuns(b, p);
    ResumeInside(a, b, p);
    assert ReplaceRuns(a, p) == head + rest by {
      ReplaceRunsUnfold(a, p);
    }
    assert ReplaceRuns(ab, p) == head + (rest + rb) by {
      ReplaceRunsUnfold(ab, p);
      SliceOfAppend(a, b, k);
    }
    assert head + (rest + rb) == (head + rest) + rb;
  }

  lemma SliceOfAppend(a: string, b: string, k: nat)
    requires k <= |a|
    ensures (a + b)[k..] == a[k..] + b
  {
  }

  /** Where ReplaceRuns resumes is decided inside the first part when the
      first part does not end in the run it starts. */
  lemma ResumeInside(a: string, b: string, p: char -> bool)
    requires |a| > 0 && ResumeAt(a, p) < |a|
    ensures (a + b)[0] == a[0] && ResumeAt(a + b, p) == ResumeAt(a, p)
  {
    assert (a + b)[0] == a[0];
    if p(a[0]) {
      PrefixRunAppend(a, b, p);
    }
  }

  lemma ReplaceRunsAppendLast(a: string, b: string, p: char -> bool)
    requires |a| > 0 && ResumeAt(a, p) == |a|
    requires !(|b| > 0 && p(a[|a| - 1]) && p(b[0]))
    ensures ReplaceRuns(a + b, p) == ReplaceRuns(a, p) + ReplaceRuns(b, p)
  {
    var ab := a + b;
    var head := if p(a[0]) then "-" else [a[0]];
    assert ab[0] == a[0];
    assert ResumeAt(ab, p) == |a| by {
      if p(a[0]) {
        PrefixRunAppend(a, b, p);
        assert PrefixRun(b, p) == 0 by {
          if |b| > 0 {
            assert !p(b[0]);
          }
        }
      }
    }
    assert ab[|a|..] == b;
    assert ReplaceRuns(ab, p) == head + ReplaceRuns(b, p) by {
      ReplaceRunsUnfold(ab, p);
    }
    assert ReplaceRuns(a, p) == head by {
      ReplaceRunsUnfold(a, p);
      assert a[|a|..] == [];
      assert head + [] == head;
    }
  }

  lemma ReplaceRunsUnfold(s: string, p: char -> bool)
    requires |s| > 0
    ensures ReplaceRuns(s, p) == (if p(s[0]) then "-" else [s[0]]) + ReplaceRuns(s[ResumeAt(s, p)..], p)
  {
  }

  /** ReplaceRuns keeps, in order, every character of a kind `keep` that
      neither belongs to the class nor is a hyphen: filtering for that kind
      sees no difference. */
  lemma {:induction false} ReplaceRunsFilter(s: string, p: char -> bool, keep: char -> bool)
    requires forall c :: keep(c) ==> !p(c)
    requires !keep('-')
    ensures Filter(ReplaceRuns(s, p), keep) == Filter(s, keep)
    decreases |s|
  {
    if s != [] {
      var k := ResumeAt(s, p);
      var rest := ReplaceRuns(s[k..], p);
      ReplaceRunsFilter(s[k..], p, keep);
      var head := if p(s[0]) then "-" else [s[0]];
      assert ReplaceRuns(s, p) == head + rest;
      FilterAppend(head, rest, keep);
      if p(s[0]) {
        FilterSkips(s, keep, k);
        assert head[1..] == [];
      } else {
        assert s == [s[0]] + s[1..];
        FilterAppend([s[0]], s[1..], keep);
      }
    }
  }

  // ---------------------------------------------------------------------------
  // trim()

  /** Number of white-space characters at the start of `s`. */
  function LeadingSpace(s: string): (n: nat)
    ensures n <= |s|
    ensures forall i :: 0 <= i < n ==> IsWhitespace(s[i])
    ensures n < |s| ==> !IsWhitespace(s[n])
  {
    PrefixRun(s, IsWhitespace)
  }

  /** Number of white-space characters at the end of `s`. */
  function TrailingSpace(s: string): (n: nat)
    ensures n <= |s|
    ensures forall i :: |s| - n <= i < |s| ==> IsWhitespace(s[i])
    ensures n < |s| ==> !IsWhitespace(s[|s| - n - 1])
  {
    if s == [] || !IsWhitespace(s[|s| - 1]) then 0
    else 1 + TrailingSpace(s[..|s| - 1])
  }

  /** `s.trim()`: the slice of `s` left after removing white space from both
      ends. Everything removed is white space, and what is kept neither
      begins nor ends with white space. */
  function Trim(s: string): (r: string)
    ensures |r| <= |s|
    ensures LeadingSpace(s) + |r| <= |s| && r == s[LeadingSpace(s)..LeadingSpace(s) + |r|]
    ensures forall i :: 0 <= i < |s| && !(LeadingSpace(s) <= i < LeadingSpace(s) + |r|)
                        ==> IsWhitespace(s[i])
    ensures r != [] ==> !IsWhitespace(r[0]) && !IsWhitespace(r[|r| - 1])
  {
    var t := s[LeadingSpace(s)..];
    t[..|t| - TrailingSpace(t)]
  }

  /** Trimming twice is trimming once. */
  lemma TrimIdempotent(s: string)
    ensures Trim(Trim(s)) == Trim(s)
  {
    var r := Trim(s);
    if r != [] {
      assert LeadingSpace(r) == 0;
      assert TrailingSpace(r) == 0;
    }
  }

  /** Trimming ignores white space added at either end. */
  lemma TrimPadding(before: string, s: string, after: string)
    requires forall i :: 0 <= i < |before| ==> IsWhitespace(before[i])
    requires forall i :: 0 <= i < |after| ==> IsWhitespace(after[i])
    ensures Trim(before + s + after) == Trim(s)
  {
    var padded := before + s + after;
    assert forall i :: |before| <= i < |before| + |s| ==> padded[i] == s[i - |before|];
    assert forall i :: |before| + |s| <= i < |padded| ==> padded[i] == after[i - |before| - |s|];
    if Trim(s) == [] {
      assert forall i :: 0 <= i < |padded| ==> IsWhitespace(padded[i]);
    } else {
      TrimPaddingKept(before, s, after);
    }
  }

  lemma TrimPaddingKept(before: string, s: string, after: string)
    requires forall i :: 0 <= i < |before| ==> IsWhitespace(before[i])
    requires forall i :: 0 <= i < |after| ==> IsWhitespace(after[i])
    requires Trim(s) != []
    ensures Trim(before + s + after) == Trim(s)
  {
    var lead := LeadingSpace(s);
    var r := Trim(s);
    var n := |r|;
    assert !IsWhitespace(s[lead]) && !IsWhitespace(s[lead + n - 1]) by {
      assert r[0] == s[lead] && r[n - 1] == s[lead + n - 1];
    }
    assert forall i :: lead + n <= i < |s| ==> IsWhitespace(s[i]);
    PaddedTrim(before, s, after, lead, lead + n);
  }

  /** When the kept part of `s` runs from `lo` to `hi`, padding `s` with
      white space keeps the same part. */
  lemma PaddedTrim(before: string, s: string, after: string, lo: nat, hi: nat)
    requires forall i :: 0 <= i < |before| ==> IsWhitespace(before[i])
    requires forall i :: 0 <= i < |after| ==> IsWhitespace(after[i])
    requires lo < hi <= |s|
    requires forall i :: 0 <= i < lo ==> IsWhitespace(s[i])
    requires forall i :: hi <= i < |s| ==> IsWhitespace(s[i])
    requires !IsWhitespace(s[lo]) && !IsWhitespace(s[hi - 1])
    ensures Trim(before + s + after) == s[lo..hi]
  {
    PaddedWhitespace(before, s, after, lo, hi);
    TrimEnds(before + s + after, |before| + lo, hi - lo);
    SliceOfMiddle(before, s, after, lo, hi - lo);
  }

  /** White space before `lo` and from `hi` on in `s` stays white space
      once `s` is padded with white space. */
  lemma PaddedWhitespace(before: string, s: string, after: string, lo: nat, hi: nat)
    requires forall i :: 0 <= i < |before| ==> IsWhitespace(before[i])
    requires forall i :: 0 <= i < |after| ==> IsWhitespace(after[i])
    requires lo < hi <= |s|
    requires forall i :: 0 <= i < lo ==> IsWhitespace(s[i])
    requires forall i :: hi <= i < |s| ==> IsWhitespace(s[i])
    requires !IsWhitespace(s[lo]) && !IsWhitespace(s[hi - 1])
    ensures var padded := before + s + after;
            && (forall i :: 0 <= i < |before| + lo ==> IsWhitespace(padded[i]))
            && (forall i :: |before| + hi <= i < |padded| ==> IsWhitespace(padded[i]))
            && !IsWhitespace(padded[|before| + lo]) && !IsWhitespace(padded[|before| + hi - 1])
  {
    var padded := before + s + after;
    assert forall i :: |before| <= i < |before| + |s| ==> padded[i] == s[i - |before|];
    assert forall i :: |before| + |s| <= i < |padded| ==> padded[i] == after[i - |before| - |s|];
  }

  lemma SliceOfMiddle(before: string, s: string, after: string, a: nat, n: nat)
    requires a + n <= |s|
    ensures (before + s + after)[|before| + a..|before| + a + n] == s[a..a + n]
  {
    var padded := before + s + after;
    assert forall k :: a <= k < a + n ==> s[k] == padded[|before| + k];
  }

  /** When the first non-white-space character of `s` is at `k`, the
      leading white space is `k` long. */
  lemma LeadingSpaceAt(s: string, k: nat)
    requires k < |s| && !IsWhitespace(s[k])
    requires forall i :: 0 <= i < k ==> IsWhitespace(s[i])
    ensures LeadingSpace(s) == k
  {
  }

  /** The trimmed text is the slice from the first to the last
      non-white-space character. */
  lemma TrimEnds(s: string, lo: nat, n: nat)
    requires 0 < n && lo + n <= |s|
    requires forall i :: 0 <= i < lo ==> IsWhitespace(s[i])
    requires forall i :: lo + n <= i < |s| ==> IsWhitespace(s[i])
    requires !IsWhitespace(s[lo]) && !IsWhitespace(s[lo + n - 1])
    ensures Trim(s) == s[lo..lo + n]
  {
    LeadingSpaceAt(s, lo);
  }

  // ---------------------------------------------------------------------------
  // includes()

  /** `pat` occurs in `s` starting at index `i`. */
  predicate OccursAt(s: string, pat: string, i: int) {
    0 <= i && i + |pat| <= |s| && s[i..i + |pat|] == pat
  }

  /** `s.includes(pat)`. */
  function Contains(s: string, pat: string): (b: bool)
    ensures b <==> exists i :: OccursAt(s, pat, i)
    decreases |s|
  {
    if |s| < |pat| then false
    else if s[..|pat|] == pat then
      assert OccursAt(s, pat, 0);
      true
    else
      var b := Contains(s[1..], pat);
      assert b ==> exists i :: OccursAt(s, pat, i) by {
        if b {
          var j :| OccursAt(s[1..], pat, j);
          assert OccursAt(s, pat, j + 1);
        }
      }
      assert (exists i :: OccursAt(s, pat, i)) ==> b by {
        if exists i :: OccursAt(s, pat, i) {
          var i :| OccursAt(s, pat, i);
          assert i != 0;
          assert OccursAt(s[1..], pat, i - 1);
        }
      }
      b
  }

  // ---------------------------------------------------------------------------
  // Decimal numerals, as a number prints inside a template literal

  predicate IsDigit(c: char) {
    '0' <= c <= '9'
  }

  predicate AllDigits(s: string) {
    forall i :: 0 <= i < |s| ==> IsDigit(s[i])
  }

  /** The number a string of decimal digits denotes. */
  function DigitsValue(s: string): nat
    requires AllDigits(s)
  {
    if s == [] then 0 else 10 * DigitsValue(s[..|s| - 1]) + (s[|s| - 1] as int - '0' as int)
  }

  /** The decimal numeral of `n`, as `${n}` prints it: digits only, no
      leading zero, and denoting `n`. */
  function DecimalString(n: nat): (r: string)
    ensures |r| >= 1 && AllDigits(r)
    ensures r[0] == '0' ==> n == 0
    ensures DigitsValue(r) == n
  {
    if n < 10 then [('0' as int + n) as char]
    else
      var r := DecimalString(n / 10) + [('0' as int + n % 10) as char];
      assert r[..|r| - 1] == DecimalString(n / 10);
      r
  }

  /** Distinct numbers print differently. */
  lemma DecimalStringInjective(m: nat, n: nat)
    requires DecimalString(m) == DecimalString(n)
    ensures m == n
  {
  }
}
