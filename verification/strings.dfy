/**
  The parts of Kotlin's `String` API that the modelled code relies on:
  substring search (`contains`, `indexOf`), `substringAfter`/`substringBefore`
  with their "missing delimiter gives the whole string" default, `split` on one
  character, `lowercase`, `isBlank`, `toIntOrNull` and `compareTo`.
  Strings are sequences of `char`; there is no Unicode case mapping.
 */
module Strings {
  import opened Wrappers

  /** The bounds of Kotlin's 32-bit `Int`. */
  const MinInt: int := -0x8000_0000
  const MaxInt: int := 0x7FFF_FFFF

  // ---------------------------------------------------------------------------
  // Substring search

  /** `pat` occurs in `s` starting at index `k`. */
  ghost predicate OccursAt(s: string, pat: string, k: int) {
    0 <= k && k + |pat| <= |s| && s[k..k + |pat|] == pat
  }

  /** `k` is the index of the first occurrence of `pat` in `s`. */
  ghost predicate FirstOccurrence(s: string, pat: string, k: int) {
    OccursAt(s, pat, k) && forall j :: 0 <= j < k ==> !OccursAt(s, pat, j)
  }

  /** `s.indexOf(pat, i)`: the first occurrence of `pat` at or after `i`. */
  function IndexOfFrom(s: string, pat: string, i: nat): (r: Option<nat>)
    requires i <= |s|
    ensures r.Some? ==> i <= r.value && OccursAt(s, pat, r.value)
    ensures r.Some? ==> forall k :: i <= k < r.value ==> !OccursAt(s, pat, k)
    ensures r.None? ==> forall k :: i <= k ==> !OccursAt(s, pat, k)
    decreases |s| - i
  {
    if i + |pat| > |s| then None
    else if s[i..i + |pat|] == pat then Some(i)
    else IndexOfFrom(s, pat, i + 1)
  }

  /** `s.indexOf(pat)`, with `-1` written as `None`. */
  function IndexOf(s: string, pat: string): (r: Option<nat>)
    ensures r.Some? ==> FirstOccurrence(s, pat, r.value)
    ensures r.None? <==> forall k :: !OccursAt(s, pat, k)
  {
    IndexOfFrom(s, pat, 0)
  }

  /** `pat` occurs in `s` at or after index `i`. */
  predicate ContainsFrom(s: string, pat: string, i: nat)
    requires i <= |s|
    decreases |s| - i
  {
    i + |pat| <= |s| && (s[i..i + |pat|] == pat || ContainsFrom(s, pat, i + 1))
  }

  /** `pat in s` (Kotlin's `CharSequence.contains`). */
  predicate Contains(s: string, pat: string) {
    ContainsFrom(s, pat, 0)
  }

  /** `pat in s` exactly when `s.indexOf(pat)` finds it. */
  lemma ContainsIndexOf(s: string, pat: string)
    ensures Contains(s, pat) <==> IndexOf(s, pat).Some?
  {
    ContainsFromIndexOf(s, pat, 0);
  }

  lemma {:induction false} ContainsFromIndexOf(s: string, pat: string, i: nat)
    requires i <= |s|
    ensures ContainsFrom(s, pat, i) <==> IndexOfFrom(s, pat, i).Some?
    decreases |s| - i
  {
    if i + |pat| <= |s| && s[i..i + |pat|] != pat {
      ContainsFromIndexOf(s, pat, i + 1);
    }
  }

  lemma ContainsWitness(s: string, pat: string, k: int)
    requires OccursAt(s, pat, k)
    ensures Contains(s, pat)
  {
    ContainsIndexOf(s, pat);
  }

  /** What a text contains, any text it ends is found to contain too. */
  lemma ContainsInSuffix(a: string, b: string, pat: string)
    requires Contains(b, pat)
    ensures Contains(a + b, pat)
  {
    ContainsIndexOf(b, pat);
    var m := IndexOf(b, pat).value;
    assert (a + b)[|a| + m..|a| + m + |pat|] == b[m..m + |pat|];
    ContainsWitness(a + b, pat, |a| + m);
  }

  /** The first occurrence of a character absent from `a` in `a + [c] + b` is at `|a|`. */
  lemma IndexOfCharAfter(a: string, c: char, b: string)
    requires c !in a
    ensures IndexOf(a + [c] + b, [c]) == Some(|a|)
  {
    var s := a + [c] + b;
    assert s[|a|..|a| + 1] == [c];
    assert OccursAt(s, [c], |a|);
    forall k | 0 <= k < |a|
      ensures !OccursAt(s, [c], k)
    {
      assert s[k..k + 1] == [a[k]];
    }
  }

  /** In `a + [c] + b`, where `a` has no `c`, the text after the first `c` is `b`. */
  lemma SubstringAfterChar(a: string, c: char, b: string)
    requires c !in a
    ensures SubstringAfter(a + [c] + b, [c]) == b
  {
    IndexOfCharAfter(a, c, b);
    assert (a + [c] + b)[|a| + 1..] == b;
  }

  /** In `a + [c] + b`, where `a` has no `c`, the text before the first `c` is `a`. */
  lemma SubstringBeforeChar(a: string, c: char, b: string)
    requires c !in a
    ensures SubstringBefore(a + [c] + b, [c]) == a
  {
    IndexOfCharAfter(a, c, b);
    assert (a + [c] + b)[..|a|] == a;
  }

  /** A character that does not occur in `a` is not found in it. */
  lemma IndexOfCharAbsent(a: string, c: char)
    requires c !in a
    ensures IndexOf(a, [c]) == None
  {
    forall k | 0 <= k < |a|
      ensures !OccursAt(a, [c], k)
    {
      assert a[k..k + 1] == [a[k]];
    }
  }

  /**
    `s.substringAfter(delim)`: the text after the first occurrence of `delim`,
    or the whole of `s` when `delim` does not occur.
   */
  function SubstringAfter(s: string, delim: string): (r: string)
    ensures forall k :: FirstOccurrence(s, delim, k) ==> r == s[k + |delim|..]
    ensures (forall k :: !OccursAt(s, delim, k)) ==> r == s
  {
    match IndexOf(s, delim)
    case Some(k) => s[k + |delim|..]
    case None => s
  }

  /**
    `s.substringBefore(delim)`: the text before the first occurrence of `delim`,
    or the whole of `s` when `delim` does not occur.
   */
  function SubstringBefore(s: string, delim: string): (r: string)
    ensures forall k :: FirstOccurrence(s, delim, k) ==> r == s[..k]
    ensures (forall k :: !OccursAt(s, delim, k)) ==> r == s
  {
    match IndexOf(s, delim)
    case Some(k) => s[..k]
    case None => s
  }

  // ---------------------------------------------------------------------------
  // Splitting on one character

  /** The inverse of `Split`: the parts glued back together with `c`. */
  function Join(parts: seq<string>, c: char): string
    decreases |parts|
  {
    if |parts| == 0 then []
    else if |parts| == 1 then parts[0]
    else parts[0] + [c] + Join(parts[1..], c)
  }

  /**
    `s.split(c)`: the maximal pieces of `s` that do not contain `c`, in order;
    there is always at least one piece, and gluing them back gives `s`.
   */
  function Split(s: string, c: char): (r: seq<string>)
    ensures |r| >= 1
    ensures forall i :: 0 <= i < |r| ==> c !in r[i]
    ensures Join(r, c) == s
    decreases |s|
  {
    match IndexOf(s, [c])
    case None =>
      assert c !in s by {
        if c in s {
          var k :| 0 <= k < |s| && s[k] == c;
          assert s[k..k + 1] == [c];
          assert OccursAt(s, [c], k);
        }
      }
      [s]
    case Some(k) =>
      assert s[k..k + 1] == [c];
      assert c !in s[..k] by {
        forall j | 0 <= j < k
          ensures s[j] != c
        {
          assert !OccursAt(s, [c], j);
          assert s[j..j + 1] == [s[j]];
        }
      }
      var rest := Split(s[k + 1..], c);
      var r := [s[..k]] + rest;
      assert r[1..] == rest;
      assert s == s[..k] + [c] + s[k + 1..];
      r
  }

  /** Splitting at the first separator peels off the text before it. */
  lemma SplitAtFirst(a: string, c: char, b: string)
    requires c !in a
    ensures Split(a + [c] + b, c) == [a] + Split(b, c)
  {
    var s := a + [c] + b;
    IndexOfCharAfter(a, c, b);
    assert s[..|a|] == a;
    assert s[|a| + 1..] == b;
  }

  /** A text without the separator splits into itself alone. */
  lemma SplitNoSeparator(a: string, c: char)
    requires c !in a
    ensures Split(a, c) == [a]
  {
    IndexOfCharAbsent(a, c);
  }

  /** `parts.firstOrNull { pat in it }`. */
  function FirstContaining(parts: seq<string>, pat: string): (r: Option<string>)
    ensures r.None? <==> forall i :: 0 <= i < |parts| ==> !Contains(parts[i], pat)
    ensures r.Some? ==> exists i :: 0 <= i < |parts| && parts[i] == r.value
                                    && Contains(parts[i], pat)
                                    && forall j :: 0 <= j < i ==> !Contains(parts[j], pat)
    decreases |parts|
  {
    if |parts| == 0 then None
    else if Contains(parts[0], pat) then Some(parts[0])
    else
      var r := FirstContaining(parts[1..], pat);
      assert forall i :: 1 <= i < |parts| ==> parts[i] == parts[1..][i - 1];
      r
  }

  /** An occurrence inside `s[..k]` is an occurrence in the prefix. */
  lemma OccursInPrefix(s: string, pat: string, m: int, k: int)
    requires OccursAt(s, pat, m) && m + |pat| <= k <= |s|
    ensures OccursAt(s[..k], pat, m)
  {
    assert s[..k][m..m + |pat|] == s[m..m + |pat|];
  }

  /** An occurrence after position `k` is an occurrence in the suffix `s[k + 1..]`. */
  lemma OccursInSuffix(s: string, pat: string, m: int, k: int)
    requires OccursAt(s, pat, m) && 0 <= k < m
    ensures OccursAt(s[k + 1..], pat, m - k - 1)
  {
    var t := s[k + 1..];
    assert t[m - k - 1..m - k - 1 + |pat|] == s[m..m + |pat|];
  }

  /** An occurrence that covers position `k` contains the character found there. */
  lemma SeparatorInside(s: string, pat: string, m: int, k: int)
    requires OccursAt(s, pat, m) && m <= k < m + |pat|
    ensures s[k] in pat
  {
    assert pat[k - m] == s[m..m + |pat|][k - m] == s[k];
  }

  /**
    A pattern without the separator that occurs in `s` lies wholly inside one
    of the pieces of `s.split(c)`: it cannot straddle a separator.
   */
  lemma {:induction false} SplitKeepsPattern(s: string, c: char, pat: string)
    requires Contains(s, pat)
    requires c !in pat
    ensures exists i :: 0 <= i < |Split(s, c)| && Contains(Split(s, c)[i], pat)
    decreases |s|
  {
    ContainsIndexOf(s, pat);
    var m := IndexOf(s, pat).value;
    assert OccursAt(s, pat, m);
    match IndexOf(s, [c])
    case None =>
      assert Split(s, c) == [s];
    case Some(k) =>
      assert s[k..k + 1] == [c];
      var rest := Split(s[k + 1..], c);
      assert Split(s, c) == [s[..k]] + rest;
      if m + |pat| <= k {
        OccursInPrefix(s, pat, m, k);
        ContainsWitness(s[..k], pat, m);
        assert Split(s, c)[0] == s[..k];
      } else if m <= k {
        SeparatorInside(s, pat, m, k);
        assert false;
      } else {
        OccursInSuffix(s, pat, m, k);
        ContainsWitness(s[k + 1..], pat, m - k - 1);
        SplitKeepsPattern(s[k + 1..], c, pat);
        var i :| 0 <= i < |rest| && Contains(rest[i], pat);
        assert Split(s, c)[i + 1] == rest[i];
      }
  }

  // ---------------------------------------------------------------------------
  // Case and blanks

  /** Lower-casing of one character; only the ASCII letters `A`-`Z` change. */
  function LowerChar(ch: char): char {
    if 'A' <= ch <= 'Z' then (ch as int - 'A' as int + 'a' as int) as char else ch
  }

  /** `s.lowercase()`, restricted to ASCII letters. */
  function Lower(s: string): string {
    seq(|s|, i requires 0 <= i < |s| => LowerChar(s[i]))
  }

  /** A string without upper-case ASCII letters is its own lower-case form. */
  lemma LowerOfLowercase(s: string)
    requires forall i :: 0 <= i < |s| ==> !('A' <= s[i] <= 'Z')
    ensures Lower(s) == s
  {
  }

  /** Lower-casing twice changes nothing more. */
  lemma LowerIdempotent(s: string)
    ensures Lower(Lower(s)) == Lower(s)
  {
  }

  /**
    Kotlin's `Char.isWhitespace()` on the JVM: `Character.isWhitespace` or
    `Character.isSpaceChar` (the Unicode space, line and paragraph separators).
   */
  predicate IsWhitespace(ch: char) {
    || ch == '\t' || ch == '\n' || ch == '\U{000B}' || ch == '\U{000C}' || ch == '\r'
    || ('\U{001C}' <= ch <= '\U{001F}')
    || ch == ' ' || ch == '\U{00A0}' || ch == '\U{1680}'
    || ('\U{2000}' <= ch <= '\U{200A}')
    || ch == '\U{2028}' || ch == '\U{2029}' || ch == '\U{202F}' || ch == '\U{205F}' || ch == '\U{3000}'
  }

  /** `s.isBlank()`: empty or whitespace only. */
  predicate IsBlank(s: string) {
    forall i :: 0 <= i < |s| ==> IsWhitespace(s[i])
  }

  /** `s.ifBlank { fallback }`. */
  function IfBlank(s: string, fallback: string): (r: string)
    ensures IsBlank(s) ==> r == fallback
    ensures !IsBlank(s) ==> r == s
  {
    if IsBlank(s) then fallback else s
  }

  // ---------------------------------------------------------------------------
  // Decimal numbers

  predicate IsDigit(ch: char) {
    '0' <= ch <= '9'
  }

  predicate AllDigits(s: string) {
    forall i :: 0 <= i < |s| ==> IsDigit(s[i])
  }

  function DigitValue(ch: char): nat
    requires IsDigit(ch)
  {
    ch as int - '0' as int
  }

  function DigitChar(d: nat): (ch: char)
    requires d < 10
    ensures IsDigit(ch) && DigitValue(ch) == d
  {
    ('0' as int + d) as char
  }

  /** The value of a string of decimal digits, most significant first. */
  function DigitsValue(s: string): nat
    requires AllDigits(s)
    decreases |s|
  {
    if |s| == 0 then 0 else DigitsValue(s[..|s| - 1]) * 10 + DigitValue(s[|s| - 1])
  }

  /** `n.toString()` for a non-negative `n`: its decimal digits without leading zeros. */
  function Decimal(n: nat): (r: string)
    ensures |r| >= 1 && AllDigits(r)
    ensures DigitsValue(r) == n
    ensures |r| > 1 ==> r[0] != '0'
    decreases n
  {
    if n < 10 then [DigitChar(n)]
    else
      var prefix := Decimal(n / 10);
      var r := prefix + [DigitChar(n % 10)];
      assert r[..|r| - 1] == prefix;
      r
  }

  /** The value fits in a 32-bit `Int`. */
  predicate InIntRange(v: int) {
    MinInt <= v <= MaxInt
  }

  /**
    `s.toIntOrNull()` in radix 10: an optional `+` or `-` sign followed by at
    least one digit, and the value must fit in a 32-bit `Int`.
   */
  function ParseInt(s: string): (r: Option<int>)
    ensures r.Some? ==> InIntRange(r.value)
    ensures (exists i :: 1 <= i < |s| && !IsDigit(s[i])) ==> r.None?
    ensures |s| == 0 ==> r.None?
    ensures |s| >= 1 && AllDigits(s) ==> (r.Some? <==> DigitsValue(s) <= MaxInt)
    ensures r.Some? && AllDigits(s) ==> r.value == DigitsValue(s)
  {
    if |s| == 0 then None
    else if s[0] == '-' || s[0] == '+' then
      if |s| == 1 || !AllDigits(s[1..]) then None
      else
        var magnitude: int := DigitsValue(s[1..]);
        var v := if s[0] == '-' then -magnitude else magnitude;
        if InIntRange(v) then Some(v) else None
    else if AllDigits(s) then
      var v := DigitsValue(s);
      if v <= MaxInt then Some(v) else None
    else None
  }

  /** Rendering a number and parsing it back gives the number. */
  lemma ParseDecimal(n: nat)
    requires n <= MaxInt
    ensures ParseInt(Decimal(n)) == Some(n)
  {
  }

  /** A sign followed by the decimal digits of `n` parses to the signed `n`. */
  lemma {:induction false} ParseSignedDecimal(n: nat, negative: bool)
    requires negative ==> n <= -MinInt
    requires !negative ==> n <= MaxInt
    ensures ParseInt((if negative then "-" else "+") + Decimal(n)) == Some(if negative then -(n as int) else n as int)
  {
    var s := (if negative then "-" else "+") + Decimal(n);
    assert s[1..] == Decimal(n);
  }

  // ---------------------------------------------------------------------------
  // Ordering

  /**
    `a.compareTo(b) <= 0`: lexicographic order on characters, where a proper
    prefix comes first.
   */
  predicate LexLe(a: string, b: string)
    decreases |a|
  {
    |a| == 0 || (|b| > 0 && (a[0] < b[0] || (a[0] == b[0] && LexLe(a[1..], b[1..]))))
  }

  lemma {:induction false} LexLeReflexive(a: string)
    ensures LexLe(a, a)
    decreases |a|
  {
    if |a| > 0 {
      LexLeReflexive(a[1..]);
    }
  }

  lemma {:induction false} LexLeTotal(a: string, b: string)
    ensures LexLe(a, b) || LexLe(b, a)
    decreases |a|
  {
    if |a| > 0 && |b| > 0 && a[0] == b[0] {
      LexLeTotal(a[1..], b[1..]);
    }
  }

  lemma {:induction false} LexLeTransitive(a: string, b: string, c: string)
    requires LexLe(a, b) && LexLe(b, c)
    ensures LexLe(a, c)
    decreases |a|
  {
    if |a| > 0 && a[0] == b[0] && b[0] == c[0] {
      LexLeTransitive(a[1..], b[1..], c[1..]);
    }
  }

  lemma {:induction false} LexLeAntisymmetric(a: string, b: string)
    requires LexLe(a, b) && LexLe(b, a)
    ensures a == b
    decreases |a|
  {
    if |a| > 0 {
      LexLeAntisymmetric(a[1..], b[1..]);
      assert a == [a[0]] + a[1..];
      assert b == [b[0]] + b[1..];
    }
  }
}
