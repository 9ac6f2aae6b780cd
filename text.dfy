/**
 * The few pieces of JavaScript string and regular-expression behaviour the
 * scripts rely on, written out as scanners: `\d+`, `\s*`, `.*$` under the `m`
 * flag, template-literal printing of a number, and `String.prototype.replace`
 * with a global literal pattern.
 */
module Text {

  predicate IsDigit(c: char) {
    '0' <= c <= '9'
  }

  predicate AllDigits(s: string) {
    forall i :: 0 <= i < |s| ==> IsDigit(s[i])
  }

  /** The characters `\s` matches in a JavaScript regular expression. */
  predicate IsJsWhitespace(c: char) {
    var n := c as int;
    n == 0x09 || n == 0x0A || n == 0x0B || n == 0x0C || n == 0x0D || n == 0x20
    || n == 0xA0 || n == 0x1680 || (0x2000 <= n <= 0x200A)
    || n == 0x2028 || n == 0x2029 || n == 0x202F || n == 0x205F || n == 0x3000 || n == 0xFEFF
  }

  /** The characters `.` does not match, and before which `$` matches under the `m` flag. */
  predicate IsLineTerminator(c: char) {
    c == '\n' || c == '\r' || c as int == 0x2028 || c as int == 0x2029
  }

  predicate NoLineTerminator(s: string) {
    forall i :: 0 <= i < |s| ==> !IsLineTerminator(s[i])
  }

  /** What a greedy `\d*` matches at the start of `s`: the longest prefix of digits. */
  function DigitRun(s: string): (r: string)
    ensures r <= s && AllDigits(r)
    ensures |r| < |s| ==> !IsDigit(s[|r|])
  {
    if |s| > 0 && IsDigit(s[0]) then [s[0]] + DigitRun(s[1..]) else []
  }

  /** Digits followed by a non-digit are exactly what `\d*` takes. */
  lemma {:induction false} DigitRunOf(digits: string, rest: string)
    requires AllDigits(digits) && (|rest| > 0 ==> !IsDigit(rest[0]))
    ensures DigitRun(digits + rest) == digits
    decreases |digits|
  {
    if |digits| == 0 {
      assert digits + rest == rest;
    } else {
      assert (digits + rest)[1..] == digits[1..] + rest;
      DigitRunOf(digits[1..], rest);
      assert digits == [digits[0]] + digits[1..];
    }
  }

  /** The length of what a greedy `\s*` matches at the start of `s`. */
  function WhitespaceRun(s: string): (n: nat)
    ensures n <= |s|
    ensures n < |s| ==> !IsJsWhitespace(s[n])
  {
    if |s| > 0 && IsJsWhitespace(s[0]) then 1 + WhitespaceRun(s[1..]) else 0
  }

  /** Everything the greedy `\s*` takes is whitespace. */
  lemma {:induction false} WhitespaceRunBlank(s: string)
    ensures forall i :: 0 <= i < WhitespaceRun(s) ==> IsJsWhitespace(s[i])
    decreases |s|
  {
    if |s| > 0 && IsJsWhitespace(s[0]) {
      WhitespaceRunBlank(s[1..]);
      forall i | 0 < i < WhitespaceRun(s) ensures IsJsWhitespace(s[i]) {
        assert s[i] == s[1..][i - 1];
      }
    }
  }

  /** The length of what `.*` matches at the start of `s`: everything up to the first line terminator. */
  function LineLength(s: string): (n: nat)
    ensures n <= |s| && NoLineTerminator(s[..n])
    ensures n < |s| ==> IsLineTerminator(s[n])
  {
    if |s| > 0 && !IsLineTerminator(s[0]) then 1 + LineLength(s[1..]) else 0
  }

  /** A line's length is not affected by a terminator-free text in front of it. */
  lemma {:induction false} LineLengthAfter(a: string, b: string)
    requires NoLineTerminator(a)
    ensures LineLength(a + b) == |a| + LineLength(b)
    decreases |a|
  {
    if |a| == 0 {
      assert a + b == b;
    } else {
      assert (a + b)[0] == a[0];
      assert (a + b)[1..] == a[1..] + b;
      LineLengthAfter(a[1..], b);
    }
  }

  // ----- Decimal numbers, as `${n}` prints them and as a reader parses them back -----

  function DigitValue(c: char): nat
    requires IsDigit(c)
  {
    c as int - '0' as int
  }

  function DigitChar(d: nat): (c: char)
    requires d < 10
    ensures IsDigit(c) && DigitValue(c) == d
  {
    ('0' as int + d) as char
  }

  /** The decimal text of `n`, without sign or leading zeros, as a template literal prints it. */
  function NatToString(n: nat): (s: string)
    ensures |s| > 0 && AllDigits(s)
    ensures n >= 10 ==> s[0] != '0'
    decreases n
  {
    if n < 10 then [DigitChar(n)] else NatToString(n / 10) + [DigitChar(n % 10)]
  }

  /** The number a string of decimal digits denotes. */
  function ParseDigits(s: string): nat
    requires AllDigits(s)
  {
    if s == [] then 0 else ParseDigits(s[..|s| - 1]) * 10 + DigitValue(s[|s| - 1])
  }

  /** Printing a number and parsing it back gives the number. */
  lemma {:induction false} ParseNatToString(n: nat)
    ensures ParseDigits(NatToString(n)) == n
    decreases n
  {
    var s := NatToString(n);
    if n >= 10 {
      assert s[..|s| - 1] == NatToString(n / 10);
      ParseNatToString(n / 10);
    }
  }

  /** Two numbers print alike only when they are equal. */
  lemma NatToStringInjective(m: nat, n: nat)
    requires NatToString(m) == NatToString(n)
    ensures m == n
  {
    ParseNatToString(m);
    ParseNatToString(n);
  }

  // ----- `s.replace(/<literal>/g, replacement)` -----

  predicate NoOccurrence(s: string, pattern: string) {
    forall i :: 0 <= i <= |s| ==> !OccursAt(s, pattern, i)
  }

  /** The pattern occurs in `s` starting at position `i`. */
  predicate OccursAt(s: string, pattern: string, i: nat)
    requires i <= |s|
    ensures OccursAt(s, pattern, i) ==> i + |pattern| <= |s|
    decreases |pattern|
  {
    |pattern| == 0 || (i < |s| && s[i] == pattern[0] && OccursAt(s, pattern[1..], i + 1))
  }

  /** An occurrence at `i` is the pattern's text at that position. */
  lemma {:induction false} OccursAtText(s: string, pattern: string, i: nat)
    requires i <= |s| && OccursAt(s, pattern, i)
    ensures s[i..i + |pattern|] == pattern
    decreases |pattern|
  {
    if |pattern| > 0 {
      OccursAtText(s, pattern[1..], i + 1);
      assert s[i..i + |pattern|] == [s[i]] + s[i + 1..i + |pattern|];
      assert pattern == [pattern[0]] + pattern[1..];
    }
  }

  /**
   * Global replacement of a literal pattern: the string is scanned from the left;
   * where the pattern occurs it is replaced and scanning resumes after it.
   */
  function ReplaceAll(s: string, pattern: string, replacement: string): string
    requires |pattern| > 0
  {
    ReplaceAllFrom(s, pattern, replacement, 0)
  }

  /** The output of the global replacement for the part of `s` from position `i` on. */
  function ReplaceAllFrom(s: string, pattern: string, replacement: string, i: nat): string
    requires |pattern| > 0 && i <= |s|
    decreases |s| - i
  {
    if i == |s| then []
    else if OccursAt(s, pattern, i) then replacement + ReplaceAllFrom(s, pattern, replacement, i + |pattern|)
    else [s[i]] + ReplaceAllFrom(s, pattern, replacement, i + 1)
  }

  /** Text in which the pattern does not occur passes through unchanged. */
  lemma ReplaceAllNoOccurrence(s: string, pattern: string, replacement: string)
    requires |pattern| > 0 && NoOccurrence(s, pattern)
    ensures ReplaceAll(s, pattern, replacement) == s
  {
    ReplaceAllFromNoOccurrence(s, pattern, replacement, 0);
    assert s[0..] == s;
  }

  lemma {:induction false} ReplaceAllFromNoOccurrence(s: string, pattern: string, replacement: string, i: nat)
    requires |pattern| > 0 && i <= |s|
    requires forall j :: i <= j <= |s| ==> !OccursAt(s, pattern, j)
    ensures ReplaceAllFrom(s, pattern, replacement, i) == s[i..]
    decreases |s| - i
  {
    if i < |s| {
      assert !OccursAt(s, pattern, i);
      ReplaceAllFromNoOccurrence(s, pattern, replacement, i + 1);
      assert s[i..] == [s[i]] + s[i + 1..];
    }
  }

  /**
   * The first occurrence of the pattern, at `k`, is the first one replaced:
   * everything before it is kept verbatim, and scanning resumes right after it.
   */
  lemma ReplaceAllFirst(s: string, pattern: string, replacement: string, k: nat)
    requires |pattern| > 0 && k <= |s| && OccursAt(s, pattern, k)
    requires forall j :: 0 <= j < k ==> !OccursAt(s, pattern, j)
    ensures ReplaceAll(s, pattern, replacement)
         == s[..k] + replacement + ReplaceAllFrom(s, pattern, replacement, k + |pattern|)
  {
    ReplaceAllFromFirst(s, pattern, replacement, 0, k);
    assert s[0..k] == s[..k];
  }

  lemma {:induction false} ReplaceAllFromFirst(s: string, pattern: string, replacement: string, i: nat, k: nat)
    requires |pattern| > 0 && i <= k <= |s| && OccursAt(s, pattern, k)
    requires forall j :: i <= j < k ==> !OccursAt(s, pattern, j)
    ensures ReplaceAllFrom(s, pattern, replacement, i)
         == s[i..k] + replacement + ReplaceAllFrom(s, pattern, replacement, k + |pattern|)
  {
    ReplaceAllFromCopies(s, pattern, replacement, i, k);
    assert ReplaceAllFrom(s, pattern, replacement, k)
        == replacement + ReplaceAllFrom(s, pattern, replacement, k + |pattern|);
  }

  /** A stretch where the pattern does not start is copied through unchanged. */
  lemma {:induction false} ReplaceAllFromCopies(s: string, pattern: string, replacement: string, i: nat, k: nat)
    requires |pattern| > 0 && i <= k <= |s|
    requires forall j :: i <= j < k ==> !OccursAt(s, pattern, j)
    ensures ReplaceAllFrom(s, pattern, replacement, i) == s[i..k] + ReplaceAllFrom(s, pattern, replacement, k)
    decreases k - i
  {
    if i == k {
      assert s[i..k] == [];
    } else {
      var rest := ReplaceAllFrom(s, pattern, replacement, k);
      assert ReplaceAllFrom(s, pattern, replacement, i) == [s[i]] + ReplaceAllFrom(s, pattern, replacement, i + 1);
      ReplaceAllFromCopies(s, pattern, replacement, i + 1, k);
      assert s[i..k] == [s[i]] + s[i + 1..k];
      assert [s[i]] + (s[i + 1..k] + rest) == s[i..k] + rest;
    }
  }

  /** Replacing a pattern by itself changes nothing. */
  lemma ReplaceAllSelf(s: string, pattern: string)
    requires |pattern| > 0
    ensures ReplaceAll(s, pattern, pattern) == s
  {
    ReplaceAllFromSelf(s, pattern, 0);
    assert s[0..] == s;
  }

  lemma {:induction false} ReplaceAllFromSelf(s: string, pattern: string, i: nat)
    requires |pattern| > 0 && i <= |s|
    ensures ReplaceAllFrom(s, pattern, pattern, i) == s[i..]
    decreases |s| - i
  {
    if i < |s| {
      if OccursAt(s, pattern, i) {
        ReplaceAllFromSelf(s, pattern, i + |pattern|);
        OccursAtText(s, pattern, i);
        assert s[i..] == s[i..i + |pattern|] + s[i + |pattern|..];
      } else {
        ReplaceAllFromSelf(s, pattern, i + 1);
        assert s[i..] == [s[i]] + s[i + 1..];
      }
    }
  }

  /** A pattern starting with a character the text lacks does not occur in it. */
  lemma NoOccurrenceWithout(s: string, pattern: string)
    requires |pattern| > 0 && pattern[0] !in s
    ensures NoOccurrence(s, pattern)
  {
    forall i | 0 <= i <= |s| ensures !OccursAt(s, pattern, i) {
      if i < |s| {
        assert s[i] in s;
      }
    }
  }

  /** Taking one more character appends it. */
  lemma TakeOneMore(s: string, k: nat)
    requires 0 < k <= |s|
    ensures s[..k] == s[..k - 1] + [s[k - 1]]
  {
  }

  /** Concatenation regroups freely. */
  lemma Regroup(a: string, b: string, c: string)
    ensures a + (b + c) == a + b + c
  {
  }

  /** Dropping the front part of a concatenation leaves the back part. */
  lemma DropFront(a: string, b: string)
    ensures (a + b)[|a|..] == b
  {
  }

  /** Two single-line texts joined make one line. */
  lemma NoLineTerminatorJoin(a: string, b: string)
    requires NoLineTerminator(a) && NoLineTerminator(b)
    ensures NoLineTerminator(a + b)
  {
    forall i | 0 <= i < |a + b| ensures !IsLineTerminator((a + b)[i]) {
      if i >= |a| {
        assert (a + b)[i] == b[i - |a|];
      }
    }
  }

  /** A run of digits holds no line terminator. */
  lemma DigitsOneLine(s: string)
    requires AllDigits(s)
    ensures NoLineTerminator(s)
  {
    forall i | 0 <= i < |s| ensures !IsLineTerminator(s[i]) {
      assert IsDigit(s[i]);
    }
  }
}
