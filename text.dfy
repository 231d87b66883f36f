/**
 * The JavaScript string operations the log viewer's search relies on:
 * `toLowerCase` (on ASCII letters), `includes`, and `Number.prototype.toString`
 * on an integer status code.
 */
module Text {

  predicate IsUpper(c: char) { 'A' <= c <= 'Z' }
  predicate IsLower(c: char) { 'a' <= c <= 'z' }
  predicate IsDigit(c: char) { '0' <= c <= '9' }

  /** No character of s is an ASCII letter. */
  predicate IsLetterFree(s: string) {
    forall k :: 0 <= k < |s| ==> !IsUpper(s[k]) && !IsLower(s[k])
  }

  predicate AllDigits(s: string) {
    forall k :: 0 <= k < |s| ==> IsDigit(s[k])
  }

  // ---------------------------------------------------------------------------
  // Lower-casing

  function LowerChar(c: char): (d: char)
    ensures IsUpper(c) ==> IsLower(d) && d as int == c as int + 32
    ensures !IsUpper(c) ==> d == c
  {
    if IsUpper(c) then (c as int - 'A' as int + 'a' as int) as char else c
  }

  /** `s.toLowerCase()`, with case mapping restricted to ASCII A-Z. */
  function Lower(s: string): (r: string)
    ensures |r| == |s|
    ensures forall k :: 0 <= k < |s| ==> r[k] == LowerChar(s[k])
    ensures forall k :: 0 <= k < |r| ==> !IsUpper(r[k])
  {
    if s == [] then [] else [LowerChar(s[0])] + Lower(s[1..])
  }

  /** Lower-casing changes a string exactly when it holds an upper-case letter. */
  lemma LowerIsIdentityIff(s: string)
    ensures Lower(s) == s <==> forall k :: 0 <= k < |s| ==> !IsUpper(s[k])
  {
  }

  // ---------------------------------------------------------------------------
  // Substring search

  predicate StartsWith(s: string, prefix: string) {
    |prefix| <= |s| && s[..|prefix|] == prefix
  }

  /** `s.includes(q)`: q occurs somewhere in s; every string includes "". */
  predicate Includes(s: string, q: string)
    decreases |s|
  {
    StartsWith(s, q) || (|s| > 0 && Includes(s[1..], q))
  }

  /** The position-based reading of `includes`: q is the slice of s starting at i. */
  predicate OccursAt(s: string, q: string, i: int) {
    0 <= i && i + |q| <= |s| && s[i..i + |q|] == q
  }

  lemma {:induction false} OccursImpliesIncludes(s: string, q: string, i: int)
    requires OccursAt(s, q, i)
    ensures Includes(s, q)
    decreases i
  {
    if i > 0 {
      assert s[1..][i - 1..i - 1 + |q|] == s[i..i + |q|];
      OccursImpliesIncludes(s[1..], q, i - 1);
    }
  }

  lemma {:induction false} IncludesHasOccurrence(s: string, q: string)
    requires Includes(s, q)
    ensures exists i :: OccursAt(s, q, i)
    decreases |s|
  {
    if StartsWith(s, q) {
      assert OccursAt(s, q, 0);
    } else {
      IncludesHasOccurrence(s[1..], q);
      var i :| OccursAt(s[1..], q, i);
      assert s[1..][i..i + |q|] == s[i + 1..i + 1 + |q|];
      assert OccursAt(s, q, i + 1);
    }
  }

  /** The recursive `Includes` agrees with the position-based reading. */
  lemma IncludesIffOccurs(s: string, q: string)
    ensures Includes(s, q) <==> exists i :: OccursAt(s, q, i)
  {
    if Includes(s, q) {
      IncludesHasOccurrence(s, q);
    }
    if exists i :: OccursAt(s, q, i) {
      var i :| OccursAt(s, q, i);
      OccursImpliesIncludes(s, q, i);
    }
  }

  /** Every string includes the empty string. */
  lemma IncludesEmpty(s: string)
    ensures Includes(s, "")
  {
  }

  /** A query holding a character that s lacks is not included in s. */
  lemma {:induction false} MissingCharExcludes(s: string, q: string, k: int)
    requires 0 <= k < |q| && q[k] !in s
    ensures !Includes(s, q)
    decreases |s|
  {
    if |q| <= |s| {
      assert s[..|q|][k] == s[k] && s[k] in s;
    }
    if |s| > 0 {
      assert q[k] !in s[1..] by {
        forall j | 0 <= j < |s[1..]| ensures s[1..][j] != q[k] {
          assert s[1..][j] == s[j + 1];
        }
      }
      MissingCharExcludes(s[1..], q, k);
    }
  }

  /**
   * In a string without letters, such as the decimal form of a status code,
   * a query and its lower-case form are found alike.
   */
  lemma LetterFreeIgnoresCase(s: string, q: string)
    requires IsLetterFree(s)
    ensures Includes(s, q) <==> Includes(s, Lower(q))
  {
    if forall k :: 0 <= k < |q| ==> !IsUpper(q[k]) {
      LowerIsIdentityIff(q);
    } else {
      var k :| 0 <= k < |q| && IsUpper(q[k]);
      assert IsLower(Lower(q)[k]);
      MissingCharExcludes(s, q, k);
      MissingCharExcludes(s, Lower(q), k);
    }
  }

  // ---------------------------------------------------------------------------
  // Decimal form of an integer

  function DigitChar(d: nat): (c: char)
    requires d < 10
    ensures IsDigit(c)
  {
    ('0' as int + d) as char
  }

  function DigitValue(c: char): (d: nat)
    requires IsDigit(c)
    ensures d < 10 && DigitChar(d) == c
  {
    c as int - '0' as int
  }

  /** Decimal digits of n, most significant first, with no leading zero. */
  function NatString(n: nat): (s: string)
    ensures |s| >= 1 && AllDigits(s)
    ensures s[0] == '0' ==> n == 0
    decreases n
  {
    if n < 10 then [DigitChar(n)] else NatString(n / 10) + [DigitChar(n % 10)]
  }

  /** `n.toString()` for an integer n: a minus sign for negatives, then the digits. */
  function DecimalString(n: int): (s: string)
    ensures IsLetterFree(s)
    ensures forall k :: 0 <= k < |s| ==> IsDigit(s[k]) || (k == 0 && s[k] == '-')
    ensures (|s| > 0 && s[0] == '-') <==> n < 0
  {
    if n < 0 then "-" + NatString(-n) else NatString(n)
  }

  function ParseDigits(s: string): nat
    requires AllDigits(s)
    decreases |s|
  {
    if s == [] then 0 else 10 * ParseDigits(s[..|s| - 1]) + DigitValue(s[|s| - 1])
  }

  predicate IsDecimalForm(s: string) {
    AllDigits(s) || (|s| > 0 && s[0] == '-' && AllDigits(s[1..]))
  }

  /** Reads back what `DecimalString` writes. */
  function ParseDecimal(s: string): int
    requires IsDecimalForm(s)
  {
    if |s| > 0 && s[0] == '-' then -(ParseDigits(s[1..]) as int) else ParseDigits(s)
  }

  lemma {:induction false} NatStringRoundTrip(n: nat)
    ensures ParseDigits(NatString(n)) == n
    decreases n
  {
    if n >= 10 {
      var s := NatString(n);
      assert s[..|s| - 1] == NatString(n / 10);
      NatStringRoundTrip(n / 10);
    }
  }

  /** The decimal form of a status code determines the code: no two codes print alike. */
  lemma DecimalRoundTrip(n: int)
    ensures IsDecimalForm(DecimalString(n))
    ensures ParseDecimal(DecimalString(n)) == n
  {
    if n < 0 {
      assert DecimalString(n)[1..] == NatString(-n);
      NatStringRoundTrip(-n);
    } else {
      NatStringRoundTrip(n);
    }
  }
}
