/**
 * Decimal rendering of integers and ASCII case mapping: the parts of .NET's
 * `int.ToString()`, `ToLower`, `ToUpper` and ordinal-ignore-case comparison
 * that the modelled code relies on.
 */
module Text {

  function DigitChar(d: nat): (c: char)
    requires d < 10
    ensures '0' <= c <= '9'
    ensures c as int - '0' as int == d
  {
    (('0' as int) + d) as char
  }

  /** `n.ToString()` for a non-negative `int`. */
  function NatToString(n: nat): (s: string)
    ensures |s| >= 1
    ensures forall i :: 0 <= i < |s| ==> '0' <= s[i] <= '9'
    decreases n
  {
    if n < 10 then [DigitChar(n)] else NatToString(n / 10) + [DigitChar(n % 10)]
  }

  /** `i.ToString()` for any `int`. */
  function IntToString(i: int): (s: string)
    ensures i < 0 <==> (|s| > 0 && s[0] == '-')
    ensures i >= 0 ==> s == NatToString(i)
    ensures i < 0 ==> s == "-" + NatToString(-i)
  {
    if i < 0 then "-" + NatToString(-i) else NatToString(i)
  }

  /** The decimal rendering has one digit exactly below 10 and two exactly in [10, 100). */
  lemma {:induction false} NatToStringLength(n: nat)
    ensures |NatToString(n)| == 1 <==> n < 10
    ensures |NatToString(n)| == 2 <==> 10 <= n < 100
  {
    if n >= 10 {
      NatToStringLength(n / 10);
    }
  }

  /** Three digits exactly in [100, 1000), four exactly in [1000, 10000). */
  lemma {:induction false} NatToStringWidth(n: nat)
    ensures |NatToString(n)| == 3 <==> 100 <= n < 1000
    ensures |NatToString(n)| == 4 <==> 1000 <= n < 10000
  {
    NatToStringLength(n);
    if n >= 10 {
      NatToStringWidth(n / 10);
    }
  }

  /** Distinct numbers have distinct renderings. */
  lemma {:induction false} NatToStringInjective(a: nat, b: nat)
    requires NatToString(a) == NatToString(b)
    ensures a == b
  {
    NatToStringLength(a);
    NatToStringLength(b);
    if a >= 10 && b >= 10 {
      var sa, sb := NatToString(a), NatToString(b);
      assert sa[..|sa| - 1] == NatToString(a / 10);
      assert sb[..|sb| - 1] == NatToString(b / 10);
      NatToStringInjective(a / 10, b / 10);
      assert sa[|sa| - 1] == DigitChar(a % 10);
    } else if a < 10 && b < 10 {
      assert NatToString(a)[0] == DigitChar(a);
    }
  }

  predicate IsUpperAscii(c: char) { 'A' <= c <= 'Z' }
  predicate IsLowerAscii(c: char) { 'a' <= c <= 'z' }

  /** `char.ToLower` on the ASCII letters; every other character is left as is. */
  function ToLower(c: char): (r: char)
    ensures !IsUpperAscii(r)
    ensures IsUpperAscii(c) ==> IsLowerAscii(r) && r as int == c as int + 32
    ensures !IsUpperAscii(c) ==> r == c
  {
    if IsUpperAscii(c) then (c as int + 32) as char else c
  }

  /** `char.ToUpper` on the ASCII letters; every other character is left as is. */
  function ToUpper(c: char): (r: char)
    ensures !IsLowerAscii(r)
    ensures IsLowerAscii(c) ==> IsUpperAscii(r) && r as int == c as int - 32
    ensures !IsLowerAscii(c) ==> r == c
  {
    if IsLowerAscii(c) then (c as int - 32) as char else c
  }

  /** Ordinal ignore-case equality of two characters (both compared upper-cased). */
  predicate SameIgnoringCase(a: char, b: char) { ToUpper(a) == ToUpper(b) }

  /** Ordinal ignore-case equality of two strings. */
  predicate EqualsIgnoringCase(a: string, b: string)
  {
    |a| == |b| && forall i {:trigger SameIgnoringCase(a[i], b[i])} :: 0 <= i < |a| ==> SameIgnoringCase(a[i], b[i])
  }

  /** `p` occurs in `s` at offset `k`, ignoring case. */
  predicate MatchesAt(s: string, p: string, k: int)
  {
    0 <= k <= |s| - |p| && EqualsIgnoringCase(s[k..k + |p|], p)
  }

  /** `s.Contains(p, StringComparison.OrdinalIgnoreCase)`. */
  predicate ContainsIgnoringCase(s: string, p: string)
  {
    exists k :: 0 <= k <= |s| && MatchesAt(s, p, k)
  }
}
