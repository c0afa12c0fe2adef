/** The string helpers the service and the HTTP handler rely on. */
module Text {

  /** Go's `unicode.ToLower` restricted to ASCII letters. */
  function ToLowerChar(c: char): char
  {
    if 'A' <= c <= 'Z' then (c as int + 32) as char else c
  }

  /**
   * Go's `strings.ToLower` (ASCII letters): every upper-case letter becomes its
   * lower-case counterpart, 32 code points on, and every other character is kept.
   */
  function ToLower(s: string): (r: string)
    ensures |r| == |s|
    ensures forall i :: 0 <= i < |r| ==> !('A' <= r[i] <= 'Z')
    ensures forall i :: 0 <= i < |s| && 'A' <= s[i] <= 'Z' ==> r[i] == (s[i] as int + 32) as char && 'a' <= r[i] <= 'z'
    ensures forall i :: 0 <= i < |r| && !('A' <= s[i] <= 'Z') ==> r[i] == s[i]
  {
    seq(|s|, i requires 0 <= i < |s| => ToLowerChar(s[i]))
  }

  /** Lower-casing twice is lower-casing once. */
  lemma ToLowerIdempotent(s: string)
    ensures ToLower(ToLower(s)) == ToLower(s)
  {
    var once := ToLower(s);
    assert forall i :: 0 <= i < |once| ==> ToLower(once)[i] == once[i];
  }

  /** A single decimal digit. */
  function DigitChar(d: nat): char
    requires d < 10
  {
    ('0' as int + d) as char
  }

  /** The number a string of decimal digits spells, most significant digit first. */
  function DigitsValue(s: string): int
    decreases |s|
  {
    if s == [] then 0 else 10 * DigitsValue(s[..|s| - 1]) + (s[|s| - 1] as int - '0' as int)
  }

  /** Go's `%d` for a non-negative integer: the decimal digits of `n`, with no leading zero. */
  function NatToString(n: nat): (r: string)
    ensures |r| >= 1
    ensures forall i :: 0 <= i < |r| ==> '0' <= r[i] <= '9'
    ensures DigitsValue(r) == n
    ensures n == 0 ==> r == "0"
    ensures n > 0 ==> r[0] != '0'
  {
    if n < 10 then [DigitChar(n)]
    else
      var leading := NatToString(n / 10);
      assert (leading + [DigitChar(n % 10)])[..|leading|] == leading;
      leading + [DigitChar(n % 10)]
  }

  /** Different numbers are written differently. */
  lemma NatToStringInjective(a: nat, b: nat)
    ensures NatToString(a) == NatToString(b) <==> a == b
  {
    if NatToString(a) == NatToString(b) {
      assert a == DigitsValue(NatToString(a));
    }
  }

  /** In `p + d + r`, the character after the digits is the first one of `r`. */
  lemma CharAfter(p: string, d: string, r: string)
    ensures |r| >= 1 ==> (p + d + r)[|p| + |d|] == r[0]
  {
  }

  /** In `p + d + r`, the `k`-th character after `p` is the `k`-th of `d`. */
  lemma CharWithin(p: string, d: string, r: string, k: int)
    ensures 0 <= k < |d| ==> (p + d + r)[|p| + k] == d[k]
  {
  }

  /** A run of digits ending where a colon follows cannot be shorter than another digit run of the same text. */
  lemma DigitRunNotShorter(p: string, d1: string, d2: string, r1: string, r2: string)
    requires forall i :: 0 <= i < |d2| ==> '0' <= d2[i] <= '9'
    requires |r1| >= 1 && r1[0] == ':'
    requires |d1| <= |d2| && p + d1 + r1 == p + d2 + r2
    ensures |d1| == |d2|
  {
    if |d1| < |d2| {
      CharAfter(p, d1, r1);
      CharWithin(p, d2, r2, |d1|);
      assert false;
    }
  }

  /** Equal texts `p + digits + ":..."` split the same way: the digits and the rest agree. */
  lemma DigitsBeforeColon(p: string, d1: string, d2: string, r1: string, r2: string)
    requires forall i :: 0 <= i < |d1| ==> '0' <= d1[i] <= '9'
    requires forall i :: 0 <= i < |d2| ==> '0' <= d2[i] <= '9'
    requires |r1| >= 1 && |r2| >= 1 && r1[0] == ':' && r2[0] == ':'
    requires p + d1 + r1 == p + d2 + r2
    ensures d1 == d2 && r1 == r2
  {
    var m1, m2 := p + d1 + r1, p + d2 + r2;
    if |d1| <= |d2| {
      DigitRunNotShorter(p, d1, d2, r1, r2);
    } else {
      DigitRunNotShorter(p, d2, d1, r2, r1);
    }
    forall k | 0 <= k < |d1| ensures d1[k] == d2[k] {
      assert m1[|p| + k] == d1[k] && m2[|p| + k] == d2[k];
    }
    assert d1 == d2;
    forall k | 0 <= k < |r1| ensures r1[k] == r2[k] {
      assert m1[|p| + |d1| + k] == r1[k] && m2[|p| + |d1| + k] == r2[k];
    }
  }
}
