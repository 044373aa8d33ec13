/** The C library's text to number conversions, as far as the tag encoders rely on them. */
module CStrings {

  datatype Status = Ok | InvalidArg | NotSent

  predicate IsSpace(c: char) { c == ' ' || '\t' <= c <= '\r' }

  /** The value of a digit, or 36 for any other character. */
  function DigitValue(c: char): nat {
    if '0' <= c <= '9' then c as nat - '0' as nat
    else if 'a' <= c <= 'z' then c as nat - 'a' as nat + 10
    else if 'A' <= c <= 'Z' then c as nat - 'A' as nat + 10
    else 36
  }

  predicate Digits(s: string, base: nat) {
    forall i :: 0 <= i < |s| ==> DigitValue(s[i]) < base
  }

  /** The number written by the longest run of digits s begins with, after the digits already read. */
  function Magnitude(s: string, base: nat, read: nat): nat {
    if s == [] || DigitValue(s[0]) >= base then read
    else Magnitude(s[1..], base, read * base + DigitValue(s[0]))
  }

  function SkipSpaces(s: string): string {
    if s != [] && IsSpace(s[0]) then SkipSpaces(s[1..]) else s
  }

  function SkipPrefix(s: string, base: nat): string {
    if base == 16 && |s| > 2 && s[0] == '0' && (s[1] == 'x' || s[1] == 'X') && DigitValue(s[2]) < 16
    then s[2..] else s
  }

  /** strtoll for strings too short to leave the 64-bit range. */
  function Strtoll(s: string, base: nat): int {
    var t := SkipSpaces(s);
    if t != [] && t[0] == '-' then -(Magnitude(SkipPrefix(t[1..], base), base, 0) as int)
    else if t != [] && t[0] == '+' then Magnitude(SkipPrefix(t[1..], base), base, 0)
    else Magnitude(SkipPrefix(t, base), base, 0)
  }

  lemma {:induction false} MagnitudeSnoc(s: string, c: char, base: nat, read: nat)
    requires Digits(s, base) && DigitValue(c) < base
    ensures Magnitude(s + [c], base, read) == Magnitude(s, base, read) * base + DigitValue(c)
  {
    if s == [] {
      assert (s + [c])[1..] == [];
    } else {
      assert (s + [c])[1..] == s[1..] + [c];
      MagnitudeSnoc(s[1..], c, base, read * base + DigitValue(s[0]));
    }
  }

  lemma StrtollOfDigits(s: string, base: nat)
    requires Digits(s, base) && base <= 16 && s != []
    ensures Strtoll(s, base) == Magnitude(s, base, 0)
  {
    assert DigitValue(s[0]) < base;
    if |s| > 1 { assert DigitValue(s[1]) < base; }
  }

  /** Strings of equal length in the order of the dictionary. */
  predicate NotAfter(s: string, t: string)
    requires |s| == |t|
  {
    s == [] || s[0] < t[0] || (s[0] == t[0] && NotAfter(s[1..], t[1..]))
  }

  /** Once the digits read make a smaller number, the rest does not matter. */
  lemma {:induction false} SmallerStays(s: string, t: string, m: nat, n: nat)
    requires |s| == |t| && Digits(s, 10) && Digits(t, 10) && m < n
    ensures Magnitude(s, 10, m) < Magnitude(t, 10, n)
  {
    if s != [] {
      assert DigitValue(s[0]) < 10 && DigitValue(t[0]) < 10;
      SmallerStays(s[1..], t[1..], m * 10 + DigitValue(s[0]), n * 10 + DigitValue(t[0]));
    }
  }

  /** Decimal numbers of equal length are in order just when their digits are. */
  lemma {:induction false} NumbersInOrder(s: string, t: string, n: nat)
    requires |s| == |t| && Digits(s, 10) && Digits(t, 10)
    ensures Magnitude(s, 10, n) <= Magnitude(t, 10, n) <==> NotAfter(s, t)
  {
    if s != [] {
      var d, e := DigitValue(s[0]), DigitValue(t[0]);
      assert d < 10 && e < 10 && (d < e <==> s[0] < t[0]) && (d == e <==> s[0] == t[0]);
      if d < e {
        SmallerStays(s[1..], t[1..], n * 10 + d, n * 10 + e);
      } else if e < d {
        SmallerStays(t[1..], s[1..], n * 10 + e, n * 10 + d);
      } else {
        NumbersInOrder(s[1..], t[1..], n * 10 + d);
      }
    }
  }
}
