/** The string primitives the gallery script relies on: `String(n)` for a
    natural number, `padStart` with a one-character pad, ASCII lower-casing
    and `includes`. Each comes with the reading it is checked against: a
    decimal parser, a positional description, or an existential occurrence. */
module Text {

  predicate IsDigit(c: char) {
    '0' <= c <= '9'
  }

  predicate IsDigits(s: string) {
    forall i :: 0 <= i < |s| ==> IsDigit(s[i])
  }

  /** The value of a decimal digit character. */
  function DigitValue(c: char): (d: nat)
    requires IsDigit(c)
    ensures d < 10
  {
    c as int - '0' as int
  }

  /** The character of a decimal digit. */
  function DigitChar(d: nat): (c: char)
    requires d < 10
    ensures IsDigit(c) && DigitValue(c) == d
  {
    ('0' as int + d) as char
  }

  /** The number a string of decimal digits denotes; leading zeros allowed. */
  function ParseDecimal(s: string): nat
    requires IsDigits(s)
  {
    if |s| == 0 then 0
    else ParseDecimal(s[..|s| - 1]) * 10 + DigitValue(s[|s| - 1])
  }

  /** `String(n)` for a natural number: its shortest decimal spelling,
      which parses back to `n`. */
  function NatToString(n: nat): (s: string)
    ensures 1 <= |s|
    ensures IsDigits(s)
    ensures ParseDecimal(s) == n
    ensures |s| == 1 <==> n < 10
    ensures 1 < |s| ==> s[0] != '0'
    decreases n
  {
    if n < 10 then [DigitChar(n)]
    else
      var prefix := NatToString(n / 10);
      assert (prefix + [DigitChar(n % 10)])[..|prefix|] == prefix;
      prefix + [DigitChar(n % 10)]
  }

  /** `s.padStart(width, pad)` for a one-character pad: `s` unchanged when
      it is already `width` long, otherwise `pad` repeated in front of it up
      to exactly `width` characters. */
  function PadStart(s: string, width: nat, pad: char): (r: string)
    ensures |s| >= width ==> r == s
    ensures |s| < width ==> |r| == width
    ensures |r| >= |s| && r[|r| - |s|..] == s
    ensures forall i :: 0 <= i < |r| - |s| ==> r[i] == pad
  {
    if |s| >= width then s else seq(width - |s|, _ => pad) + s
  }

  predicate AllZeros(z: string) {
    forall i :: 0 <= i < |z| ==> z[i] == '0'
  }

  lemma {:induction false} ZerosParseToZero(z: string)
    requires AllZeros(z)
    ensures IsDigits(z) && ParseDecimal(z) == 0
  {
    if |z| > 0 {
      ZerosParseToZero(z[..|z| - 1]);
    }
  }

  /** Leading zeros do not change the value of a decimal string. */
  lemma {:induction false} LeadingZerosIgnored(z: string, s: string)
    requires AllZeros(z) && IsDigits(s)
    ensures IsDigits(z + s) && ParseDecimal(z + s) == ParseDecimal(s)
  {
    if |s| == 0 {
      assert z + s == z;
      ZerosParseToZero(z);
    } else {
      var init := s[..|s| - 1];
      assert (z + s)[..|z + s| - 1] == z + init;
      LeadingZerosIgnored(z, init);
    }
  }

  /** Zero-padding a number's decimal spelling keeps the number it denotes. */
  lemma ZeroPaddingKeepsValue(n: nat, width: nat)
    ensures IsDigits(PadStart(NatToString(n), width, '0'))
    ensures ParseDecimal(PadStart(NatToString(n), width, '0')) == n
  {
    var s := NatToString(n);
    var r := PadStart(s, width, '0');
    if |s| < width {
      var z := r[..width - |s|];
      assert r == z + s;
      LeadingZerosIgnored(z, s);
    }
  }

  /** `toLowerCase` on one character, for the ASCII letters. */
  function LowerChar(c: char): (l: char)
    ensures !('A' <= l <= 'Z')
    ensures !('A' <= c <= 'Z') ==> l == c
    ensures 'A' <= c <= 'Z' ==> 'a' <= l <= 'z' && l as int - c as int == 32
  {
    if 'A' <= c <= 'Z' then (c as int + 32) as char else c
  }

  /** `toLowerCase` on a string: every ASCII capital replaced by its small
      letter, everything else kept in place. */
  function Lower(s: string): (r: string)
    ensures |r| == |s|
    ensures forall i :: 0 <= i < |r| ==> r[i] == LowerChar(s[i])
  {
    seq(|s|, i requires 0 <= i < |s| => LowerChar(s[i]))
  }

  predicate HasNoCapitals(s: string) {
    forall i :: 0 <= i < |s| ==> !('A' <= s[i] <= 'Z')
  }

  /** Lower-casing is idempotent, and the identity on text without capitals. */
  lemma LowerIdempotent(s: string)
    ensures HasNoCapitals(Lower(s))
    ensures Lower(Lower(s)) == Lower(s)
    ensures HasNoCapitals(s) ==> Lower(s) == s
  {
  }

  predicate StartsWith(s: string, t: string) {
    |t| <= |s| && s[..|t|] == t
  }

  /** `s.includes(t)`: scans `s` for a position where `t` starts. */
  function Includes(s: string, t: string): bool
    decreases |s|
  {
    if StartsWith(s, t) then true
    else if |s| == 0 then false
    else Includes(s[1..], t)
  }

  /** `t` occurs in `s` starting at position `i`. */
  ghost predicate OccursAt(s: string, t: string, i: int) {
    0 <= i && i + |t| <= |s| && s[i..i + |t|] == t
  }

  /** `Includes` holds exactly when `t` occurs somewhere in `s`; in
      particular the empty string is included in every string. */
  lemma {:induction false} IncludesMeansOccurs(s: string, t: string)
    ensures Includes(s, t) <==> exists i :: OccursAt(s, t, i)
    decreases |s|
  {
    if StartsWith(s, t) {
      assert OccursAt(s, t, 0);
    } else if |s| == 0 {
      assert 0 < |t|;
    } else {
      IncludesMeansOccurs(s[1..], t);
      if exists i :: OccursAt(s, t, i) {
        var i :| OccursAt(s, t, i);
        assert i != 0;
        assert OccursAt(s[1..], t, i - 1) by {
          SliceOfTail(s, i - 1, |t|);
        }
      }
      if exists i :: OccursAt(s[1..], t, i) {
        var i :| OccursAt(s[1..], t, i);
        assert OccursAt(s, t, i + 1) by {
          SliceOfTail(s, i, |t|);
        }
      }
    }
  }

  /** A slice of the tail is the slice of the whole one place further on. */
  lemma SliceOfTail(s: string, i: nat, n: nat)
    requires i + n < |s|
    ensures s[1..][i..i + n] == s[i + 1..i + 1 + n]
  {
    var shifted, direct := s[1..][i..i + n], s[i + 1..i + 1 + n];
    assert forall j :: 0 <= j < n ==> shifted[j] == direct[j];
  }

  lemma EmptyIsIncluded(s: string)
    ensures Includes(s, "")
  {
    assert StartsWith(s, "");
  }
}
