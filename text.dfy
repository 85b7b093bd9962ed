/** The Python string built-ins the application relies on: `str.lower`,
    substring tests with `in`, `str(n)`, `str.zfill`, `int(s)`, `float(s)`
    and `str.join`. */
module Text {
  import opened Wrappers

  predicate IsDigit(c: char) { '0' <= c <= '9' }

  predicate AllDigits(s: string) { forall i | 0 <= i < |s| :: IsDigit(s[i]) }

  function DigitValue(c: char): (n: nat)
    requires IsDigit(c)
    ensures n < 10
  {
    c as int - '0' as int
  }

  function DigitChar(n: nat): (c: char)
    requires n < 10
    ensures IsDigit(c) && DigitValue(c) == n
  {
    ('0' as int + n) as char
  }

  function Pow10(k: nat): (p: nat)
    ensures p >= 1
  {
    if k == 0 then 1 else 10 * Pow10(k - 1)
  }

  /** The number written by a string of decimal digits, most significant
      first; leading zeros are allowed. */
  function DigitsValue(s: string): nat
    requires AllDigits(s)
  {
    if s == [] then 0 else 10 * DigitsValue(s[..|s| - 1]) + DigitValue(s[|s| - 1])
  }

  /** `str(n)` for a non-negative integer: its decimal digits, with no
      leading zero except for zero itself. */
  function NatToString(n: nat): (s: string)
    ensures 1 <= |s| && AllDigits(s)
    ensures DigitsValue(s) == n
    ensures s[0] == '0' ==> n == 0
  {
    if n < 10 then [DigitChar(n)]
    else
      var prefix := NatToString(n / 10);
      var s := prefix + [DigitChar(n % 10)];
      assert s[..|s| - 1] == prefix;
      s
  }

  /** The decimal form of `n` has at most `k` digits exactly when `n < 10^k`. */
  lemma {:induction false} NatToStringLength(n: nat, k: nat)
    requires 1 <= k
    ensures |NatToString(n)| <= k <==> n < Pow10(k)
  {
    if n >= 10 {
      if k > 1 {
        NatToStringLength(n / 10, k - 1);
      } else {
        assert Pow10(1) == 10;
      }
    } else {
      assert Pow10(k) >= 10 by { Pow10AtLeastTen(k); }
    }
  }

  lemma {:induction false} Pow10AtLeastTen(k: nat)
    requires 1 <= k
    ensures Pow10(k) >= 10
  {
    if k > 1 {
      Pow10AtLeastTen(k - 1);
    }
  }

  function Zeros(k: nat): (z: string)
    ensures |z| == k && forall i | 0 <= i < k :: z[i] == '0'
  {
    seq(k, _ => '0')
  }

  /** `s.zfill(width)` for a string without a sign: `s` padded on the left
      with '0' to at least `width` characters. */
  function ZFill(s: string, width: nat): (r: string)
  {
    if |s| < width then Zeros(width - |s|) + s else s
  }

  lemma {:induction false} ZerosValue(z: string)
    requires forall i | 0 <= i < |z| :: z[i] == '0'
    ensures AllDigits(z) && DigitsValue(z) == 0
  {
    if z != [] {
      ZerosValue(z[..|z| - 1]);
    }
  }

  /** Leading zeros do not change the value of a digit string. */
  lemma {:induction false} LeadingZerosValue(z: string, s: string)
    requires forall i | 0 <= i < |z| :: z[i] == '0'
    requires AllDigits(s)
    ensures AllDigits(z + s) && DigitsValue(z + s) == DigitsValue(s)
  {
    ZerosValue(z);
    if s == [] {
      assert z + s == z;
    } else {
      var t := z + s;
      assert t[..|t| - 1] == z + s[..|s| - 1];
      assert t[|t| - 1] == s[|s| - 1];
      LeadingZerosValue(z, s[..|s| - 1]);
    }
  }

  /** Zero-padding keeps the digits, fixes the width and keeps the value. */
  lemma ZFillValue(s: string, width: nat)
    requires AllDigits(s)
    ensures |ZFill(s, width)| == if |s| < width then width else |s|
    ensures AllDigits(ZFill(s, width)) && DigitsValue(ZFill(s, width)) == DigitsValue(s)
  {
    if |s| < width {
      LeadingZerosValue(Zeros(width - |s|), s);
    }
  }

  predicate IsSign(c: char) { c == '+' || c == '-' }

  /** `int(s)`: an optional sign followed by one or more decimal digits;
      any other text raises ValueError, modelled as None. */
  function ParseInt(s: string): Option<int>
  {
    if |s| > 0 && IsSign(s[0]) then
      var digits := s[1..];
      if |digits| > 0 && AllDigits(digits) then
        Some(if s[0] == '-' then -(DigitsValue(digits) as int) else DigitsValue(digits))
      else None
    else if |s| > 0 && AllDigits(s) then Some(DigitsValue(s))
    else None
  }

  /** `int` reads back what `str` and `zfill` write, whatever the padding. */
  lemma ParseIntOfPadded(n: nat, width: nat)
    ensures ParseInt(ZFill(NatToString(n), width)) == Some(n)
  {
    var s := NatToString(n);
    ZFillValue(s, width);
    var p := ZFill(s, width);
    assert |p| > 0 && !IsSign(p[0]) by { assert IsDigit(p[0]); }
  }

  /** The first position of '.' in `s`, or `|s|` when there is none. */
  function PointIndex(s: string): (k: nat)
    ensures k <= |s|
    ensures k < |s| ==> s[k] == '.'
    ensures forall i | 0 <= i < k :: s[i] != '.'
  {
    if s == [] || s[0] == '.' then 0 else 1 + PointIndex(s[1..])
  }

  /** An unsigned decimal numeral: digits, optionally one '.', more digits,
      with at least one digit in all; its exact value. */
  function UnsignedDecimal(s: string): Option<real>
  {
    var k := PointIndex(s);
    var whole := s[..k];
    var frac := if k < |s| then s[k + 1..] else "";
    if |whole| + |frac| > 0 && AllDigits(whole) && AllDigits(frac) then
      Some(DecimalValue(whole, frac))
    else None
  }

  /** The exact value of the numeral `whole.frac`. */
  function DecimalValue(whole: string, frac: string): real
    requires AllDigits(whole) && AllDigits(frac)
  {
    DigitsValue(whole) as real + DigitsValue(frac) as real / Pow10(|frac|) as real
  }

  /** `float(s)` for plain decimal numerals with an optional sign, as an
      exact value; any other text raises ValueError, modelled as None. */
  function ParseDecimal(s: string): Option<real>
  {
    if |s| > 0 && IsSign(s[0]) then
      match UnsignedDecimal(s[1..])
      case None => None
      case Some(v) => Some(if s[0] == '-' then -v else v)
    else UnsignedDecimal(s)
  }

  lemma UnsignedDecimalOfDigits(s: string)
    requires |s| > 0 && AllDigits(s)
    ensures UnsignedDecimal(s) == Some(DigitsValue(s) as real)
  {
    var k := PointIndex(s);
    assert forall i | 0 <= i < |s| :: s[i] != '.';
    assert k == |s|;
    assert s[..k] == s;
    assert DecimalValue(s, "") == DigitsValue(s) as real by {
      assert DigitsValue("") == 0 && Pow10(0) == 1;
    }
  }

  /** Wherever `int(s)` succeeds, `float(s)` succeeds with the same value. */
  lemma ParseDecimalExtendsParseInt(s: string)
    requires ParseInt(s).Some?
    ensures ParseDecimal(s) == Some(ParseInt(s).value as real)
  {
    if |s| > 0 && IsSign(s[0]) {
      UnsignedDecimalOfDigits(s[1..]);
    } else {
      UnsignedDecimalOfDigits(s);
    }
  }

  function LowerChar(c: char): char
  {
    if 'A' <= c <= 'Z' then (c as int + 32) as char else c
  }

  /** `s.lower()`, restricted to the ASCII letters. */
  function Lower(s: string): (r: string)
    ensures |r| == |s| && forall i | 0 <= i < |s| :: r[i] == LowerChar(s[i])
  {
    seq(|s|, i requires 0 <= i < |s| => LowerChar(s[i]))
  }

  lemma LowerIdentity(s: string)
    requires forall i | 0 <= i < |s| :: !('A' <= s[i] <= 'Z')
    ensures Lower(s) == s
  {
  }

  /** `needle in hay` for strings: the needle occurs at some position of the hay. */
  predicate Contains(hay: string, needle: string)
    decreases |hay|
  {
    |needle| <= |hay| && (hay[..|needle|] == needle || (|hay| > 0 && Contains(hay[1..], needle)))
  }

  predicate OccursAt(hay: string, needle: string, i: int)
  {
    0 <= i && i + |needle| <= |hay| && hay[i..i + |needle|] == needle
  }

  /** The recursive substring test agrees with "occurs at some position". */
  lemma {:induction false} ContainsIff(hay: string, needle: string)
    ensures Contains(hay, needle) <==> exists i :: OccursAt(hay, needle, i)
  {
    if |needle| <= |hay| && hay != [] {
      if hay[..|needle|] == needle {
        assert OccursAt(hay, needle, 0);
      }
      ContainsIff(hay[1..], needle);
      if Contains(hay[1..], needle) {
        var i :| OccursAt(hay[1..], needle, i);
        assert hay[1..][i..i + |needle|] == hay[i + 1..i + 1 + |needle|];
        assert OccursAt(hay, needle, i + 1);
      }
      if i :| OccursAt(hay, needle, i) {
        if i > 0 {
          assert hay[1..][i - 1..i - 1 + |needle|] == hay[i..i + |needle|];
          assert OccursAt(hay[1..], needle, i - 1);
        } else {
          assert hay[..|needle|] == needle;
        }
      }
    } else if |needle| <= |hay| {
      assert hay[..|needle|] == needle;
      assert OccursAt(hay, needle, 0);
    } else {
      if i :| OccursAt(hay, needle, i) {
        assert false;
      }
    }
  }

  lemma ContainsAt(hay: string, needle: string, i: nat)
    requires i + |needle| <= |hay| && forall k | 0 <= k < |needle| :: hay[i + k] == needle[k]
    ensures Contains(hay, needle)
  {
    assert OccursAt(hay, needle, i);
    ContainsIff(hay, needle);
  }

  /** A needle with a character the hay lacks is not contained in it. */
  lemma NotContainsMissing(hay: string, needle: string, k: nat)
    requires k < |needle| && needle[k] !in hay
    ensures !Contains(hay, needle)
  {
    ContainsIff(hay, needle);
  }

  /** Text written in front of the hay does not hide the needle. */
  lemma {:induction false} ContainsAfter(prefix: string, hay: string, needle: string)
    requires Contains(hay, needle)
    ensures Contains(prefix + hay, needle)
    decreases |prefix|
  {
    if prefix != [] {
      ContainsAfter(prefix[1..], hay, needle);
      assert (prefix + hay)[1..] == prefix[1..] + hay;
    } else {
      assert prefix + hay == hay;
    }
  }

  lemma ContainsEmpty(hay: string)
    ensures Contains(hay, "")
  {
    assert hay[..0] == "";
  }

  /** `sep.join(parts)`. */
  function Join(parts: seq<string>, sep: string): string
  {
    if |parts| == 0 then ""
    else if |parts| == 1 then parts[0]
    else parts[0] + sep + Join(parts[1..], sep)
  }

  /** Every part occurs in the joined string. */
  lemma {:induction false} JoinContainsParts(parts: seq<string>, sep: string, k: nat)
    requires k < |parts|
    ensures Contains(Join(parts, sep), parts[k])
  {
    var j := Join(parts, sep);
    if k == 0 {
      assert j[..|parts[0]|] == parts[0];
    } else {
      var rest := Join(parts[1..], sep);
      JoinContainsParts(parts[1..], sep, k - 1);
      ContainsAfter(parts[0] + sep, rest, parts[k]);
    }
  }
}
