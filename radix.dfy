/** The three text conversions the program leans on:
    - `FormatDecimal(n)`: Python's `f"{n}"` / `str(n)` of a non-negative integer;
    - `FormatOctal(n)`:   Python's `f"{n:o}"` (base 8, no `0o` prefix);
    - `ParseOctal(s)`:    Python's `int(s, 8)` on text made of decimal digits,
                          which raises `ValueError` unless every character is 0-7. */
module Radix {
  import opened Wrappers

  /** The character of a decimal digit value. */
  function DigitChar(d: nat): (c: char)
    requires d < 10
    ensures '0' <= c <= '9'
    ensures c as int - '0' as int == d
  {
    ('0' as int + d) as char
  }

  predicate IsOctalDigit(c: char) {
    '0' <= c <= '7'
  }

  predicate AllOctal(s: string) {
    forall i :: 0 <= i < |s| ==> IsOctalDigit(s[i])
  }

  function DigitValue(c: char): nat
    requires IsOctalDigit(c)
  {
    c as int - '0' as int
  }

  function Pow8(k: nat): nat {
    if k == 0 then 1 else 8 * Pow8(k - 1)
  }

  /** The value of a string of octal digits, most significant first. */
  function OctalValue(s: string): nat
    requires AllOctal(s)
  {
    if s == [] then 0 else OctalValue(s[..|s| - 1]) * 8 + DigitValue(s[|s| - 1])
  }

  /** `int(s, 8)`: fails exactly when `s` is empty or holds a character that is
      not an octal digit. */
  function ParseOctal(s: string): (r: Option<nat>)
    ensures r.Some? <==> s != [] && AllOctal(s)
    ensures r.Some? ==> r.value < Pow8(|s|)
  {
    if s != [] && AllOctal(s) then
      OctalValueBound(s);
      Some(OctalValue(s))
    else
      None
  }

  /** `f"{n:o}"`: base-8 digits, no prefix, and no leading zero except for 0. */
  function FormatOctal(n: nat): (s: string)
    ensures s != [] && AllOctal(s)
    ensures s[0] == '0' ==> n == 0
    ensures |s| > 1 ==> s[0] != '0'
  {
    if n < 8 then [DigitChar(n)] else FormatOctal(n / 8) + [DigitChar(n % 8)]
  }

  /** `f"{n}"`: base-10 digits, no leading zero except for 0. */
  function FormatDecimal(n: nat): (s: string)
    ensures s != []
    ensures forall i :: 0 <= i < |s| ==> '0' <= s[i] <= '9'
    ensures s[0] == '0' ==> n == 0
  {
    if n < 10 then [DigitChar(n)] else FormatDecimal(n / 10) + [DigitChar(n % 10)]
  }

  lemma {:induction false} OctalValueBound(s: string)
    requires AllOctal(s)
    ensures OctalValue(s) < Pow8(|s|)
  {
    if s != [] {
      OctalValueBound(s[..|s| - 1]);
    }
  }

  /** Joined text is all octal digits exactly when both parts are. */
  lemma {:induction false} AllOctalConcat(a: string, b: string)
    ensures AllOctal(a + b) <==> AllOctal(a) && AllOctal(b)
  {
    if AllOctal(a + b) {
      assert forall i :: 0 <= i < |a| ==> a[i] == (a + b)[i];
      assert forall i :: 0 <= i < |b| ==> b[i] == (a + b)[|a| + i];
    }
  }

  /** Appending digits shifts the value: the positional law behind `int(a + b, 8)`. */
  lemma {:induction false} OctalValueAppend(a: string, b: string)
    requires AllOctal(a) && AllOctal(b)
    ensures AllOctal(a + b)
    ensures OctalValue(a + b) == OctalValue(a) * Pow8(|b|) + OctalValue(b)
  {
    var ab := a + b;
    assert AllOctal(ab) by {
      forall i | 0 <= i < |ab| ensures IsOctalDigit(ab[i]) {
        if i < |a| { assert ab[i] == a[i]; } else { assert ab[i] == b[i - |a|]; }
      }
    }
    if b == [] {
      assert ab == a;
    } else {
      var b' := b[..|b| - 1];
      var last := DigitValue(b[|b| - 1]);
      assert ab[..|ab| - 1] == a + b';
      assert ab[|ab| - 1] == b[|b| - 1];
      OctalValueAppend(a, b');
      var va, vb', p := OctalValue(a), OctalValue(b'), Pow8(|b'|);
      assert OctalValue(ab) == (va * p + vb') * 8 + last;
      assert OctalValue(b) == vb' * 8 + last;
      assert Pow8(|b|) == p * 8;
      var q := va * p;
      assert va * (p * 8) == q * 8 by { MulShift(va, p); }
    }
  }

  /** Multiplication regroups; a lemma of its own so the solver meets it
      outside the nonlinear context of `OctalValueAppend`. */
  lemma {:induction false} MulShift(x: nat, y: nat)
    ensures x * (y * 8) == (x * y) * 8
  {
  }

  /** Round trip one way: parsing the octal rendering gives the number back. */
  lemma {:induction false} ParseFormatOctal(n: nat)
    ensures ParseOctal(FormatOctal(n)) == Some(n)
  {
    var s := FormatOctal(n);
    if n >= 8 {
      var p := FormatOctal(n / 8);
      ParseFormatOctal(n / 8);
      assert s[..|s| - 1] == p;
      assert OctalValue(s) == OctalValue(p) * 8 + n % 8;
    } else {
      assert OctalValue(s) == OctalValue(s[..0]) * 8 + n;
    }
  }

  lemma {:induction false} OctalValueZero(s: string)
    requires AllOctal(s) && OctalValue(s) == 0
    ensures forall i :: 0 <= i < |s| ==> s[i] == '0'
  {
    if s != [] {
      var p := s[..|s| - 1];
      OctalValueZero(p);
      forall i | 0 <= i < |s| ensures s[i] == '0' {
        if i < |p| { assert s[i] == p[i]; }
      }
    }
  }

  /** Round trip the other way: a non-empty octal numeral without a leading zero
      (or the single digit "0") is exactly the rendering of its value. */
  lemma {:induction false} FormatParseOctal(s: string)
    requires s != [] && AllOctal(s)
    requires |s| > 1 ==> s[0] != '0'
    ensures FormatOctal(OctalValue(s)) == s
  {
    var n := OctalValue(s);
    if |s| == 1 {
      assert s == [s[0]];
    } else {
      var p := s[..|s| - 1];
      assert p[0] == s[0];
      assert OctalValue(p) != 0 by {
        if OctalValue(p) == 0 { OctalValueZero(p); }
      }
      assert n / 8 == OctalValue(p) && n % 8 == DigitValue(s[|s| - 1]);
      assert |p| > 1 ==> p[0] != '0' by { assert p[0] == s[0]; }
      FormatParseOctal(p);
      assert s == p + [s[|s| - 1]];
    }
  }

  /** Reads back exactly the text `f"{n:o}"` writes: like `int(s, 8)`, but a
      numeral with a leading zero is refused, so each mode has one spelling. */
  function ParseCanonicalOctal(s: string): (r: Option<nat>)
    ensures r.Some? <==> s != [] && AllOctal(s) && (|s| > 1 ==> s[0] != '0')
    ensures r.Some? ==> FormatOctal(r.value) == s
  {
    if |s| > 1 && s[0] == '0' then None
    else match ParseOctal(s)
      case None => None
      case Some(n) =>
        FormatParseOctal(s);
        Some(n)
  }

  /** The canonical reader inverts `f"{n:o}"`. */
  lemma {:induction false} ParseCanonicalFormat(n: nat)
    ensures ParseCanonicalOctal(FormatOctal(n)) == Some(n)
  {
    ParseFormatOctal(n);
  }

  /** What `f"{d}"` is for the digit sums the program can form (0..12), and
      whether `int(..., 8)` accepts it: it does unless the sum is 8 or 9. */
  lemma {:induction false} SmallDecimal(d: nat)
    requires d <= 12
    ensures d < 10 ==> FormatDecimal(d) == [DigitChar(d)]
    ensures d >= 10 ==> FormatDecimal(d) == ['1', DigitChar(d - 10)]
    ensures AllOctal(FormatDecimal(d)) <==> d != 8 && d != 9
  {
    if d >= 10 {
      assert FormatDecimal(d) == FormatDecimal(1) + [DigitChar(d - 10)];
    }
  }

  /** The f-string of four octal digits, read in base 8, is their positional value. */
  lemma {:induction false} ParseFourDigits(a: nat, b: nat, c: nat, d: nat)
    requires a < 8 && b < 8 && c < 8 && d < 8
    ensures ParseOctal(FormatDecimal(a) + FormatDecimal(b) + FormatDecimal(c) + FormatDecimal(d))
            == Some(a * 512 + b * 64 + c * 8 + d)
  {
    SmallDecimal(a); SmallDecimal(b); SmallDecimal(c); SmallDecimal(d);
    var s1 := [DigitChar(a)];
    var s2 := s1 + [DigitChar(b)];
    var s3 := s2 + [DigitChar(c)];
    var s4 := s3 + [DigitChar(d)];
    assert OctalValue(s1) == a by { assert s1[..0] == []; }
    assert OctalValue(s2) == a * 8 + b by { assert s2[..1] == s1; }
    assert OctalValue(s3) == (a * 8 + b) * 8 + c by { assert s3[..2] == s2; }
    assert OctalValue(s4) == ((a * 8 + b) * 8 + c) * 8 + d by { assert s4[..3] == s3; }
    assert FormatDecimal(a) + FormatDecimal(b) + FormatDecimal(c) + FormatDecimal(d) == s4;
    assert AllOctal(s4);
    assert OctalValue(s4) == a * 512 + b * 64 + c * 8 + d;
    assert ParseOctal(s4) == Some(OctalValue(s4));
  }

  /** The octal numeral 0121212 is 41610. */
  lemma ParseTwelves()
    ensures ParseOctal("0121212") == Some(41610)
  {
    OctalValueAppend("0121", "212");
    assert "0121" + "212" == "0121212";
    assert OctalValue("0121") == 81 by {
      assert "0121"[..3] == "012" && "012"[..2] == "01" && "01"[..1] == "0" && "0"[..0] == "";
    }
    assert OctalValue("212") == 138 by {
      assert "212"[..2] == "21" && "21"[..1] == "2" && "2"[..0] == "";
    }
  }
}
