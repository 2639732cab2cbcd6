/** The bit-mode encoder (`calculate_chmod`, main.py:6-11): twelve check-box
    flags packed into an absolute chmod mode. The flags, which the program reads
    from twelve `tk.IntVar`s, are parameters here. */
module Encoder {
  import opened Radix

  /** A check-box value: `IntVar.get()` of a `Checkbutton` is 0 or 1. */
  type Bit = b: nat | b <= 1

  /** One octal digit as the source builds it, `(hi << 2) | (mid << 1) | lo`.
      For flags the shifted bits never overlap, so the or is a sum. */
  function PackDigit(hi: Bit, mid: Bit, lo: Bit): (d: nat)
    ensures d == 4 * hi + 2 * mid + lo
    ensures d < 8
  {
    (((hi as bv3) << 2) | ((mid as bv3) << 1) | (lo as bv3)) as nat
  }

  /** `calculate_chmod`: the digits special, user, group, other are written one
      after another with `f"{special}{user}{group}{other}"` and read back with
      `int(..., 8)`. Because each digit is below 8, the text is a four-digit
      octal numeral and the mode is its positional value. */
  function CalculateChmod(
    userRead: Bit, userWrite: Bit, userExec: Bit,
    groupRead: Bit, groupWrite: Bit, groupExec: Bit,
    otherRead: Bit, otherWrite: Bit, otherExec: Bit,
    setuid: Bit, setgid: Bit, sticky: Bit): (mode: nat)
    ensures mode == PackDigit(setuid, setgid, sticky) * 512
                  + PackDigit(userRead, userWrite, userExec) * 64
                  + PackDigit(groupRead, groupWrite, groupExec) * 8
                  + PackDigit(otherRead, otherWrite, otherExec)
    ensures mode < 4096
  {
    var user := PackDigit(userRead, userWrite, userExec);
    var group := PackDigit(groupRead, groupWrite, groupExec);
    var other := PackDigit(otherRead, otherWrite, otherExec);
    var special := PackDigit(setuid, setgid, sticky);
    var text := FormatDecimal(special) + FormatDecimal(user) + FormatDecimal(group) + FormatDecimal(other);
    ParseFourDigits(special, user, group, other);
    ParseOctal(text).value
  }

  /** Each flag lands on its own bit of the mode, at the place chmod gives it:
      S_ISUID 04000, S_ISGID 02000, S_ISVTX 01000, S_IRUSR 0400 ... S_IXOTH 01.
      So the encoder loses no flag and two different flag sets never share a mode. */
  lemma {:induction false} CalculateChmodBits(
    userRead: Bit, userWrite: Bit, userExec: Bit,
    groupRead: Bit, groupWrite: Bit, groupExec: Bit,
    otherRead: Bit, otherWrite: Bit, otherExec: Bit,
    setuid: Bit, setgid: Bit, sticky: Bit)
    ensures var mode := CalculateChmod(userRead, userWrite, userExec, groupRead, groupWrite, groupExec,
                                       otherRead, otherWrite, otherExec, setuid, setgid, sticky);
      && mode / 2048 % 2 == setuid && mode / 1024 % 2 == setgid && mode / 512 % 2 == sticky
      && mode / 256 % 2 == userRead && mode / 128 % 2 == userWrite && mode / 64 % 2 == userExec
      && mode / 32 % 2 == groupRead && mode / 16 % 2 == groupWrite && mode / 8 % 2 == groupExec
      && mode / 4 % 2 == otherRead && mode / 2 % 2 == otherWrite && mode % 2 == otherExec
  {
    var mode := CalculateChmod(userRead, userWrite, userExec, groupRead, groupWrite, groupExec,
                               otherRead, otherWrite, otherExec, setuid, setgid, sticky);
    var s := PackDigit(setuid, setgid, sticky);
    var u := PackDigit(userRead, userWrite, userExec);
    var g := PackDigit(groupRead, groupWrite, groupExec);
    var o := PackDigit(otherRead, otherWrite, otherExec);
    // Each flag sits between the flags above it and the value of those below it.
    assert mode / 2048 % 2 == setuid by { BitAt(mode, 2048, 0, setuid, mode - setuid * 2048); }
    assert mode / 1024 % 2 == setgid by { BitAt(mode, 1024, setuid, setgid, sticky * 512 + u * 64 + g * 8 + o); }
    assert mode / 512 % 2 == sticky by { BitAt(mode, 512, 2 * setuid + setgid, sticky, u * 64 + g * 8 + o); }
    assert mode / 256 % 2 == userRead by { BitAt(mode, 256, s, userRead, userWrite * 128 + userExec * 64 + g * 8 + o); }
    assert mode / 128 % 2 == userWrite by { BitAt(mode, 128, 2 * s + userRead, userWrite, userExec * 64 + g * 8 + o); }
    assert mode / 64 % 2 == userExec by { BitAt(mode, 64, 4 * s + 2 * userRead + userWrite, userExec, g * 8 + o); }
    assert mode / 32 % 2 == groupRead by { BitAt(mode, 32, 8 * s + u, groupRead, groupWrite * 16 + groupExec * 8 + o); }
    assert mode / 16 % 2 == groupWrite by { BitAt(mode, 16, 16 * s + 2 * u + groupRead, groupWrite, groupExec * 8 + o); }
    assert mode / 8 % 2 == groupExec by { BitAt(mode, 8, 32 * s + 4 * u + 2 * groupRead + groupWrite, groupExec, o); }
    assert mode / 4 % 2 == otherRead by { BitAt(mode, 4, 64 * s + 8 * u + g, otherRead, 2 * otherWrite + otherExec); }
    assert mode / 2 % 2 == otherWrite by { BitAt(mode, 2, 128 * s + 16 * u + 2 * g + otherRead, otherWrite, otherExec); }
    assert mode % 2 == otherExec by { BitAt(mode, 1, 256 * s + 32 * u + 4 * g + 2 * otherRead + otherWrite, otherExec, 0); }
  }

  /** Quotient and remainder are unique. */
  lemma {:induction false} DivModUnique(m: nat, w: nat, q: nat, r: nat)
    requires 0 <= r < w && m == q * w + r
    ensures m / w == q && m % w == r
  {
    var q0, r0 := m / w, m % w;
    assert m == q0 * w + r0;
    assert (q - q0) * w == r0 - r;
    if q > q0 {
      assert (q - q0) * w == w + (q - q0 - 1) * w;
      MulNonNegative(q - q0 - 1, w);
    } else if q < q0 {
      assert (q0 - q) * w == w + (q0 - q - 1) * w;
      MulNonNegative(q0 - q - 1, w);
    }
  }

  /** The product of two naturals is a natural; kept as its own lemma so the
      solver meets the product outside the nonlinear context of its caller. */
  lemma {:induction false} MulNonNegative(a: nat, b: nat)
    ensures a * b >= 0
  {
    if a > 0 { MulNonNegative(a - 1, b); assert a * b == (a - 1) * b + b; }
  }

  /** Halving after dividing by `w` is dividing by `2w`. */
  lemma {:induction false} Halve(m: nat, w: nat)
    requires w > 0
    ensures m / (2 * w) == m / w / 2
  {
    var x := m / w;
    assert m == x * w + m % w;
    assert x * w == (x / 2) * (2 * w) + (x % 2) * w by {
      assert x == 2 * (x / 2) + x % 2;
    }
    DivModUnique(m, 2 * w, x / 2, (x % 2) * w + m % w);
  }

  /** The flag of weight `w` in `m = high * 2w + bit * w + low`, with `low < w`. */
  lemma {:induction false} BitAt(m: nat, w: nat, high: nat, bit: Bit, low: nat)
    requires low < w && m == high * (2 * w) + bit * w + low
    ensures m / w % 2 == bit
  {
    DivModUnique(m, w, 2 * high + bit, low);
  }

  /** Every mode below 010000 is produced by the encoder, from the flags it
      carries: with CalculateChmodBits the encoder is a bijection between the
      4096 flag combinations and the modes 0..4095. */
  lemma {:induction false} CalculateChmodOnto(mode: nat)
    requires mode < 4096
    ensures CalculateChmod(mode / 256 % 2, mode / 128 % 2, mode / 64 % 2,
                           mode / 32 % 2, mode / 16 % 2, mode / 8 % 2,
                           mode / 4 % 2, mode / 2 % 2, mode % 2,
                           mode / 2048 % 2, mode / 1024 % 2, mode / 512 % 2) == mode
  {
    // Each quotient by a power of two is twice the next one plus its flag.
    Halve(mode, 1); Halve(mode, 2); Halve(mode, 4); Halve(mode, 8);
    Halve(mode, 16); Halve(mode, 32); Halve(mode, 64); Halve(mode, 128);
    Halve(mode, 256); Halve(mode, 512); Halve(mode, 1024); Halve(mode, 2048);
    assert mode / 4096 == 0;
  }

  /** User rwx, group r-x, other write only, no special flags: mode 0752. */
  lemma CalculateChmodExample()
    ensures CalculateChmod(1, 1, 1, 1, 0, 1, 0, 1, 0, 0, 0, 0) == 490
  {
  }
}
