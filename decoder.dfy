/** The permission-string decoder (`permission_string_to_octal`,
    main.py:14-31): an `ls -l` style mode string such as "drwxr-sr-x" read
    back into the absolute chmod mode. */
module Decoder {
  import opened Wrappers
  import opened Radix
  import opened Encoder

  /** The two ways the decoder raises `ValueError`. */
  datatype DecodeError =
    | LengthError(actual: nat)   // the string is not 10 characters long
    | NotOctal(text: string)     // `int(text, 8)` rejected the assembled digits

  /** `mapping.get(c, 0)`: the value a mode character adds to its triple's digit.
      Read is 4, write is 2, and x, s and t count as execute; every other
      character, '-', 'S', 'T' and anything unknown alike, adds nothing. */
  function CharValue(c: char): (v: nat)
    ensures v == 4 <==> c == 'r'
    ensures v == 2 <==> c == 'w'
    ensures v == 1 <==> c == 'x' || c == 's' || c == 't'
    ensures v == 0 <==> c !in "rwxst"
  {
    match c
    case 'r' => 4
    case 'w' => 2
    case 'x' => 1
    case '-' => 0
    case 's' => 1
    case 'S' => 0
    case 't' => 1
    case 'T' => 0
    case _ => 0
  }

  /** The sum of the character values of `t`, as `sum(...)` forms it. */
  function ValueSum(t: string): nat {
    if t == [] then 0 else ValueSum(t[..|t| - 1]) + CharValue(t[|t| - 1])
  }

  /** The digit of the triple that starts at index `i`. */
  function TripleDigit(s: string, i: nat): (d: nat)
    requires i + 3 <= |s|
    ensures d == CharValue(s[i]) + CharValue(s[i + 1]) + CharValue(s[i + 2])
    ensures d <= 12
  {
    var t := s[i..i + 3];
    assert ValueSum(s[i..i + 1]) == CharValue(s[i]) by { assert s[i..i + 1][..0] == []; }
    assert ValueSum(s[i..i + 2]) == CharValue(s[i]) + CharValue(s[i + 1]) by {
      assert s[i..i + 2][..1] == s[i..i + 1];
    }
    assert t[..2] == s[i..i + 2];
    ValueSum(t)
  }

  predicate IsSetId(c: char) { c == 's' || c == 'S' }

  predicate IsSticky(c: char) { c == 't' || c == 'T' }

  /** The special digit: 4, 2 and 1 for s/S at index 3, s/S at index 6 and t/T at index 9. */
  function SpecialDigit(s: string): nat
    requires |s| == 10
  {
    (if IsSetId(s[3]) then 4 else 0) + (if IsSetId(s[6]) then 2 else 0) + (if IsSticky(s[9]) then 1 else 0)
  }

  /** `f"{special}{modes[0]}{modes[1]}{modes[2]}"`. */
  function DigitText(s: string): string
    requires |s| == 10
  {
    FormatDecimal(SpecialDigit(s)) + FormatDecimal(TripleDigit(s, 1))
      + FormatDecimal(TripleDigit(s, 4)) + FormatDecimal(TripleDigit(s, 7))
  }

  /** What `permission_string_to_octal` returns or raises, as a function of its input. */
  function Decode(s: string): Result<nat, DecodeError> {
    if |s| != 10 then
      Err(LengthError(|s|))
    else
      var text := DigitText(s);
      match ParseOctal(text)
      case Some(v) => Ok(v)
      case None => Err(NotOctal(text))
  }

  /** `permission_string_to_octal`: the length check, the loop over the triples
      at 1, 4 and 7 that appends each triple's sum to `modes`, the three
      additions to `special`, and the final `int(..., 8)`. */
  method PermissionStringToOctal(s: string) returns (r: Result<nat, DecodeError>)
    ensures r == Decode(s)
  {
    if |s| != 10 {
      return Err(LengthError(|s|));
    }
    var special := 0;
    var modes: seq<nat> := [];
    var i := 1;
    while i < 10
      invariant i == 1 + 3 * |modes| && i <= 10
      invariant forall k :: 0 <= k < |modes| ==> modes[k] == TripleDigit(s, 1 + 3 * k)
    {
      var sum := SumTriple(s, i);
      modes := modes + [sum];
      i := i + 3;
    }
    if IsSetId(s[3]) {
      special := special + 4;
    }
    if IsSetId(s[6]) {
      special := special + 2;
    }
    if IsSticky(s[9]) {
      special := special + 1;
    }
    assert special == SpecialDigit(s);
    assert modes == [TripleDigit(s, 1), TripleDigit(s, 4), TripleDigit(s, 7)];
    var text := FormatDecimal(special) + FormatDecimal(modes[0]) + FormatDecimal(modes[1]) + FormatDecimal(modes[2]);
    assert text == DigitText(s);
    match ParseOctal(text)
    case Some(v) => r := Ok(v);
    case None => r := Err(NotOctal(text));
  }

  /** The generator sum over one triple `s[i..i + 3]`, character by character. */
  method SumTriple(s: string, i: nat) returns (sum: nat)
    requires i + 3 <= |s|
    ensures sum == TripleDigit(s, i)
  {
    sum := 0;
    var j := i;
    while j < i + 3
      invariant i <= j <= i + 3
      invariant sum == ValueSum(s[i..j])
    {
      assert s[i..j + 1][..j - i] == s[i..j];
      sum := sum + CharValue(s[j]);
      j := j + 1;
    }
  }

  // ---------------------------------------------------------------------
  // Properties of the decoder
  // ---------------------------------------------------------------------

  /** The two digits the decoder cannot hand to `int(..., 8)`. */
  predicate NonOctalDigit(d: nat) { d == 8 || d == 9 }

  /** The special digit is three independent bits: 4 exactly for s/S at index 3,
      2 exactly for s/S at index 6, 1 exactly for t/T at index 9. */
  lemma {:induction false} SpecialDigitBits(s: string)
    requires |s| == 10
    ensures SpecialDigit(s) < 8
    ensures SpecialDigit(s) / 4 == 1 <==> IsSetId(s[3])
    ensures SpecialDigit(s) / 2 % 2 == 1 <==> IsSetId(s[6])
    ensures SpecialDigit(s) % 2 == 1 <==> IsSticky(s[9])
  {
  }

  /** The decoder raises for a wrong length, and otherwise only when a triple
      sums to 8 or 9 (the text then holds a digit `int(..., 8)` refuses); the
      length is the only check made before the final parse. */
  lemma {:induction false} DecodeFails(s: string)
    ensures Decode(s).Err? <==>
              |s| != 10 || NonOctalDigit(TripleDigit(s, 1)) || NonOctalDigit(TripleDigit(s, 4))
                        || NonOctalDigit(TripleDigit(s, 7))
    ensures Decode(s).Err? && Decode(s).error.LengthError? <==> |s| != 10
  {
    if |s| == 10 {
      var sp, u, g, o := SpecialDigit(s), TripleDigit(s, 1), TripleDigit(s, 4), TripleDigit(s, 7);
      SmallDecimal(sp); SmallDecimal(u); SmallDecimal(g); SmallDecimal(o);
      var a, b, c, d := FormatDecimal(sp), FormatDecimal(u), FormatDecimal(g), FormatDecimal(o);
      AllOctalConcat(a, b); AllOctalConcat(a + b, c); AllOctalConcat(a + b + c, d);
    }
  }

  /** The entry-type character at index 0 never matters: two strings that agree
      from index 1 on decode alike. */
  lemma {:induction false} DecodeIgnoresEntryType(s: string, kind: char)
    requires |s| > 0
    ensures Decode([kind] + s[1..]) == Decode(s)
  {
    var t := [kind] + s[1..];
    if |s| == 10 {
      assert forall k :: 1 <= k < 10 ==> t[k] == s[k];
      assert SpecialDigit(t) == SpecialDigit(s);
      assert TripleDigit(t, 1) == TripleDigit(s, 1) && TripleDigit(t, 4) == TripleDigit(s, 4);
      assert TripleDigit(t, 7) == TripleDigit(s, 7);
      assert DigitText(t) == DigitText(s);
    }
  }

  /** A well-formed `ls` mode string: each triple reads r or -, then w or -, then
      the execute column, which for the user and group triples may also be
      s/S (set-user-ID, set-group-ID) and for the other triple t/T (sticky). */
  predicate WellFormed(s: string) {
    && |s| == 10
    && s[1] in "r-" && s[2] in "w-" && s[3] in "xsS-"
    && s[4] in "r-" && s[5] in "w-" && s[6] in "xsS-"
    && s[7] in "r-" && s[8] in "w-" && s[9] in "xtT-"
  }

  /** On a well-formed string every digit is an octal digit and the decoder
      yields the positional value special*512 + user*64 + group*8 + other,
      a mode in 0..07777. */
  lemma {:induction false} DecodeWellFormed(s: string)
    requires WellFormed(s)
    ensures TripleDigit(s, 1) < 8 && TripleDigit(s, 4) < 8 && TripleDigit(s, 7) < 8
    ensures Decode(s) == Ok(SpecialDigit(s) * 512 + TripleDigit(s, 1) * 64
                            + TripleDigit(s, 4) * 8 + TripleDigit(s, 7))
    ensures Decode(s).value < 4096
  {
    ParseFourDigits(SpecialDigit(s), TripleDigit(s, 1), TripleDigit(s, 4), TripleDigit(s, 7));
  }

  /** The execute column of `ls`: the special letter replaces x (lower case
      when execute is also set, upper case when it is not). */
  function ExecColumn(exec: Bit, special: Bit, withExec: char, withoutExec: char): char {
    if special == 1 then (if exec == 1 then withExec else withoutExec)
    else (if exec == 1 then 'x' else '-')
  }

  /** The execute column is worth its execute flag in its triple, and shows
      the special flag through its letter. */
  lemma {:induction false} ExecColumnValue(exec: Bit, special: Bit, withExec: char, withoutExec: char)
    requires (withExec, withoutExec) in {('s', 'S'), ('t', 'T')}
    ensures CharValue(ExecColumn(exec, special, withExec, withoutExec)) == exec
    ensures ExecColumn(exec, special, withExec, withoutExec) in {withExec, withoutExec} <==> special == 1
  {
  }

  /** The `ls -l` mode string that shows the twelve flags, after the entry-type
      character `kind`. */
  function ModeString(
    kind: char,
    userRead: Bit, userWrite: Bit, userExec: Bit,
    groupRead: Bit, groupWrite: Bit, groupExec: Bit,
    otherRead: Bit, otherWrite: Bit, otherExec: Bit,
    setuid: Bit, setgid: Bit, sticky: Bit): (s: string)
    ensures WellFormed(s) && s[0] == kind
  {
    [kind,
     if userRead == 1 then 'r' else '-', if userWrite == 1 then 'w' else '-',
     ExecColumn(userExec, setuid, 's', 'S'),
     if groupRead == 1 then 'r' else '-', if groupWrite == 1 then 'w' else '-',
     ExecColumn(groupExec, setgid, 's', 'S'),
     if otherRead == 1 then 'r' else '-', if otherWrite == 1 then 'w' else '-',
     ExecColumn(otherExec, sticky, 't', 'T')]
  }

  /** Round trip: decoding the mode string of twelve flags gives what the
      bit-mode encoder makes of the same flags, whatever the entry type. */
  lemma {:induction false} DecodeModeString(
    kind: char,
    userRead: Bit, userWrite: Bit, userExec: Bit,
    groupRead: Bit, groupWrite: Bit, groupExec: Bit,
    otherRead: Bit, otherWrite: Bit, otherExec: Bit,
    setuid: Bit, setgid: Bit, sticky: Bit)
    ensures Decode(ModeString(kind, userRead, userWrite, userExec, groupRead, groupWrite, groupExec,
                              otherRead, otherWrite, otherExec, setuid, setgid, sticky))
         == Ok(CalculateChmod(userRead, userWrite, userExec, groupRead, groupWrite, groupExec,
                              otherRead, otherWrite, otherExec, setuid, setgid, sticky))
  {
    var s := ModeString(kind, userRead, userWrite, userExec, groupRead, groupWrite, groupExec,
                        otherRead, otherWrite, otherExec, setuid, setgid, sticky);
    DecodeWellFormed(s);
    ExecColumnValue(userExec, setuid, 's', 'S');
    ExecColumnValue(groupExec, setgid, 's', 'S');
    ExecColumnValue(otherExec, sticky, 't', 'T');
    assert TripleDigit(s, 1) == PackDigit(userRead, userWrite, userExec);
    assert TripleDigit(s, 4) == PackDigit(groupRead, groupWrite, groupExec);
    assert TripleDigit(s, 7) == PackDigit(otherRead, otherWrite, otherExec);
    assert SpecialDigit(s) == PackDigit(setuid, setgid, sticky);
  }

  function FlagIf(b: bool): Bit { if b then 1 else 0 }

  /** Every well-formed string is the mode string of the flags it shows, so by
      DecodeModeString its decoding is the encoding of those flags. */
  lemma {:induction false} WellFormedIsModeString(s: string)
    requires WellFormed(s)
    ensures s == ModeString(s[0],
                  FlagIf(s[1] == 'r'), FlagIf(s[2] == 'w'), FlagIf(s[3] == 'x' || s[3] == 's'),
                  FlagIf(s[4] == 'r'), FlagIf(s[5] == 'w'), FlagIf(s[6] == 'x' || s[6] == 's'),
                  FlagIf(s[7] == 'r'), FlagIf(s[8] == 'w'), FlagIf(s[9] == 'x' || s[9] == 't'),
                  FlagIf(IsSetId(s[3])), FlagIf(IsSetId(s[6])), FlagIf(IsSticky(s[9])))
  {
    var m := ModeString(s[0],
                  FlagIf(s[1] == 'r'), FlagIf(s[2] == 'w'), FlagIf(s[3] == 'x' || s[3] == 's'),
                  FlagIf(s[4] == 'r'), FlagIf(s[5] == 'w'), FlagIf(s[6] == 'x' || s[6] == 's'),
                  FlagIf(s[7] == 'r'), FlagIf(s[8] == 'w'), FlagIf(s[9] == 'x' || s[9] == 't'),
                  FlagIf(IsSetId(s[3])), FlagIf(IsSetId(s[6])), FlagIf(IsSticky(s[9])));
    forall k | 0 <= k < 10 ensures m[k] == s[k] {
    }
  }

  // ---------------------------------------------------------------------
  // Worked cases
  // ---------------------------------------------------------------------

  /** "drwxrwsr-x" (the string the window starts with) is mode 02775: the
      group triple "rws" is read, write and execute. */
  lemma DecodeDefaultString()
    ensures Decode("drwxrwsr-x") == Ok(1533)
  {
    var s := "drwxrwsr-x";
    assert s[1] == 'r' && s[2] == 'w' && s[3] == 'x' && s[4] == 'r' && s[5] == 'w';
    assert s[6] == 's' && s[7] == 'r' && s[8] == '-' && s[9] == 'x';
    assert SpecialDigit(s) == 2 && TripleDigit(s, 1) == 7 && TripleDigit(s, 4) == 7 && TripleDigit(s, 7) == 5;
    DecodeWellFormed(s);
  }

  lemma DecodeNoPermissions()
    ensures Decode("d---------") == Ok(0)
  {
    var s := "d---------";
    assert forall k :: 1 <= k < 10 ==> s[k] == '-';
    DecodeWellFormed(s);
  }

  /** A malformed string can still land inside 0..07777: "xxx" as the user
      triple is three execute bits, 3, so "dxxx------" gives 0300. */
  lemma DecodeMalformedInRange()
    ensures !WellFormed("dxxx------")
    ensures Decode("dxxx------") == Ok(192)
  {
    var s := "dxxx------";
    assert s[1] == 'x';
    assert SpecialDigit(s) == 0;
    assert TripleDigit(s, 1) == 3 && TripleDigit(s, 4) == 0 && TripleDigit(s, 7) == 0;
    ParseFourDigits(0, 3, 0, 0);
  }

  lemma DecodeShortString()
    ensures Decode("short") == Err(LengthError(5))
  {
  }

  /** A malformed triple summing to 8 makes `int("0800", 8)` raise. */
  lemma DecodeDigitEight()
    ensures Decode("-rr-------") == Err(NotOctal("0800"))
  {
    var s := "-rr-------";
    assert s[1] == 'r' && s[2] == 'r' && forall k :: 3 <= k < 10 ==> s[k] == '-';
    SmallDecimal(8); SmallDecimal(0);
    assert DigitChar(8) == '8' && DigitChar(0) == '0';
    assert DigitText(s) == "0800";
    assert !IsOctalDigit(DigitText(s)[1]);
  }

  /** Malformed triples summing to 12 are written as "12" and the text
      "0121212" is still octal: the decoder returns 0o121212, far outside
      0..07777, instead of raising. */
  lemma DecodeDigitTwelve()
    ensures Decode("-rrrrrrrrr") == Ok(41610)
  {
    TwelveText();
    ParseTwelves();
  }

  lemma TwelveText()
    ensures DigitText("-rrrrrrrrr") == "0121212"
  {
    var s := "-rrrrrrrrr";
    assert forall k :: 1 <= k < 10 ==> s[k] == 'r';
    assert SpecialDigit(s) == 0 && TripleDigit(s, 1) == 12 && TripleDigit(s, 4) == 12 && TripleDigit(s, 7) == 12;
    SmallDecimal(12); SmallDecimal(0);
    assert DigitChar(2) == '2' && DigitChar(0) == '0';
  }
}
