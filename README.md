# chmod_gui: the mode arithmetic and command text, in Dafny

`chmod_gui` is a small desktop tool that turns Unix permission choices into a
chmod mode and then into ready-to-copy shell commands. This project models its
three computations, all in `main.py`, and proves what they promise:

- **Bit-mode encoder** (`calculate_chmod`, `encoder.dfy`): twelve check-box
  flags (read, write and execute for user, group and other, plus set-user-ID,
  set-group-ID and sticky) become four digits `(r << 2) | (w << 1) | x`. The
  digits are written as text with an f-string and read back with `int(..., 8)`.
  The flags, which the program reads from twelve `tk.IntVar`s, are parameters.
  A flag is a `Bit`: 0 or 1.
- **Permission-string decoder** (`permission_string_to_octal`, `decoder.dfy`): a
  10-character `ls -l` mode string such as `drwxr-sr-x` is read back into a mode.
  The model is a method with the source's loop over the three triples and its
  `special` accumulator. It is proved equal to the specification function
  `Decode`. The source's `ValueError`s become a `Result` with two error kinds:
  `LengthError` for the length check and `NotOctal` for a failing `int(..., 8)`.
  The final step is modelled as the source writes it: the digit sums are
  written in decimal, joined, and parsed in base 8. So a malformed triple that
  sums to 8 or 9 makes the decoder raise. A triple that sums to 10, 11 or 12
  ("rrr", say) is written as two characters, and the decoder then returns a
  different number, possibly above 07777.
- **Command generator** (`generate_commands`, `commands.dfy`): the mode is
  written in base 8 with no prefix (`f"{mode:o}"`). Five fixed templates are
  filled in a fixed order, four `find ... -exec chmod` commands and one
  `chmod -R`. The table is modelled as a sequence of (key, command) entries.
  Its partner is `ParseCommand`, a reader that recovers the scope, the target
  and the mode from any generated command. Reading back works for every
  target, even one holding quotes or spaces. The reader accepts only the
  prefix-free octal text, so a command reads back as an invocation exactly
  when it is that invocation's generated text.
- **Text conversions** (`radix.dfy`): `f"{n}"`, `f"{n:o}"` and `int(s, 8)` on
  non-negative numbers and digit text, with their round trips.

The encoder, and the decoder on well-formed strings, produce the absolute octal
mode of the POSIX `chmod` utility:
S_ISUID 04000, S_ISGID 02000, S_ISVTX 01000, then 0400/0200/0100 for the user
and so on down to 01 for other-execute. The decoder reads the mode-string layout
of POSIX `ls -l`: `s`/`S` in the user or group execute column, `t`/`T` in the
other execute column, lower case when execute is also set.

Three consequences of the code, each proved:

- `drwxrwsr-x` decodes to 02775, because the group triple `rws` counts read,
  write and execute (`DecodeDefaultString`).
- The flags (1,1,1, 1,0,1, 0,1,0, 0,0,0) give 0752, because other-write is set
  (`CalculateChmodExample`).
- Only the encoder and well-formed mode strings are guaranteed to stay within
  0..07777 (`CalculateChmod`, `DecodeWellFormed`). A malformed string can leave
  that range, as `-rrrrrrrrr` does (41610, `DecodeDigitTwelve`); others, such as
  `dxxx------`, still land inside it (0300, `DecodeMalformedInRange`).

## Model

| member | source | states |
|---|---|---|
| `Encoder.PackDigit` | main.py:7-10 | the digit `hi << 2`, `mid << 1` and `lo` or-ed together equals 4*hi + 2*mid + lo and is below 8 |
| `Encoder.CalculateChmod` | main.py:6-11 | the mode is special*512 + user*64 + group*8 + other for the packed digits, and lies in 0..4095 |
| `Encoder.CalculateChmodBits` | main.py:6-11 | each of the twelve flags is exactly one bit of the mode, at chmod's weight (setuid 04000 down to other-execute 01), so no flag is lost |
| `Encoder.CalculateChmodOnto` | main.py:6-11 | every mode below 010000 is the encoding of the flags it carries; with CalculateChmodBits, the encoder is a bijection onto 0..4095 |
| `Encoder.CalculateChmodExample` | main.py:6-11 | user rwx, group r-x, other -w- give 0752 |
| `Radix.ParseOctal` | main.py:11 | `int(s, 8)` succeeds exactly when s is non-empty and all octal digits, with a value below 8 to the power of its length |
| `Radix.FormatOctal` | main.py:35 | `f"{n:o}"` is non-empty octal digits with no prefix, and has no leading zero unless it is the single digit of 0 |
| `Radix.FormatDecimal` | main.py:11 | `f"{n}"` is non-empty decimal digits with no leading zero unless n is 0 |
| `Radix.ParseCanonicalOctal` | main.py:35 | reading back `f"{n:o}"` text succeeds exactly on non-empty octal digits with no leading zero (except "0"), and what it reads is the rendering of its value |
| `Radix.ParseCanonicalFormat` | main.py:35 | the canonical reader gives n back from the octal rendering of n |
| `Radix.ParseFormatOctal` | main.py:35 | parsing the octal rendering of n in base 8 gives n back |
| `Radix.FormatParseOctal` | main.py:35 | every octal numeral without a leading zero is the rendering of its value |
| `Radix.AllOctalConcat` | main.py:31 | text joined from parts is accepted as octal digits exactly when every part is |
| `Radix.OctalValueAppend` | main.py:31 | base-8 reading of joined text is positional: the value of a + b is the value of a times 8 to the length of b, plus the value of b |
| `Radix.SmallDecimal` | main.py:31 | a digit sum 0..12 is written as one character below 10 and as "1" plus one after; `int(..., 8)` rejects it exactly for 8 and 9 |
| `Radix.ParseFourDigits` | main.py:11 | four digits below 8, joined and read in base 8, give a*512 + b*64 + c*8 + d |
| `Decoder.CharValue` | main.py:19-22 | r is worth 4, w is worth 2, x, s and t are worth 1; every other character (-, S, T, unknown) is worth 0 |
| `Decoder.TripleDigit` | main.py:21-22 | a triple's digit is the sum of its three character values, at most 12 |
| `Decoder.SumTriple` | main.py:22 | the generator sum over one triple, added character by character, is that triple's digit |
| `Decoder.PermissionStringToOctal` | main.py:14-31 | the loop over the triples, the special accumulator and the final parse return exactly `Decode(s)` |
| `Decoder.DecodeFails` | main.py:15-31 | the decoder raises exactly when the length is not 10 or a triple sums to 8 or 9; the length error is raised exactly for a wrong length |
| `Decoder.DecodeIgnoresEntryType` | main.py:21-29 | replacing the entry-type character at index 0 never changes the result |
| `Decoder.SpecialDigitBits` | main.py:24-29 | the special digit is below 8; its 4 is set exactly for s/S at index 3, its 2 for s/S at index 6, its 1 for t/T at index 9 |
| `Decoder.DecodeWellFormed` | main.py:18-31 | on a well-formed string every digit is below 8, and the result is special*512 + user*64 + group*8 + other, below 4096 |
| `Decoder.ModeString` | main.py:19-29 | the `ls -l` rendering of twelve flags after any entry type is a well-formed mode string |
| `Decoder.ExecColumnValue` | main.py:19-29 | an execute column is worth its execute flag, and shows a special letter exactly when the special flag is set |
| `Decoder.DecodeModeString` | main.py:6-31 | round trip: decoding the rendering of twelve flags gives the encoder's mode for the same flags |
| `Decoder.WellFormedIsModeString` | main.py:19-29 | every well-formed string is the rendering of the flags it shows, so DecodeModeString covers all of them |
| `Decoder.DecodeDefaultString` | main.py:126 | the window's initial string "drwxrwsr-x" decodes to 02775 |
| `Decoder.DecodeNoPermissions` | main.py:14-31 | "d---------" decodes to 0 |
| `Decoder.DecodeMalformedInRange` | main.py:19-31 | "dxxx------" is not a well-formed mode string, yet it decodes without error to 0300, inside 0..07777 |
| `Decoder.DecodeShortString` | main.py:15-16 | "short" fails with a length error for length 5 |
| `Decoder.DecodeDigitEight` | main.py:22-31 | "-rr-------" makes a triple sum to 8, and the parse of "0800" fails |
| `Decoder.DecodeDigitTwelve` | main.py:22-31 | "-rrrrrrrrr" gives "0121212", which parses to 41610, far outside 0..07777, with no error |
| `Commands.GenerateCommands` | main.py:34-43 | five entries whose keys are the five labels in their fixed order and pairwise distinct; each command reads back as its row's scope, the given target and the given mode, and (by ParseCommandSound) is therefore exactly that row's template filled with `f"{mode:o}"` |
| `Commands.LabelsDistinct` | main.py:36-42 | the five labels are different keys |
| `Commands.ParseCommandText` | main.py:35-41 | each template, filled with any target and the octal text of a mode, reads back as exactly that scope, target and mode |
| `Commands.ParseCommandSound` | main.py:35-41 | any command the reader accepts is exactly the template of what it reads back as, filled with the prefix-free octal text of the mode |
| `Commands.ParseCommandExact` | main.py:35-41 | a command reads back as an invocation if and only if it is that invocation's template filled with `f"{mode:o}"` |
| `Commands.GenerateCommandsExact` | main.py:34-43 | every command in the table is its scope's template filled with the target and the prefix-free octal text of the mode, and no other spelling |
| `Commands.MatchMiddleSound` | main.py:37-40 | a text the find-middle matcher splits is the target it returns followed by the middle of the scope it returns |
| `Commands.MatchMiddleOf` | main.py:37-40 | the four find templates are told apart by the text after the target: no template's middle ends another's |
| `Commands.GenerateExample` | main.py:35-41 | mode 0o755 is written "755", and the last row of the table for /tmp/x is the key "Everything recursively (files and folders)" with the command `chmod -R 755 '/tmp/x'` |

## Left out

- The tkinter window, its tabs, check boxes, entries and buttons,
  `show_commands` and `app.mainloop()` (main.py:46-139): presentation only.
- `pyperclip.copy` and `messagebox.showinfo` (main.py:60-62): calls into the
  clipboard and dialog libraries.
- The `IntVar.get()` reads (main.py:7-10) are parameters. The `Entry.get().strip()`
  reads (main.py:117, 136) are also not modelled: trimming is the caller's job,
  and the model takes the strings as given.
- What the generated commands would do in a shell (quoting, escaping, the
  effect of `find` and `chmod`): the program only builds the text.
- The rest of Python's `int(s, 8)` syntax (surrounding whitespace, `_`
  separators, a sign, a `0o` prefix): the text it gets here holds only decimal
  digits, so `ParseOctal` accepts octal digits only.
- GenerateCommands: the mode is a `nat`, so `f"{mode:o}"` of a negative number
  ("-..." text) is not modelled. Both callers pass a mode that is never negative.
- The Python dict that `generate_commands` returns is modelled as a sequence of (key, command)
  entries in insertion order. Functions are deterministic, so the output
  depends only on the target and the mode, and equal inputs give equal output.
