/** The command generator (`generate_commands`, main.py:34-43): a target path
    and a mode become five labelled shell commands, in a fixed order. The text
    is only produced, never run; the target is put between single quotes as it
    is, without escaping. */
module Commands {
  import opened Wrappers
  import opened Radix

  /** The five scopes a command can apply the mode to, in the order of the table. */
  datatype Scope =
    | FilesInFolder        // find ... -maxdepth 1 -type f
    | FoldersInFolder      // find ... -maxdepth 1 -type d
    | FoldersRecursive     // find ... -type d
    | FilesInSubfolders    // find ... -mindepth 2 -type f
    | Everything           // chmod -R

  const Scopes: seq<Scope> := [FilesInFolder, FoldersInFolder, FoldersRecursive, FilesInSubfolders, Everything]

  /** The key each command has in the table. */
  function Label(scope: Scope): string {
    match scope
    case FilesInFolder => "Files in folder"
    case FoldersInFolder => "Folders in folder"
    case FoldersRecursive => "Folders and subfolders (recursive)"
    case FilesInSubfolders => "Files in subfolders"
    case Everything => "Everything recursively (files and folders)"
  }

  /** The text of a find template between the target and the octal mode:
      the closing quote, the `find` tests that pick the entries of the scope,
      and the `-exec chmod` that applies the mode to them. */
  function FindMiddle(scope: Scope): string
    requires scope != Everything
  {
    match scope
    case FilesInFolder => "' -maxdepth 1 -type f -exec chmod "
    case FoldersInFolder => "' -maxdepth 1 -type d -exec chmod "
    case FoldersRecursive => "' -type d -exec chmod "
    case FilesInSubfolders => "' -mindepth 2 -type f -exec chmod "
  }

  /** The template of a scope, filled with the target and the octal mode text. */
  function CommandText(scope: Scope, target: string, octal: string): string {
    if scope == Everything then
      "chmod -R " + octal + " '" + target + "'"
    else
      FindCommand(target, FindMiddle(scope), octal)
  }

  /** The shape shared by the four find templates. */
  function FindCommand(target: string, middle: string, octal: string): string {
    "find '" + target + middle + octal + " {} +"
  }

  /** One row of the table: its key (the label) and its command. */
  datatype Entry = Entry(key: string, command: string)

  /** What a command does: the scope, the target and the mode. */
  datatype Invocation = Invocation(scope: Scope, target: string, mode: nat)

  /** `generate_commands(target, mode)`: the mode is written in base 8 with no
      prefix, and the table holds the five templates in their fixed order.
      Every command can be read back into exactly the scope of its row, the
      target and the mode it was made from. */
  function GenerateCommands(target: string, mode: nat): (cmds: seq<Entry>)
    ensures |cmds| == |Scopes|
    ensures forall i :: 0 <= i < |cmds| ==> cmds[i].key == Label(Scopes[i])
    ensures forall i, j :: 0 <= i < j < |cmds| ==> cmds[i].key != cmds[j].key
    ensures forall i :: 0 <= i < |cmds| ==> ParseCommand(cmds[i].command) == Some(Invocation(Scopes[i], target, mode))
  {
    var octal := FormatOctal(mode);
    var cmds := [Row(FilesInFolder, target, octal), Row(FoldersInFolder, target, octal),
                 Row(FoldersRecursive, target, octal), Row(FilesInSubfolders, target, octal),
                 Row(Everything, target, octal)];
    assert forall i :: 0 <= i < |cmds| ==> cmds[i] == Row(Scopes[i], target, octal);
    LabelsDistinct();
    forall i | 0 <= i < |cmds| ensures ParseCommand(cmds[i].command) == Some(Invocation(Scopes[i], target, mode)) {
      ParseCommandText(Scopes[i], target, mode);
    }
    cmds
  }

  /** One row: the scope's label and its command. */
  function Row(scope: Scope, target: string, octal: string): Entry {
    Entry(Label(scope), CommandText(scope, target, octal))
  }

  /** The five labels are distinct keys. */
  lemma LabelsDistinct()
    ensures forall i, j :: 0 <= i < j < |Scopes| ==> Label(Scopes[i]) != Label(Scopes[j])
  {
    assert |Label(FilesInFolder)| == 15 && |Label(FoldersInFolder)| == 17;
    assert |Label(FoldersRecursive)| == 34 && |Label(FilesInSubfolders)| == 19;
    assert |Label(Everything)| == 42;
  }

  // ---------------------------------------------------------------------
  // Reading a command back
  // ---------------------------------------------------------------------

  predicate HasPrefix(s: string, p: string) {
    |p| <= |s| && s[..|p|] == p
  }

  predicate HasSuffix(s: string, q: string) {
    |q| <= |s| && s[|s| - |q|..] == q
  }

  /** The index of the first `c` in `s`, if any. */
  function FirstIndex(s: string, c: char): (r: Option<nat>)
    ensures r.None? ==> c !in s
    ensures r.Some? ==> r.value < |s| && s[r.value] == c && c !in s[..r.value]
  {
    if s == [] then None
    else if s[0] == c then Some(0)
    else match FirstIndex(s[1..], c)
      case None => None
      case Some(k) =>
        assert s[..k + 1] == [s[0]] + s[1..][..k];
        Some(k + 1)
  }

  /** The index of the last `c` in `s`, if any. */
  function LastIndex(s: string, c: char): (r: Option<nat>)
    ensures r.None? ==> c !in s
    ensures r.Some? ==> r.value < |s| && s[r.value] == c && c !in s[r.value + 1..]
  {
    if s == [] then None
    else if s[|s| - 1] == c then Some(|s| - 1)
    else match LastIndex(s[..|s| - 1], c)
      case None => None
      case Some(k) =>
        assert s[k + 1..] == s[..|s| - 1][k + 1..] + [s[|s| - 1]];
        Some(k)
  }

  /** Reads `"<octal> '<target>'"`, the part of the recursive chmod after "chmod -R ". */
  function ParseChmodTail(rest: string): Option<Invocation> {
    match FirstIndex(rest, ' ')
    case None => None
    case Some(k) =>
      var tail := rest[k..];
      if |tail| >= 3 && tail[..2] == " '" && tail[|tail| - 1] == '\'' then
        match ParseCanonicalOctal(rest[..k])
        case Some(m) => Some(Invocation(Everything, tail[2..|tail| - 1], m))
        case None => None
      else None
  }

  /** Splits `"<target><middle>"` at the find template middle it ends with. */
  function MatchMiddle(head: string): Option<(Scope, string)> {
    if HasSuffix(head, FindMiddle(FilesInFolder)) then
      Some((FilesInFolder, head[..|head| - |FindMiddle(FilesInFolder)|]))
    else if HasSuffix(head, FindMiddle(FoldersInFolder)) then
      Some((FoldersInFolder, head[..|head| - |FindMiddle(FoldersInFolder)|]))
    else if HasSuffix(head, FindMiddle(FoldersRecursive)) then
      Some((FoldersRecursive, head[..|head| - |FindMiddle(FoldersRecursive)|]))
    else if HasSuffix(head, FindMiddle(FilesInSubfolders)) then
      Some((FilesInSubfolders, head[..|head| - |FindMiddle(FilesInSubfolders)|]))
    else None
  }

  /** Reads `"<target><middle><octal>"`, the part of a find command between
      "find '" and " {} +". */
  function ParseFindBody(body: string): Option<Invocation> {
    match LastIndex(body, ' ')
    case None => None
    case Some(k) =>
      match (ParseCanonicalOctal(body[k + 1..]), MatchMiddle(body[..k + 1]))
      case (Some(m), Some((scope, target))) => Some(Invocation(scope, target, m))
      case _ => None
  }

  /** Reads a generated command back into what it does, or None if it is not
      of one of the five forms. */
  function ParseCommand(cmd: string): Option<Invocation> {
    if HasPrefix(cmd, "chmod -R ") then ParseChmodTail(cmd[9..])
    else if |cmd| >= 11 && HasPrefix(cmd, "find '") && HasSuffix(cmd, " {} +") then ParseFindBody(cmd[6..|cmd| - 5])
    else None
  }

  // ---------------------------------------------------------------------
  // The templates can be read back
  // ---------------------------------------------------------------------

  /** Two strings that differ `k` places from their ends cannot both end a string. */
  lemma {:induction false} SuffixMismatch(x: string, b: string, a: string, k: nat)
    requires k < |a| && k < |b| && a[|a| - 1 - k] != b[|b| - 1 - k]
    ensures !HasSuffix(x + b, a)
  {
    var s := x + b;
    var i := |s| - 1 - k;
    assert s[i] == b[|b| - 1 - k];
    assert |a| <= |s| ==> s[|s| - |a|..][|a| - 1 - k] == s[i];
  }

  lemma {:induction false} HasSuffixOfConcat(x: string, q: string)
    ensures HasSuffix(x + q, q) && (x + q)[..|x + q| - |q|] == x
  {
    assert (x + q)[|x + q| - |q|..] == q;
  }

  /** The middle a find command was made with is the one read back, and the
      text before it is the target: no middle ends another one. */
  lemma {:induction false} MatchMiddleOf(scope: Scope, target: string)
    requires scope != Everything
    ensures MatchMiddle(target + FindMiddle(scope)) == Some((scope, target))
  {
    HasSuffixOfConcat(target, FindMiddle(scope));
    match scope
    case FilesInFolder =>
    case FoldersInFolder => MatchFoldersInFolder(target);
    case FoldersRecursive => MatchFoldersRecursive(target);
    case FilesInSubfolders => MatchFilesInSubfolders(target);
  }

  lemma {:induction false} MatchFoldersInFolder(target: string)
    ensures !HasSuffix(target + FindMiddle(FoldersInFolder), FindMiddle(FilesInFolder))
  {
    SuffixMismatch(target, FindMiddle(FoldersInFolder), FindMiddle(FilesInFolder), 13);
  }

  lemma {:induction false} MatchFoldersRecursive(target: string)
    ensures !HasSuffix(target + FindMiddle(FoldersRecursive), FindMiddle(FilesInFolder))
    ensures !HasSuffix(target + FindMiddle(FoldersRecursive), FindMiddle(FoldersInFolder))
  {
    var mid := FindMiddle(FoldersRecursive);
    SuffixMismatch(target, mid, FindMiddle(FilesInFolder), 13);
    SuffixMismatch(target, mid, FindMiddle(FoldersInFolder), 21);
  }

  lemma {:induction false} MatchFilesInSubfolders(target: string)
    ensures !HasSuffix(target + FindMiddle(FilesInSubfolders), FindMiddle(FilesInFolder))
    ensures !HasSuffix(target + FindMiddle(FilesInSubfolders), FindMiddle(FoldersInFolder))
    ensures !HasSuffix(target + FindMiddle(FilesInSubfolders), FindMiddle(FoldersRecursive))
  {
    var mid := FindMiddle(FilesInSubfolders);
    SuffixMismatch(target, mid, FindMiddle(FilesInFolder), 21);
    SuffixMismatch(target, mid, FindMiddle(FoldersInFolder), 13);
    SuffixMismatch(target, mid, FindMiddle(FoldersRecursive), 13);
  }

  /** A `c` with no `c` before it is the first one. */
  lemma {:induction false} FirstIndexAt(s: string, c: char, k: nat)
    requires k < |s| && s[k] == c && c !in s[..k]
    ensures FirstIndex(s, c) == Some(k)
  {
    assert s[k] in s;
  }

  /** A `c` with no `c` after it is the last one. */
  lemma {:induction false} LastIndexAt(s: string, c: char, k: nat)
    requires k < |s| && s[k] == c && c !in s[k + 1..]
    ensures LastIndex(s, c) == Some(k)
  {
    assert s[k] in s;
  }

  /** The octal text holds no space. */
  lemma {:induction false} NoSpaceInOctal(octal: string)
    requires AllOctal(octal)
    ensures ' ' !in octal
  {
    assert forall i :: 0 <= i < |octal| ==> IsOctalDigit(octal[i]);
  }

  /** The recursive chmod is read by stripping "chmod -R ". */
  lemma {:induction false} ChmodCommandTail(target: string, octal: string)
    ensures ParseCommand(CommandText(Everything, target, octal)) == ParseChmodTail(octal + " '" + target + "'")
  {
    var rest := octal + " '" + target + "'";
    var cmd := CommandText(Everything, target, octal);
    assert cmd == "chmod -R " + rest;
    assert cmd[..9] == "chmod -R " && cmd[9..] == rest;
  }

  /** After "chmod -R ", the first space ends the octal mode, and the rest is
      the quoted target. */
  lemma {:induction false} ChmodTailSplit(target: string, octal: string)
    requires ' ' !in octal
    ensures var rest := octal + " '" + target + "'";
      FirstIndex(rest, ' ') == Some(|octal|) && rest[..|octal|] == octal
      && rest[|octal|..] == " '" + target + "'"
  {
    var rest := octal + " '" + target + "'";
    var k := |octal|;
    assert rest[k] == ' ' && rest[..k] == octal;
    FirstIndexAt(rest, ' ', k);
  }

  /** Round trip for the recursive chmod. */
  lemma {:induction false} ParseChmodText(target: string, mode: nat)
    ensures ParseCommand(CommandText(Everything, target, FormatOctal(mode))) == Some(Invocation(Everything, target, mode))
  {
    var octal := FormatOctal(mode);
    ParseCanonicalFormat(mode);
    NoSpaceInOctal(octal);
    ChmodCommandTail(target, octal);
    ChmodTailSplit(target, octal);
    var tail := " '" + target + "'";
    assert tail[..2] == " '" && tail[2..|tail| - 1] == target;
  }

  lemma {:induction false} ParseFindCommand(cmd: string)
    requires !HasPrefix(cmd, "chmod -R ") && |cmd| >= 11 && HasPrefix(cmd, "find '") && HasSuffix(cmd, " {} +")
    ensures ParseCommand(cmd) == ParseFindBody(cmd[6..|cmd| - 5])
  {
  }

  /** A find command is read by stripping "find '" and " {} +". */
  lemma {:induction false} FindCommandBody(target: string, middle: string, octal: string)
    ensures ParseCommand(FindCommand(target, middle, octal)) == ParseFindBody(target + middle + octal)
  {
    var body := target + middle + octal;
    var cmd := FindCommand(target, middle, octal);
    assert cmd == "find '" + body + " {} +";
    assert !HasPrefix(cmd, "chmod -R ") by {
      assert cmd[0] == 'f';
    }
    assert cmd[..6] == "find '" && cmd[|cmd| - 5..] == " {} +";
    assert cmd[6..|cmd| - 5] == body;
    ParseFindCommand(cmd);
  }

  /** The body of a find command splits at its last space into the middle's
      end and the octal mode. */
  lemma {:induction false} FindBodySplit(scope: Scope, target: string, octal: string)
    requires scope != Everything && ' ' !in octal
    ensures var body := target + FindMiddle(scope) + octal;
      var k := |target + FindMiddle(scope)| - 1;
      LastIndex(body, ' ') == Some(k) && body[k + 1..] == octal && body[..k + 1] == target + FindMiddle(scope)
  {
    var head := target + FindMiddle(scope);
    var body := head + octal;
    var k := |head| - 1;
    assert head[k] == ' ';
    assert body[k] == ' ' && body[k + 1..] == octal && body[..k + 1] == head;
    LastIndexAt(body, ' ', k);
  }

  /** Round trip for the four find commands. */
  lemma {:induction false} ParseFindText(scope: Scope, target: string, mode: nat)
    requires scope != Everything
    ensures ParseCommand(CommandText(scope, target, FormatOctal(mode))) == Some(Invocation(scope, target, mode))
  {
    var octal := FormatOctal(mode);
    ParseCanonicalFormat(mode);
    NoSpaceInOctal(octal);
    FindCommandBody(target, FindMiddle(scope), octal);
    FindBodySplit(scope, target, octal);
    MatchMiddleOf(scope, target);
  }

  /** Round trip: the command a template makes for a target and a mode reads
      back as that scope, that target and that mode, whatever the target holds. */
  lemma {:induction false} ParseCommandText(scope: Scope, target: string, mode: nat)
    ensures ParseCommand(CommandText(scope, target, FormatOctal(mode))) == Some(Invocation(scope, target, mode))
  {
    if scope == Everything {
      ParseChmodText(target, mode);
    } else {
      ParseFindText(scope, target, mode);
    }
  }

  // ---------------------------------------------------------------------
  // Only the generated text is read back
  // ---------------------------------------------------------------------

  /** A head that a find middle ends is the target followed by that middle. */
  lemma {:induction false} MatchMiddleSound(head: string, scope: Scope, target: string)
    requires MatchMiddle(head) == Some((scope, target))
    ensures scope != Everything && head == target + FindMiddle(scope)
  {
    if HasSuffix(head, FindMiddle(FilesInFolder)) {
      SuffixSplit(head, FindMiddle(FilesInFolder));
    } else if HasSuffix(head, FindMiddle(FoldersInFolder)) {
      SuffixSplit(head, FindMiddle(FoldersInFolder));
    } else if HasSuffix(head, FindMiddle(FoldersRecursive)) {
      SuffixSplit(head, FindMiddle(FoldersRecursive));
    } else {
      SuffixSplit(head, FindMiddle(FilesInSubfolders));
    }
  }

  lemma {:induction false} SuffixSplit(s: string, q: string)
    requires HasSuffix(s, q)
    ensures s == s[..|s| - |q|] + q
  {
    assert s == s[..|s| - |q|] + s[|s| - |q|..];
  }

  /** What "chmod -R " is followed by in a command that reads back. */
  lemma {:induction false} ParseChmodTailSound(rest: string, inv: Invocation)
    requires ParseChmodTail(rest) == Some(inv)
    ensures inv.scope == Everything && rest == FormatOctal(inv.mode) + " '" + inv.target + "'"
  {
    var k := FirstIndex(rest, ' ').value;
    var tail := rest[k..];
    assert rest[..k] == FormatOctal(inv.mode);
    assert tail == " '" + inv.target + "'" by {
      assert tail == tail[..2] + tail[2..|tail| - 1] + [tail[|tail| - 1]];
    }
    assert rest == rest[..k] + tail;
  }

  /** What lies between "find '" and " {} +" in a command that reads back. */
  lemma {:induction false} ParseFindBodySound(body: string, inv: Invocation)
    requires ParseFindBody(body) == Some(inv)
    ensures inv.scope != Everything && body == inv.target + FindMiddle(inv.scope) + FormatOctal(inv.mode)
  {
    var k := LastIndex(body, ' ').value;
    MatchMiddleSound(body[..k + 1], inv.scope, inv.target);
    assert body[k + 1..] == FormatOctal(inv.mode);
    assert body == body[..k + 1] + body[k + 1..];
  }

  /** A command that reads back at all is exactly the generated text for what it
      reads back as: with ParseCommandText, ParseCommand accepts the generated
      commands and nothing else. */
  lemma {:induction false} ParseCommandSound(cmd: string, inv: Invocation)
    requires ParseCommand(cmd) == Some(inv)
    ensures cmd == CommandText(inv.scope, inv.target, FormatOctal(inv.mode))
  {
    if HasPrefix(cmd, "chmod -R ") {
      ChmodCommandSound(cmd, inv);
    } else {
      FindCommandSound(cmd, inv);
    }
  }

  lemma {:induction false} ChmodCommandSound(cmd: string, inv: Invocation)
    requires HasPrefix(cmd, "chmod -R ") && ParseChmodTail(cmd[9..]) == Some(inv)
    ensures cmd == CommandText(inv.scope, inv.target, FormatOctal(inv.mode))
  {
    var rest := cmd[9..];
    ParseChmodTailSound(rest, inv);
    assert cmd == "chmod -R " + rest by {
      assert cmd == cmd[..9] + rest;
    }
  }

  lemma {:induction false} FindCommandSound(cmd: string, inv: Invocation)
    requires |cmd| >= 11 && HasPrefix(cmd, "find '") && HasSuffix(cmd, " {} +")
    requires ParseFindBody(cmd[6..|cmd| - 5]) == Some(inv)
    ensures cmd == CommandText(inv.scope, inv.target, FormatOctal(inv.mode))
  {
    ParseFindBodySound(cmd[6..|cmd| - 5], inv);
    FindCommandShape(cmd, inv.target, FindMiddle(inv.scope), FormatOctal(inv.mode));
  }

  /** A string framed by "find '" and " {} +" around a body is the find
      command of that body. */
  lemma {:induction false} FindCommandShape(cmd: string, target: string, middle: string, octal: string)
    requires |cmd| >= 11 && HasPrefix(cmd, "find '") && HasSuffix(cmd, " {} +")
    requires cmd[6..|cmd| - 5] == target + middle + octal
    ensures cmd == FindCommand(target, middle, octal)
  {
    assert cmd == cmd[..6] + cmd[6..|cmd| - 5] + cmd[|cmd| - 5..];
  }

  /** A command reads back as an invocation exactly when it is that
      invocation's generated text. */
  lemma {:induction false} ParseCommandExact(cmd: string, inv: Invocation)
    ensures ParseCommand(cmd) == Some(inv) <==> cmd == CommandText(inv.scope, inv.target, FormatOctal(inv.mode))
  {
    if ParseCommand(cmd) == Some(inv) {
      ParseCommandSound(cmd, inv);
    }
    if cmd == CommandText(inv.scope, inv.target, FormatOctal(inv.mode)) {
      ParseCommandText(inv.scope, inv.target, inv.mode);
    }
  }

  /** Each command of the table is exactly its scope's template filled with
      the target and `f"{mode:o}"`, the prefix-free base-8 text: the reading
      back that GenerateCommands promises admits no other spelling. */
  lemma {:induction false} GenerateCommandsExact(target: string, mode: nat)
    ensures var cmds := GenerateCommands(target, mode);
      forall i :: 0 <= i < |cmds| ==> cmds[i].command == CommandText(Scopes[i], target, FormatOctal(mode))
  {
    var cmds := GenerateCommands(target, mode);
    forall i | 0 <= i < |cmds| ensures cmds[i].command == CommandText(Scopes[i], target, FormatOctal(mode)) {
      ParseCommandSound(cmds[i].command, Invocation(Scopes[i], target, mode));
    }
  }

  /** Mode 0o755 and target /tmp/x: the last row of the table is the
      recursive command "chmod -R 755 '/tmp/x'". */
  lemma GenerateExample()
    ensures FormatOctal(493) == "755"
    ensures GenerateCommands("/tmp/x", 493)[4]
            == Entry("Everything recursively (files and folders)", "chmod -R 755 '/tmp/x'")
  {
    assert FormatOctal(493) == "755" by {
      assert FormatOctal(7) == "7";
      assert FormatOctal(61) == "75";
    }
    GenerateCommandsExact("/tmp/x", 493);
    assert CommandText(Everything, "/tmp/x", "755") == "chmod -R 755 '/tmp/x'";
  }
}
