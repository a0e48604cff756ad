/**
 * SmallShell::CreateCommand (smash/Commands.cpp:1021-1119): which command
 * object a line becomes. The line is trimmed, its first word is looked up
 * in the alias table and expanded, a background sign is taken off the text
 * the tests look at, and then redirection, pipe and the built-in names are
 * tried in the source's order.
 */
module ShellDispatch {
  import opened Wrappers
  import opened ShellText
  import opened ShellAlias

  /** The command classes CreateCommand can construct. */
  datatype CommandKind =
    | Redirection | Pipe
    | ChangePrompt | ShowPid | GetCurrDir | ChangeDir | Jobs | Foreground
    | Quit | Kill | Alias | Unalias | ListDir | GetUser | Watch
    | External

  /**
   * The built-in names with the class each selects, in the order
   * CreateCommand tries them (Commands.cpp:1061-1112).
   */
  const BUILT_IN_TABLE: seq<(string, CommandKind)> := [
    ("chprompt", ChangePrompt), ("showpid", ShowPid), ("pwd", GetCurrDir),
    ("cd", ChangeDir), ("jobs", Jobs), ("fg", Foreground), ("quit", Quit),
    ("kill", Kill), ("alias", Alias), ("unalias", Unalias),
    ("listdir", ListDir), ("getuser", GetUser), ("watch", Watch) ]

  /** What CreateCommand constructs: the class, the line it passes on, and whether an alias was expanded. */
  datatype Dispatch = Dispatch(kind: CommandKind, cmdLine: string, isAlias: bool)

  /** cmd_s.substr(0, cmd_s.find_first_of(" \n")): the text before the first space or newline. */
  function FirstWord(s: string): (r: string)
    ensures |r| <= |s| && r == s[..|r|]
    ensures forall i | 0 <= i < |r| :: r[i] != ' ' && r[i] != '\n'
    ensures |r| < |s| ==> s[|r|] == ' ' || s[|r|] == '\n'
  {
    match FindFirst(s, " \n")
    case None => s
    case Some(k) => s[..k]
  }

  /** A line that opens with a word and a space has that word first. */
  lemma FirstWordOf(w: string, rest: string)
    requires forall i | 0 <= i < |w| :: w[i] != ' ' && w[i] != '\n'
    ensures FirstWord(w + [' '] + rest) == w
  {
    var s := w + [' '] + rest;
    assert forall i | 0 <= i < |w| :: s[i] == w[i];
    FindFirstAt(s, " \n", |w|);
  }

  /** Every line that starts like an alias definition has the first word `alias`. */
  lemma FirstWordOfAliasPrefix(s: string)
    requires |s| >= |ALIAS_PREFIX| && s[..|ALIAS_PREFIX|] == ALIAS_PREFIX
    ensures FirstWord(s) == "alias"
  {
    assert s == "alias" + [' '] + s[|ALIAS_PREFIX|..];
    FirstWordOf("alias", s[|ALIAS_PREFIX|..]);
  }

  /** `firstWord.compare(name) == 0 || firstWord.compare(name + "&") == 0`. */
  predicate Named(fw: string, name: string)
  {
    fw == name || fw == name + "&"
  }

  /** The first table entry whose name the word gives, bare or with `&`. */
  function FindName(table: seq<(string, CommandKind)>, fw: string): (r: Option<nat>)
    ensures r.None? <==> forall i | 0 <= i < |table| :: !Named(fw, table[i].0)
    ensures r.Some? ==>
      && r.value < |table| && Named(fw, table[r.value].0)
      && forall j | 0 <= j < r.value :: !Named(fw, table[j].0)
  {
    if table == [] then None
    else if Named(fw, table[0].0) then Some(0)
    else match FindName(table[1..], fw)
      case None =>
        assert forall i | 1 <= i < |table| :: table[i] == table[1..][i - 1];
        None
      case Some(k) =>
        assert forall i | 1 <= i < k + 1 :: table[i] == table[1..][i - 1];
        Some(k + 1)
  }

  /** The built-in chain of CreateCommand (Commands.cpp:1061-1112): the first name that matches wins. */
  function BuiltInKind(fw: string): (r: Option<CommandKind>)
    ensures r.Some? ==> !r.value.Redirection? && !r.value.Pipe? && !r.value.External?
  {
    match FindName(BUILT_IN_TABLE, fw)
    case None => None
    case Some(i) =>
      TableKinds();
      Some(BUILT_IN_TABLE[i].1)
  }

  /** Every class in the table is a built-in one. */
  lemma TableKinds()
    ensures forall i | 0 <= i < |BUILT_IN_TABLE| ::
      !BUILT_IN_TABLE[i].1.Redirection? && !BUILT_IN_TABLE[i].1.Pipe? && !BUILT_IN_TABLE[i].1.External?
  {
  }

  /** The set of names in the table. */
  function TableNames(): set<string>
  {
    set i | 0 <= i < |BUILT_IN_TABLE| :: BUILT_IN_TABLE[i].0
  }

  /** The table's names are exactly the names isItBuiltIn accepts (Commands.cpp:917-928). */
  lemma TableNamesAreBuiltIns()
    ensures TableNames() == BUILT_IN_NAMES
  {
    var t := BUILT_IN_TABLE;
    assert t[0].0 == "chprompt" && t[1].0 == "showpid" && t[2].0 == "pwd" && t[3].0 == "cd";
    assert t[4].0 == "jobs" && t[5].0 == "fg" && t[6].0 == "quit" && t[7].0 == "kill";
    assert t[8].0 == "alias" && t[9].0 == "unalias" && t[10].0 == "listdir";
    assert t[11].0 == "getuser" && t[12].0 == "watch";
  }

  /** No name holds `&`, and no name is listed twice. */
  lemma TableShape()
    ensures forall i | 0 <= i < |BUILT_IN_TABLE| :: '&' !in BUILT_IN_TABLE[i].0
    ensures forall i, j | 0 <= i < |BUILT_IN_TABLE| && 0 <= j < |BUILT_IN_TABLE|
      && BUILT_IN_TABLE[i].0 == BUILT_IN_TABLE[j].0 :: i == j
  {
  }

  /** The word with one trailing `&` dropped. */
  function Base(fw: string): (r: string)
    ensures r == fw || fw == r + "&"
  {
    if fw != [] && fw[|fw| - 1] == '&' then fw[..|fw| - 1] else fw
  }

  /** A name without `&` that a word gives is the word less its `&`. */
  lemma NamedBase(fw: string, name: string)
    requires '&' !in name && Named(fw, name)
    ensures name == Base(fw)
  {
    if fw == name {
      if name != [] {
        assert name[|name| - 1] in name;
      }
    } else {
      assert fw[..|fw| - 1] == name;
    }
  }

  /** Each entry of the table is selected by its name, bare or with `&`. */
  lemma BuiltInKindEntry(fw: string, i: nat)
    requires i < |BUILT_IN_TABLE| && Named(fw, BUILT_IN_TABLE[i].0)
    ensures BuiltInKind(fw) == Some(BUILT_IN_TABLE[i].1)
  {
    TableShape();
    var t := BUILT_IN_TABLE;
    match FindName(t, fw) {
      case Some(k) =>
        NamedBase(fw, t[k].0);
        NamedBase(fw, t[i].0);
    }
  }

  /**
   * The chain accepts a word exactly when isItBuiltIn accepts it once one
   * trailing `&` is dropped: `jobs` and `jobs&` select the jobs command,
   * `jobs&&` does not.
   */
  lemma BuiltInKindAgrees(fw: string)
    ensures BuiltInKind(fw).Some? <==> IsItBuiltIn(Base(fw))
  {
    TableNamesAreBuiltIns();
    if BuiltInKind(fw).Some? {
      BuiltInKindSound(fw);
    }
    if IsItBuiltIn(Base(fw)) {
      var i := NameInTable(Base(fw));
      BuiltInKindEntry(fw, i);
    }
  }

  /** A word the chain accepts is a table name, or one with `&` after it. */
  lemma BuiltInKindSound(fw: string)
    requires BuiltInKind(fw).Some?
    ensures Base(fw) in TableNames()
  {
    var t := BUILT_IN_TABLE;
    TableShape();
    match FindName(t, fw) {
      case Some(k) =>
        NamedBase(fw, t[k].0);
    }
  }

  /** Every built-in name is in the table, and the chain accepts it. */
  lemma NameInTable(name: string) returns (i: nat)
    requires IsItBuiltIn(name)
    ensures i < |BUILT_IN_TABLE| && BUILT_IN_TABLE[i].0 == name
  {
    TableNamesAreBuiltIns();
    i :| 0 <= i < |BUILT_IN_TABLE| && BUILT_IN_TABLE[i].0 == name;
  }

  /** `tmp_str + " " + args[i]` over the words after the first. */
  function JoinBlank(ws: seq<string>): (r: string)
    ensures ws == [] <==> r == []
    ensures r != [] ==> r[0] == ' '
  {
    if ws == [] then [] else " " + ws[0] + JoinBlank(ws[1..])
  }

  lemma SplitHead(ws: seq<string>)
    requires ws != []
    ensures ws == [ws[0]] + ws[1..]
  {
  }

  /** Joining well-formed words with blanks and splitting again gives the words back. */
  lemma {:induction false} JoinBlankWords(ws: seq<string>)
    requires WellFormedWords(ws)
    ensures Words(JoinBlank(ws)) == ws
  {
    if ws == [] {
      assert AllWs(JoinBlank(ws));
    } else {
      var w, tail := ws[0], ws[1..];
      var head, rest := " " + w, JoinBlank(tail);
      TailWellFormed(ws);
      JoinBlankWords(tail);
      WordsAppend(head, rest);
      WordsBlankWord(w);
      assert JoinBlank(ws) == head + rest;
      SplitHead(ws);
    }
  }

  /**
   * The alias expansion (Commands.cpp:1027-1046): when the first word names
   * an alias, the line becomes the alias's command followed by the line's
   * other words, each after one space.
   */
  function Expand(aliases: seq<AliasEntry>, line: string): (r: (string, bool))
    ensures r.1 <==> AliasNameAlreadyExists(aliases, FirstWord(Trim(line)))
    ensures !r.1 ==> r.0 == line
  {
    var fw := FirstWord(Trim(line));
    if AliasNameAlreadyExists(aliases, fw) then
      var ws := Words(line);
      (GetAliasCmdLineByName(aliases, fw) + JoinBlank(if ws == [] then [] else ws[1..]), true)
    else (line, false)
  }

  /**
   * An expanded alias line splits into the alias command's words followed by
   * every word of the typed line after the first.
   */
  lemma ExpandWords(aliases: seq<AliasEntry>, line: string)
    requires AliasNameAlreadyExists(aliases, FirstWord(Trim(line)))
    ensures var ws := Words(line);
      Words(Expand(aliases, line).0)
        == Words(GetAliasCmdLineByName(aliases, FirstWord(Trim(line)))) + (if ws == [] then [] else ws[1..])
  {
    var ws := Words(line);
    var args := if ws == [] then [] else ws[1..];
    ArgumentsWellFormed(line);
    AppendJoined(GetAliasCmdLineByName(aliases, FirstWord(Trim(line))), args);
  }

  /**
   * The alias expansion as written (Commands.cpp:1032-1034): `cmd_line`
   * keeps the `c_str()` of the string getAliasCmdLineByName returns by
   * value, which is destroyed at the end of line 1032, so lines 1033-1034
   * measure and copy whatever the released buffer holds by then. Those
   * contents are the parameter `released`.
   */
  function ExpandAsWritten(aliases: seq<AliasEntry>, line: string, released: string): (r: (string, bool))
    ensures r.1 <==> AliasNameAlreadyExists(aliases, FirstWord(Trim(line)))
    ensures !r.1 ==> r.0 == line
  {
    var fw := FirstWord(Trim(line));
    if AliasNameAlreadyExists(aliases, fw) then
      var ws := Words(line);
      (released + JoinBlank(if ws == [] then [] else ws[1..]), true)
    else (line, false)
  }

  /**
   * The as-written expansion gives the intended line exactly when the first
   * word is no alias or the released buffer still holds the alias's command.
   */
  lemma ExpandAsWrittenAgrees(aliases: seq<AliasEntry>, line: string, released: string)
    ensures var fw := FirstWord(Trim(line));
      (ExpandAsWritten(aliases, line, released) == Expand(aliases, line))
        <==> (!AliasNameAlreadyExists(aliases, fw) || released == GetAliasCmdLineByName(aliases, fw))
  {
    var fw := FirstWord(Trim(line));
    if AliasNameAlreadyExists(aliases, fw) {
      var ws := Words(line);
      var tail := JoinBlank(if ws == [] then [] else ws[1..]);
      var cmd := GetAliasCmdLineByName(aliases, fw);
      if released + tail == cmd + tail {
        assert released == (released + tail)[..|released|];
        assert cmd == (cmd + tail)[..|cmd|];
      }
    }
  }

  /**
   * With `alias ll='ls -l'`, typing `ll` should run `ls -l`; if the released
   * buffer has been cleared by then, the line run is empty.
   */
  lemma ExpandReadsReleased(aliases: seq<AliasEntry>)
    requires aliases == [AliasEntry("ls -l", "ll")]
    ensures Expand(aliases, "ll") == ("ls -l", true)
    ensures ExpandAsWritten(aliases, "ll", "") == ("", true)
  {
    ExampleLine();
    assert aliases[0].name == "ll";
    ExpandAliasLine(aliases, "ll", "");
    var ws := Words("ll");
    var tail := JoinBlank(if ws == [] then [] else ws[1..]);
    assert tail == [];
    assert GetAliasCmdLineByName(aliases, "ll") + tail == "ls -l";
    assert "" + tail == "";
  }

  /** `ll` is already trimmed, is its own first word, and is a single word. */
  lemma ExampleLine()
    ensures FirstWord(Trim("ll")) == "ll" && Words("ll") == ["ll"]
  {
    TrimFixed("ll");
    assert NoWs("ll") by {
      WhitespaceIsWs('l');
    }
    WordsSingle("ll");
  }

  /** Both expansions of a line whose first word is an alias, spelled out. */
  lemma ExpandAliasLine(aliases: seq<AliasEntry>, line: string, released: string)
    requires AliasNameAlreadyExists(aliases, FirstWord(Trim(line)))
    ensures var ws := Words(line);
      var tail := JoinBlank(if ws == [] then [] else ws[1..]);
      && Expand(aliases, line) == (GetAliasCmdLineByName(aliases, FirstWord(Trim(line))) + tail, true)
      && ExpandAsWritten(aliases, line, released) == (released + tail, true)
  {
  }

  /** The words after the first are well formed. */
  lemma ArgumentsWellFormed(line: string)
    ensures var ws := Words(line); WellFormedWords(if ws == [] then [] else ws[1..])
  {
    WordsShape(line);
    if Words(line) != [] {
      TailWellFormed(Words(line));
    }
  }

  lemma TailWellFormed(ws: seq<string>)
    requires ws != [] && WellFormedWords(ws)
    ensures WellFormedWords(ws[1..])
  {
    assert forall k | 0 <= k < |ws[1..]| :: ws[1..][k] == ws[k + 1];
  }

  /** A command followed by blank-joined words splits into its own words and those words. */
  lemma AppendJoined(cmd: string, args: seq<string>)
    requires WellFormedWords(args)
    ensures Words(cmd + JoinBlank(args)) == Words(cmd) + args
  {
    JoinBlankWords(args);
    WordsAppend(cmd, JoinBlank(args));
  }

  /**
   * The text the redirection and pipe tests look at (Commands.cpp:1049-1053):
   * the trimmed line, with a background sign taken off and trimmed again.
   */
  function TestedText(cmdLine: string): (r: string)
    ensures var t := Trim(cmdLine); |r| <= |t| && r == t[..|r|]
  {
    var t := Trim(cmdLine);
    if IsBackground(t) then
      RemoveBackgroundPrefix(t);
      Trim(RemoveBackgroundSign(t))
    else t
  }

  /** The tested text holds the same visible characters as the line, `&` aside. */
  lemma TestedKeepsVisible(cmdLine: string, c: char)
    requires !IsWs(c) && c != '&'
    ensures c in TestedText(cmdLine) <==> c in cmdLine
  {
    var t := Trim(cmdLine);
    TrimKeepsVisible(cmdLine, c);
    if IsBackground(t) {
      RemoveBackgroundKeepsVisible(t, c);
      TrimKeepsVisible(RemoveBackgroundSign(t), c);
    }
  }

  /** The tested text holds `>` and `|` exactly when the line does. */
  lemma TestedOperators(line: string)
    ensures ('>' in TestedText(line) <==> '>' in line) && ('|' in TestedText(line) <==> '|' in line)
  {
    TestedKeepsVisible(line, '>');
    TestedKeepsVisible(line, '|');
  }

  /**
   * The decision of CreateCommand (Commands.cpp:1053-1117) on the tested
   * text and the first word: `>` then `|` unless the text is an alias
   * definition or the word is `watch`, then the built-in chain, else an
   * external command.
   */
  function KindOf(text: string, fw: string): (r: CommandKind)
    ensures r.Redirection? <==> '>' in text && !IsAliasDefinition(text) && fw != "watch"
    ensures r.Pipe? <==> !r.Redirection? && '|' in text && !IsAliasDefinition(text) && fw != "watch"
    ensures !r.Redirection? && !r.Pipe? ==> r == match BuiltInKind(fw) case Some(k) => k case None => External
  {
    var special := !IsAliasDefinition(text) && fw != "watch";
    if '>' in text && special then Redirection
    else if '|' in text && special then Pipe
    else match BuiltInKind(fw)
      case Some(k) => k
      case None => External
  }

  /** SmallShell::CreateCommand (Commands.cpp:1021-1119). */
  function Classify(aliases: seq<AliasEntry>, line: string): (r: Dispatch)
    ensures r.isAlias <==> AliasNameAlreadyExists(aliases, FirstWord(Trim(line)))
    ensures !r.isAlias ==> r.cmdLine == line
    ensures r.kind == KindOf(TestedText(r.cmdLine), FirstWord(Trim(r.cmdLine)))
  {
    var (cmdLine, isAlias) := Expand(aliases, line);
    Dispatch(KindOf(TestedText(cmdLine), FirstWord(Trim(cmdLine))), cmdLine, isAlias)
  }

  /** Away from `watch` and alias definitions, `>` selects a redirection and then `|` a pipe. */
  lemma KindOfSpecial(text: string, fw: string)
    requires !IsAliasDefinition(text) && fw != "watch"
    ensures '>' in text ==> KindOf(text, fw) == Redirection
    ensures '>' !in text && '|' in text ==> KindOf(text, fw) == Pipe
  {
  }

  /** The first word `watch` selects a watch command whatever the text holds. */
  lemma KindOfWatch(text: string)
    ensures KindOf(text, "watch") == Watch
  {
    BuiltInKindEntry("watch", 12);
  }

  /** A definition line with the first word `alias` selects the alias command whatever its body holds. */
  lemma KindOfAliasDefinition(text: string)
    requires IsAliasDefinition(text)
    ensures KindOf(text, "alias") == Alias
  {
    BuiltInKindEntry("alias", 8);
  }

  /** Without `>` and `|`, a built-in name selects its class. */
  lemma KindOfBuiltIn(text: string, fw: string, i: nat)
    requires i < |BUILT_IN_TABLE| && Named(fw, BUILT_IN_TABLE[i].0)
    requires '>' !in text && '|' !in text
    ensures KindOf(text, fw) == BUILT_IN_TABLE[i].1
  {
    BuiltInKindEntry(fw, i);
  }

  /** A line whose prefix is an alias definition has the first word `alias`. */
  lemma DefinitionPrefixFirstWord(t: string, x: string)
    requires |x| <= |t| && x == t[..|x|] && IsAliasDefinition(x)
    ensures FirstWord(t) == "alias"
  {
    assert t[..|ALIAS_PREFIX|] == x[..|ALIAS_PREFIX|];
    FirstWordOfAliasPrefix(t);
  }

  /** A tested text that is an alias definition comes from a line whose first word is `alias`. */
  lemma AliasDefinitionFirstWord(cmdLine: string)
    ensures IsAliasDefinition(TestedText(cmdLine)) ==> FirstWord(Trim(cmdLine)) == "alias"
  {
    if IsAliasDefinition(TestedText(cmdLine)) {
      DefinitionPrefixFirstWord(Trim(cmdLine), TestedText(cmdLine));
    }
  }

  /**
   * A line that is not an alias and whose first word is neither `watch` nor
   * `alias` becomes a redirection when it holds `>`, and otherwise a pipe
   * when it holds `|`.
   */
  lemma ClassifyRedirectionOrPipe(aliases: seq<AliasEntry>, line: string)
    requires !AliasNameAlreadyExists(aliases, FirstWord(Trim(line)))
    requires FirstWord(Trim(line)) != "watch" && FirstWord(Trim(line)) != "alias"
    ensures '>' in line ==> Classify(aliases, line).kind == Redirection
    ensures '>' !in line && '|' in line ==> Classify(aliases, line).kind == Pipe
  {
    ClassifyNoAlias(aliases, line);
    LineKindSpecial(line);
  }

  /** The decision on a line whose first word is neither `watch` nor `alias`. */
  lemma LineKindSpecial(line: string)
    requires FirstWord(Trim(line)) != "watch" && FirstWord(Trim(line)) != "alias"
    ensures '>' in line ==> KindOf(TestedText(line), FirstWord(Trim(line))) == Redirection
    ensures '>' !in line && '|' in line ==> KindOf(TestedText(line), FirstWord(Trim(line))) == Pipe
  {
    AliasDefinitionFirstWord(line);
    TestedOperators(line);
    KindOfSpecialLine(TestedText(line), FirstWord(Trim(line)), line);
  }

  lemma KindOfSpecialLine(text: string, fw: string, line: string)
    requires IsAliasDefinition(text) ==> fw == "alias"
    requires fw != "watch" && fw != "alias"
    requires ('>' in text <==> '>' in line) && ('|' in text <==> '|' in line)
    ensures '>' in line ==> KindOf(text, fw) == Redirection
    ensures '>' !in line && '|' in line ==> KindOf(text, fw) == Pipe
  {
    KindOfSpecial(text, fw);
  }

  /** A line whose first word is `watch` is a watch command even with `>` or `|` in it. */
  lemma ClassifyWatch(aliases: seq<AliasEntry>, line: string)
    requires !AliasNameAlreadyExists(aliases, FirstWord(Trim(line)))
    requires FirstWord(Trim(line)) == "watch"
    ensures Classify(aliases, line).kind == Watch
  {
    KindOfWatch(TestedText(line));
  }

  /**
   * A definition line reaches the alias command even when its command holds
   * `>` or `|`, as long as `alias` is not itself an alias (which the alias
   * command never lets happen).
   */
  lemma ClassifyAliasDefinition(aliases: seq<AliasEntry>, name: string, cmd: string)
    requires AliasesOk(aliases) && IsAliasName(name) && IsAliasBody(cmd)
    ensures Classify(aliases, AliasDefinition(name, cmd)) == Dispatch(Alias, AliasDefinition(name, cmd), false)
  {
    var s := AliasDefinition(name, cmd);
    DefinitionLineShape(name, cmd);
    DefinitionMatches(name, cmd);
    DefinitionTested(s);
    FirstWordOfAliasPrefix(s);
    assert !AliasNameAlreadyExists(aliases, "alias") by {
      assert IsItBuiltIn("alias");
    }
    KindOfAliasDefinition(s);
  }

  /** A trimmed line without a background sign is tested as it is. */
  lemma DefinitionTested(s: string)
    requires Trimmed(s) && !IsBackground(s)
    ensures Trim(s) == s && TestedText(s) == s
  {
    TrimFixed(s);
  }

  /** A line whose first word is a built-in name, not an alias, and free of `>` and `|`, runs that built-in. */
  lemma ClassifyBuiltIn(aliases: seq<AliasEntry>, line: string, i: nat)
    requires i < |BUILT_IN_TABLE|
    requires Named(FirstWord(Trim(line)), BUILT_IN_TABLE[i].0)
    requires !AliasNameAlreadyExists(aliases, FirstWord(Trim(line)))
    requires '>' !in line && '|' !in line
    ensures Classify(aliases, line) == Dispatch(BUILT_IN_TABLE[i].1, line, false)
  {
    LineKindBuiltIn(line, i);
    ClassifyNoAlias(aliases, line);
  }

  /** The decision on a line free of `>` and `|` whose first word is a table name. */
  lemma LineKindBuiltIn(line: string, i: nat)
    requires i < |BUILT_IN_TABLE| && Named(FirstWord(Trim(line)), BUILT_IN_TABLE[i].0)
    requires '>' !in line && '|' !in line
    ensures KindOf(TestedText(line), FirstWord(Trim(line))) == BUILT_IN_TABLE[i].1
  {
    TestedOperators(line);
    KindOfBuiltInLine(TestedText(line), FirstWord(Trim(line)), line, i);
  }

  lemma KindOfBuiltInLine(text: string, fw: string, line: string, i: nat)
    requires i < |BUILT_IN_TABLE| && Named(fw, BUILT_IN_TABLE[i].0)
    requires ('>' in text <==> '>' in line) && ('|' in text <==> '|' in line)
    requires '>' !in line && '|' !in line
    ensures KindOf(text, fw) == BUILT_IN_TABLE[i].1
  {
    KindOfBuiltIn(text, fw, i);
  }

  /** Without an alias the line is passed on as it is. */
  lemma ClassifyNoAlias(aliases: seq<AliasEntry>, line: string)
    requires !AliasNameAlreadyExists(aliases, FirstWord(Trim(line)))
    ensures Classify(aliases, line) == Dispatch(KindOf(TestedText(line), FirstWord(Trim(line))), line, false)
  {
  }
}
