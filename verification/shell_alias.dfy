/**
 * The shell's alias table (AliasList, smash/Commands.cpp:1219-1258) and the
 * two built-in commands that edit it, alias (930-964) and unalias (969-991).
 *
 * The table is a sequence of entries in insertion order. The alias command
 * checks its line against the pattern ^alias [a-zA-Z0-9_]+='[^']*'$; the
 * pattern is written out here as a predicate over the characters.
 */
module ShellAlias {
  import opened Wrappers
  import opened ShellText

  datatype AliasEntry = AliasEntry(cmdLine: string, name: string)

  // ---------------------------------------------------------------------
  // AliasList
  // ---------------------------------------------------------------------

  /** The position of the first entry called `name`, scanning as the source's loops do. */
  function FindAlias(aliases: seq<AliasEntry>, name: string): (r: Option<nat>)
    ensures r.None? <==> forall i | 0 <= i < |aliases| :: aliases[i].name != name
    ensures r.Some? ==>
      && r.value < |aliases| && aliases[r.value].name == name
      && forall i | 0 <= i < r.value :: aliases[i].name != name
  {
    if aliases == [] then None
    else if aliases[0].name == name then Some(0)
    else match FindAlias(aliases[1..], name)
      case None =>
        assert forall i | 1 <= i < |aliases| :: aliases[i] == aliases[1..][i - 1];
        None
      case Some(k) =>
        assert forall i | 1 <= i < k + 1 :: aliases[i] == aliases[1..][i - 1];
        Some(k + 1)
  }

  /** The first entry called `name` is determined by its defining properties. */
  lemma FindAliasAt(aliases: seq<AliasEntry>, name: string, j: nat)
    requires j < |aliases| && aliases[j].name == name
    requires forall i | 0 <= i < j :: aliases[i].name != name
    ensures FindAlias(aliases, name) == Some(j)
  {
  }

  /** aliasNameAlreadyExists (Commands.cpp:1219-1229). */
  function AliasNameAlreadyExists(aliases: seq<AliasEntry>, name: string): (r: bool)
    ensures r <==> exists i | 0 <= i < |aliases| :: aliases[i].name == name
  {
    FindAlias(aliases, name).Some?
  }

  /** removeAliasByName (Commands.cpp:1231-1241): erase the first entry called `name`, if any. */
  function RemoveAliasByName(aliases: seq<AliasEntry>, name: string): (r: seq<AliasEntry>)
    ensures !AliasNameAlreadyExists(aliases, name) ==> r == aliases
    ensures AliasNameAlreadyExists(aliases, name) ==> exists i | 0 <= i < |aliases| ::
      && aliases[i].name == name
      && (forall j | 0 <= j < i :: aliases[j].name != name)
      && r == aliases[..i] + aliases[i + 1..]
  {
    match FindAlias(aliases, name)
    case None => aliases
    case Some(i) => aliases[..i] + aliases[i + 1..]
  }

  /**
   * getAliasCmdLineByName (Commands.cpp:1243-1253): the command of the first
   * entry called `name`. The source builds a std::string from nullptr when
   * there is none, so callers look the name up first.
   */
  function GetAliasCmdLineByName(aliases: seq<AliasEntry>, name: string): (r: string)
    requires AliasNameAlreadyExists(aliases, name)
    ensures exists i | 0 <= i < |aliases| ::
      && aliases[i] == AliasEntry(r, name)
      && forall j | 0 <= j < i :: aliases[j].name != name
  {
    match FindAlias(aliases, name)
    case Some(i) => aliases[i].cmdLine
  }

  /** addAlias (Commands.cpp:1255-1258). */
  function AddAlias(aliases: seq<AliasEntry>, cmdLine: string, name: string): seq<AliasEntry>
  {
    aliases + [AliasEntry(cmdLine, name)]
  }

  /** No two entries share a name. */
  predicate NamesUnique(aliases: seq<AliasEntry>)
  {
    forall i, j | 0 <= i < j < |aliases| :: aliases[i].name != aliases[j].name
  }

  /** The table the alias command builds: unique, well-formed names, none of them a built-in. */
  predicate AliasesOk(aliases: seq<AliasEntry>)
  {
    && NamesUnique(aliases)
    && forall i | 0 <= i < |aliases| :: IsAliasName(aliases[i].name) && !IsItBuiltIn(aliases[i].name)
  }

  /** A name that is not in the table is found right after it is added. */
  lemma GetAfterAdd(aliases: seq<AliasEntry>, cmdLine: string, name: string)
    requires !AliasNameAlreadyExists(aliases, name)
    ensures AliasNameAlreadyExists(AddAlias(aliases, cmdLine, name), name)
    ensures GetAliasCmdLineByName(AddAlias(aliases, cmdLine, name), name) == cmdLine
  {
    var r := AddAlias(aliases, cmdLine, name);
    assert r[|aliases|].name == name;
    assert forall i | 0 <= i < |aliases| :: r[i] == aliases[i];
  }

  /**
   * addAlias appends, so the new name is defined afterwards and a name that
   * was already defined keeps its first entry and its command.
   */
  lemma AddAliasKeeps(aliases: seq<AliasEntry>, cmdLine: string, name: string, other: string)
    ensures AliasNameAlreadyExists(AddAlias(aliases, cmdLine, name), name)
    ensures AliasNameAlreadyExists(aliases, other) ==>
      && FindAlias(AddAlias(aliases, cmdLine, name), other) == FindAlias(aliases, other)
      && GetAliasCmdLineByName(AddAlias(aliases, cmdLine, name), other) == GetAliasCmdLineByName(aliases, other)
  {
    var r := AddAlias(aliases, cmdLine, name);
    assert r[|aliases|].name == name;
    assert forall i | 0 <= i < |aliases| :: r[i] == aliases[i];
    if AliasNameAlreadyExists(aliases, other) {
      FindAliasAt(r, other, FindAlias(aliases, other).value);
    }
  }

  /** Adding a fresh name and removing it again gives the table back. */
  lemma RemoveAfterAdd(aliases: seq<AliasEntry>, cmdLine: string, name: string)
    requires !AliasNameAlreadyExists(aliases, name)
    ensures RemoveAliasByName(AddAlias(aliases, cmdLine, name), name) == aliases
  {
    var r := AddAlias(aliases, cmdLine, name);
    assert forall i | 0 <= i < |aliases| :: r[i] == aliases[i];
    FindAliasAt(r, name, |aliases|);
    assert r[..|aliases|] == aliases;
  }

  /** On a table with unique names, removal takes the name out and leaves every other name alone. */
  lemma RemoveUnique(aliases: seq<AliasEntry>, name: string)
    requires NamesUnique(aliases)
    ensures var r := RemoveAliasByName(aliases, name);
      && NamesUnique(r)
      && !AliasNameAlreadyExists(r, name)
      && forall other | other != name ::
        AliasNameAlreadyExists(r, other) == AliasNameAlreadyExists(aliases, other)
  {
    match FindAlias(aliases, name) {
      case None =>
      case Some(i) =>
        EraseUnique(aliases, i, aliases[..i] + aliases[i + 1..]);
    }
  }

  /** Erasing one entry of a table with unique names removes its name and no other. */
  lemma EraseUnique(aliases: seq<AliasEntry>, i: nat, r: seq<AliasEntry>)
    requires NamesUnique(aliases) && i < |aliases| && r == aliases[..i] + aliases[i + 1..]
    ensures && NamesUnique(r)
      && (forall k | 0 <= k < |r| :: r[k].name != aliases[i].name)
      && forall other | other != aliases[i].name ::
        AliasNameAlreadyExists(r, other) == AliasNameAlreadyExists(aliases, other)
  {
    assert forall k | 0 <= k < |r| :: r[k] == aliases[if k < i then k else k + 1];
    forall other | other != aliases[i].name && AliasNameAlreadyExists(aliases, other)
      ensures AliasNameAlreadyExists(r, other)
    {
      var k :| 0 <= k < |aliases| && aliases[k].name == other;
      assert r[if k < i then k else k - 1].name == other;
    }
  }

  /** Removal only drops entries. */
  lemma RemoveSubset(aliases: seq<AliasEntry>, name: string)
    ensures forall k | 0 <= k < |RemoveAliasByName(aliases, name)| ::
      RemoveAliasByName(aliases, name)[k] in aliases
  {
    match FindAlias(aliases, name) {
      case None =>
      case Some(i) =>
        var r := aliases[..i] + aliases[i + 1..];
        forall k | 0 <= k < |r|
          ensures r[k] in aliases
        {
          assert r[k] == aliases[if k < i then k else k + 1];
        }
    }
  }

  /** Removal keeps the table well formed. */
  lemma RemoveKeepsOk(aliases: seq<AliasEntry>, name: string)
    requires AliasesOk(aliases)
    ensures AliasesOk(RemoveAliasByName(aliases, name))
  {
    RemoveUnique(aliases, name);
    RemoveSubset(aliases, name);
  }

  // ---------------------------------------------------------------------
  // The alias-definition pattern ^alias [a-zA-Z0-9_]+='[^']*'$
  // ---------------------------------------------------------------------

  const ALIAS_PREFIX: string := "alias "

  predicate NameChar(c: char)
  {
    ('a' <= c <= 'z') || ('A' <= c <= 'Z') || ('0' <= c <= '9') || c == '_'
  }

  /** [a-zA-Z0-9_]+ */
  predicate IsAliasName(name: string)
  {
    name != [] && forall i | 0 <= i < |name| :: NameChar(name[i])
  }

  /** [^']* */
  predicate IsAliasBody(cmd: string)
  {
    forall i | 0 <= i < |cmd| :: cmd[i] != '\''
  }

  /** The line `alias <name>='<cmd>'`. */
  function AliasDefinition(name: string, cmd: string): string
  {
    ALIAS_PREFIX + name + "='" + cmd + "'"
  }

  /**
   * The pattern, read left to right: the prefix, then name characters up to
   * the first `=` (name characters exclude `=`), then a quote, a body without
   * quotes and a closing quote that ends the line.
   */
  predicate IsAliasDefinition(s: string)
  {
    && |s| > |ALIAS_PREFIX| && s[..|ALIAS_PREFIX|] == ALIAS_PREFIX
    && match FindFirst(s[|ALIAS_PREFIX|..], "=")
       case None => false
       case Some(k) =>
         var t := s[|ALIAS_PREFIX|..];
         && IsAliasName(t[..k]) && k + 3 <= |t|
         && t[k + 1] == '\'' && t[|t| - 1] == '\''
         && IsAliasBody(t[k + 2..|t| - 1])
  }

  /** find_first_of(cs) at a position that has the defining properties. */
  lemma FindFirstAt(s: string, cs: string, j: nat)
    requires j < |s| && s[j] in cs && forall i | 0 <= i < j :: s[i] !in cs
    ensures FindFirst(s, cs) == Some(j)
  {
  }

  /** find_first_of with a single character. */
  lemma FindFirstCharAt(s: string, c: char, j: nat)
    requires j < |s| && s[j] == c && forall i | 0 <= i < j :: s[i] != c
    ensures FindFirst(s, [c]) == Some(j)
  {
    FindFirstAt(s, [c], j);
  }

  /** find_last_of(cs) at a position that has the defining properties. */
  lemma FindLastAt(s: string, cs: string, j: nat)
    requires j < |s| && s[j] in cs && forall i | j < i < |s| :: s[i] !in cs
    ensures FindLast(s, cs) == Some(j)
  {
  }

  /**
   * Where the source's searches land on a matching line of name length n:
   * the first blank is the one after "alias", the first `=` and the first
   * quote follow the name, and the last quote ends the line.
   */
  lemma DefinitionIndices(s: string, n: nat)
    requires |s| >= 10 + n - 1 && s[..6] == ALIAS_PREFIX
    requires IsAliasName(s[6..6 + n]) && s[6 + n] == '=' && s[7 + n] == '\''
    requires IsAliasBody(s[8 + n..|s| - 1]) && s[|s| - 1] == '\''
    ensures FindFirst(s, WHITESPACE) == Some(5)
    ensures FindFirst(s, "=") == Some(6 + n)
    ensures FindFirst(s, "'") == Some(7 + n)
    ensures FindLast(s, "'") == Some(|s| - 1)
  {
    FirstBlankAfterPrefix(s);
    NameThenQuote(s, n);
    LastQuoteEnds(s, n);
  }

  lemma FirstBlankAfterPrefix(s: string)
    requires |s| >= 6 && s[..6] == ALIAS_PREFIX
    ensures FindFirst(s, WHITESPACE) == Some(5)
  {
    PrefixBlank(s);
    FindFirstBlankAt(s, 5);
  }

  lemma PrefixBlank(s: string)
    requires |s| >= 6 && s[..6] == ALIAS_PREFIX
    ensures IsWs(s[5]) && forall i | 0 <= i < 5 :: !IsWs(s[i])
  {
    assert forall i | 0 <= i < 6 :: s[i] == s[..6][i];
  }

  /** find_first_of(WHITESPACE) at a position that has the defining properties. */
  lemma FindFirstBlankAt(s: string, j: nat)
    requires j < |s| && IsWs(s[j]) && forall i | 0 <= i < j :: !IsWs(s[i])
    ensures FindFirst(s, WHITESPACE) == Some(j)
  {
    forall i | 0 <= i < j
      ensures s[i] !in WHITESPACE
    {
      WhitespaceIsWs(s[i]);
    }
    WhitespaceIsWs(s[j]);
    FindFirstAt(s, WHITESPACE, j);
  }

  lemma NameThenQuote(s: string, n: nat)
    requires |s| >= 8 + n && IsAliasName(s[6..6 + n]) && s[6 + n] == '=' && s[7 + n] == '\''
    requires s[..6] == ALIAS_PREFIX
    ensures FindFirst(s, "=") == Some(6 + n)
    ensures FindFirst(s, "'") == Some(7 + n)
  {
    NoDelimiterBeforeEquals(s, n);
    FindFirstCharAt(s, '=', 6 + n);
    FindFirstCharAt(s, '\'', 7 + n);
  }

  lemma NoDelimiterBeforeEquals(s: string, n: nat)
    requires |s| >= 8 + n && IsAliasName(s[6..6 + n]) && s[6 + n] == '='
    requires s[..6] == ALIAS_PREFIX
    ensures forall i | 0 <= i < 6 + n :: s[i] != '='
    ensures forall i | 0 <= i < 7 + n :: s[i] != '\''
  {
    PrefixHasNoDelimiter(s);
    NameHasNoDelimiter(s[6..6 + n]);
    forall i | 6 <= i < 6 + n
      ensures s[i] != '=' && s[i] != '\''
    {
      assert s[i] == s[6..6 + n][i - 6];
    }
  }

  lemma PrefixHasNoDelimiter(s: string)
    requires |s| >= 6 && s[..6] == ALIAS_PREFIX
    ensures forall i | 0 <= i < 6 :: s[i] != '=' && s[i] != '\''
  {
    assert forall i | 0 <= i < 6 :: s[i] == s[..6][i];
  }

  lemma NameHasNoDelimiter(name: string)
    requires IsAliasName(name)
    ensures forall i | 0 <= i < |name| :: name[i] != '=' && name[i] != '\''
  {
  }

  lemma LastQuoteEnds(s: string, n: nat)
    requires |s| >= 9 + n && IsAliasBody(s[8 + n..|s| - 1]) && s[|s| - 1] == '\''
    ensures FindLast(s, "'") == Some(|s| - 1)
  {
    FindLastAt(s, "'", |s| - 1);
  }

  /** A matching line has the shape of AliasDefinition, with the name before the first `=`. */
  lemma DefinitionShape(s: string) returns (n: nat)
    requires IsAliasDefinition(s)
    ensures |s| >= 10 + n - 1 && s[..6] == ALIAS_PREFIX
    ensures IsAliasName(s[6..6 + n]) && s[6 + n] == '=' && s[7 + n] == '\''
    ensures IsAliasBody(s[8 + n..|s| - 1]) && s[|s| - 1] == '\''
  {
    var t := s[6..];
    match FindFirst(t, "=") {
      case Some(k) =>
        n := k;
        SliceOfDrop(s, 6, 0, k);
        SliceOfDrop(s, 6, k + 2, |t| - 1);
        assert s[6 + n] == t[k];
    }
  }

  lemma SliceOfDrop(s: string, d: nat, a: nat, b: nat)
    requires d <= |s| && a <= b <= |s| - d
    ensures s[d..][a..b] == s[d + a..d + b]
  {
  }

  /**
   * The name the alias command stores (Commands.cpp:948-951): the text
   * between the first blank and the first `=`.
   */
  function AliasNameOf(s: string): string
  {
    match FindFirst(s, WHITESPACE)
    case None => []
    case Some(a) =>
      match FindFirst(s, "=")
      case None => []
      case Some(b) => if a < b then s[a + 1..b] else []
  }

  /**
   * The command the alias command stores (Commands.cpp:958-961): the text
   * between the first and the last quote.
   */
  function AliasCmdOf(s: string): string
  {
    match FindFirst(s, "'")
    case None => []
    case Some(a) =>
      match FindLast(s, "'")
      case None => []
      case Some(b) => if a < b then s[a + 1..b] else []
  }

  /** Every well-formed name and quote-free command make a matching line. */
  lemma DefinitionMatches(name: string, cmd: string)
    requires IsAliasName(name) && IsAliasBody(cmd)
    ensures IsAliasDefinition(AliasDefinition(name, cmd))
  {
    var s := AliasDefinition(name, cmd);
    var t := s[6..];
    assert t == name + "='" + cmd + "'";
    forall i | 0 <= i < |name|
      ensures t[i] !in "="
    {
      assert t[i] == name[i];
    }
    FindFirstAt(t, "=", |name|);
    assert t[..|name|] == name;
    assert t[|name| + 2..|t| - 1] == cmd;
  }

  /** The source's extraction reads back the name and the command of a definition. */
  lemma DefinitionRoundTrip(name: string, cmd: string)
    requires IsAliasName(name) && IsAliasBody(cmd)
    ensures AliasNameOf(AliasDefinition(name, cmd)) == name
    ensures AliasCmdOf(AliasDefinition(name, cmd)) == cmd
  {
    var s := AliasDefinition(name, cmd);
    var n := |name|;
    assert s[..6] == ALIAS_PREFIX;
    assert s[6..6 + n] == name;
    assert s[8 + n..|s| - 1] == cmd;
    NameOfShape(s, n);
    CmdOfShape(s, n);
  }

  /** Every matching line is the definition of the name and command the source extracts from it. */
  lemma DefinitionParses(s: string)
    requires IsAliasDefinition(s)
    ensures IsAliasName(AliasNameOf(s)) && IsAliasBody(AliasCmdOf(s))
    ensures s == AliasDefinition(AliasNameOf(s), AliasCmdOf(s))
  {
    var n := DefinitionShape(s);
    NameOfShape(s, n);
    CmdOfShape(s, n);
    AssembleDefinition(s, n);
  }

  /** On a matching line of name length n, the stored name is the n characters after "alias ". */
  lemma NameOfShape(s: string, n: nat)
    requires |s| >= 10 + n - 1 && s[..6] == ALIAS_PREFIX
    requires IsAliasName(s[6..6 + n]) && s[6 + n] == '=' && s[7 + n] == '\''
    ensures AliasNameOf(s) == s[6..6 + n]
  {
    FirstBlankAfterPrefix(s);
    NameThenQuote(s, n);
    NameAt(s, 5, 6 + n);
  }

  /** On a matching line of name length n, the stored command is the text between the quotes. */
  lemma CmdOfShape(s: string, n: nat)
    requires |s| >= 10 + n - 1 && s[..6] == ALIAS_PREFIX
    requires IsAliasName(s[6..6 + n]) && s[6 + n] == '=' && s[7 + n] == '\''
    requires IsAliasBody(s[8 + n..|s| - 1]) && s[|s| - 1] == '\''
    ensures AliasCmdOf(s) == s[8 + n..|s| - 1]
  {
    NameThenQuote(s, n);
    LastQuoteEnds(s, n);
    CmdAt(s, 7 + n, |s| - 1);
  }

  lemma NameAt(s: string, a: nat, b: nat)
    requires a < b <= |s| && FindFirst(s, WHITESPACE) == Some(a) && FindFirst(s, "=") == Some(b)
    ensures AliasNameOf(s) == s[a + 1..b]
  {
  }

  lemma CmdAt(s: string, a: nat, b: nat)
    requires a < b <= |s| && FindFirst(s, "'") == Some(a) && FindLast(s, "'") == Some(b)
    ensures AliasCmdOf(s) == s[a + 1..b]
  {
  }

  /** A line of the matching shape is the definition of its parts. */
  lemma AssembleDefinition(s: string, n: nat)
    requires |s| >= 9 + n && s[..6] == ALIAS_PREFIX
    requires s[6 + n] == '=' && s[7 + n] == '\'' && s[|s| - 1] == '\''
    ensures s == AliasDefinition(s[6..6 + n], s[8 + n..|s| - 1])
  {
    assert s[6 + n..8 + n] == "='";
    assert s == s[..6] + s[6..6 + n] + s[6 + n..8 + n] + s[8 + n..|s| - 1] + [s[|s| - 1]];
  }

  // ---------------------------------------------------------------------
  // The alias and unalias commands
  // ---------------------------------------------------------------------

  /**
   * The line a built-in command keeps (BuiltInCommand's constructor,
   * Commands.cpp:121-128): a background sign is removed before the
   * arguments are parsed.
   */
  function BuiltInLine(line: string): (r: string)
    ensures IsBackground(line) ==> r != line
    ensures !IsBackground(line) ==> r == line
  {
    RemoveBackgroundChanges(line);
    if IsBackground(line) then RemoveBackgroundSign(line) else line
  }

  datatype AliasOutcome =
    | Listed                  // `alias` alone prints the table
    | InvalidFormat           // the line does not match the pattern
    | Reserved(name: string)  // the name exists already or is a built-in
    | Added(name: string)

  /** aliasCommand::execute (Commands.cpp:930-964). */
  function AliasCommand(aliases: seq<AliasEntry>, line: string): (r: (seq<AliasEntry>, AliasOutcome))
    ensures !r.1.Added? ==> r.0 == aliases
    ensures r.1.Added? ==>
      && IsAliasName(r.1.name) && !IsItBuiltIn(r.1.name)
      && !AliasNameAlreadyExists(aliases, r.1.name)
      && |r.0| == |aliases| + 1 && r.0[..|aliases|] == aliases
      && r.0[|aliases|].name == r.1.name && IsAliasBody(r.0[|aliases|].cmdLine)
  {
    var cmd := BuiltInLine(line);
    if |Words(cmd)| == 1 then (aliases, Listed)
    else AliasDefine(aliases, Trim(cmd))
  }

  /** The part of the alias command after the argument count: match the pattern, check the name, add. */
  function AliasDefine(aliases: seq<AliasEntry>, tmp: string): (r: (seq<AliasEntry>, AliasOutcome))
    ensures !r.1.Added? ==> r.0 == aliases
    ensures r.1.Added? ==>
      && IsAliasName(r.1.name) && !IsItBuiltIn(r.1.name)
      && !AliasNameAlreadyExists(aliases, r.1.name)
      && |r.0| == |aliases| + 1 && r.0[..|aliases|] == aliases
      && r.0[|aliases|].name == r.1.name && IsAliasBody(r.0[|aliases|].cmdLine)
  {
    if !IsAliasDefinition(tmp) then (aliases, InvalidFormat)
    else
      var name := AliasNameOf(tmp);
      if AliasNameAlreadyExists(aliases, name) || IsItBuiltIn(name) then (aliases, Reserved(name))
      else
        DefinitionParses(tmp);
        var r := AddAlias(aliases, AliasCmdOf(tmp), name);
        assert r[..|aliases|] == aliases;
        (r, Added(name))
  }

  /** The alias command keeps the table well formed. */
  lemma AliasCommandKeepsOk(aliases: seq<AliasEntry>, line: string)
    requires AliasesOk(aliases)
    ensures AliasesOk(AliasCommand(aliases, line).0)
  {
    var r := AliasCommand(aliases, line);
    if r.1.Added? {
      ExtendedKeepsOk(aliases, r.0);
    }
  }

  /** A table that is a well-formed one plus an entry with a fresh, well-formed, unreserved name is well formed. */
  lemma ExtendedKeepsOk(aliases: seq<AliasEntry>, r: seq<AliasEntry>)
    requires AliasesOk(aliases) && |r| == |aliases| + 1 && r[..|aliases|] == aliases
    requires IsAliasName(r[|aliases|].name) && !IsItBuiltIn(r[|aliases|].name)
    requires !AliasNameAlreadyExists(aliases, r[|aliases|].name)
    ensures AliasesOk(r)
  {
    var e := r[|aliases|];
    assert r == aliases + [e];
    AddKeepsOk(aliases, e);
  }

  /** Appending an entry whose name is well formed, fresh and not reserved keeps the table well formed. */
  lemma AddKeepsOk(aliases: seq<AliasEntry>, e: AliasEntry)
    requires AliasesOk(aliases) && IsAliasName(e.name) && !IsItBuiltIn(e.name)
    requires !AliasNameAlreadyExists(aliases, e.name)
    ensures AliasesOk(aliases + [e])
  {
    var r := aliases + [e];
    assert forall i | 0 <= i < |aliases| :: r[i] == aliases[i];
  }

  /** The words of a definition line: "alias" and at least one more. */
  lemma DefinitionWords(name: string, cmd: string)
    requires IsAliasName(name)
    ensures |Words(AliasDefinition(name, cmd))| >= 2
  {
    var rest := name + "='" + cmd + "'";
    assert AliasDefinition(name, cmd) == "alias" + [' '] + rest;
    assert rest[0] == name[0];
    TwoWords("alias", rest);
  }

  lemma TwoWords(w: string, rest: string)
    requires w != [] && NoWs(w) && rest != [] && !IsWs(rest[0])
    ensures |Words(w + [' '] + rest)| >= 2
  {
    WordsCons(w, ' ', rest);
  }

  /**
   * Defining a fresh alias adds exactly that entry; a name that is taken or
   * reserved is refused and the table stays as it was.
   */
  lemma AliasDefineRoundTrip(aliases: seq<AliasEntry>, name: string, cmd: string)
    requires IsAliasName(name) && IsAliasBody(cmd)
    ensures var r := AliasCommand(aliases, AliasDefinition(name, cmd));
      if AliasNameAlreadyExists(aliases, name) || IsItBuiltIn(name)
      then r == (aliases, Reserved(name))
      else r == (aliases + [AliasEntry(cmd, name)], Added(name))
  {
    var s := AliasDefinition(name, cmd);
    DefinitionLineShape(name, cmd);
    DefinitionWords(name, cmd);
    DefinitionMatches(name, cmd);
    DefinitionRoundTrip(name, cmd);
    AliasCommandOnDefinition(aliases, s);
  }

  /** A definition line has nothing to trim and no background sign. */
  lemma DefinitionLineShape(name: string, cmd: string)
    ensures Trimmed(AliasDefinition(name, cmd)) && !IsBackground(AliasDefinition(name, cmd))
  {
    var s := AliasDefinition(name, cmd);
    assert s[|s| - 1] == '\'';
    assert s[0] == 'a';
    LastNotWsAt(s, |s| - 1);
  }

  /** On a matching line with nothing to trim, the alias command only checks the name. */
  lemma AliasCommandOnDefinition(aliases: seq<AliasEntry>, s: string)
    requires Trimmed(s) && !IsBackground(s) && |Words(s)| >= 2 && IsAliasDefinition(s)
    ensures var name := AliasNameOf(s);
      AliasCommand(aliases, s) ==
        if AliasNameAlreadyExists(aliases, name) || IsItBuiltIn(name)
        then (aliases, Reserved(name))
        else (aliases + [AliasEntry(AliasCmdOf(s), name)], Added(name))
  {
    assert AliasCommand(aliases, s) == AliasDefine(aliases, s) by {
      assert BuiltInLine(s) == s;
      TrimFixed(s);
    }
  }

  /** Removing each name in turn: the reference for what a successful unalias does. */
  function RemoveAll(aliases: seq<AliasEntry>, names: seq<string>): seq<AliasEntry>
    decreases |names|
  {
    if names == [] then aliases
    else RemoveAll(RemoveAliasByName(aliases, names[0]), names[1..])
  }

  /**
   * The loop of unaliasCommand::execute (Commands.cpp:977-989): remove the
   * names one by one and stop at the first that is not in the table; the
   * removals before it stay done. The second component is that name.
   */
  function UnaliasNames(aliases: seq<AliasEntry>, names: seq<string>): (r: (seq<AliasEntry>, Option<string>))
    ensures r.1.None? ==> r.0 == RemoveAll(aliases, names)
    ensures r.1.Some? ==> r.1.value in names && !AliasNameAlreadyExists(r.0, r.1.value)
    decreases |names|
  {
    if names == [] then (aliases, None)
    else if !AliasNameAlreadyExists(aliases, names[0]) then (aliases, Some(names[0]))
    else
      var r := UnaliasNames(RemoveAliasByName(aliases, names[0]), names[1..]);
      assert r.1.Some? ==> r.1.value in names;
      r
  }

  /** When unalias stops at a name, the names before it have all been removed. */
  lemma {:induction false} UnaliasNamesStop(aliases: seq<AliasEntry>, names: seq<string>)
    ensures var r := UnaliasNames(aliases, names);
      r.1.Some? ==> exists k | 0 <= k < |names| ::
        && names[k] == r.1.value
        && r.0 == RemoveAll(aliases, names[..k])
        && !AliasNameAlreadyExists(r.0, names[k])
    decreases |names|
  {
    if names != [] {
      if !AliasNameAlreadyExists(aliases, names[0]) {
        assert names[..0] == [];
      } else {
        var next := RemoveAliasByName(aliases, names[0]);
        var r := UnaliasNames(next, names[1..]);
        UnaliasNamesStop(next, names[1..]);
        if r.1.Some? {
          var k :| 0 <= k < |names[1..]| && names[1..][k] == r.1.value
            && r.0 == RemoveAll(next, names[1..][..k])
            && !AliasNameAlreadyExists(r.0, names[1..][k]);
          RemoveAllPrefixStep(aliases, names, k);
          assert names[k + 1] == names[1..][k];
        }
      }
    }
  }

  /** Removing a prefix of the names is removing the first and then the rest of the prefix. */
  lemma RemoveAllPrefixStep(aliases: seq<AliasEntry>, names: seq<string>, k: nat)
    requires k < |names| - 1
    ensures RemoveAll(aliases, names[..k + 1]) == RemoveAll(RemoveAliasByName(aliases, names[0]), names[1..][..k])
  {
    assert names[..k + 1][0] == names[0];
    assert names[..k + 1][1..] == names[1..][..k];
  }

  /** On a table with unique names, a successful unalias leaves none of the names, and every other name as it was. */
  lemma {:induction false} RemoveAllUnique(aliases: seq<AliasEntry>, names: seq<string>)
    requires NamesUnique(aliases)
    ensures var r := RemoveAll(aliases, names);
      && NamesUnique(r)
      && (forall k | 0 <= k < |names| :: !AliasNameAlreadyExists(r, names[k]))
      && forall other | other !in names ::
        AliasNameAlreadyExists(r, other) == AliasNameAlreadyExists(aliases, other)
    decreases |names|
  {
    if names != [] {
      var next := RemoveAliasByName(aliases, names[0]);
      RemoveUnique(aliases, names[0]);
      RemoveAllUnique(next, names[1..]);
      RemoveAllKeepsAbsent(next, names[1..], names[0]);
      forall other | other !in names
        ensures other !in names[1..] && other != names[0]
      {
        assert forall k | 0 <= k < |names[1..]| :: names[1..][k] == names[k + 1];
      }
      assert forall k | 1 <= k < |names| :: names[k] == names[1..][k - 1];
    }
  }

  /** Removals never bring a name back. */
  lemma {:induction false} RemoveAllKeepsAbsent(aliases: seq<AliasEntry>, names: seq<string>, name: string)
    requires !AliasNameAlreadyExists(aliases, name)
    ensures !AliasNameAlreadyExists(RemoveAll(aliases, names), name)
    decreases |names|
  {
    if names != [] {
      var next := RemoveAliasByName(aliases, names[0]);
      RemoveSubset(aliases, names[0]);
      RemoveAllKeepsAbsent(next, names[1..], name);
    }
  }

  datatype UnaliasOutcome =
    | NotEnoughArguments      // `unalias` alone
    | Done                    // every name was removed
    | Missing(name: string)   // stopped at a name that is not in the table

  /** unaliasCommand::execute (Commands.cpp:969-991). */
  function UnaliasCommand(aliases: seq<AliasEntry>, line: string): (r: (seq<AliasEntry>, UnaliasOutcome))
    ensures r.1.NotEnoughArguments? ==> r.0 == aliases
    ensures r.1.Done? ==> r.0 == RemoveAll(aliases, if Words(BuiltInLine(line)) == [] then [] else Words(BuiltInLine(line))[1..])
    ensures r.1.Missing? ==> r.1.name in Words(BuiltInLine(line)) && !AliasNameAlreadyExists(r.0, r.1.name)
  {
    var args := Words(BuiltInLine(line));
    if |args| == 1 then (aliases, NotEnoughArguments)
    else if args == [] then (aliases, Done)
    else
      var u := UnaliasNames(aliases, args[1..]);
      match u.1
      case None => (u.0, Done)
      case Some(m) => (u.0, Missing(m))
  }

  /** unalias keeps the table well formed. */
  lemma {:induction false} RemoveAllKeepsOk(aliases: seq<AliasEntry>, names: seq<string>)
    requires AliasesOk(aliases)
    ensures AliasesOk(RemoveAll(aliases, names))
    decreases |names|
  {
    if names != [] {
      RemoveKeepsOk(aliases, names[0]);
      RemoveAllKeepsOk(RemoveAliasByName(aliases, names[0]), names[1..]);
    }
  }
}
