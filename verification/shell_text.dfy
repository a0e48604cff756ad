/**
 * The text helpers at the top of smash/Commands.cpp: whitespace trimming,
 * splitting a line into words, detecting and removing the trailing `&` of a
 * background command, and the two small classifiers isComplex and isItBuiltIn.
 *
 * std::string positions are modelled as Option<nat>, with None standing for
 * std::string::npos; where the source's arithmetic on npos matters (the
 * as-written members at the end) npos is the size_t value 2^64 - 1.
 */
module ShellText {
  import opened Wrappers

  /** The characters the shell treats as blanks (Commands.cpp:23). */
  const WHITESPACE: string := " \n\r\t\U{000C}\U{000B}"

  /** Membership in WHITESPACE, spelled out. */
  predicate IsWs(c: char)
  {
    c == ' ' || c == '\n' || c == '\r' || c == '\t' || c == '\U{000C}' || c == '\U{000B}'
  }

  lemma WhitespaceIsWs(c: char)
    ensures c in WHITESPACE <==> IsWs(c)
  {
    assert c in WHITESPACE <==> exists i | 0 <= i < 6 :: WHITESPACE[i] == c;
  }

  predicate AllWs(s: string)
  {
    forall i | 0 <= i < |s| :: IsWs(s[i])
  }

  predicate NoWs(s: string)
  {
    forall i | 0 <= i < |s| :: !IsWs(s[i])
  }

  /** A string with nothing to trim at either end. */
  predicate Trimmed(s: string)
  {
    s == [] || (!IsWs(s[0]) && !IsWs(s[|s| - 1]))
  }

  /** find_first_not_of(WHITESPACE). */
  function FirstNotWs(s: string): (r: Option<nat>)
    ensures r.None? <==> AllWs(s)
    ensures r.Some? ==>
      && r.value < |s| && !IsWs(s[r.value])
      && forall i | 0 <= i < r.value :: IsWs(s[i])
  {
    if s == [] then None
    else if !IsWs(s[0]) then Some(0)
    else match FirstNotWs(s[1..])
      case None =>
        assert forall i | 1 <= i < |s| :: s[i] == s[1..][i - 1];
        None
      case Some(k) =>
        assert forall i | 1 <= i < k + 1 :: s[i] == s[1..][i - 1];
        Some(k + 1)
  }

  /** find_last_not_of(WHITESPACE). */
  function LastNotWs(s: string): (r: Option<nat>)
    ensures r.None? <==> AllWs(s)
    ensures r.Some? ==>
      && r.value < |s| && !IsWs(s[r.value])
      && forall i | r.value < i < |s| :: IsWs(s[i])
  {
    if s == [] then None
    else if !IsWs(s[|s| - 1]) then Some(|s| - 1)
    else
      var r := LastNotWs(s[..|s| - 1]);
      assert forall i | 0 <= i < |s| - 1 :: s[i] == s[..|s| - 1][i];
      r
  }

  /** The first visible character is determined by its defining properties. */
  lemma FirstNotWsAt(s: string, j: nat)
    requires j < |s| && !IsWs(s[j]) && forall i | 0 <= i < j :: IsWs(s[i])
    ensures FirstNotWs(s) == Some(j)
  {
  }

  /** The last visible character is determined by its defining properties. */
  lemma LastNotWsAt(s: string, j: nat)
    requires j < |s| && !IsWs(s[j]) && forall i | j < i < |s| :: IsWs(s[i])
    ensures LastNotWs(s) == Some(j)
  {
  }

  /** find_first_of(cs): the first position holding one of the characters cs. */
  function FindFirst(s: string, cs: string): (r: Option<nat>)
    ensures r.None? <==> (forall i | 0 <= i < |s| :: s[i] !in cs)
    ensures r.Some? ==>
      && r.value < |s| && s[r.value] in cs
      && forall i | 0 <= i < r.value :: s[i] !in cs
  {
    if s == [] then None
    else if s[0] in cs then Some(0)
    else match FindFirst(s[1..], cs)
      case None =>
        assert forall i | 1 <= i < |s| :: s[i] == s[1..][i - 1];
        None
      case Some(k) =>
        assert forall i | 1 <= i < k + 1 :: s[i] == s[1..][i - 1];
        Some(k + 1)
  }

  /** find_last_of(cs): the last position holding one of the characters cs. */
  function FindLast(s: string, cs: string): (r: Option<nat>)
    ensures r.None? <==> (forall i | 0 <= i < |s| :: s[i] !in cs)
    ensures r.Some? ==>
      && r.value < |s| && s[r.value] in cs
      && forall i | r.value < i < |s| :: s[i] !in cs
  {
    if s == [] then None
    else if s[|s| - 1] in cs then Some(|s| - 1)
    else
      var r := FindLast(s[..|s| - 1], cs);
      assert forall i | 0 <= i < |s| - 1 :: s[i] == s[..|s| - 1][i];
      r
  }

  /** _ltrim (Commands.cpp:36-39): drop the leading blanks. */
  function Ltrim(s: string): (r: string)
    ensures |r| <= |s| && r == s[|s| - |r|..]
    ensures forall i | 0 <= i < |s| - |r| :: IsWs(s[i])
    ensures r == [] || !IsWs(r[0])
  {
    match FirstNotWs(s)
    case None => []
    case Some(k) => s[k..]
  }

  /** _rtrim (Commands.cpp:41-44): drop the trailing blanks. */
  function Rtrim(s: string): (r: string)
    ensures |r| <= |s| && r == s[..|r|]
    ensures forall i | |r| <= i < |s| :: IsWs(s[i])
    ensures r == [] || !IsWs(r[|r| - 1])
  {
    match LastNotWs(s)
    case None => []
    case Some(k) => s[..k + 1]
  }

  /** _trim (Commands.cpp:46-48). */
  function Trim(s: string): (r: string)
    ensures Trimmed(r)
    ensures r == [] <==> AllWs(s)
    ensures |r| <= |s|
  {
    var l := Ltrim(s);
    var r := Rtrim(l);
    assert r != [] ==> !IsWs(r[0]) by {
      if r != [] {
        assert r[0] == l[0];
      }
    }
    r
  }

  lemma FirstBeforeLast(s: string, a: nat, b: nat)
    requires FirstNotWs(s) == Some(a) && LastNotWs(s) == Some(b)
    ensures a <= b
  {
  }

  lemma LtrimAt(s: string, a: nat)
    requires FirstNotWs(s) == Some(a)
    ensures Ltrim(s) == s[a..]
  {
  }

  /** Dropping the leading blanks moves the last visible character down by their number. */
  lemma RtrimOfSuffix(s: string, a: nat, b: nat)
    requires a <= b && LastNotWs(s) == Some(b)
    ensures Rtrim(s[a..]) == s[a..b + 1]
  {
    RtrimOfSuffixAt(s, a, b);
  }

  lemma RtrimOfSuffixAt(s: string, a: nat, b: nat)
    requires a <= b < |s| && !IsWs(s[b]) && forall i | b < i < |s| :: IsWs(s[i])
    ensures Rtrim(s[a..]) == s[a..b + 1]
  {
    var l := s[a..];
    forall i | b - a < i < |l|
      ensures IsWs(l[i])
    {
      assert l[i] == s[a + i];
    }
    LastNotWsAt(l, b - a);
    assert l[..b - a + 1] == s[a..b + 1];
  }

  /** The trimmed line runs from the first to the last visible character. */
  lemma TrimSpan(s: string, a: nat, b: nat)
    requires FirstNotWs(s) == Some(a) && LastNotWs(s) == Some(b)
    ensures a <= b && Trim(s) == s[a..b + 1]
  {
    LtrimSpan(s, a, b);
    TrimIsRtrimLtrim(s);
  }

  lemma TrimIsRtrimLtrim(s: string)
    ensures Trim(s) == Rtrim(Ltrim(s))
  {
  }

  /** Ltrim starts at the first visible character and keeps the last one visible. */
  lemma LtrimSpan(s: string, a: nat, b: nat)
    requires FirstNotWs(s) == Some(a) && LastNotWs(s) == Some(b)
    ensures a <= b && Ltrim(s) == s[a..] && Rtrim(Ltrim(s)) == s[a..b + 1]
  {
    FirstBeforeLast(s, a, b);
    LtrimAt(s, a);
    RtrimOfSuffix(s, a, b);
  }

  /** The trimmed line is the infix of s between a blank prefix and a blank suffix. */
  lemma TrimInfix(s: string) returns (i: nat, j: nat)
    ensures i <= j <= |s| && Trim(s) == s[i..j]
    ensures forall k | 0 <= k < i :: IsWs(s[k])
    ensures forall k | j <= k < |s| :: IsWs(s[k])
  {
    if AllWs(s) {
      i, j := 0, 0;
    } else {
      var a := FirstVisible(s);
      var b := LastVisible(s);
      TrimSpan(s, a, b);
      i, j := a, b + 1;
    }
  }

  /** A line with a visible character has a last one. */
  lemma LastVisible(s: string) returns (b: nat)
    requires !AllWs(s)
    ensures LastNotWs(s) == Some(b)
  {
    match LastNotWs(s) {
      case Some(k) => b := k;
    }
  }

  /** Trimming a string with nothing to trim gives it back. */
  lemma TrimFixed(s: string)
    requires Trimmed(s)
    ensures Trim(s) == s
  {
    if s != [] {
      FirstNotWsAt(s, 0);
      LastNotWsAt(s, |s| - 1);
      TrimSpan(s, 0, |s| - 1);
    }
  }

  /** _trim is idempotent. */
  lemma TrimIdempotent(s: string)
    ensures Trim(Trim(s)) == Trim(s)
  {
    TrimFixed(Trim(s));
  }

  /** A visible character is in the trimmed line exactly when it is in the line. */
  lemma TrimKeepsVisible(s: string, c: char)
    requires !IsWs(c)
    ensures c in Trim(s) <==> c in s
  {
    var i, j := TrimInfix(s);
    VisibleInInfix(s, i, j, c);
  }

  /** A visible character is in a line exactly when it is in the part between its blank ends. */
  lemma VisibleInInfix(s: string, i: nat, j: nat, c: char)
    requires i <= j <= |s| && !IsWs(c)
    requires forall k | 0 <= k < i :: IsWs(s[k])
    requires forall k | j <= k < |s| :: IsWs(s[k])
    ensures c in s[i..j] <==> c in s
  {
    if c in s {
      var k :| 0 <= k < |s| && s[k] == c;
      assert s[i..j][k - i] == c;
    }
  }

  /** The length of the leading run of non-blank characters. */
  function WordEnd(s: string): (r: nat)
    ensures r <= |s| && forall i | 0 <= i < r :: !IsWs(s[i])
    ensures r < |s| ==> IsWs(s[r])
  {
    if s == [] || IsWs(s[0]) then 0
    else
      var k := WordEnd(s[1..]);
      assert forall i | 1 <= i < k + 1 :: s[i] == s[1..][i - 1];
      k + 1
  }

  /**
   * The words of a line, as `iss >> s` reads them in _parseCommandLine
   * (Commands.cpp:50-63): maximal runs of non-blank characters.
   */
  function Words(s: string): (r: seq<string>)
    ensures r == [] <==> AllWs(s)
    decreases |s|
  {
    var t := Ltrim(s);
    if t == [] then []
    else
      var e := WordEnd(t);
      [t[..e]] + Words(t[e..])
  }

  /** The leading run of a string that starts with a non-blank is a word. */
  lemma FirstWordShape(t: string)
    requires t != [] && !IsWs(t[0])
    ensures 0 < WordEnd(t) && NoWs(t[..WordEnd(t)])
  {
    var e := WordEnd(t);
    assert forall i | 0 <= i < e :: t[..e][i] == t[i];
  }

  /** Every word is non-empty and free of blanks. */
  lemma {:induction false} WordsShape(s: string)
    ensures WellFormedWords(Words(s))
    decreases |s|
  {
    var t := Ltrim(s);
    if t != [] {
      var e := WordEnd(t);
      FirstWordShape(t);
      WordsShape(t[e..]);
      assert Words(s) == [t[..e]] + Words(t[e..]);
      ConsWords(t[..e], Words(t[e..]));
    }
  }

  /** Words that are each non-empty and free of blanks. */
  predicate WellFormedWords(ws: seq<string>)
  {
    forall k | 0 <= k < |ws| :: ws[k] != [] && NoWs(ws[k])
  }

  lemma ConsWords(w: string, rest: seq<string>)
    requires w != [] && NoWs(w) && WellFormedWords(rest)
    ensures WellFormedWords([w] + rest)
  {
    assert forall k | 1 <= k < |[w] + rest| :: ([w] + rest)[k] == rest[k - 1];
  }

  /** A string that starts with a non-blank is its own Ltrim. */
  lemma LtrimFixed(s: string)
    requires s != [] && !IsWs(s[0])
    ensures Ltrim(s) == s
  {
    FirstNotWsAt(s, 0);
  }

  /** A leading blank does not change Ltrim. */
  lemma LtrimSkip(c: char, t: string)
    requires IsWs(c)
    ensures Ltrim([c] + t) == Ltrim(t)
  {
    var s := [c] + t;
    assert s[1..] == t;
  }

  /** Words only looks at the string after its leading blanks. */
  lemma WordsOfLtrim(s: string)
    ensures Words(s) == Words(Ltrim(s))
  {
    var t := Ltrim(s);
    if t != [] {
      LtrimFixed(t);
    }
  }

  /** A line that opens with a word and a blank splits into that word and the words of the rest. */
  lemma WordsCons(w: string, c: char, rest: string)
    requires w != [] && NoWs(w) && IsWs(c)
    ensures Words(w + [c] + rest) == [w] + Words(rest)
  {
    var s := w + [c] + rest;
    LtrimFixed(s);
    assert forall i | 0 <= i < |w| :: s[i] == w[i];
    assert IsWs(s[|w|]);
    var e := WordEnd(s);
    assert e == |w|;
    assert s[..e] == w;
    assert s[e..] == [c] + rest;
    LtrimSkip(c, rest);
    WordsOfLtrim(s[e..]);
    WordsOfLtrim(rest);
  }

  /** A non-empty word without blanks is a single word. */
  lemma WordsSingle(w: string)
    requires w != [] && NoWs(w)
    ensures Words(w) == [w]
  {
    LtrimFixed(w);
    var e := WordEnd(w);
    assert e == |w|;
    assert w[..e] == w;
  }

  /** A word after one space is that single word. */
  lemma WordsBlankWord(w: string)
    requires w != [] && NoWs(w)
    ensures Words(" " + w) == [w]
  {
    assert " " + w == [' '] + w;
    LtrimSkip(' ', w);
    LtrimFixed(w);
    WordsOfLtrim(" " + w);
    WordsSingle(w);
  }

  /** Blanks in front of a string do not change Ltrim. */
  lemma LtrimBlankPrefix(a: string, b: string)
    requires AllWs(a)
    ensures Ltrim(a + b) == Ltrim(b)
  {
    var s := a + b;
    assert forall i | |a| <= i < |s| :: s[i] == b[i - |a|];
    match FirstNotWs(b) {
      case None =>
        assert AllWs(s);
      case Some(k) =>
        FirstNotWsAt(s, |a| + k);
        assert s[|a| + k..] == b[k..];
    }
  }

  /** Text appended after a visible character is kept by Ltrim. */
  lemma LtrimAppend(a: string, b: string)
    requires !AllWs(a)
    ensures Ltrim(a + b) == Ltrim(a) + b
  {
    match FirstNotWs(a) {
      case Some(k) =>
        var s := a + b;
        assert forall i | 0 <= i <= k :: s[i] == a[i];
        FirstNotWsAt(s, k);
        assert s[k..] == a[k..] + b;
    }
  }

  /** A word ends where it did when what follows starts with a blank. */
  lemma {:induction false} WordEndAppend(t: string, b: string)
    requires b == [] || IsWs(b[0])
    ensures WordEnd(t + b) == WordEnd(t)
  {
    if t != [] {
      var s := t + b;
      assert s[0] == t[0];
      if !IsWs(t[0]) {
        assert s[1..] == t[1..] + b;
        WordEndAppend(t[1..], b);
      }
    }
  }

  /** A line split before a blank has the words of the first part, then those of the second. */
  lemma {:induction false} WordsAppend(a: string, b: string)
    requires b == [] || IsWs(b[0])
    ensures Words(a + b) == Words(a) + Words(b)
    decreases |a|
  {
    if AllWs(a) {
      WordsBlankPrefix(a, b);
    } else {
      var t := Ltrim(a);
      var e := WordEnd(t);
      WordsUnfold(a, t, e);
      LtrimAppend(a, b);
      WordEndAppend(t, b);
      WordsUnfold(a + b, t + b, e);
      SlicesOfAppend(t, b, e);
      WordsAppend(t[e..], b);
      ConcatAssoc([t[..e]], Words(t[e..]), Words(b));
    }
  }

  /** Blanks in front of a line add no words. */
  lemma WordsBlankPrefix(a: string, b: string)
    requires AllWs(a)
    ensures Words(a) == [] && Words(a + b) == Words(b)
  {
    LtrimBlankPrefix(a, b);
    WordsOfLtrim(a + b);
    WordsOfLtrim(b);
  }

  lemma SlicesOfAppend(t: string, b: string, e: nat)
    requires e <= |t|
    ensures (t + b)[..e] == t[..e] && (t + b)[e..] == t[e..] + b
  {
  }

  lemma ConcatAssoc(p: seq<string>, q: seq<string>, r: seq<string>)
    ensures p + (q + r) == (p + q) + r
  {
  }

  /** One step of Words on a line with a visible character. */
  lemma WordsUnfold(s: string, t: string, e: nat)
    requires t == Ltrim(s) && t != [] && e == WordEnd(t)
    ensures e > 0 && Words(s) == [t[..e]] + Words(t[e..])
  {
  }

  /**
   * _isBackgroundComamnd (Commands.cpp:65-68), for a line that has a visible
   * character: whether the last one is `&`. A blank line is not a background
   * command (see BackgroundIndexAsWritten for what the source does there).
   */
  function IsBackground(s: string): (r: bool)
    ensures r <==> (Trim(s) != [] && Trim(s)[|Trim(s)| - 1] == '&')
  {
    match LastNotWs(s)
    case None => false
    case Some(i) =>
      LastVisibleEndsTrim(s, i);
      s[i] == '&'
  }

  /** The last visible character of a line is the last character of its trimmed form. */
  lemma LastVisibleEndsTrim(s: string, b: nat)
    requires LastNotWs(s) == Some(b)
    ensures var t := Trim(s); t != [] && t[|t| - 1] == s[b]
  {
    LastVisibleEndsTrimAt(s, b);
  }

  lemma LastVisibleEndsTrimAt(s: string, b: nat)
    requires b < |s| && !IsWs(s[b]) && forall k | b < k < |s| :: IsWs(s[k])
    ensures var t := Trim(s); t != [] && t[|t| - 1] == s[b]
  {
    var i, j := TrimInfix(s);
    var t := Trim(s);
    assert i < j ==> !IsWs(s[j - 1]) by {
      if i < j {
        assert t[|t| - 1] == s[j - 1];
      }
    }
    InfixLast(s, i, j, b);
  }

  /** The infix between blank ends ends at the last visible character when it ends in a visible one. */
  lemma InfixLast(s: string, i: nat, j: nat, b: nat)
    requires i <= j <= |s|
    requires forall k | 0 <= k < i :: IsWs(s[k])
    requires forall k | j <= k < |s| :: IsWs(s[k])
    requires i < j ==> !IsWs(s[j - 1])
    requires b < |s| && !IsWs(s[b]) && forall k | b < k < |s| :: IsWs(s[k])
    ensures i <= b && b + 1 == j && s[i..j][j - 1 - i] == s[b]
  {
  }

  /** A line with a visible character has a first one. */
  lemma FirstVisible(s: string) returns (a: nat)
    requires !AllWs(s)
    ensures FirstNotWs(s) == Some(a)
  {
    match FirstNotWs(s) {
      case Some(k) => a := k;
    }
  }

  lemma SliceLast(s: string, a: nat, b: nat)
    requires a <= b < |s|
    ensures var t := s[a..b + 1]; t != [] && t[|t| - 1] == s[b]
  {
  }

  /**
   * _removeBackgroundSign (Commands.cpp:70-86) with its blank-line guard
   * working: if the last visible character is `&`, it becomes a blank and the
   * C string ends right after it; otherwise the line is unchanged.
   */
  function RemoveBackgroundSign(s: string): (r: string)
    ensures r == s || (
      && 0 < |r| <= |s| && s[|r| - 1] == '&' && r == s[..|r| - 1] + [' ']
      && forall k | |r| <= k < |s| :: IsWs(s[k]))
  {
    match LastNotWs(s)
    case None => s
    case Some(i) => if s[i] != '&' then s else s[..i] + [' ']
  }

  /** The line changes exactly when it is a background command. */
  lemma RemoveBackgroundChanges(s: string)
    ensures RemoveBackgroundSign(s) != s <==> IsBackground(s)
  {
    match LastNotWs(s) {
      case None =>
      case Some(i) =>
        if s[i] == '&' {
          assert RemoveBackgroundSign(s)[i] == ' ';
        }
    }
  }

  /** After removal and a trim, a trimmed line keeps only a prefix of itself. */
  lemma RemoveBackgroundPrefix(s: string)
    requires Trimmed(s)
    ensures var t := Trim(RemoveBackgroundSign(s));
      |t| <= |s| && t == s[..|t|]
  {
    if s == [] {
    } else {
      LastNotWsAt(s, |s| - 1);
      var p := s[..|s| - 1];
      if s[|s| - 1] == '&' {
        assert RemoveBackgroundSign(s) == p + [' '];
        if p != [] {
          assert p[0] == s[0];
        }
        TrimDropsTrailingBlank(p);
      } else {
        assert RemoveBackgroundSign(s) == s;
        TrimFixed(s);
      }
    }
  }

  /** A blank appended to a string without leading blanks is trimmed away, with maybe more. */
  lemma TrimDropsTrailingBlank(p: string)
    requires p == [] || !IsWs(p[0])
    ensures var t := Trim(p + [' ']);
      |t| <= |p| && t == p[..|t|]
  {
    var r := p + [' '];
    if !AllWs(r) {
      assert r[0] == p[0];
      FirstNotWsAt(r, 0);
      match LastNotWs(r) {
        case Some(b) =>
          assert b < |p|;
          TrimSpan(r, 0, b);
          assert r[..b + 1] == p[..b + 1];
      }
    }
  }

  /** Removing the background sign keeps which visible characters other than `&` occur. */
  lemma RemoveBackgroundKeepsVisible(s: string, c: char)
    requires !IsWs(c) && c != '&'
    ensures c in RemoveBackgroundSign(s) <==> c in s
  {
    match LastNotWs(s) {
      case None =>
      case Some(i) =>
        if s[i] == '&' {
          RemoveKeepsVisibleAt(s, i, c);
        }
    }
  }

  lemma RemoveKeepsVisibleAt(s: string, i: nat, c: char)
    requires LastNotWs(s) == Some(i) && s[i] == '&'
    requires !IsWs(c) && c != '&'
    ensures c in RemoveBackgroundSign(s) <==> c in s
  {
    {
      var r := RemoveBackgroundSign(s);
      assert r == s[..i] + [' '];
      if c in s {
        var k :| 0 <= k < |s| && s[k] == c;
        assert r[k] == c;
      }
      if c in r {
        var k :| 0 <= k < |r| && r[k] == c;
        assert s[k] == c;
      }
    }
  }

  /**
   * isComplex (Commands.cpp:139-149): whether the line holds a wildcard
   * `*` or `?`, scanning left to right as the source does.
   */
  method IsComplex(s: string) returns (r: bool)
    ensures r <==> ('*' in s || '?' in s)
  {
    var k := 0;
    while k < |s|
      invariant 0 <= k <= |s|
      invariant forall i | 0 <= i < k :: s[i] != '*' && s[i] != '?'
    {
      if s[k] == '*' || s[k] == '?' {
        return true;
      }
      k := k + 1;
    }
    return false;
  }

  /** The names isItBuiltIn accepts (Commands.cpp:917-928). */
  const BUILT_IN_NAMES: set<string> := {
    "showpid", "chprompt", "pwd", "cd", "fg", "kill", "quit",
    "alias", "unalias", "getuser", "watch", "jobs", "listdir" }

  predicate IsItBuiltIn(name: string)
  {
    name in BUILT_IN_NAMES
  }

  /** Every built-in name is a non-empty run of lower-case letters. */
  lemma BuiltInNamesShape(name: string)
    requires IsItBuiltIn(name)
    ensures name != [] && forall i | 0 <= i < |name| :: 'a' <= name[i] <= 'z'
  {
  }

  // ---------------------------------------------------------------------
  // The source as written, where size_t and unsigned-int arithmetic on
  // npos matters.
  // ---------------------------------------------------------------------

  /** std::string::npos, the size_t value 2^64 - 1. */
  const NPOS: nat := 0xFFFF_FFFF_FFFF_FFFF
  /** Values of C's 32-bit unsigned int are taken modulo 2^32. */
  const UINT_MODULUS: nat := 0x1_0000_0000

  /** find_last_not_of(WHITESPACE) as the size_t value it returns. */
  function LastNotWsIndex(s: string): (r: nat)
    ensures r == NPOS <==> AllWs(s)
    ensures r != NPOS ==> r < |s|
    requires |s| < NPOS
  {
    match LastNotWs(s)
    case None => NPOS
    case Some(i) => i
  }

  /**
   * The character _isBackgroundComamnd compares with `&`, as the index it
   * reads: std::string's operator[] is defined up to position |s| (which holds
   * the terminating NUL) and undefined beyond. None is an undefined read.
   */
  function IsBackgroundAsWritten(s: string): (r: Option<bool>)
    requires |s| < NPOS
    ensures r.Some? <==> LastNotWsIndex(s) <= |s|
  {
    var i := LastNotWsIndex(s);
    if i < |s| then Some(s[i] == '&')
    else if i == |s| then Some(false)
    else None
  }

  /** On a line with a visible character the source's test is the modelled one. */
  lemma IsBackgroundAsWrittenAgrees(s: string)
    requires |s| < NPOS && !AllWs(s)
    ensures IsBackgroundAsWritten(s) == Some(IsBackground(s))
  {
  }

  /** On a blank line, the empty one included, _isBackgroundComamnd reads str[npos]. */
  lemma BackgroundIndexAsWritten(s: string)
    requires AllWs(s) && |s| < NPOS
    ensures LastNotWsIndex(s) == NPOS > |s|
    ensures IsBackgroundAsWritten(s).None?
  {
  }

  /**
   * _removeBackgroundSign with the position stored in a 32-bit unsigned int:
   * npos becomes 2^32 - 1, so the guard `idx == npos` compares it with the
   * 64-bit npos and never holds. None is a write or read past the C string.
   */
  function RemoveBackgroundSignAsWritten(s: string): (r: Option<string>)
    requires |s| < NPOS
  {
    var idx := LastNotWsIndex(s) % UINT_MODULUS;
    if idx == NPOS then Some(s)
    else if idx > |s| then None
    else if idx == |s| then Some(s)
    else if s[idx] != '&' then Some(s)
    else
      // the second search runs on the unmodified copy, up to position idx
      match LastNotWs(s[..idx + 1])
      case None => Some([])
      case Some(j) => Some((s[..idx] + [' '] + s[idx + 1..])[..j + 1])
  }

  /** The blank-line guard never fires: a blank line shorter than 2^32 - 1 is read past its end. */
  lemma RemoveGuardNeverFires(s: string)
    requires AllWs(s) && |s| < UINT_MODULUS - 1
    ensures RemoveBackgroundSignAsWritten(s).None?
  {
  }

  /** Away from the npos case, the source's removal is the modelled one. */
  lemma RemoveBackgroundAsWrittenAgrees(s: string)
    requires !AllWs(s) && |s| < UINT_MODULUS
    ensures RemoveBackgroundSignAsWritten(s) == Some(RemoveBackgroundSign(s))
  {
    var i := LastVisible(s);
    assert i % UINT_MODULUS == i;
    if s[i] == '&' {
      PrefixEndsVisible(s, i);
      SpliceCut(s, i);
    }
  }

  /** A prefix that ends in a visible character has it as its last visible one. */
  lemma PrefixEndsVisible(s: string, i: nat)
    requires i < |s| && !IsWs(s[i])
    ensures LastNotWs(s[..i + 1]) == Some(i)
  {
    LastNotWsAt(s[..i + 1], i);
  }

  lemma SpliceCut(s: string, i: nat)
    requires i < |s|
    ensures (s[..i] + [' '] + s[i + 1..])[..i + 1] == s[..i] + [' ']
  {
  }
}
