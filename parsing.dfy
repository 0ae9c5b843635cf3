/** The pure string rules that turn the daemon's reply text into results:
    scan-verdict classification with virus-name extraction, and the
    VERSIONCOMMANDS split. Text is ASCII; Java's whitespace classes are given
    for the ASCII range. */
module Parsing {
  import opened Results

  datatype ScanState = OK | FOUND | ERROR

  /** A scan verdict, the text it came from, and the virus name (null unless FOUND). */
  datatype ScanResult = ScanResult(state: ScanState, resultString: string, virus: Option<string>)

  /** The daemon's version text and the protocol commands it lists. */
  datatype VersionCommands = VersionCommands(version: string, commands: seq<string>)

  const FoundSuffix: string := " FOUND"
  const ErrorSuffix: string := " ERROR"
  const OkSuffix: string := " OK"
  const VirusSeparator: string := ": "
  const UnexpectedPrefix: string := "Unexpected scanning result: "
  const CommandsSeparator: string := "| COMMANDS:"

  predicate EndsWith(s: string, suffix: string)
  {
    |suffix| <= |s| && s[|s| - |suffix|..] == suffix
  }

  predicate OccursAt(s: string, t: string, i: int)
  {
    0 <= i && i + |t| <= |s| && s[i..i + |t|] == t
  }

  // ---------------------------------------------------------------------------
  // String.indexOf, String.lastIndexOf, String.trim

  /** String.indexOf for a non-empty pattern: the first occurrence, or -1. */
  function IndexOf(s: string, t: string): (i: int)
    ensures i == -1 || OccursAt(s, t, i)
    ensures forall j :: 0 <= j && (i == -1 || j < i) ==> !OccursAt(s, t, j)
  {
    IndexFrom(s, t, 0)
  }

  function IndexFrom(s: string, t: string, k: nat): (i: int)
    ensures i == -1 || (k <= i && OccursAt(s, t, i))
    ensures forall j :: k <= j && (i == -1 || j < i) ==> !OccursAt(s, t, j)
    decreases |s| - k
  {
    if k + |t| > |s| then -1
    else if s[k..k + |t|] == t then k
    else IndexFrom(s, t, k + 1)
  }

  /** String.lastIndexOf: the last occurrence, or -1. */
  function LastIndexOf(s: string, t: string): (i: int)
    ensures i == -1 || OccursAt(s, t, i)
    ensures forall j :: i < j ==> !OccursAt(s, t, j)
  {
    LastIndexFrom(s, t, |s| - |t|)
  }

  function LastIndexFrom(s: string, t: string, k: int): (i: int)
    requires k <= |s| - |t|
    ensures i == -1 || (i <= k && OccursAt(s, t, i))
    ensures forall j :: i < j <= k ==> !OccursAt(s, t, j)
    decreases k + 1
  {
    if k < 0 then -1
    else if s[k..k + |t|] == t then k
    else LastIndexFrom(s, t, k - 1)
  }

  lemma OccurrenceStartsWith(s: string, t: string, i: int)
    requires OccursAt(s, t, i) && t != []
    ensures s[i] == t[0]
  {
    assert s[i] == s[i..i + |t|][0];
  }

  /** `r` is s[i..j], and every character of `s` outside it is at most ' '. */
  predicate Middle(s: string, r: string, i: int, j: int)
  {
    0 <= i <= j <= |s| && r == s[i..j]
    && (forall k :: 0 <= k < i ==> s[k] <= ' ') && (forall k :: j <= k < |s| ==> s[k] <= ' ')
  }

  /** `r` is what String.trim leaves of `s`: a part of the text with only characters
      up to ' ' around it, which neither starts nor ends with such a character. */
  ghost predicate IsTrimOf(s: string, r: string)
  {
    (r == [] || (r[0] > ' ' && r[|r| - 1] > ' ')) && exists i, j :: Middle(s, r, i, j)
  }

  /** String.trim removes every character up to and including the space from both
      ends. */
  function Trim(s: string): (r: string)
    ensures IsTrimOf(s, r)
    ensures forall c :: c in r ==> c in s
  {
    TrimBetween(s);
    TrimEnd(TrimStart(s))
  }

  lemma TrimBetween(s: string)
    ensures exists i, j :: Middle(s, TrimEnd(TrimStart(s)), i, j)
  {
    var t := TrimStart(s);
    var r := TrimEnd(t);
    var i := |s| - |t|;
    var j := i + |r|;
    assert t == s[i..];
    assert r == s[i..j];
    forall k | j <= k < |s|
      ensures s[k] <= ' '
    {
      assert s[k] == t[k - i];
    }
    assert Middle(s, r, i, j);
  }

  function TrimStart(s: string): (r: string)
    ensures r == [] || r[0] > ' '
    ensures |r| <= |s| && r == s[|s| - |r|..]
    ensures forall k :: 0 <= k < |s| - |r| ==> s[k] <= ' '
  {
    if s != [] && s[0] <= ' ' then TrimStart(s[1..]) else s
  }

  function TrimEnd(s: string): (r: string)
    ensures s != [] && s[0] > ' ' ==> r != [] && r[0] == s[0]
    ensures r == [] || r[|r| - 1] > ' '
    ensures |r| <= |s| && r == s[..|r|]
    ensures forall k :: |r| <= k < |s| ==> s[k] <= ' '
  {
    if s != [] && s[|s| - 1] <= ' ' then TrimEnd(s[..|s| - 1]) else s
  }

  // ---------------------------------------------------------------------------
  // Scan verdicts

  /** The virus name of a FOUND reply "<context>: <name> FOUND": the trimmed text
      between the last ": " and the suffix, or the whole reply when there is none. */
  function VirusName(reply: string): (name: string)
    requires EndsWith(reply, FoundSuffix)
    ensures var c := LastIndexOf(reply, VirusSeparator);
      if 0 <= c && c + 2 < |reply| - 6 then IsTrimOf(reply[c + 2..|reply| - 6], name)
      else name == reply
  {
    var lastColon := LastIndexOf(reply, VirusSeparator);
    if lastColon >= 0 && lastColon + 2 < |reply| - 6 then Trim(reply[lastColon + 2..|reply| - 6])
    else reply
  }

  /** The three suffixes exclude one another, so the order in which they are tried
      does not matter. */
  lemma SuffixesExclusive(s: string)
    ensures !(EndsWith(s, FoundSuffix) && EndsWith(s, ErrorSuffix))
    ensures !(EndsWith(s, FoundSuffix) && EndsWith(s, OkSuffix))
    ensures !(EndsWith(s, ErrorSuffix) && EndsWith(s, OkSuffix))
  {
    if EndsWith(s, FoundSuffix) { assert s[|s| - 1] == FoundSuffix[5] == 'D'; }
    if EndsWith(s, ErrorSuffix) { assert s[|s| - 1] == ErrorSuffix[5] == 'R'; }
    if EndsWith(s, OkSuffix) { assert s[|s| - 1] == OkSuffix[2] == 'K'; }
  }

  /** Classification of an INSTREAM reply (the static parseResultLine the unit test calls). */
  function ParseResultLine(reply: string): (r: ScanResult)
    ensures r.state == FOUND <==> EndsWith(reply, FoundSuffix)
    ensures r.state == OK <==> EndsWith(reply, OkSuffix)
    ensures r.state == ERROR <==> !EndsWith(reply, FoundSuffix) && !EndsWith(reply, OkSuffix)
    ensures r.virus.Some? <==> r.state == FOUND
    ensures r.state == FOUND ==> r.virus == Some(VirusName(reply))
    ensures EndsWith(reply, FoundSuffix) || EndsWith(reply, ErrorSuffix) || EndsWith(reply, OkSuffix)
            ==> r.resultString == reply
    ensures !(EndsWith(reply, FoundSuffix) || EndsWith(reply, ErrorSuffix) || EndsWith(reply, OkSuffix))
            ==> r.resultString == UnexpectedPrefix + reply
  {
    SuffixesExclusive(reply);
    if EndsWith(reply, FoundSuffix) then ScanResult(FOUND, reply, Some(VirusName(reply)))
    else if EndsWith(reply, ErrorSuffix) then ScanResult(ERROR, reply, None)
    else if EndsWith(reply, OkSuffix) then ScanResult(OK, reply, None)
    else ScanResult(ERROR, UnexpectedPrefix + reply, None)
  }

  /** Round trip with the daemon's format: the name in "<context>: <name> FOUND" comes
      back exactly, for any context, when the name is trimmed and has no colon. */
  lemma VirusNameRecovered(context: string, name: string)
    requires name != [] && name[0] > ' ' && name[|name| - 1] > ' '
    requires forall i :: 0 <= i < |name| ==> name[i] != ':'
    ensures ParseResultLine(context + VirusSeparator + name + FoundSuffix)
         == ScanResult(FOUND, context + VirusSeparator + name + FoundSuffix, Some(name))
  {
    var reply := context + VirusSeparator + name + FoundSuffix;
    var c := |context|;
    assert EndsWith(reply, FoundSuffix);
    assert OccursAt(reply, VirusSeparator, c);
    forall j | c < j < |reply|
      ensures reply[j] != ':'
    {
      if j == c + 1 {
        assert reply[j] == ' ';
      } else if j < c + 2 + |name| {
        assert reply[j] == name[j - c - 2];
      } else {
        assert reply[j] == FoundSuffix[j - c - 2 - |name|];
      }
    }
    var i := LastIndexOf(reply, VirusSeparator);
    if i != -1 {
      OccurrenceStartsWith(reply, VirusSeparator, i);
    }
    assert i == c;
    assert reply[c + 2..|reply| - 6] == name;
  }

  /** A FOUND reply with no colon falls back to the whole reply as its virus name. */
  lemma VirusNameFallback(reply: string)
    requires EndsWith(reply, FoundSuffix)
    requires forall i :: 0 <= i < |reply| ==> reply[i] != ':'
    ensures ParseResultLine(reply).virus == Some(reply)
  {
    var i := LastIndexOf(reply, VirusSeparator);
    if i != -1 {
      OccurrenceStartsWith(reply, VirusSeparator, i);
    }
  }

  /** The unit test's clean reply. */
  lemma CleanReplyExample()
    ensures ParseResultLine("stream: OK") == ScanResult(OK, "stream: OK", None)
  {
    assert EndsWith("stream: OK", OkSuffix);
  }

  /** The unit test's EICAR reply. */
  lemma EicarReplyExample(reply: string)
    requires reply == "stream: Win.Test.EICAR_HDB-1 FOUND"
    ensures ParseResultLine(reply) == ScanResult(FOUND, reply, Some("Win.Test.EICAR_HDB-1"))
  {
    var context, name := "stream", "Win.Test.EICAR_HDB-1";
    EicarParts(reply, context, name);
    VirusNameRecovered(context, name);
  }

  lemma EicarParts(reply: string, context: string, name: string)
    requires reply == "stream: Win.Test.EICAR_HDB-1 FOUND"
    requires context == "stream" && name == "Win.Test.EICAR_HDB-1"
    ensures reply == context + VirusSeparator + name + FoundSuffix
    ensures name != [] && name[0] > ' ' && name[|name| - 1] > ' '
    ensures forall i :: 0 <= i < |name| ==> name[i] != ':'
  {
  }

  /** The unit test's error reply. */
  lemma ErrorReplyExample()
    ensures ParseResultLine("home/matthias/img1000: File path check failure: No such file or directory. ERROR").state == ERROR
    ensures ParseResultLine("home/matthias/img1000: File path check failure: No such file or directory. ERROR").virus == None
  {
    var e := "home/matthias/img1000: File path check failure: No such file or directory. ERROR";
    assert e[|e| - 6..] == ErrorSuffix;
  }

  // ---------------------------------------------------------------------------
  // VERSIONCOMMANDS

  /** The pieces between the occurrences of a non-empty separator, left to right,
      before String.split drops the trailing empty ones. */
  function SplitAll(s: string, sep: string): (parts: seq<string>)
    requires sep != []
    ensures parts != []
    decreases |s|
  {
    var i := IndexOf(s, sep);
    if i < 0 then [s] else [s[..i]] + SplitAll(s[i + |sep|..], sep)
  }

  function Join(parts: seq<string>, sep: string): string
    requires parts != []
  {
    if |parts| == 1 then parts[0] else parts[0] + sep + Join(parts[1..], sep)
  }

  /** Splitting and joining again with the separator gives back the text. */
  lemma {:induction false} JoinSplitAll(s: string, sep: string)
    requires sep != []
    ensures Join(SplitAll(s, sep), sep) == s
    decreases |s|
  {
    var i := IndexOf(s, sep);
    if i >= 0 {
      var rest := s[i + |sep|..];
      JoinSplitAll(rest, sep);
      assert SplitAll(s, sep)[1..] == SplitAll(rest, sep);
      assert s[i..i + |sep|] == sep;
      assert s == s[..i] + s[i..i + |sep|] + rest;
    }
  }

  function DropTrailingEmpty(parts: seq<string>): (r: seq<string>)
    ensures r <= parts
    ensures r == [] || r[|r| - 1] != []
    ensures forall i :: |r| <= i < |parts| ==> parts[i] == []
  {
    if parts == [] || parts[|parts| - 1] != [] then parts
    else DropTrailingEmpty(parts[..|parts| - 1])
  }

  /** String.split with a literal separator: the text itself when the separator does
      not occur, otherwise the pieces without the trailing empty ones. */
  function JavaSplit(s: string, sep: string): (parts: seq<string>)
    requires sep != []
    ensures IndexOf(s, sep) < 0 ==> parts == [s]
    ensures IndexOf(s, sep) >= 0 ==>
              parts <= SplitAll(s, sep) && (parts == [] || parts[|parts| - 1] != [])
              && forall i :: |parts| <= i < |SplitAll(s, sep)| ==> SplitAll(s, sep)[i] == []
  {
    if IndexOf(s, sep) < 0 then [s] else DropTrailingEmpty(SplitAll(s, sep))
  }

  /** The ASCII members of the regex class \s. */
  predicate IsRegexSpace(c: char)
  {
    c == ' ' || '\t' <= c <= '\r'
  }

  /** The ASCII characters Character.isWhitespace accepts (what String.isBlank tests). */
  predicate IsJavaWhitespace(c: char)
  {
    '\t' <= c <= '\r' || 0x1C <= c as int <= 0x20
  }

  predicate IsBlank(s: string)
  {
    forall i :: 0 <= i < |s| ==> IsJavaWhitespace(s[i])
  }

  /** The pieces between single \s characters, before trailing empty ones are dropped. */
  function SplitSpaces(s: string): (parts: seq<string>)
    ensures parts != []
    ensures forall i :: 0 <= i < |parts| ==> Spaceless(parts[i])
    ensures forall i, j :: 0 <= i < |parts| && 0 <= j < |parts[i]| ==> parts[i][j] in s
  {
    if s == [] then [[]]
    else
      var rest := SplitSpaces(s[1..]);
      if IsRegexSpace(s[0]) then [[]] + rest else [[s[0]] + rest[0]] + rest[1..]
  }

  /** split("\\s") as String.split does it. */
  function JavaSplitSpaces(s: string): (parts: seq<string>)
    ensures forall i :: 0 <= i < |parts| ==> Spaceless(parts[i])
    ensures Spaceless(s) ==> parts == [s]
    ensures !Spaceless(s) ==>
              parts <= SplitSpaces(s) && (parts == [] || parts[|parts| - 1] != [])
              && forall i :: |parts| <= i < |SplitSpaces(s)| ==> SplitSpaces(s)[i] == []
  {
    if Spaceless(s) then [s] else DropTrailingEmpty(SplitSpaces(s))
  }

  /** No character of the text is a \s separator. */
  predicate Spaceless(s: string)
  {
    forall i :: 0 <= i < |s| ==> !IsRegexSpace(s[i])
  }

  /** Neither end of the text is at or below ' ' (what trim leaves). */
  predicate Trimmed(s: string)
  {
    s == [] || (s[0] > ' ' && s[|s| - 1] > ' ')
  }

  lemma TrimSpaceless(s: string)
    requires Spaceless(s)
    ensures Spaceless(Trim(s))
  {
    var r := Trim(s);
    forall i | 0 <= i < |r|
      ensures !IsRegexSpace(r[i])
    {
      assert r[i] in r;
    }
  }

  predicate AllSpaceless(parts: seq<string>)
  {
    forall i :: 0 <= i < |parts| ==> Spaceless(parts[i])
  }

  predicate AllTrimmed(parts: seq<string>)
  {
    forall i :: 0 <= i < |parts| ==> Trimmed(parts[i])
  }

  /** filter(s -> !s.isBlank()).map(s -> s.trim()) */
  function TrimNonBlank(parts: seq<string>): (r: seq<string>)
    ensures |r| <= |parts|
  {
    if parts == [] then []
    else if IsBlank(parts[0]) then TrimNonBlank(parts[1..])
    else [Trim(parts[0])] + TrimNonBlank(parts[1..])
  }

  /** Every piece kept is trimmed at both ends. */
  lemma {:induction false} TrimNonBlankTrimmed(parts: seq<string>)
    ensures AllTrimmed(TrimNonBlank(parts))
  {
    if parts != [] {
      TrimNonBlankTrimmed(parts[1..]);
      if !IsBlank(parts[0]) {
        TrimmedCons(Trim(parts[0]), TrimNonBlank(parts[1..]));
      }
    }
  }

  lemma TrimmedCons(head: string, rest: seq<string>)
    requires Trimmed(head) && AllTrimmed(rest)
    ensures AllTrimmed([head] + rest)
  {
    assert forall i :: 0 < i < |rest| + 1 ==> ([head] + rest)[i] == rest[i - 1];
  }

  /** Trimming the non-blank pieces keeps them free of \s separators. */
  lemma {:induction false} TrimNonBlankSpaceless(parts: seq<string>)
    requires AllSpaceless(parts)
    ensures AllSpaceless(TrimNonBlank(parts))
  {
    if parts != [] {
      SpacelessTail(parts);
      TrimNonBlankSpaceless(parts[1..]);
      var rest := TrimNonBlank(parts[1..]);
      if !IsBlank(parts[0]) {
        TrimSpaceless(parts[0]);
        SpacelessCons(Trim(parts[0]), rest);
      }
    }
  }

  lemma SpacelessTail(parts: seq<string>)
    requires parts != [] && AllSpaceless(parts)
    ensures Spaceless(parts[0]) && AllSpaceless(parts[1..])
  {
    assert forall i :: 0 <= i < |parts| - 1 ==> parts[1..][i] == parts[i + 1];
  }

  lemma SpacelessCons(head: string, rest: seq<string>)
    requires Spaceless(head) && AllSpaceless(rest)
    ensures AllSpaceless([head] + rest)
  {
    assert forall i :: 0 < i < |rest| + 1 ==> ([head] + rest)[i] == rest[i - 1];
  }

  /** The command names in the text after the separator: every piece between
      whitespace characters that is not blank, trimmed. */
  function Commands(text: string): (cmds: seq<string>)
    ensures forall i :: 0 <= i < |cmds| ==> Spaceless(cmds[i]) && Trimmed(cmds[i])
  {
    var parts := JavaSplitSpaces(text);
    assert AllSpaceless(parts);
    TrimNonBlankSpaceless(parts);
    TrimNonBlankTrimmed(parts);
    TrimNonBlank(parts)
  }

  /** The reply to VERSIONCOMMANDS (the static parseVersionsCommands the unit test
      calls): the version before the first separator, and the command names after it.
      A reply made of separators alone leaves split with no pieces, and indexing the
      first one throws. */
  function ParseVersionsCommands(reply: string): (r: Result<VersionCommands>)
    ensures r.Failure? ==> r.error == IndexOutOfBounds && IndexOf(reply, CommandsSeparator) == 0
    ensures IndexOf(reply, CommandsSeparator) < 0 ==> r == Success(VersionCommands(reply, []))
    ensures IndexOf(reply, CommandsSeparator) > 0 ==> r.Success? && r.value.version == reply[..IndexOf(reply, CommandsSeparator)]
    ensures IndexOf(reply, CommandsSeparator) >= 0 && r.Success? ==>
              |SplitAll(reply, CommandsSeparator)| >= 2
              && r.value.commands == Commands(SplitAll(reply, CommandsSeparator)[1])
    ensures IndexOf(reply, CommandsSeparator) == 0 && r.Success? ==> r.value.version == []
  {
    var parts := JavaSplit(reply, CommandsSeparator);
    ghost var i := IndexOf(reply, CommandsSeparator);
    assert i > 0 ==> SplitAll(reply, CommandsSeparator)[0] == reply[..i] != [];
    assert i == 0 ==> SplitAll(reply, CommandsSeparator)[0] == [];
    assert i >= 0 && |parts| == 1 ==> SplitAll(reply, CommandsSeparator)[1] == [] && Commands([]) == [] by {
      assert JavaSplitSpaces([]) == [[]];
      assert TrimNonBlank([[]]) == [];
    }
    if |parts| == 0 then Failure(IndexOutOfBounds)
    else if |parts| < 2 then Success(VersionCommands(parts[0], []))
    else Success(VersionCommands(parts[0], Commands(parts[1])))
  }

  lemma {:induction false} DropTrailingEmptyNil(parts: seq<string>)
    ensures DropTrailingEmpty(parts) == [] <==> AllEmpty(parts)
    decreases |parts|
  {
    if parts != [] && parts[|parts| - 1] == [] {
      DropTrailingEmptyNil(parts[..|parts| - 1]);
    }
  }

  /** The parse fails exactly when the reply is nothing but separators. */
  lemma SeparatorsOnlyFail(reply: string)
    ensures ParseVersionsCommands(reply).Failure? <==>
      IndexOf(reply, CommandsSeparator) == 0 && AllEmpty(SplitAll(reply, CommandsSeparator))
  {
    var all := SplitAll(reply, CommandsSeparator);
    var i := IndexOf(reply, CommandsSeparator);
    var parts := JavaSplit(reply, CommandsSeparator);
    assert ParseVersionsCommands(reply).Failure? <==> parts == [];
    if i >= 0 {
      assert parts == DropTrailingEmpty(all);
      assert all[0] == reply[..i];
      DropTrailingEmptyNil(all);
    }
  }

  predicate AllEmpty(parts: seq<string>)
  {
    forall k :: 0 <= k < |parts| ==> parts[k] == []
  }

  // ---------------------------------------------------------------------------
  // A reference tokenizer for the command list

  /** Text in which every character is either a \s separator or visible (above ' '),
      which is what the daemon sends after the separator. */
  predicate Printable(s: string)
  {
    forall i :: 0 <= i < |s| ==> IsRegexSpace(s[i]) || s[i] > ' '
  }

  /** The number of leading characters that are not \s. */
  function RunLength(s: string): (n: nat)
    ensures n <= |s|
    ensures forall i :: 0 <= i < n ==> !IsRegexSpace(s[i])
    ensures n == |s| || IsRegexSpace(s[n])
  {
    if s == [] || IsRegexSpace(s[0]) then 0 else 1 + RunLength(s[1..])
  }

  /** The maximal runs of non-separator characters, left to right. */
  function Words(s: string): (ws: seq<string>)
    decreases |s|
  {
    if s == [] then []
    else if IsRegexSpace(s[0]) then Words(s[1..])
    else
      var n := RunLength(s);
      [s[..n]] + Words(s[n..])
  }

  function NonEmpty(parts: seq<string>): seq<string>
  {
    if parts == [] then []
    else if parts[0] == [] then NonEmpty(parts[1..])
    else [parts[0]] + NonEmpty(parts[1..])
  }

  lemma {:induction false} NonEmptyAppend(a: seq<string>, b: seq<string>)
    ensures NonEmpty(a + b) == NonEmpty(a) + NonEmpty(b)
    decreases |a|
  {
    if a != [] {
      NonEmptyAppend(a[1..], b);
      assert (a + b)[1..] == a[1..] + b;
    } else {
      assert a + b == b;
    }
  }

  /** Leading characters with no separator among them stay glued to the first piece. */
  lemma {:induction false} SplitSpacesRun(p: string, t: string)
    requires forall i :: 0 <= i < |p| ==> !IsRegexSpace(p[i])
    ensures SplitSpaces(p + t) == [p + SplitSpaces(t)[0]] + SplitSpaces(t)[1..]
    decreases |p|
  {
    if p != [] {
      SplitSpacesRun(p[1..], t);
      assert (p + t)[1..] == p[1..] + t;
      assert [p[0]] + (p[1..] + SplitSpaces(t)[0]) == p + SplitSpaces(t)[0];
    } else {
      var st := SplitSpaces(t);
      assert p + t == t;
      assert p + st[0] == st[0];
      assert st == [st[0]] + st[1..];
    }
  }

  /** The non-empty pieces between single separators are the maximal runs. */
  lemma {:induction false} NonEmptySplitIsWords(s: string)
    ensures NonEmpty(SplitSpaces(s)) == Words(s)
    decreases |s|
  {
    if s == [] {
    } else if IsRegexSpace(s[0]) {
      NonEmptySplitIsWords(s[1..]);
      assert SplitSpaces(s)[1..] == SplitSpaces(s[1..]);
    } else {
      var n := RunLength(s);
      var t := s[n..];
      SplitSpacesRun(s[..n], t);
      assert s[..n] + t == s;
      var st := SplitSpaces(t);
      assert st[0] == [] by {
        if t != [] {
          assert IsRegexSpace(t[0]);
        }
      }
      NonEmptySplitIsWords(t);
      assert NonEmpty(st) == NonEmpty(st[1..]);
      var split := [s[..n]] + st[1..];
      assert s[..n] + st[0] == s[..n];
      assert SplitSpaces(s) == split;
      assert split[1..] == st[1..];
    }
  }

  lemma {:induction false} NonEmptyDropTrailing(parts: seq<string>)
    ensures NonEmpty(DropTrailingEmpty(parts)) == NonEmpty(parts)
    decreases |parts|
  {
    if parts != [] && parts[|parts| - 1] == [] {
      var init := parts[..|parts| - 1];
      NonEmptyDropTrailing(init);
      NonEmptyAppend(init, [[]]);
      assert parts == init + [[]];
      assert NonEmpty([[]]) == [];
    }
  }

  /** Every character is above ' '. */
  predicate Visible(s: string)
  {
    forall j :: 0 <= j < |s| ==> s[j] > ' '
  }

  lemma TrimVisible(s: string)
    requires Visible(s)
    ensures Trim(s) == s
  {
  }

  /** On pieces of visible characters, dropping blanks and trimming keeps exactly the
      non-empty pieces. */
  lemma {:induction false} TrimNonBlankVisible(parts: seq<string>)
    requires forall i :: 0 <= i < |parts| ==> Visible(parts[i])
    ensures TrimNonBlank(parts) == NonEmpty(parts)
    decreases |parts|
  {
    if parts != [] {
      TrimNonBlankVisible(parts[1..]);
      TrimVisible(parts[0]);
      assert IsBlank(parts[0]) <==> parts[0] == [] by {
        if parts[0] != [] {
          assert !IsJavaWhitespace(parts[0][0]);
        }
      }
    }
  }

  /** On printable text the command list is the sequence of maximal runs of visible
      characters. */
  lemma CommandsAreWords(text: string)
    requires Printable(text)
    ensures Commands(text) == Words(text)
  {
    var all := SplitSpaces(text);
    var parts := JavaSplitSpaces(text);
    assert forall i :: 0 <= i < |all| ==> Visible(all[i]) by {
      forall i, j | 0 <= i < |all| && 0 <= j < |all[i]|
        ensures all[i][j] > ' '
      {
        var c := all[i][j];
        assert c in text;
      }
    }
    if Spaceless(text) {
      SplitSpacesRun(text, []);
      assert text + [] == text;
      assert all == [text];
    } else {
      NonEmptyDropTrailing(all);
    }
    TrimNonBlankVisible(parts);
    NonEmptySplitIsWords(text);
  }

  // ---------------------------------------------------------------------------
  // The VERSIONCOMMANDS reply the daemon sends, and its round trip

  /** No character of the text is the '|' that starts the separator. */
  predicate NoBar(s: string)
  {
    forall i :: 0 <= i < |s| ==> s[i] != '|'
  }

  /** The command list as the daemon writes it after the separator: each name
      preceded by one space. */
  function Render(cmds: seq<string>): (text: string)
  {
    if cmds == [] then [] else " " + cmds[0] + Render(cmds[1..])
  }

  /** A command name the daemon can announce: visible characters, no '|'. */
  predicate CommandName(c: string)
  {
    c != [] && Visible(c) && NoBar(c)
  }

  lemma {:induction false} RenderShape(cmds: seq<string>)
    requires forall i :: 0 <= i < |cmds| ==> CommandName(cmds[i])
    ensures Printable(Render(cmds)) && NoBar(Render(cmds))
    ensures Render(cmds) == [] <==> cmds == []
    ensures Render(cmds) != [] ==> Render(cmds)[0] == ' '
    decreases |cmds|
  {
    if cmds != [] {
      RenderShape(cmds[1..]);
      var c, rest := cmds[0], Render(cmds[1..]);
      assert Render(cmds) == [' '] + c + rest;
      forall i | 0 <= i < |Render(cmds)|
        ensures (IsRegexSpace(Render(cmds)[i]) || Render(cmds)[i] > ' ') && Render(cmds)[i] != '|'
      {
        if i == 0 {
        } else if i < 1 + |c| {
          assert Render(cmds)[i] == c[i - 1];
        } else {
          assert Render(cmds)[i] == rest[i - 1 - |c|];
        }
      }
    }
  }

  /** The maximal runs of the rendered list are the command names again. */
  lemma {:induction false} WordsOfRender(cmds: seq<string>)
    requires forall i :: 0 <= i < |cmds| ==> CommandName(cmds[i])
    ensures Words(Render(cmds)) == cmds
    decreases |cmds|
  {
    if cmds != [] {
      var c, rest := cmds[0], Render(cmds[1..]);
      WordsOfRender(cmds[1..]);
      RenderShape(cmds[1..]);
      assert Render(cmds) == [' '] + (c + rest);
      WordsStep(c, rest);
      assert cmds == [c] + cmds[1..];
    }
  }

  /** A space, a visible word and text that starts with a separator (or is empty):
      the word is the first run. */
  lemma WordsStep(c: string, rest: string)
    requires c != [] && Visible(c)
    requires rest == [] || IsRegexSpace(rest[0])
    ensures Words([' '] + (c + rest)) == [c] + Words(rest)
  {
    var s := [' '] + (c + rest);
    var t := c + rest;
    assert s[1..] == t;
    assert Words(s) == Words(t);
    RunLengthOf(c, rest);
    assert t[..|c|] == c && t[|c|..] == rest;
    assert !IsRegexSpace(t[0]);
  }

  lemma {:induction false} RunLengthOf(c: string, rest: string)
    requires Visible(c)
    requires rest == [] || IsRegexSpace(rest[0])
    ensures RunLength(c + rest) == |c|
    decreases |c|
  {
    if c == [] {
      assert c + rest == rest;
    } else {
      assert (c + rest)[1..] == c[1..] + rest;
      RunLengthOf(c[1..], rest);
    }
  }

  lemma NoSeparatorIn(s: string)
    requires NoBar(s)
    ensures IndexOf(s, CommandsSeparator) == -1
  {
    var i := IndexOf(s, CommandsSeparator);
    if i != -1 {
      OccurrenceStartsWith(s, CommandsSeparator, i);
    }
  }

  lemma FirstSeparator(version: string, text: string)
    requires NoBar(version)
    ensures IndexOf(version + CommandsSeparator + text, CommandsSeparator) == |version|
  {
    var reply := version + CommandsSeparator + text;
    var k := |version|;
    assert reply[k..k + |CommandsSeparator|] == CommandsSeparator;
    assert OccursAt(reply, CommandsSeparator, k);
    forall j | 0 <= j < k
      ensures !OccursAt(reply, CommandsSeparator, j)
    {
      assert reply[j] == version[j];
      if OccursAt(reply, CommandsSeparator, j) {
        OccurrenceStartsWith(reply, CommandsSeparator, j);
      }
    }
  }

  lemma SplitAtOnlySeparator(version: string, text: string)
    requires NoBar(version) && NoBar(text)
    ensures SplitAll(version + CommandsSeparator + text, CommandsSeparator) == [version, text]
  {
    var reply := version + CommandsSeparator + text;
    var k := |version|;
    FirstSeparator(version, text);
    assert reply[k + |CommandsSeparator|..] == text;
    assert reply[..k] == version;
    NoSeparatorIn(text);
    assert SplitAll(text, CommandsSeparator) == [text];
  }

  /** A reply the daemon forms from a version and a command list parses back to
      that version and that list. */
  lemma VersionCommandsRoundTrip(version: string, cmds: seq<string>)
    requires version != [] && NoBar(version)
    requires forall i :: 0 <= i < |cmds| ==> CommandName(cmds[i])
    ensures ParseVersionsCommands(version + CommandsSeparator + Render(cmds))
         == Success(VersionCommands(version, cmds))
  {
    var text := Render(cmds);
    var reply := version + CommandsSeparator + text;
    RenderShape(cmds);
    FirstSeparator(version, text);
    SplitAtOnlySeparator(version, text);
    assert JavaSplit(reply, CommandsSeparator) == DropTrailingEmpty([version, text]);
    if cmds == [] {
      DropLastEmpty(version);
    } else {
      assert DropTrailingEmpty([version, text]) == [version, text];
      CommandsAreWords(text);
      WordsOfRender(cmds);
    }
  }

  /** On printable text the command list is the words between the first separator
      and the second, if there is one. */
  lemma CommandsBetweenSeparators(reply: string)
    requires IndexOf(reply, CommandsSeparator) >= 0 && ParseVersionsCommands(reply).Success?
    requires Printable(SplitAll(reply, CommandsSeparator)[1])
    ensures ParseVersionsCommands(reply).value.commands == Words(SplitAll(reply, CommandsSeparator)[1])
  {
    CommandsAreWords(SplitAll(reply, CommandsSeparator)[1]);
  }

  /** Everything after a second separator is discarded: String.split cuts there, and
      only the first two pieces are looked at. */
  lemma SecondSeparatorDiscarded(version: string, text: string, more: string)
    requires version != [] && NoBar(version) && NoBar(text) && Printable(text)
    ensures ParseVersionsCommands(version + CommandsSeparator + text + CommandsSeparator + more)
         == Success(VersionCommands(version, Words(text)))
  {
    var rest := text + CommandsSeparator + more;
    var reply := version + CommandsSeparator + rest;
    assert reply == version + CommandsSeparator + text + CommandsSeparator + more;
    FirstSeparator(version, rest);
    FirstSeparator(text, more);
    assert reply[..|version|] == version;
    assert reply[|version| + |CommandsSeparator|..] == rest;
    assert rest[..|text|] == text;
    assert SplitAll(reply, CommandsSeparator)[1] == text;
    CommandsBetweenSeparators(reply);
  }

  lemma DropLastEmpty(a: string)
    requires a != []
    ensures DropTrailingEmpty([a, []]) == [a]
  {
    assert [a, []][..1] == [a];
  }

  /** The version and command list of the unit test for parseVersionsCommands: the
      reply the daemon forms from them parses back to them. */
  lemma ParseCommandsExample(version: string, cmds: seq<string>)
    requires version == "ClamAV 1.4.3/27691/Sun Jul  6 10:34:52 2025"
    requires cmds == ["SCAN", "QUIT", "RELOAD", "PING", "CONTSCAN", "VERSIONCOMMANDS", "VERSION", "END", "SHUTDOWN",
                      "MULTISCAN", "FILDES", "STATS", "IDSESSION", "INSTREAM", "DETSTATSCLEAR", "DETSTATS", "ALLMATCHSCAN"]
    ensures ParseVersionsCommands(version + CommandsSeparator + Render(cmds)) == Success(VersionCommands(version, cmds))
  {
    var a, b := cmds[..9], cmds[9..];
    NamesOf(a);
    NamesOf(b);
    assert cmds == a + b;
    CommandNamesAppend(a, b);
    VersionCommandsRoundTrip(version, cmds);
  }

  /** Upper-case letters only: enough for a command name. */
  predicate Upper(c: string)
  {
    forall j :: 0 <= j < |c| ==> 'A' <= c[j] <= 'Z'
  }

  lemma NamesOf(cmds: seq<string>)
    requires forall i :: 0 <= i < |cmds| ==> cmds[i] != [] && Upper(cmds[i])
    ensures forall i :: 0 <= i < |cmds| ==> CommandName(cmds[i])
  {
  }

  lemma CommandNamesAppend(a: seq<string>, b: seq<string>)
    requires forall i :: 0 <= i < |a| ==> CommandName(a[i])
    requires forall i :: 0 <= i < |b| ==> CommandName(b[i])
    ensures forall i :: 0 <= i < |a + b| ==> CommandName((a + b)[i])
  {
  }
}
