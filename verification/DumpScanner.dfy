/**
 Reading the schema version out of a plain database dump: the line-at-a-time scanner, the chunked scan with a
 carry and three bounds, and the forms pg_dump writes `schema_meta` in.
 */
module DumpScanner {
  import opened Basics
  import opened Text

  // ---------------------------------------------------------------------------------------------------
  // The patterns
  // ---------------------------------------------------------------------------------------------------

  /** What follows `word` at the head of `s`, letters compared without case. */
  function After(s: string, word: string): Option<string> {
    if |word| <= |s| && Lower(s[..|word|]) == Lower(word) then Some(s[|word|..]) else None
  }

  /** What follows one or more white space characters. */
  function AfterSpaces(s: string): Option<string> {
    if s != [] && IsSpace(s[0]) then Some(TrimStart(s)) else None
  }

  /** The text inside a pair of parentheses that holds no closing one, and what follows it. */
  function Parenthesised(s: string): Option<(string, string)> {
    if s == [] || s[0] != '(' then None
    else
      var k := Find(s[1..], ')');
      if k == |s| - 1 then None else Some((s[1..][..k], s[1..][k + 1..]))
  }

  /** `schema_meta`, with or without its schema. */
  function AfterTable(s: string): Option<string> {
    match After(s, "public.")
    case Some(rest) => After(rest, "schema_meta")
    case None => After(s, "schema_meta")
  }

  /** The end of a COPY header: FROM stdin. */
  function AfterFromStdin(s: string): Option<string> {
    var s :- AfterSpaces(s);
    var s :- After(s, "from");
    var s :- AfterSpaces(s);
    After(s, "stdin;")
  }

  /** The column list of a COPY header for `schema_meta`. */
  function MatchCopy(line: string): Option<string> {
    var s :- After(line, "copy");
    var s :- AfterSpaces(s);
    var s :- AfterTable(s);
    var (columns, rest) :- Parenthesised(TrimStart(s));
    var s :- AfterFromStdin(rest);
    Some(columns)
  }

  /** What follows INSERT INTO and the table. */
  function MatchInsert(line: string): Option<string> {
    var s :- After(line, "insert");
    var s :- AfterSpaces(s);
    var s :- After(s, "into");
    var s :- AfterSpaces(s);
    AfterTable(s)
  }

  /** The column list and the values of an INSERT that names its columns. */
  function MatchInsertWithColumns(line: string): Option<(string, string)> {
    var s :- MatchInsert(line);
    var (columns, rest) :- Parenthesised(TrimStart(s));
    var s :- After(TrimStart(rest), "values");
    var (values, _) :- Parenthesised(TrimStart(s));
    Some((columns, values))
  }

  /** The values of an INSERT that does not name its columns. */
  function MatchPositionalInsert(line: string): Option<string> {
    var s :- MatchInsert(line);
    var s :- AfterSpaces(s);
    var s :- After(s, "values");
    var (values, _) :- Parenthesised(TrimStart(s));
    Some(values)
  }

  // ---------------------------------------------------------------------------------------------------
  // One line
  // ---------------------------------------------------------------------------------------------------

  /** The versions found so far, and the open COPY block if there is one. */
  datatype State = State(found: seq<nat>, inCopy: bool, copyVersionIndex: Option<nat>)

  const INITIAL := State([], false, None)

  /** A column name without the quotes around it, in lower case. */
  function ColumnName(column: string): string {
    var t := Trim(column);
    var u := if t != [] && t[0] == '"' then t[1..] else t;
    Lower(if u != [] && u[|u| - 1] == '"' then u[..|u| - 1] else u)
  }

  function MapNames(columns: seq<string>): seq<string> {
    seq(|columns|, i requires 0 <= i < |columns| => ColumnName(columns[i]))
  }

  function MapTrim(values: seq<string>): seq<string> {
    seq(|values|, i requires 0 <= i < |values| => Trim(values[i]))
  }

  function ColumnIndex(list: string): Option<nat> {
    IndexOf(MapNames(Split(list, ',')), "version")
  }

  /** The versions found once this cell has been looked at. */
  function Note(found: seq<nat>, cells: seq<string>, index: Option<nat>): seq<nat> {
    if index.Some? && index.value < |cells| && AllDigits(cells[index.value]) then found + [ParseNat(cells[index.value])]
    else found
  }

  function PushLine(st: State, line: string): State {
    if st.inCopy then
      if line == "\\." then st.(inCopy := false, copyVersionIndex := None)
      else if line == "" then st
      else st.(found := Note(st.found, Split(line, '\t'), st.copyVersionIndex))
    else
      match MatchCopy(line)
      case Some(columns) => st.(inCopy := true, copyVersionIndex := ColumnIndex(columns))
      case None =>
        match MatchInsertWithColumns(line)
        case Some((columns, values)) =>
          st.(found := Note(st.found, MapTrim(Split(values, ',')), ColumnIndex(columns)))
        case None =>
          match MatchPositionalInsert(line)
          case Some(values) => st.(found := Note(st.found, MapTrim(Split(values, ',')), Some(1)))
          case None => st
  }

  function Feed(st: State, lines: seq<string>): State
    decreases |lines|
  {
    if lines == [] then st else Feed(PushLine(st, lines[0]), lines[1..])
  }

  lemma {:induction false} FeedConcat(st: State, a: seq<string>, b: seq<string>)
    ensures Feed(st, a + b) == Feed(Feed(st, a), b)
    decreases |a|
  {
    hide PushLine;
    if a == [] {
      assert a + b == b;
    } else {
      assert (a + b)[1..] == a[1..] + b;
      FeedConcat(PushLine(st, a[0]), a[1..], b);
    }
  }

  lemma EmptyLineIsNothing(st: State)
    ensures PushLine(st, "") == st && Feed(st, [""]) == st
  {
  }

  // ---------------------------------------------------------------------------------------------------
  // Lines
  // ---------------------------------------------------------------------------------------------------

  function Chomp(s: string): string {
    if s != [] && s[|s| - 1] == '\r' then s[..|s| - 1] else s
  }

  /** The lines of a text: a line feed ends a line, together with the carriage return before it. */
  function Lines(text: string): seq<string>
    decreases |text|
  {
    var k := Find(text, '\n');
    if k == |text| then [text] else [Chomp(text[..k])] + Lines(text[k + 1..])
  }

  lemma LinesStep(first: string, rest: string)
    requires '\n' !in first
    ensures Lines(first + "\n" + rest) == [Chomp(first)] + Lines(rest)
  {
    var text := first + "\n" + rest;
    assert text[..|first|] == first && text[|first| + 1..] == rest;
    FindIs(text, '\n', |first|);
  }

  function ExtractSchemaVersions(text: string): seq<nat> {
    Feed(INITIAL, Lines(text)).found
  }

  // ---------------------------------------------------------------------------------------------------
  // Carriage returns
  // ---------------------------------------------------------------------------------------------------

  function LastOf(parts: seq<string>): string
    requires parts != []
  {
    parts[|parts| - 1]
  }

  /**
   A carriage return at the end of a line matters in an open COPY block alone, and there on two lines only: the
   terminator, and a row whose last cell is the version.
   */
  predicate CrMatters(st: State, line: string) {
    var cells := Split(line, '\t');
    st.inCopy && (line == "\\." || (st.copyVersionIndex == Some(|cells| - 1) && AllDigits(LastOf(cells))))
  }

  predicate EndsInCr(line: string) {
    line != [] && line[|line| - 1] == '\r'
  }

  // What the patterns make of one more carriage return. It is white space, and it is dropped where a text is all
  // white space, so what a pattern has left either grows by it or stays empty.

  predicate Grown(s: string, t: string) {
    t == s + "\r" || s == t == ""
  }

  lemma AfterGrown(s: string, t: string, word: string)
    requires Grown(s, t) && word != [] && LowerChar(word[|word| - 1]) != '\r'
    ensures After(s, word).Some? <==> After(t, word).Some?
    ensures After(s, word).Some? ==> Grown(After(s, word).value, After(t, word).value)
  {
    if |word| <= |s| {
      assert t[..|word|] == s[..|word|];
    } else if |word| == |t| {
      assert t[..|word|] == t;
      assert Lower(t)[|t| - 1] == LowerChar('\r') == '\r' && Lower(word)[|word| - 1] != '\r';
    }
  }

  lemma {:induction false} TrimStartGrown(s: string, t: string)
    requires Grown(s, t)
    ensures Grown(TrimStart(s), TrimStart(t))
    decreases |s|
  {
    if s == "" {
      assert t[..] == t && (t != "" ==> t[1..] == "");
    } else if IsSpace(s[0]) {
      assert t[0] == s[0] && t[1..] == s[1..] + "\r";
      TrimStartGrown(s[1..], t[1..]);
    } else {
      assert t[0] == s[0];
    }
  }

  /** Where nothing was left, there may now be nothing left after the carriage return. */
  lemma SpacesGrown(s: string, t: string)
    requires Grown(s, t)
    ensures AfterSpaces(s).Some? ==> AfterSpaces(t).Some? && Grown(AfterSpaces(s).value, AfterSpaces(t).value)
    ensures AfterSpaces(s).None? ==> AfterSpaces(t).None? || AfterSpaces(t) == Some("")
  {
    TrimStartGrown(s, t);
    if s != "" {
      assert t[0] == s[0];
    } else if t != "" {
      assert t[1..] == "";
    }
  }

  lemma ParenthesisedGrown(s: string, t: string)
    requires Grown(s, t)
    ensures Parenthesised(s).Some? <==> Parenthesised(t).Some?
    ensures Parenthesised(s).Some? ==>
      Parenthesised(s).value.0 == Parenthesised(t).value.0 && Grown(Parenthesised(s).value.1, Parenthesised(t).value.1)
  {
    if s != "" && s[0] == '(' {
      var k := Find(s[1..], ')');
      assert t[0] == s[0] && t[1..] == s[1..] + "\r";
      if k < |s| - 1 {
        assert t[1..][..k] == s[1..][..k];
        FindIs(t[1..], ')', k);
        assert t[1..][k + 1..] == s[1..][k + 1..] + "\r";
      } else {
        assert s[1..][..k] == s[1..];
        assert t[1..][..|s|] == t[1..];
        FindIs(t[1..], ')', |s|);
      }
    }
  }

  lemma TableGrown(s: string, t: string)
    requires Grown(s, t)
    ensures AfterTable(s).Some? <==> AfterTable(t).Some?
    ensures AfterTable(s).Some? ==> Grown(AfterTable(s).value, AfterTable(t).value)
  {
    hide After;
    AfterGrown(s, t, "public.");
    AfterGrown(s, t, "schema_meta");
    if After(s, "public.").Some? {
      AfterGrown(After(s, "public.").value, After(t, "public.").value, "schema_meta");
    }
  }

  lemma NothingHasNoWord(word: string)
    requires word != []
    ensures After("", word).None?
  {
  }

  lemma CopySeesNoCr(line: string)
    ensures MatchCopy(line + "\r") == MatchCopy(line)
  {
    hide After, AfterSpaces, AfterTable, Parenthesised, TrimStart;
    var t := line + "\r";
    AfterGrown(line, t, "copy");
    if After(line, "copy").None? { return; }
    var s1, t1 := After(line, "copy").value, After(t, "copy").value;
    SpacesGrown(s1, t1);
    NothingHasNoTable();
    if AfterSpaces(s1).None? { return; }
    var s2, t2 := AfterSpaces(s1).value, AfterSpaces(t1).value;
    TableGrown(s2, t2);
    if AfterTable(s2).None? { return; }
    var s3, t3 := AfterTable(s2).value, AfterTable(t2).value;
    TrimStartGrown(s3, t3);
    ParenthesisedGrown(TrimStart(s3), TrimStart(t3));
    if Parenthesised(TrimStart(s3)).None? { return; }
    FromStdinGrown(Parenthesised(TrimStart(s3)).value.1, Parenthesised(TrimStart(t3)).value.1);
  }

  lemma FromStdinGrown(s: string, t: string)
    requires Grown(s, t)
    ensures AfterFromStdin(s).Some? <==> AfterFromStdin(t).Some?
  {
    hide After, AfterSpaces;
    SpacesGrown(s, t);
    NothingHasNoWord("from");
    NothingHasNoWord("stdin;");
    if AfterSpaces(s).None? { return; }
    AfterGrown(AfterSpaces(s).value, AfterSpaces(t).value, "from");
    if After(AfterSpaces(s).value, "from").None? { return; }
    var s1, t1 := After(AfterSpaces(s).value, "from").value, After(AfterSpaces(t).value, "from").value;
    SpacesGrown(s1, t1);
    if AfterSpaces(s1).None? { return; }
    AfterGrown(AfterSpaces(s1).value, AfterSpaces(t1).value, "stdin;");
  }

  lemma NothingHasNoTable()
    ensures AfterTable("").None?
  {
  }

  lemma InsertGrown(line: string)
    ensures MatchInsert(line + "\r").Some? <==> MatchInsert(line).Some?
    ensures MatchInsert(line).Some? ==> Grown(MatchInsert(line).value, MatchInsert(line + "\r").value)
  {
    hide After, AfterSpaces, AfterTable;
    var t := line + "\r";
    AfterGrown(line, t, "insert");
    NothingHasNoWord("into");
    NothingHasNoTable();
    if After(line, "insert").None? { return; }
    var s1, t1 := After(line, "insert").value, After(t, "insert").value;
    SpacesGrown(s1, t1);
    if AfterSpaces(s1).None? { return; }
    AfterGrown(AfterSpaces(s1).value, AfterSpaces(t1).value, "into");
    if After(AfterSpaces(s1).value, "into").None? { return; }
    var s2, t2 := After(AfterSpaces(s1).value, "into").value, After(AfterSpaces(t1).value, "into").value;
    SpacesGrown(s2, t2);
    if AfterSpaces(s2).None? { return; }
    TableGrown(AfterSpaces(s2).value, AfterSpaces(t2).value);
  }

  lemma InsertWithColumnsSeesNoCr(line: string)
    ensures MatchInsertWithColumns(line + "\r") == MatchInsertWithColumns(line)
  {
    hide After, MatchInsert, Parenthesised, TrimStart;
    InsertGrown(line);
    if MatchInsert(line).None? { return; }
    var s, t := MatchInsert(line).value, MatchInsert(line + "\r").value;
    TrimStartGrown(s, t);
    ParenthesisedGrown(TrimStart(s), TrimStart(t));
    if Parenthesised(TrimStart(s)).None? { return; }
    var s1, t1 := Parenthesised(TrimStart(s)).value.1, Parenthesised(TrimStart(t)).value.1;
    TrimStartGrown(s1, t1);
    AfterGrown(TrimStart(s1), TrimStart(t1), "values");
    if After(TrimStart(s1), "values").None? { return; }
    var s2, t2 := After(TrimStart(s1), "values").value, After(TrimStart(t1), "values").value;
    TrimStartGrown(s2, t2);
    ParenthesisedGrown(TrimStart(s2), TrimStart(t2));
  }

  lemma PositionalInsertSeesNoCr(line: string)
    ensures MatchPositionalInsert(line + "\r") == MatchPositionalInsert(line)
  {
    hide After, AfterSpaces, MatchInsert, Parenthesised, TrimStart;
    InsertGrown(line);
    NothingHasNoWord("values");
    if MatchInsert(line).None? { return; }
    var s, t := MatchInsert(line).value, MatchInsert(line + "\r").value;
    SpacesGrown(s, t);
    if AfterSpaces(s).None? { return; }
    AfterGrown(AfterSpaces(s).value, AfterSpaces(t).value, "values");
    if After(AfterSpaces(s).value, "values").None? { return; }
    var s1, t1 := After(AfterSpaces(s).value, "values").value, After(AfterSpaces(t).value, "values").value;
    TrimStartGrown(s1, t1);
    ParenthesisedGrown(TrimStart(s1), TrimStart(t1));
  }

  lemma RowSeesCr(st: State, line: string)
    requires st.inCopy && line != "\\." && line != ""
    ensures PushLine(st, line + "\r") != PushLine(st, line) <==> CrMatters(st, line)
  {
    hide Split, MatchCopy, MatchInsertWithColumns, MatchPositionalInsert, ParseNat;
    SplitMore(line, '\t', '\r');
    assert line + "\r" == line + ['\r'];
    var cells, more := Split(line, '\t'), Split(line + ['\r'], '\t');
    assert LastOf(more) == LastOf(cells) + ['\r'] && |more| == |cells|;
    assert LastOf(more)[|LastOf(more)| - 1] == '\r';
    assert !AllDigits(LastOf(more));
    assert (line + "\r")[|line|] == '\r';
  }

  lemma EmptyRowSeesNoCr(st: State)
    requires st.inCopy
    ensures PushLine(st, "\r") == st && !CrMatters(st, "")
  {
    SplitOne("\r", '\t');
    SplitOne("", '\t');
  }

  /** Where a carriage return at the end of a line changes what the scanner makes of it, exactly. */
  lemma CrMattersExactly(st: State, line: string)
    ensures PushLine(st, line + "\r") != PushLine(st, line) <==> CrMatters(st, line)
  {
    hide Split, MatchCopy, MatchInsertWithColumns, MatchPositionalInsert, Note, ColumnIndex, MapTrim;
    if !st.inCopy {
      CopySeesNoCr(line);
      InsertWithColumnsSeesNoCr(line);
      PositionalInsertSeesNoCr(line);
    } else if line == "\\." {
      assert |line + "\r"| == 3;
    } else if line == "" {
      assert line + "\r" == "\r";
      EmptyRowSeesNoCr(st);
    } else {
      RowSeesCr(st, line);
    }
  }

  lemma ChompExactly(st: State, line: string)
    ensures PushLine(st, line) != PushLine(st, Chomp(line)) <==> EndsInCr(line) && CrMatters(st, Chomp(line))
  {
    hide PushLine, CrMatters;
    if EndsInCr(line) {
      assert line == Chomp(line) + "\r";
      CrMattersExactly(st, Chomp(line));
    }
  }

  /**
   A window that ends in the middle of the file hands the scanner its last line without the line feed, so a
   carriage return before that line feed stays on the line. A text is safe when no line that ends in the two is
   one on which that matters, in the state the line is reached in.
   */
  predicate CrSafe(st: State, text: string)
    decreases |text|
  {
    var k := Find(text, '\n');
    k < |text| ==>
      && !(EndsInCr(text[..k]) && CrMatters(st, Chomp(text[..k])))
      && CrSafe(PushLine(st, Chomp(text[..k])), text[k + 1..])
  }

  lemma CrSafeStep(st: State, first: string, rest: string)
    requires '\n' !in first
    ensures CrSafe(st, first + "\n" + rest) <==>
            PushLine(st, first) == PushLine(st, Chomp(first)) && CrSafe(PushLine(st, Chomp(first)), rest)
  {
    hide PushLine, CrMatters, EndsInCr, Chomp;
    var text := first + "\n" + rest;
    assert text[..|first|] == first && text[|first| + 1..] == rest;
    FindIs(text, '\n', |first|);
    ChompExactly(st, first);
  }

  /** The lines on which a carriage return may matter, in some state: a terminator, and a row that ends in a number. */
  predicate CrMayMatter(line: string) {
    line == "\\." || AllDigits(LastOf(Split(line, '\t')))
  }

  lemma MayMatterMeans(line: string)
    ensures CrMayMatter(line) <==> exists st :: CrMatters(st, line)
  {
    hide Split, AllDigits;
    var open := State([], true, Some(|Split(line, '\t')| - 1));
    assert CrMayMatter(line) ==> CrMatters(open, line);
  }

  /** A text none of whose lines ended by the two is one of those. No scan is needed to tell. */
  predicate Harmless(text: string)
    decreases |text|
  {
    var k := Find(text, '\n');
    k < |text| ==> !(EndsInCr(text[..k]) && CrMayMatter(Chomp(text[..k]))) && Harmless(text[k + 1..])
  }

  /** Such a text is safe from every state. */
  lemma {:induction false} HarmlessIsSafe(st: State, text: string)
    requires Harmless(text)
    ensures CrSafe(st, text)
    decreases |text|
  {
    hide PushLine, CrMatters, CrMayMatter, EndsInCr, Chomp;
    var k := Find(text, '\n');
    if k < |text| {
      MayMatterMeans(Chomp(text[..k]));
      HarmlessIsSafe(PushLine(st, Chomp(text[..k])), text[k + 1..]);
    }
  }

  ghost predicate NoCrLf(text: string) {
    forall i :: 0 <= i < |text| ==> !CrLfAt(text, i)
  }

  ghost predicate CrLfAt(text: string, i: nat) {
    i + 1 < |text| && text[i] == '\r' && text[i + 1] == '\n'
  }

  lemma {:induction false} TextWithoutCrLfIsSafe(st: State, text: string)
    requires NoCrLf(text)
    ensures CrSafe(st, text)
    decreases |text|
  {
    hide PushLine, CrMatters, Chomp, Find, NoCrLf;
    var k := Find(text, '\n');
    if k < |text| {
      NoCrLfMeans(text, k);
      TextWithoutCrLfIsSafe(PushLine(st, Chomp(text[..k])), text[k + 1..]);
    }
  }

  lemma NoCrLfMeans(text: string, k: nat)
    requires NoCrLf(text) && k < |text| && text[k] == '\n'
    ensures !EndsInCr(text[..k]) && NoCrLf(text[k + 1..])
  {
    assert k > 0 ==> !CrLfAt(text, k - 1);
    var tail := text[k + 1..];
    forall i | 0 <= i < |tail| ensures !CrLfAt(tail, i) {
      assert !CrLfAt(text, k + 1 + i);
    }
  }

  lemma FeedStep(st: State, first: string, rest: string)
    requires '\n' !in first
    ensures Feed(st, Lines(first + "\n" + rest)) == Feed(PushLine(st, Chomp(first)), Lines(rest))
  {
    hide PushLine, Lines;
    LinesStep(first, rest);
    assert ([Chomp(first)] + Lines(rest))[1..] == Lines(rest);
  }

  lemma FeedLast(st: State, last: string)
    requires '\n' !in last
    ensures Feed(st, Lines(last)) == PushLine(st, last)
  {
    hide PushLine;
    FindIs(last, '\n', |last|);
    assert [last][1..] == [];
  }

  lemma SplitAtFirst(text: string, f: nat)
    requires f == Find(text, '\n') < |text|
    ensures text == text[..f] + "\n" + text[f + 1..] && '\n' !in text[..f]
  {
    hide Find;
    assert text[f] == '\n' && text[..f] + [text[f]] + text[f + 1..] == text;
  }

  /** The cut a window makes at its last line feed loses nothing of a safe text. */
  lemma {:induction false} FeedCut(st: State, a: string, rest: string)
    requires CrSafe(st, a + "\n" + rest)
    ensures Feed(st, Lines(a + "\n" + rest)) == Feed(Feed(st, Lines(a)), Lines(rest))
    ensures CrSafe(Feed(st, Lines(a)), rest)
    decreases |a|
  {
    hide PushLine, Lines, Feed, Find, Chomp, CrSafe;
    var k := Find(a, '\n');
    if k == |a| {
      assert a[..k] == a;
      FeedStep(st, a, rest);
      FeedLast(st, a);
      CrSafeStep(st, a, rest);
    } else {
      SplitAtFirst(a, k);
      var first, tail := a[..k], a[k + 1..];
      assert a + "\n" + rest == first + "\n" + (tail + "\n" + rest);
      FeedStep(st, first, tail + "\n" + rest);
      FeedStep(st, first, tail);
      CrSafeStep(st, first, tail + "\n" + rest);
      FeedCut(PushLine(st, Chomp(first)), tail, rest);
    }
  }

  /** Reading a whole prefix that ends in a line feed, as one window hands it over and as the whole text does. */
  ghost predicate CutAgrees(st: State, text: string, k: nat)
    requires k < |text|
  {
    Feed(st, Lines(text[..k])) == Feed(st, Lines(text[..k + 1]))
  }

  lemma CutOfTail(st: State, text: string, f: nat, k: nat)
    requires f < k < |text| && f == Find(text, '\n')
    ensures CutAgrees(st, text, k) == CutAgrees(PushLine(st, Chomp(text[..f])), text[f + 1..], k - f - 1)
  {
    hide PushLine, Lines, Feed, Find, Chomp;
    SplitAtFirst(text, f);
    var first, tail := text[..f], text[f + 1..];
    assert text[..k] == first + "\n" + tail[..k - f - 1];
    assert text[..k + 1] == first + "\n" + tail[..k - f];
    FeedStep(st, first, tail[..k - f - 1]);
    FeedStep(st, first, tail[..k - f]);
  }

  lemma FirstCut(st: State, text: string, f: nat)
    requires f == Find(text, '\n') < |text|
    ensures CutAgrees(st, text, f) <==> PushLine(st, text[..f]) == PushLine(st, Chomp(text[..f]))
  {
    hide PushLine, Lines, Feed, Find, Chomp;
    SplitAtFirst(text, f);
    assert text[..f + 1] == text[..f] + "\n" + "";
    FeedStep(st, text[..f], "");
    FeedLast(st, text[..f]);
    FeedLast(PushLine(st, Chomp(text[..f])), "");
    EmptyLineIsNothing(PushLine(st, Chomp(text[..f])));
  }

  lemma {:induction false} SafeMeansEveryCutAgrees(st: State, text: string, k: nat)
    requires CrSafe(st, text) && k < |text| && text[k] == '\n'
    ensures CutAgrees(st, text, k)
    decreases |text|
  {
    hide PushLine, Lines, Feed, Chomp, CrMatters, EndsInCr;
    var f := Find(text, '\n');
    FindAtMost(text, '\n', k);
    if k == f {
      FirstCut(st, text, f);
      ChompExactly(st, text[..f]);
    } else {
      SafeMeansEveryCutAgrees(PushLine(st, Chomp(text[..f])), text[f + 1..], k - f - 1);
      CutOfTail(st, text, f, k);
    }
  }

  lemma {:induction false} EveryCutAgreesMeansSafe(st: State, text: string)
    requires forall k :: 0 <= k < |text| && text[k] == '\n' ==> CutAgrees(st, text, k)
    ensures CrSafe(st, text)
    decreases |text|
  {
    hide PushLine, Lines, Feed, Chomp, CrMatters, EndsInCr;
    var f := Find(text, '\n');
    if f < |text| {
      FirstCut(st, text, f);
      ChompExactly(st, text[..f]);
      assert CutAgrees(st, text, f);
      var tail := text[f + 1..];
      forall k | 0 <= k < |tail| && tail[k] == '\n' ensures CutAgrees(PushLine(st, Chomp(text[..f])), tail, k) {
        assert text[f + 1 + k] == '\n' && CutAgrees(st, text, f + 1 + k);
        CutOfTail(st, text, f, f + 1 + k);
      }
      EveryCutAgreesMeansSafe(PushLine(st, Chomp(text[..f])), tail);
    }
  }

  /** Safe is exactly what is needed: a text is safe if and only if no cut at a line feed changes the scan. */
  lemma SafeExactlyWhenEveryCutAgrees(st: State, text: string)
    ensures CrSafe(st, text) <==> forall k :: 0 <= k < |text| && text[k] == '\n' ==> CutAgrees(st, text, k)
  {
    hide PushLine, Lines, Feed, Find, Chomp, CrSafe;
    if CrSafe(st, text) {
      forall k | 0 <= k < |text| && text[k] == '\n' ensures CutAgrees(st, text, k) {
        SafeMeansEveryCutAgrees(st, text, k);
      }
    } else if forall k :: 0 <= k < |text| && text[k] == '\n' ==> CutAgrees(st, text, k) {
      EveryCutAgreesMeansSafe(st, text);
    }
  }

  // ---------------------------------------------------------------------------------------------------
  // The scanner object and the chunked scan
  // ---------------------------------------------------------------------------------------------------

  class SchemaVersionScanner {
    var found: seq<nat>
    var inCopy: bool
    var copyVersionIndex: Option<nat>

    function Value(): State
      reads this
    {
      State(found, inCopy, copyVersionIndex)
    }

    constructor ()
      ensures Value() == INITIAL
    {
      found, inCopy, copyVersionIndex := [], false, None;
    }

    method NoteCell(cells: seq<string>, index: Option<nat>)
      modifies this`found
      ensures found == Note(old(found), cells, index)
    {
      if index.Some? && index.value < |cells| && AllDigits(cells[index.value]) {
        found := found + [ParseNat(cells[index.value])];
      }
    }

    method Push(line: string)
      modifies this
      ensures Value() == PushLine(old(Value()), line)
    {
      if inCopy {
        if line == "\\." {
          inCopy, copyVersionIndex := false, None;
        } else if line != "" {
          NoteCell(Split(line, '\t'), copyVersionIndex);
        }
        return;
      }
      var copy := MatchCopy(line);
      if copy.Some? {
        inCopy, copyVersionIndex := true, ColumnIndex(copy.value);
        return;
      }
      var withColumns := MatchInsertWithColumns(line);
      if withColumns.Some? {
        NoteCell(MapTrim(Split(withColumns.value.1, ',')), ColumnIndex(withColumns.value.0));
        return;
      }
      var positional := MatchPositionalInsert(line);
      if positional.Some? {
        NoteCell(MapTrim(Split(positional.value, ',')), Some(1));
      }
    }

    method PushText(text: string)
      modifies this
      ensures Value() == Feed(old(Value()), Lines(text))
    {
      hide PushLine, Lines;
      var lines := Lines(text);
      for i := 0 to |lines|
        invariant Feed(Value(), lines[i..]) == Feed(old(Value()), lines)
      {
        assert lines[i..][1..] == lines[i + 1..];
        Push(lines[i]);
      }
    }
  }

  /** How many bytes one character takes in UTF-8. */
  function CharBytes(c: char): nat {
    if c < 0x80 as char then 1 else if c < 0x800 as char then 2 else if c < 0x10000 as char then 3 else 4
  }

  function ByteLength(s: string): nat {
    if s == [] then 0 else ByteLength(s[..|s| - 1]) + CharBytes(s[|s| - 1])
  }

  /** The lengths of UTF-8, section 3 of RFC 3629, and that a text is as long as its characters together. */
  lemma {:induction false} BytesAre(s: string, t: string)
    ensures forall c: char ::
      CharBytes(c) == (if c as int <= 0x7F then 1 else if c as int <= 0x7FF then 2 else if c as int <= 0xFFFF then 3 else 4)
    ensures ByteLength(s + t) == ByteLength(s) + ByteLength(t)
    ensures forall c: char :: ByteLength([c]) == CharBytes(c)
  {
    if t == "" {
      assert s + t == s;
    } else {
      BytesAre(s, t[..|t| - 1]);
      assert (s + t)[..|s + t| - 1] == s + t[..|t| - 1];
    }
    forall c: char ensures ByteLength([c]) == CharBytes(c) {
      assert [c][..0] == "";
    }
  }

  lemma {:induction false} PrefixIsNoLonger(s: string, k: nat)
    requires k <= |s|
    ensures ByteLength(s[..k]) <= ByteLength(s)
  {
    if k < |s| {
      assert s[..|s| - 1][..k] == s[..k];
      PrefixIsNoLonger(s[..|s| - 1], k);
    } else {
      assert s[..k] == s;
    }
  }

  /** No line of the text is longer than the bound. */
  predicate LinesFit(text: string, maxLineBytes: nat)
    decreases |text|
  {
    var k := Find(text, '\n');
    ByteLength(text[..k]) <= maxLineBytes && (k < |text| ==> LinesFit(text[k + 1..], maxLineBytes))
  }

  lemma {:induction false} FitAfterCut(a: string, rest: string, maxLineBytes: nat)
    requires LinesFit(a + "\n" + rest, maxLineBytes)
    ensures LinesFit(rest, maxLineBytes)
    decreases |a|
  {
    var k := Find(a, '\n');
    var text := a + "\n" + rest;
    FindIs(text, '\n', k);
    if k == |a| {
      assert text[k + 1..] == rest;
    } else {
      assert text[k + 1..] == a[k + 1..] + "\n" + rest;
      FitAfterCut(a[k + 1..], rest, maxLineBytes);
    }
  }

  lemma CarryFits(carry: string, rest: string, maxLineBytes: nat)
    requires LinesFit(carry + rest, maxLineBytes) && '\n' !in carry
    ensures ByteLength(carry) <= maxLineBytes
  {
    var k := Find(carry + rest, '\n');
    assert forall i :: 0 <= i < |carry| ==> (carry + rest)[i] == carry[i];
    assert |carry| <= k;
    assert (carry + rest)[..k][..|carry|] == carry;
    PrefixIsNoLonger((carry + rest)[..k], |carry|);
  }

  /** What one read hands over: some bytes and the characters the decoder completed with them, or an error. */
  datatype Read = Chunk(bytes: nat, text: string) | Broken

  datatype Reason = TooLongLine | TooLargeDump | UnreadableFile

  datatype Finding =
    | Found(version: nat)
    | Ambiguous(versions: set<nat>)
    | AbsentRow
    | Unreadable(reason: Reason)

  /** The answer to a list of versions: the one version, or all the distinct ones. */
  function Classify(found: seq<nat>, truncated: bool): Finding {
    if found == [] then if truncated then Unreadable(TooLargeDump) else AbsentRow
    else if forall i :: 0 <= i < |found| ==> found[i] == found[0] then Found(found[0])
    else Ambiguous(set v | v in found)
  }

  /** Each answer is given exactly when it is so. A dump without a version is only called that when it was read whole. */
  lemma EachAnswerHolds(found: seq<nat>, truncated: bool, v: nat)
    ensures
      var f := Classify(found, truncated);
      && (f == Found(v) <==> found != [] && forall n :: n in found ==> n == v)
      && (f.Ambiguous? <==> exists m, n :: m in found && n in found && m != n)
      && (f.Ambiguous? ==> f.versions == set n | n in found)
      && (f.AbsentRow? <==> found == [] && !truncated)
      && (f == Unreadable(TooLargeDump) <==> found == [] && truncated)
  {
    forall i | 0 <= i < |found| ensures found[i] in found {
    }
    if i :| 0 <= i < |found| && found[i] != found[0] {
      assert found[i] in found && found[0] in found;
    }
  }

  function BytesOf(r: Read): nat {
    if r.Chunk? then r.bytes else 0
  }

  function TextOf(r: Read): string {
    if r.Chunk? then r.text else ""
  }

  function TotalBytes(windows: seq<Read>): nat {
    if windows == [] then 0 else BytesOf(windows[0]) + TotalBytes(windows[1..])
  }

  /** What is still to come of the text after the first reads. */
  function Remaining(windows: seq<Read>, last: string): string {
    if windows == [] then last else TextOf(windows[0]) + Remaining(windows[1..], last)
  }

  /** The whole file is readable, smaller than the scan bound, and has no line over the line bound. */
  ghost predicate WithinBounds(windows: seq<Read>, last: string, maxBytes: nat, maxLineBytes: nat) {
    && (forall i :: 0 <= i < |windows| ==> windows[i].Chunk?)
    && TotalBytes(windows) < maxBytes
    && '\n' !in last
    && LinesFit(Remaining(windows, last), maxLineBytes)
  }

  function FindLast(s: string, c: char): (k: nat)
    ensures k <= |s| && c !in s[k..] && (k > 0 ==> s[k - 1] == c)
  {
    if s == [] then 0
    else if s[|s| - 1] == c then |s|
    else
      var k := FindLast(s[..|s| - 1], c);
      assert s[k..] == s[..|s| - 1][k..] + [s[|s| - 1]];
      k
  }

  /** What the rest of the scan will see is what a scan of the whole text sees. */
  ghost predicate OnCourse(st: State, ahead: string, text: string, maxLineBytes: nat) {
    && Feed(st, Lines(ahead)) == Feed(INITIAL, Lines(text))
    && CrSafe(st, ahead) && LinesFit(ahead, maxLineBytes)
  }

  lemma WindowKeepsCourse(st: State, complete: string, ahead: string, text: string, maxLineBytes: nat)
    requires OnCourse(st, complete + "\n" + ahead, text, maxLineBytes)
    ensures OnCourse(Feed(st, Lines(complete)), ahead, text, maxLineBytes)
  {
    hide PushLine, Lines, Feed, CrSafe, LinesFit;
    FeedCut(st, complete, ahead);
    FitAfterCut(complete, ahead, maxLineBytes);
  }

  // ---------------------------------------------------------------------------------------------------
  // The chunked scan as a function
  // ---------------------------------------------------------------------------------------------------

  /** The state after the complete lines of one window, and the partial line carried to the next. */
  function Window(st: State, text: string): (r: (State, string))
    ensures '\n' !in r.1
  {
    var cut := FindLast(text, '\n');
    (if cut <= 1 then st else Feed(st, Lines(text[..cut - 1])), text[cut..])
  }

  /** The answer once the last, partial line is in hand. */
  function Finish(st: State, tail: string, truncated: bool, maxLineBytes: nat): Finding {
    if ByteLength(tail) > maxLineBytes then Unreadable(TooLongLine)
    else Classify((if tail == "" then st else PushLine(st, tail)).found, truncated)
  }

  function ScanFrom(st: State, carry: string, visited: nat, windows: seq<Read>, last: string, maxBytes: nat, maxLineBytes: nat): Finding
    decreases |windows|
  {
    if visited >= maxBytes then Finish(st, carry + last, true, maxLineBytes)
    else if windows == [] then Finish(st, carry + last, false, maxLineBytes)
    else if windows[0].Broken? then Unreadable(UnreadableFile)
    else
      var (next, partial) := Window(st, carry + windows[0].text);
      if ByteLength(partial) > maxLineBytes then Unreadable(TooLongLine)
      else ScanFrom(next, partial, visited + windows[0].bytes, windows[1..], last, maxBytes, maxLineBytes)
  }

  /** What the chunked scan answers to a sequence of reads. */
  function Scan(windows: seq<Read>, last: string, maxBytes: nat, maxLineBytes: nat): Finding {
    ScanFrom(INITIAL, "", 0, windows, last, maxBytes, maxLineBytes)
  }

  lemma WindowStaysOnCourse(st: State, text: string, ahead: string, whole: string, maxLineBytes: nat)
    requires OnCourse(st, text + ahead, whole, maxLineBytes)
    ensures OnCourse(Window(st, text).0, Window(st, text).1 + ahead, whole, maxLineBytes)
  {
    hide PushLine, Lines, Feed, CrSafe, LinesFit, OnCourse;
    var cut := FindLast(text, '\n');
    if cut > 0 {
      var complete := text[..cut - 1];
      assert text + ahead == complete + "\n" + (text[cut..] + ahead);
      WindowKeepsCourse(st, complete, text[cut..] + ahead, whole, maxLineBytes);
      FeedLast(st, "");
      EmptyLineIsNothing(st);
    } else {
      assert text[cut..] == text;
    }
  }

  lemma CarryOnCourseFits(st: State, carry: string, ahead: string, whole: string, maxLineBytes: nat)
    requires OnCourse(st, carry + ahead, whole, maxLineBytes) && '\n' !in carry
    ensures ByteLength(carry) <= maxLineBytes
  {
    hide PushLine, Lines, Feed, CrSafe, LinesFit, ByteLength;
    CarryFits(carry, ahead, maxLineBytes);
  }

  /** The last line, complete or not, brings the scanner to where the whole text does. */
  lemma FinishEndsTheCourse(st: State, tail: string, whole: string, maxLineBytes: nat)
    requires OnCourse(st, tail, whole, maxLineBytes) && '\n' !in tail
    ensures Finish(st, tail, false, maxLineBytes) == Classify(ExtractSchemaVersions(whole), false)
  {
    hide PushLine, Lines, Feed, CrSafe, LinesFit, ByteLength, Classify;
    assert tail + "" == tail;
    CarryFits(tail, "", maxLineBytes);
    FeedLast(st, tail);
    EmptyLineIsNothing(st);
  }

  lemma {:induction false} ScanStaysOnCourse(
      st: State, carry: string, visited: nat, windows: seq<Read>, last: string, whole: string, maxBytes: nat, maxLineBytes: nat)
    requires '\n' !in carry && '\n' !in last && visited + TotalBytes(windows) < maxBytes
    requires forall i :: 0 <= i < |windows| ==> windows[i].Chunk?
    requires OnCourse(st, carry + Remaining(windows, last), whole, maxLineBytes)
    ensures ScanFrom(st, carry, visited, windows, last, maxBytes, maxLineBytes) == Classify(ExtractSchemaVersions(whole), false)
    decreases |windows|
  {
    hide PushLine, Lines, Feed, CrSafe, LinesFit, ByteLength, OnCourse, Classify, ExtractSchemaVersions, Finish, Window;
    if windows == [] {
      FinishEndsTheCourse(st, carry + last, whole, maxLineBytes);
    } else {
      var text, ahead := carry + windows[0].text, Remaining(windows[1..], last);
      assert carry + Remaining(windows, last) == text + ahead;
      WindowStaysOnCourse(st, text, ahead, whole, maxLineBytes);
      var (next, partial) := Window(st, text);
      CarryOnCourseFits(next, partial, ahead, whole, maxLineBytes);
      ScanStaysOnCourse(next, partial, visited + windows[0].bytes, windows[1..], last, whole, maxBytes, maxLineBytes);
    }
  }

  /**
   Whatever sizes the reads come in, on a text within the bounds whose lines a stray carriage return cannot
   change the chunked scan answers what the whole-text parser answers.
   */
  lemma ChunkedIsWhole(windows: seq<Read>, last: string, maxBytes: nat, maxLineBytes: nat)
    requires WithinBounds(windows, last, maxBytes, maxLineBytes) && CrSafe(INITIAL, Remaining(windows, last))
    ensures Scan(windows, last, maxBytes, maxLineBytes) == Classify(ExtractSchemaVersions(Remaining(windows, last)), false)
  {
    hide PushLine, Lines, Feed, CrSafe, LinesFit, ByteLength, Classify, ScanFrom;
    assert "" + Remaining(windows, last) == Remaining(windows, last);
    ScanStaysOnCourse(INITIAL, "", 0, windows, last, Remaining(windows, last), maxBytes, maxLineBytes);
  }

  // ---------------------------------------------------------------------------------------------------
  // The chunked scan as it runs
  // ---------------------------------------------------------------------------------------------------

  /** Hand the scanner the complete lines of one window, and carry the partial one. */
  method TakeWindow(scanner: SchemaVersionScanner, text: string) returns (carry: string)
    modifies scanner
    ensures (scanner.Value(), carry) == Window(old(scanner.Value()), text)
  {
    hide PushLine, Lines, Feed;
    var cut := FindLast(text, '\n');
    carry := text[cut..];
    var complete := if cut == 0 then "" else text[..cut - 1];
    if complete != "" { scanner.PushText(complete); }
  }

  /** The loop over the reads. The partial line it holds between two reads is never over the line bound. */
  method ScanForSchemaVersion(windows: seq<Read>, last: string, maxBytes: nat, maxLineBytes: nat)
    returns (finding: Finding, ghost peak: nat)
    ensures finding == Scan(windows, last, maxBytes, maxLineBytes)
    ensures peak <= maxLineBytes
  {
    hide PushLine, Window, ByteLength, Classify;
    var scanner := new SchemaVersionScanner();
    var carry, truncated := "", false;
    var visited: nat := 0;
    peak := 0;
    var i := 0;
    assert windows[0..] == windows;
    while true
      invariant i <= |windows| && peak <= maxLineBytes && !truncated
      invariant ScanFrom(scanner.Value(), carry, visited, windows[i..], last, maxBytes, maxLineBytes)
        == Scan(windows, last, maxBytes, maxLineBytes)
      decreases |windows| - i
    {
      if visited >= maxBytes {
        truncated := true;
        break;
      }
      if i == |windows| { break; }
      if windows[i].Broken? { return Unreadable(UnreadableFile), peak; }
      assert windows[i..][1..] == windows[i + 1..];
      visited := visited + windows[i].bytes;
      carry := TakeWindow(scanner, carry + windows[i].text);
      if ByteLength(carry) > maxLineBytes {
        return Unreadable(TooLongLine), peak;
      }
      peak := if ByteLength(carry) > peak then ByteLength(carry) else peak;
      i := i + 1;
    }
    var tail := carry + last;
    if ByteLength(tail) > maxLineBytes {
      return Unreadable(TooLongLine), peak;
    }
    if tail != "" { scanner.Push(tail); }
    finding := Classify(scanner.found, truncated);
  }
}
