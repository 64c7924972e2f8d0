/**
 The three forms a plain dump writes `schema_meta` in, and the proof that the scanner inverts each of them:
 from any point outside a COPY block it reads exactly the versions printed, in order, and is outside again.
 */
module DumpPrinter {
  import opened Basics
  import opened Text
  import opened DumpScanner

  predicate IsNameChar(c: char) {
    'a' <= c <= 'z' || 'A' <= c <= 'Z' || IsDigit(c) || c == '_'
  }

  /** A column name that needs no quoting. */
  ghost predicate IsName(s: string) {
    s != [] && forall i :: 0 <= i < |s| ==> IsNameChar(s[i])
  }

  /** A column list in which exactly the column at `k` is `version`. */
  ghost predicate NamesVersionAt(columns: seq<string>, k: nat) {
    && k < |columns| && Lower(columns[k]) == "version"
    && (forall i :: 0 <= i < |columns| ==> IsName(columns[i]))
    && (forall i :: 0 <= i < |columns| && i != k ==> Lower(columns[i]) != "version")
  }

  // ---------------------------------------------------------------------------------------------------
  // The printed forms
  // ---------------------------------------------------------------------------------------------------

  /** `COPY public.schema_meta (<columns>) FROM stdin;` */
  function CopyHeader(columns: seq<string>): string
  {
    var end := " " + ("FROM" + (" " + "stdin;"));
    var block := "(" + Join(columns, ", ") + ")" + end;
    "COPY" + (" " + ("public." + ("schema_meta" + (" " + block))))
  }

  function InsertInto(rest: string): string {
    "INSERT" + (" " + ("INTO" + (" " + ("public." + ("schema_meta" + rest)))))
  }

  /** `INSERT INTO public.schema_meta (<columns>) VALUES (<values>);` */
  function ColumnInsert(columns: seq<string>, values: seq<string>): string
  {
    var list := "(" + Join(values, ", ") + ")" + ";";
    var block := "(" + Join(columns, ", ") + ")" + (" " + ("VALUES" + (" " + list)));
    InsertInto(" " + block)
  }

  /** `INSERT INTO public.schema_meta VALUES (<values>);` */
  function PositionalInsert(values: seq<string>): string
  {
    var list := "(" + Join(values, ", ") + ")" + ";";
    InsertInto(" " + ("VALUES" + (" " + list)))
  }

  function CopyRows(rows: seq<seq<string>>): (lines: seq<string>)
    ensures |lines| == |rows|
    ensures forall i :: 0 <= i < |rows| ==> lines[i] == Join(rows[i], "\t")
  {
    seq(|rows|, i requires 0 <= i < |rows| => Join(rows[i], "\t"))
  }

  function CopyBlock(columns: seq<string>, rows: seq<seq<string>>): seq<string>
  {
    [CopyHeader(columns)] + CopyRows(rows) + ["\\."]
  }

  // ---------------------------------------------------------------------------------------------------
  // The patterns match what is printed
  // ---------------------------------------------------------------------------------------------------

  lemma AfterHit(s: string, word: string, rest: string)
    requires Lower(s) == Lower(word)
    ensures DumpScanner.After(s + rest, word) == Some(rest)
  {
    assert |Lower(s)| == |s| && |Lower(word)| == |word|;
    assert (s + rest)[..|word|] == s && (s + rest)[|word|..] == rest;
  }

  lemma AfterMiss(s: string, word: string, i: nat)
    requires i < |word| <= |s| && LowerChar(s[i]) != LowerChar(word[i])
    ensures DumpScanner.After(s, word) == None
  {
    assert Lower(s[..|word|])[i] != Lower(word)[i];
  }

  lemma SpacesHit(rest: string)
    requires rest != [] && !IsSpace(rest[0])
    ensures AfterSpaces(" " + rest) == Some(rest) && TrimStart(" " + rest) == rest == TrimStart(rest)
  {
    assert (" " + rest)[1..] == rest && TrimStart(rest) == rest;
  }

  lemma ParenthesisedHit(inner: string, rest: string)
    requires ')' !in inner
    ensures Parenthesised("(" + inner + ")" + rest) == Some((inner, rest))
  {
    var s := "(" + inner + ")" + rest;
    var tail := s[1..];
    assert tail == inner + ")" + rest;
    assert tail[..|inner|] == inner && tail[|inner|] == ')' && tail[|inner| + 1..] == rest;
    FindIs(tail, ')', |inner|);
  }

  lemma NoParenthesis(s: string)
    requires s == [] || s[0] != '('
    ensures Parenthesised(s) == None
  {
  }

  lemma TableHit(rest: string)
    ensures AfterTable("public." + ("schema_meta" + rest)) == Some(rest)
  {
    AfterHit("public.", "public.", "schema_meta" + rest);
    AfterHit("schema_meta", "schema_meta", rest);
  }

  lemma {:induction false} NoCharInJoin(parts: seq<string>, separator: string, c: char)
    requires parts != [] && c !in separator && forall p :: p in parts ==> c !in p
    ensures c !in Join(parts, separator)
  {
    if |parts| > 1 {
      NoCharInJoin(parts[1..], separator, c);
    }
  }

  lemma CopyHeaderMatches(columns: seq<string>)
    requires columns != [] && forall p :: p in columns ==> ')' !in p
    ensures MatchCopy(CopyHeader(columns)) == Some(Join(columns, ", "))
  {
    hide DumpScanner.After, AfterSpaces, AfterTable, Parenthesised, TrimStart;
    NoCharInJoin(columns, ", ", ')');
    var list := Join(columns, ", ");
    var end := " " + ("FROM" + (" " + "stdin;"));
    var block := "(" + list + ")" + end;
    assert Lower("COPY") == Lower("copy");
    AfterHit("COPY", "copy", " " + ("public." + ("schema_meta" + (" " + block))));
    SpacesHit("public." + ("schema_meta" + (" " + block)));
    TableHit(" " + block);
    SpacesHit(block);
    ParenthesisedHit(list, end);
    SpacesHit("FROM" + (" " + "stdin;"));
    assert Lower("FROM") == Lower("from");
    AfterHit("FROM", "from", " " + "stdin;");
    SpacesHit("stdin;");
    AfterHit("stdin;", "stdin;", "");
    assert "stdin;" + "" == "stdin;";
  }

  lemma InsertHeadMatches(rest: string)
    ensures MatchInsert(InsertInto(rest)) == Some(rest) && MatchCopy(InsertInto(rest)) == None
  {
    hide DumpScanner.After, AfterSpaces, AfterTable, Parenthesised, TrimStart;
    var line := InsertInto(rest);
    assert Lower("INSERT") == Lower("insert");
    AfterHit("INSERT", "insert", " " + ("INTO" + (" " + ("public." + ("schema_meta" + rest)))));
    SpacesHit("INTO" + (" " + ("public." + ("schema_meta" + rest))));
    assert Lower("INTO") == Lower("into");
    AfterHit("INTO", "into", " " + ("public." + ("schema_meta" + rest)));
    SpacesHit("public." + ("schema_meta" + rest));
    TableHit(rest);
    assert line[0] == 'I';
    AfterMiss(line, "copy", 0);
  }

  lemma ColumnInsertMatches(columns: seq<string>, values: seq<string>)
    requires columns != [] && forall p :: p in columns ==> ')' !in p
    requires values != [] && forall p :: p in values ==> ')' !in p
    ensures MatchCopy(ColumnInsert(columns, values)) == None
    ensures MatchInsertWithColumns(ColumnInsert(columns, values)) == Some((Join(columns, ", "), Join(values, ", ")))
  {
    hide DumpScanner.After, AfterSpaces, AfterTable, Parenthesised, TrimStart;
    NoCharInJoin(columns, ", ", ')');
    NoCharInJoin(values, ", ", ')');
    var list := "(" + Join(values, ", ") + ")" + ";";
    var rest := " " + ("VALUES" + (" " + list));
    var block := "(" + Join(columns, ", ") + ")" + rest;
    InsertHeadMatches(" " + block);
    SpacesHit(block);
    ParenthesisedHit(Join(columns, ", "), rest);
    SpacesHit("VALUES" + (" " + list));
    assert Lower("VALUES") == Lower("values");
    AfterHit("VALUES", "values", " " + list);
    SpacesHit(list);
    ParenthesisedHit(Join(values, ", "), ";");
  }

  lemma PositionalInsertMatches(values: seq<string>)
    requires values != [] && forall p :: p in values ==> ')' !in p
    ensures MatchCopy(PositionalInsert(values)) == None
    ensures MatchInsertWithColumns(PositionalInsert(values)) == None
    ensures MatchPositionalInsert(PositionalInsert(values)) == Some(Join(values, ", "))
  {
    hide DumpScanner.After, AfterSpaces, AfterTable, Parenthesised, TrimStart, Join;
    NoParenthesis("VALUES" + (" " + ("(" + Join(values, ", ") + ")" + ";")));
    NoCharInJoin(values, ", ", ')');
    var list := "(" + Join(values, ", ") + ")" + ";";
    var rest := "VALUES" + (" " + list);
    InsertHeadMatches(" " + rest);
    SpacesHit(rest);
    assert rest[0] == 'V';
    assert Lower("VALUES") == Lower("values");
    AfterHit("VALUES", "values", " " + list);
    SpacesHit(list);
    ParenthesisedHit(Join(values, ", "), ";");
  }

  // ---------------------------------------------------------------------------------------------------
  // Lists separated by a comma and a space
  // ---------------------------------------------------------------------------------------------------

  function Padded(parts: seq<string>): seq<string> {
    seq(|parts|, i requires 0 <= i < |parts| => if i == 0 then parts[i] else " " + parts[i])
  }

  lemma JoinShifted(first: string, rest: seq<string>)
    ensures Join([" " + first] + rest, ", ") == " " + Join([first] + rest, ", ")
  {
    assert ([" " + first] + rest)[1..] == rest && ([first] + rest)[1..] == rest;
  }

  lemma JoinCommaSpace(parts: seq<string>)
    requires |parts| > 1
    ensures Join(parts, ", ") == parts[0] + [','] + Join([" " + parts[1]] + parts[2..], ", ")
  {
    JoinShifted(parts[1], parts[2..]);
    assert [parts[1]] + parts[2..] == parts[1..];
  }

  lemma JoinOfOne(parts: seq<string>)
    requires |parts| == 1
    ensures Join(parts, ", ") == parts[0] && Padded(parts) == [parts[0]]
  {
  }

  lemma PaddedStep(parts: seq<string>)
    requires |parts| > 1
    ensures Padded(parts) == [parts[0]] + Padded([" " + parts[1]] + parts[2..])
  {
  }

  lemma ShiftedHasNoComma(parts: seq<string>)
    requires |parts| > 1 && forall p :: p in parts ==> ',' !in p
    ensures forall p :: p in [" " + parts[1]] + parts[2..] ==> ',' !in p
  {
    assert parts[1] in parts && forall p :: p in parts[2..] ==> p in parts;
  }

  lemma {:induction false} SplitCommaSpace(parts: seq<string>)
    requires parts != [] && forall p :: p in parts ==> ',' !in p
    ensures Split(Join(parts, ", "), ',') == Padded(parts)
    decreases |parts|
  {
    hide Split, Join, Padded;
    assert parts[0] in parts;
    if |parts| == 1 {
      JoinOfOne(parts);
      SplitOne(parts[0], ',');
    } else {
      var shifted := [" " + parts[1]] + parts[2..];
      PaddedStep(parts);
      JoinCommaSpace(parts);
      ShiftedHasNoComma(parts);
      SplitStep(parts[0], Join(shifted, ", "), ',');
      SplitCommaSpace(shifted);
    }
  }

  lemma NameFacts(s: string)
    requires IsName(s)
    ensures IsTrimmed(s) && ',' !in s && ')' !in s && ColumnName(s) == ColumnName(" " + s) == Lower(s)
  {
    assert IsNameChar(s[0]) && IsNameChar(s[|s| - 1]);
    TrimOfPadded(s);
  }

  lemma ColumnIndexOfPrinted(columns: seq<string>, k: nat)
    requires NamesVersionAt(columns, k)
    ensures ColumnIndex(Join(columns, ", ")) == Some(k)
    ensures forall p :: p in columns ==> ')' !in p
  {
    forall i | 0 <= i < |columns|
      ensures ')' !in columns[i] && ',' !in columns[i] && ColumnName(Padded(columns)[i]) == Lower(columns[i])
    {
      NameFacts(columns[i]);
    }
    SplitCommaSpace(columns);
    var names := MapNames(Padded(columns));
    assert names[k] == "version";
    assert forall i :: 0 <= i < k ==> names[i] == Lower(columns[i]);
    IndexOfUnique(names, "version", k);
  }

  lemma TrimmedValues(values: seq<string>)
    requires values != [] && forall p :: p in values ==> ',' !in p && IsTrimmed(p)
    ensures MapTrim(Split(Join(values, ", "), ',')) == values
  {
    SplitCommaSpace(values);
    forall i | 0 <= i < |values| ensures Trim(Padded(values)[i]) == values[i] {
      assert values[i] in values;
      TrimOfPadded(values[i]);
    }
  }

  // ---------------------------------------------------------------------------------------------------
  // The scanner inverts the printer
  // ---------------------------------------------------------------------------------------------------

  /** A row for a list of columns: digits in the version cell, and no cell with a character that ends a cell or a line. */
  ghost predicate IsRow(row: seq<string>, width: nat, k: nat) {
    && |row| == width && k < width && AllDigits(row[k])
    && forall c :: c in row ==> '\t' !in c && '\n' !in c && '\r' !in c
  }

  function VersionOf(row: seq<string>, k: nat): nat {
    if k < |row| then ParseNat(row[k]) else 0
  }

  function Versions(rows: seq<seq<string>>, k: nat): seq<nat> {
    seq(|rows|, i requires 0 <= i < |rows| => VersionOf(rows[i], k))
  }

  lemma RowIsRead(st: State, row: seq<string>, width: nat, k: nat)
    requires st.inCopy && st.copyVersionIndex == Some(k) && IsRow(row, width, k)
    ensures PushLine(st, Join(row, "\t")) == st.(found := st.found + [ParseNat(row[k])])
  {
    var line := Join(row, "\t");
    SplitJoin(row, '\t');
    FindIs("\\.", '\t', 2);
    FindIs("", '\t', 0);
    assert Split("\\.", '\t') == ["\\."] && Split("", '\t') == [""];
    assert !IsDigit("\\."[0]);
    assert line != "\\." && line != "";
  }

  lemma {:induction false} RowsAreRead(st: State, rows: seq<seq<string>>, width: nat, k: nat)
    requires st.inCopy && st.copyVersionIndex == Some(k) && forall r :: r in rows ==> IsRow(r, width, k)
    ensures Feed(st, CopyRows(rows)) == st.(found := st.found + Versions(rows, k))
  {
    hide PushLine;
    if rows == [] {
      assert st.found + Versions(rows, k) == st.found;
    } else {
      var front, row := rows[..|rows| - 1], rows[|rows| - 1];
      assert row in rows;
      RowsAreRead(st, front, width, k);
      assert CopyRows(rows) == CopyRows(front) + [Join(row, "\t")];
      assert Versions(rows, k) == Versions(front, k) + [VersionOf(row, k)];
      FeedConcat(st, CopyRows(front), [Join(row, "\t")]);
      RowIsRead(Feed(st, CopyRows(front)), row, width, k);
      FeedOne(Feed(st, CopyRows(front)), Join(row, "\t"));
    }
  }

  lemma FeedOne(st: State, line: string)
    ensures Feed(st, [line]) == PushLine(st, line)
  {
    hide PushLine;
    assert [line][1..] == [];
  }

  /** A COPY block read from outside any block yields its versions in order, and leaves the scanner outside again. */
  lemma CopyBlockIsInverted(st: State, columns: seq<string>, rows: seq<seq<string>>, k: nat)
    requires !st.inCopy && st.copyVersionIndex == None && NamesVersionAt(columns, k)
    requires forall r :: r in rows ==> IsRow(r, |columns|, k)
    ensures Feed(st, CopyBlock(columns, rows)) == st.(found := st.found + Versions(rows, k))
  {
    ColumnIndexOfPrinted(columns, k);
    CopyHeaderMatches(columns);
    var open := st.(inCopy := true, copyVersionIndex := Some(k));
    assert PushLine(st, CopyHeader(columns)) == open;
    RowsAreRead(open, rows, |columns|, k);
    var full := open.(found := st.found + Versions(rows, k));
    assert PushLine(full, "\\.") == st.(found := st.found + Versions(rows, k));
    hide PushLine, Feed;
    FeedConcat(st, [CopyHeader(columns)] + CopyRows(rows), ["\\."]);
    FeedConcat(st, [CopyHeader(columns)], CopyRows(rows));
    FeedOne(st, CopyHeader(columns));
    FeedOne(full, "\\.");
  }

  /** A value of an INSERT: no comma and no parenthesis in it, and no white space around it. */
  ghost predicate IsValue(s: string) {
    IsTrimmed(s) && ',' !in s && ')' !in s
  }

  lemma ColumnInsertIsInverted(st: State, columns: seq<string>, values: seq<string>, k: nat)
    requires !st.inCopy && NamesVersionAt(columns, k) && |values| == |columns|
    requires (forall v :: v in values ==> IsValue(v)) && AllDigits(values[k])
    ensures PushLine(st, ColumnInsert(columns, values)) == st.(found := st.found + [ParseNat(values[k])])
  {
    ColumnIndexOfPrinted(columns, k);
    ColumnInsertMatches(columns, values);
    TrimmedValues(values);
  }

  lemma PositionalInsertIsInverted(st: State, values: seq<string>)
    requires !st.inCopy && |values| >= 2 && (forall v :: v in values ==> IsValue(v)) && AllDigits(values[1])
    ensures PushLine(st, PositionalInsert(values)) == st.(found := st.found + [ParseNat(values[1])])
  {
    PositionalInsertMatches(values);
    TrimmedValues(values);
  }

  // ---------------------------------------------------------------------------------------------------
  // Whole texts
  // ---------------------------------------------------------------------------------------------------

  /** The lines of a text are the lines it was joined from, when none of them holds a character that ends one. */
  lemma {:induction false} LinesOfJoined(lines: seq<string>)
    requires lines != [] && forall l :: l in lines ==> '\n' !in l && '\r' !in l
    ensures Lines(Join(lines, "\n")) == lines && NoCrLf(Join(lines, "\n"))
    decreases |lines|
  {
    NoCharInJoin(lines, "\n", '\r');
    if |lines| == 1 {
      FindIs(lines[0], '\n', |lines[0]|);
    } else {
      assert lines[0] in lines;
      LinesOfJoined(lines[1..]);
      LinesStep(lines[0], Join(lines[1..], "\n"));
    }
  }

  lemma NamesAreClean(columns: seq<string>, k: nat)
    requires NamesVersionAt(columns, k)
    ensures forall i :: 0 <= i < |columns| ==> '\n' !in columns[i] && '\r' !in columns[i]
  {
    forall i | 0 <= i < |columns| ensures '\n' !in columns[i] && '\r' !in columns[i] {
      assert forall j :: 0 <= j < |columns[i]| ==> IsNameChar(columns[i][j]);
    }
  }

  lemma NotInEither(a: string, b: string, c: char)
    requires c !in a && c !in b
    ensures c !in a + b
  {
  }

  lemma HeaderWithout(columns: seq<string>, c: char)
    requires c == '\n' || c == '\r'
    requires c !in Join(columns, ", ")
    ensures c !in CopyHeader(columns)
  {
    hide Join;
    var end := " " + ("FROM" + (" " + "stdin;"));
    var names := "(" + Join(columns, ", ") + ")";
    var block := names + end;
    assert c !in end && c !in names;
    NotInEither(names, end, c);
    NotInEither(" ", block, c);
    NotInEither("schema_meta", " " + block, c);
    NotInEither("public.", "schema_meta" + (" " + block), c);
    NotInEither(" ", "public." + ("schema_meta" + (" " + block)), c);
    NotInEither("COPY", " " + ("public." + ("schema_meta" + (" " + block))), c);
  }

  lemma HeaderIsClean(columns: seq<string>, k: nat)
    requires NamesVersionAt(columns, k)
    ensures '\n' !in CopyHeader(columns) && '\r' !in CopyHeader(columns)
  {
    NamesAreClean(columns, k);
    hide Join, CopyHeader;
    NoCharInJoin(columns, ", ", '\n');
    NoCharInJoin(columns, ", ", '\r');
    HeaderWithout(columns, '\n');
    HeaderWithout(columns, '\r');
  }

  lemma RowLineIsClean(row: seq<string>, width: nat, k: nat)
    requires IsRow(row, width, k)
    ensures '\n' !in Join(row, "\t") && '\r' !in Join(row, "\t")
  {
    assert forall i :: 0 <= i < |row| ==> row[i] in row;
    hide Join;
    NoCharInJoin(row, "\t", '\n');
    NoCharInJoin(row, "\t", '\r');
  }

  lemma BlockLinesAreClean(columns: seq<string>, rows: seq<seq<string>>, k: nat)
    requires NamesVersionAt(columns, k) && forall r :: r in rows ==> IsRow(r, |columns|, k)
    ensures forall l :: l in CopyBlock(columns, rows) ==> '\n' !in l && '\r' !in l
  {
    hide Join, MatchCopy, CopyHeader, NamesVersionAt, IsRow;
    HeaderIsClean(columns, k);
    forall i | 0 <= i < |rows| ensures '\n' !in Join(rows[i], "\t") && '\r' !in Join(rows[i], "\t") {
      assert rows[i] in rows;
      RowLineIsClean(rows[i], |columns|, k);
    }
  }

  /**
   A dump that holds one printed COPY block reads back as exactly the printed versions, by the whole-text
   parser and, as it has no carriage return before a line feed, by a scan in windows of any sizes.
   */
  lemma PrintedDumpReadsBack(columns: seq<string>, rows: seq<seq<string>>, k: nat)
    requires NamesVersionAt(columns, k) && forall r :: r in rows ==> IsRow(r, |columns|, k)
    ensures
      var text := Join(CopyBlock(columns, rows), "\n");
      ExtractSchemaVersions(text) == Versions(rows, k) && CrSafe(INITIAL, text)
  {
    BlockLinesAreClean(columns, rows, k);
    LinesOfJoined(CopyBlock(columns, rows));
    CopyBlockIsInverted(INITIAL, columns, rows, k);
    hide PushLine;
    TextWithoutCrLfIsSafe(INITIAL, Join(CopyBlock(columns, rows), "\n"));
  }

  // ---------------------------------------------------------------------------------------------------
  // A dump on which the read sizes decide the answer
  // ---------------------------------------------------------------------------------------------------

  const TERMINATED: string := "\\.\r\n"

  /** A COPY block with one row, its terminator ended by a carriage return and a line feed. */
  function CrBlock(): string {
    CopyHeader(["version"]) + "\n" + ("1" + "\n" + TERMINATED)
  }

  lemma JustVersion()
    ensures NamesVersionAt(["version"], 0) && ')' !in "version"
  {
    assert Lower("version") == "version";
  }

  lemma VersionHeaderOpens()
    ensures PushLine(INITIAL, CopyHeader(["version"])) == State([], true, Some(0))
    ensures '\n' !in CopyHeader(["version"]) && Chomp(CopyHeader(["version"])) == CopyHeader(["version"])
  {
    hide CopyHeader, MatchCopy, ColumnIndex, Join, NamesVersionAt;
    var columns := ["version"];
    JustVersion();
    ColumnIndexOfPrinted(columns, 0);
    CopyHeaderMatches(columns);
    HeaderIsClean(columns, 0);
    var header := CopyHeader(columns);
    assert header != [] ==> header[|header| - 1] in header;
  }

  lemma SmallLines()
    ensures PushLine(State([], true, Some(0)), "1") == State([1], true, Some(0))
    ensures PushLine(State([1], true, Some(0)), "\\.\r") == State([1], true, Some(0))
    ensures PushLine(State([1], true, Some(0)), "\\.") == State([1], false, None)
    ensures PushLine(State([1], true, Some(0)), "2") == State([1, 2], true, Some(0))
    ensures PushLine(State([1], false, None), "2") == State([1], false, None)
    ensures PushLine(State([1], false, None), "") == State([1], false, None)
  {
    SplitOne("1", '\t');
    SplitOne("2", '\t');
    SplitOne("\\.\r", '\t');
    assert !IsDigit("\\.\r"[0]);
    assert IsDigit("1"[0]) && IsDigit("2"[0]);
    assert "1"[..0] == "" && "2"[..0] == "";
    assert ParseNat("1") == 1 && ParseNat("2") == 2;
  }

  /** Whole, the text has one version: the line after the block is not in it. */
  lemma WholeFindsOne()
    ensures ExtractSchemaVersions(CrBlock() + "2\n") == [1]
  {
    VersionHeaderOpens();
    SmallLines();
    hide PushLine, Lines, Feed, CopyHeader;
    var header := CopyHeader(["version"]);
    assert CrBlock() + "2\n" == header + "\n" + ("1" + "\n" + ("\\.\r" + "\n" + ("2" + "\n" + "")));
    assert Chomp("1") == "1" && Chomp("\\.\r") == "\\." && Chomp("2") == "2";
    FeedStep(INITIAL, header, "1" + "\n" + ("\\.\r" + "\n" + ("2" + "\n" + "")));
    FeedStep(State([], true, Some(0)), "1", "\\.\r" + "\n" + ("2" + "\n" + ""));
    FeedStep(State([1], true, Some(0)), "\\.\r", "2" + "\n" + "");
    FeedStep(State([1], false, None), "2", "");
    FeedLast(State([1], false, None), "");
  }

  lemma FirstWindowStaysOpen()
    ensures Window(INITIAL, "" + CrBlock()) == (State([1], true, Some(0)), "")
  {
    VersionHeaderOpens();
    SmallLines();
    hide PushLine, Lines, Feed, CopyHeader, FindLast;
    var header := CopyHeader(["version"]);
    var complete := header + "\n" + ("1" + "\n" + "\\.\r");
    var text := "" + CrBlock();
    assert text == complete + "\n";
    LastFeed(complete);
    assert Chomp("1") == "1";
    FeedStep(INITIAL, header, "1" + "\n" + "\\.\r");
    FeedStep(State([], true, Some(0)), "1", "\\.\r");
    FeedLast(State([1], true, Some(0)), "\\.\r");
    assert text[..|text| - 1] == complete && text[|text|..] == "";
  }

  lemma LastFeed(complete: string)
    ensures FindLast(complete + "\n", '\n') == |complete| + 1
  {
  }

  lemma SecondWindowReadsOn()
    ensures Window(State([1], true, Some(0)), "" + "2\n") == (State([1, 2], true, Some(0)), "")
  {
    SmallLines();
    hide PushLine, Lines, Feed, FindLast;
    assert "" + "2\n" == "2" + "\n";
    LastFeed("2");
    FeedLast(State([1], true, Some(0)), "2");
    assert "2\n"[..1] == "2" && "2\n"[2..] == "";
  }

  /** The scan has both versions in hand and nothing more to read. */
  lemma BothIsAmbiguous(visited: nat, maxBytes: nat, maxLineBytes: nat)
    requires visited < maxBytes
    ensures ScanFrom(State([1, 2], true, Some(0)), "", visited, [], "", maxBytes, maxLineBytes) == Ambiguous({1, 2})
    ensures Classify([1], false) == Found(1)
  {
    hide PushLine;
    assert "" + "" == "" && ByteLength("") == 0;
    assert [1, 2][1] != [1, 2][0];
    assert (set v | v in [1, 2]) == {1, 2};
  }

  /** One turn of the scan on a window that ends with a line feed. */
  lemma WholeWindow(st: State, next: State, visited: nat, window: Read, rest: seq<Read>, maxBytes: nat, maxLineBytes: nat)
    requires window.Chunk? && Window(st, "" + window.text) == (next, "") && visited < maxBytes
    ensures ScanFrom(st, "", visited, [window] + rest, "", maxBytes, maxLineBytes)
      == ScanFrom(next, "", visited + window.bytes, rest, "", maxBytes, maxLineBytes)
  {
    hide Window, Finish;
    assert ([window] + rest)[1..] == rest;
    assert ByteLength("") == 0;
  }

  /**
   So the safety hypothesis is needed: on this dump, read in one window up to the end of the block and one after
   it, the chunked scan goes on reading rows and finds two versions where the whole-text parser finds one.
   */
  lemma ReadSizesCanDecide(maxBytes: nat, maxLineBytes: nat)
    requires |CrBlock()| + 2 < maxBytes
    ensures
      var windows := [Chunk(|CrBlock()|, CrBlock()), Chunk(2, "2\n")];
      && Remaining(windows, "") == CrBlock() + "2\n"
      && Scan(windows, "", maxBytes, maxLineBytes) == Ambiguous({1, 2})
      && Classify(ExtractSchemaVersions(Remaining(windows, "")), false) == Found(1)
  {
    hide Window, CrBlock, ExtractSchemaVersions, Classify, ScanFrom;
    var block, last := Chunk(|CrBlock()|, CrBlock()), Chunk(2, "2\n");
    WholeFindsOne();
    FirstWindowStaysOpen();
    SecondWindowReadsOn();
    assert [block, last] == [block] + [last] && [last] == [last] + [];
    assert [block, last][1..] == [last] && [last][1..] == [];
    assert Remaining([], "") == "";
    assert Remaining([last], "") == "2\n";
    BothIsAmbiguous(|CrBlock()| + 2, maxBytes, maxLineBytes);
    var open, both := State([1], true, Some(0)), State([1, 2], true, Some(0));
    WholeWindow(INITIAL, open, 0, block, [last], maxBytes, maxLineBytes);
    WholeWindow(open, both, |CrBlock()|, last, [], maxBytes, maxLineBytes);
  }
}
