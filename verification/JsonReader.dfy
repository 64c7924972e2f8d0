/**
 A reader of JSON texts without white space, by RFC 8259 and not by the serialiser, and that every canonical text
 is such a text and reads back as the value it was written from.
 */
module JsonReader {
  import opened Basics
  import Text
  import opened CanonicalJson

  // ---------------------------------------------------------------------------------------------------
  // The reader
  // ---------------------------------------------------------------------------------------------------

  function HexValue(c: char): Option<nat> {
    if '0' <= c <= '9' then Some(c as nat - '0' as nat)
    else if 'a' <= c <= 'f' then Some(c as nat - 'a' as nat + 10)
    else if 'A' <= c <= 'F' then Some(c as nat - 'A' as nat + 10)
    else None
  }

  /** The character four hexadecimal digits stand for, unless they are half of a surrogate pair. */
  function ReadHex(t: string): Option<char>
    requires |t| == 4
  {
    var a :- HexValue(t[0]);
    var b :- HexValue(t[1]);
    var c :- HexValue(t[2]);
    var d :- HexValue(t[3]);
    var code := a * 4096 + b * 256 + c * 16 + d;
    if code < 0xD800 || 0xE000 <= code < 0x10000 then Some(code as char) else None
  }

  /** The character an escape of one letter stands for (section 7). */
  function ReadLetter(c: char): Option<char> {
    if c == '"' || c == '\\' || c == '/' then Some(c)
    else if c == 'b' then Some(8 as char)
    else if c == 'f' then Some(12 as char)
    else if c == 'n' then Some(10 as char)
    else if c == 'r' then Some(13 as char)
    else if c == 't' then Some(9 as char)
    else None
  }

  /** One character inside a string: itself, or what an escape stands for. */
  function ReadChar(t: string): (r: Option<(char, string)>)
    ensures r.Some? ==> |r.value.1| < |t|
  {
    if t == "" || t[0] < ' ' || t[0] == '"' then None
    else if t[0] != '\\' then Some((t[0], t[1..]))
    else if |t| >= 6 && t[1] == 'u' then
      var c :- ReadHex(t[2..6]);
      Some((c, t[6..]))
    else if |t| >= 2 then
      var c :- ReadLetter(t[1]);
      Some((c, t[2..]))
    else None
  }

  /** The rest of a string, up to and including its closing quotation mark. */
  function ReadString(t: string): (r: Option<(string, string)>)
    ensures r.Some? ==> |r.value.1| < |t|
    decreases |t|
  {
    if t != "" && t[0] == '"' then Some(("", t[1..]))
    else
      var c :- ReadChar(t);
      var s :- ReadString(c.1);
      Some(([c.0] + s.0, s.1))
  }

  function DigitsIn(t: string): (k: nat)
    ensures k <= |t|
  {
    if t != "" && Text.IsDigit(t[0]) then 1 + DigitsIn(t[1..]) else 0
  }

  /** A number without a sign, a fraction or an exponent; a leading zero stands alone (section 6). */
  function ReadNat(t: string): (r: Option<(nat, string)>)
    ensures r.Some? ==> |r.value.1| < |t|
  {
    var k := DigitsIn(t);
    if k == 0 || (k > 1 && t[0] == '0') then None else Some((Text.ParseNat(t[..k]), t[k..]))
  }

  function ReadValue(t: string): (r: Option<(Value, string)>)
    ensures r.Some? ==> |r.value.1| < |t|
    decreases |t|, 0
  {
    if "null" <= t then Some((Null, t[4..]))
    else if "true" <= t then Some((Bool(true), t[4..]))
    else if "false" <= t then Some((Bool(false), t[5..]))
    else if t == "" then None
    else if t[0] == '"' then
      var s :- ReadString(t[1..]);
      Some((Str(s.0), s.1))
    else if t[0] == '-' then
      var n :- ReadNat(t[1..]);
      Some((Int(0 - n.0), n.1))
    else if Text.IsDigit(t[0]) then
      var n :- ReadNat(t);
      Some((Int(n.0), n.1))
    else if t[0] == '[' then
      if |t| > 1 && t[1] == ']' then Some((Arr([]), t[2..]))
      else
        var xs :- ReadItems(t[1..]);
        Some((Arr(xs.0), xs.1))
    else if t[0] == '{' then
      if |t| > 1 && t[1] == '}' then Some((Rec([]), t[2..]))
      else
        var fs :- ReadMembers(t[1..]);
        Some((Rec(fs.0), fs.1))
    else None
  }

  /** One value and the values after it, up to and including the closing bracket. */
  function ReadItems(t: string): (r: Option<(seq<Value>, string)>)
    ensures r.Some? ==> |r.value.1| < |t|
    decreases |t|, 1
  {
    var v :- ReadValue(t);
    if v.1 != "" && v.1[0] == ']' then Some(([v.0], v.1[1..]))
    else if v.1 != "" && v.1[0] == ',' then
      var xs :- ReadItems(v.1[1..]);
      Some(([v.0] + xs.0, xs.1))
    else None
  }

  /** One member and the members after it, up to and including the closing brace. */
  function ReadMembers(t: string): (r: Option<(seq<Field>, string)>)
    ensures r.Some? ==> |r.value.1| < |t|
    decreases |t|, 1
  {
    if t == "" || t[0] != '"' then None
    else
      var key :- ReadString(t[1..]);
      if key.1 == "" || key.1[0] != ':' then None
      else
        var v :- ReadValue(key.1[1..]);
        var f := Field(key.0, Some(v.0));
        if v.1 != "" && v.1[0] == '}' then Some(([f], v.1[1..]))
        else if v.1 != "" && v.1[0] == ',' then
          var fs :- ReadMembers(v.1[1..]);
          Some(([f] + fs.0, fs.1))
        else None
  }

  // ---------------------------------------------------------------------------------------------------
  // Strings and numbers
  // ---------------------------------------------------------------------------------------------------

  lemma HexReadsBack(d: nat)
    requires d < 16
    ensures HexValue(HexDigit(d)) == Some(d)
  {
  }

  lemma ReadsEscaped(c: char, x: string)
    ensures ReadChar(Escape(c) + x) == Some((c, x))
  {
    hide HexDigit, HexValue, ReadHex;
    var e, t := Escape(c), Escape(c) + x;
    assert t[0] == e[0] && t[|e|..] == x;
    if |e| > 1 { assert t[1] == e[1]; }
    if |e| == 6 {
      assert t[2..6] == "00" + [HexDigit(c as nat / 16), HexDigit(c as nat % 16)] by {
        assert t[2] == e[2] && t[3] == e[3] && t[4] == e[4] && t[5] == e[5];
      }
      ControlReadsBack(c);
    }
  }

  lemma ControlReadsBack(c: char)
    requires c < ' '
    ensures ReadHex("00" + [HexDigit(c as nat / 16), HexDigit(c as nat % 16)]) == Some(c)
  {
    hide HexDigit;
    HexReadsBack(c as nat / 16);
    HexReadsBack(c as nat % 16);
  }

  lemma {:induction false} ReadsQuoted(s: string, x: string)
    ensures ReadString(EscapeAll(s) + "\"" + x) == Some((s, x))
  {
    hide Escape, ReadChar;
    var t := EscapeAll(s) + "\"" + x;
    QuoteEndsFirst(s, x);
    if s == [] {
      assert t[1..] == x;
    } else {
      var more := EscapeAll(s[1..]) + "\"" + x;
      assert t == Escape(s[0]) + more;
      ReadsEscaped(s[0], more);
      ReadsQuoted(s[1..], x);
      assert s == [s[0]] + s[1..];
    }
  }

  lemma {:induction false} DigitsAreCounted(d: string, x: string)
    requires (forall i :: 0 <= i < |d| ==> Text.IsDigit(d[i])) && Ends(x)
    ensures DigitsIn(d + x) == |d|
  {
    if d == "" {
      assert d + x == x;
    } else {
      DigitsAreCounted(d[1..], x);
      assert (d + x)[0] == d[0] && (d + x)[1..] == d[1..] + x;
    }
  }

  lemma {:induction false} DecimalReadsBack(n: nat)
    ensures Text.ParseNat(Decimal(n)) == n
    ensures Decimal(n)[0] == '0' ==> |Decimal(n)| == 1
    ensures n > 0 ==> Decimal(n)[0] != '0'
  {
    if n >= 10 {
      DecimalReadsBack(n / 10);
      var d := Decimal(n);
      assert d[..|d| - 1] == Decimal(n / 10) && d[|d| - 1] == Digit(n % 10);
      DecimalIsDigits(n / 10);
      assert d[0] == Decimal(n / 10)[0];
    } else {
      assert Decimal(n)[..0] == "";
    }
  }

  lemma ReadsDecimal(n: nat, x: string)
    requires Ends(x)
    ensures ReadNat(Decimal(n) + x) == Some((n, x))
    ensures (Decimal(n) + x)[0] == Decimal(n)[0] && Text.IsDigit((Decimal(n) + x)[0])
  {
    hide Decimal, DigitsIn, Text.ParseNat;
    DecimalIsDigits(n);
    DigitsAreCounted(Decimal(n), x);
    DecimalReadsBack(n);
    var t := Decimal(n) + x;
    assert t[..|Decimal(n)|] == Decimal(n) && t[|Decimal(n)|..] == x;
  }

  lemma ReadsSigned(t: string)
    requires t != "" && !("null" <= t) && !("true" <= t) && !("false" <= t)
    ensures t[0] == '-' && ReadNat(t[1..]).Some? ==>
      ReadValue(t) == Some((Int(0 - ReadNat(t[1..]).value.0), ReadNat(t[1..]).value.1))
    ensures Text.IsDigit(t[0]) && ReadNat(t).Some? ==> ReadValue(t) == Some((Int(ReadNat(t).value.0), ReadNat(t).value.1))
  {
    hide ReadNat, ReadString, ReadItems, ReadMembers;
  }

  lemma ReadsInt(n: int, x: string)
    requires Ends(x)
    ensures ReadValue(IntText(n) + x) == Some((Int(n), x))
  {
    hide Decimal, ReadNat, ReadValue;
    var t := IntText(n) + x;
    if n < 0 {
      ReadsDecimal(-n, x);
      assert t[0] == '-' && t[1..] == Decimal(-n) + x;
    } else {
      ReadsDecimal(n, x);
    }
    NoWordBegins(t);
    ReadsSigned(t);
  }

  // ---------------------------------------------------------------------------------------------------
  // Values
  // ---------------------------------------------------------------------------------------------------

  lemma NoWordBegins(t: string)
    requires t != "" && t[0] != 'n' && t[0] != 't' && t[0] != 'f'
    ensures !("null" <= t) && !("true" <= t) && !("false" <= t)
  {
    PrefixHead("null", t);
    PrefixHead("true", t);
    PrefixHead("false", t);
  }

  lemma PrefixHead(word: string, t: string)
    requires word != "" && t != "" && word[0] != t[0]
    ensures !(word <= t)
  {
  }

  lemma ReadsWord(word: string, v: Value, x: string)
    requires (word, v) in {("null", Null), ("true", Bool(true)), ("false", Bool(false))}
    ensures ReadValue(word + x) == Some((v, x))
  {
    var t := word + x;
    assert t[..|word|] == word && t[|word|..] == x;
    assert t[0] == word[0];
  }

  lemma ReadsStr(s: string, x: string)
    ensures ReadValue(Quote(s) + x) == Some((Str(s), x))
  {
    hide EscapeAll, ReadString;
    Regroup("\"", EscapeAll(s), "\"", x);
    ReadsQuoted(s, x);
    var t := Quote(s) + x;
    NoWordBegins(t);
    assert t[0] == '"' && t[1..] == EscapeAll(s) + "\"" + x;
  }

  /** The head of a text that opens a list or a record. */
  lemma Opens(open: string, body: string, close: string, x: string)
    requires |open| == 1
    ensures var t := (open + body + close) + x; t[0] == open[0] && t[1..] == body + close + x
  {
    Regroup(open, body, close, x);
  }

  /** Whatever follows it, a canonical text is read to its end, and what is read is the value it was written from. */
  lemma {:induction false} ReadsValue(v: Value, x: string) returns (w: Value)
    requires Proper(v) && Ends(x)
    ensures ReadValue(Canonical(v) + x) == Some((w, x)) && Same(v, w) && Proper(w)
    decreases v
  {
    hide ReadString, ReadItems, ReadMembers, Items, Members, Sort, Written;
    match v {
      case Null =>
        ReadsWord("null", v, x);
        w := v;
      case Bool(b) =>
        ReadsWord(if b then "true" else "false", v, x);
        w := v;
      case Int(n) =>
        ReadsInt(n, x);
        w := v;
      case Str(s) =>
        ReadsStr(s, x);
        w := v;
      case Arr(xs) =>
        w := ReadsArr(xs, x);
      case Rec(f) =>
        w := ReadsRec(f, x);
    }
  }

  lemma ReadsBrackets(t: string)
    requires |t| > 1 && t[0] == '['
    ensures t[1] == ']' ==> ReadValue(t) == Some((Arr([]), t[2..]))
    ensures t[1] != ']' && ReadItems(t[1..]).Some? ==>
      ReadValue(t) == Some((Arr(ReadItems(t[1..]).value.0), ReadItems(t[1..]).value.1))
  {
    hide ReadMembers, ReadItems, ReadString, ReadNat;
    NoWordBegins(t);
  }

  lemma {:induction false} ReadsArr(xs: seq<Value>, x: string) returns (w: Value)
    requires Proper(Arr(xs)) && Ends(x)
    ensures ReadValue(Canonical(Arr(xs)) + x) == Some((w, x)) && Same(Arr(xs), w) && Proper(w)
    decreases xs, 1
  {
    hide ReadItems, ReadValue, Items;
    var t := Canonical(Arr(xs)) + x;
    Opens("[", Items(xs), "]", x);
    ItemsShape(xs, x);
    assert t[0] == '[' && t[1..] == Items(xs) + "]" + x && t[1] == t[1..][0];
    ReadsBrackets(t);
    var ws := [];
    if xs != [] {
      ws := ReadsItems(xs, x);
    } else {
      assert t[2..] == t[1..][1..] == x;
    }
    w := Arr(ws);
  }

  lemma {:induction false} ReadsItems(xs: seq<Value>, x: string) returns (ws: seq<Value>)
    requires xs != [] && (forall i :: 0 <= i < |xs| ==> Proper(xs[i])) && Ends(x)
    ensures ReadItems(Items(xs) + "]" + x) == Some((ws, x)) && |ws| == |xs|
    ensures forall i :: 0 <= i < |xs| ==> Same(xs[i], ws[i]) && Proper(ws[i])
    decreases xs, 0
  {
    hide Canonical, ReadValue, Items, MoreItems, Proper, Same;
    var more := MoreItems(xs) + "]" + x;
    ItemsShape(xs, x);
    MoreItemsShape(xs, x);
    var first := ReadsValue(xs[0], more);
    if |xs| == 1 {
      ws := [first];
      assert more[1..] == x;
    } else {
      var rest := ReadsItems(xs[1..], x);
      ws := [first] + rest;
      assert more[0] == ',' && more[1..] == Items(xs[1..]) + "]" + x;
      assert forall i :: 1 <= i < |xs| ==> xs[i] == xs[1..][i - 1] && ws[i] == rest[i - 1];
    }
  }

  /** The fields read have the keys and the texts of the members written. */
  ghost predicate ReadFrom(gs: seq<Field>, ms: seq<Member>) {
    && |gs| == |ms|
    && forall j :: 0 <= j < |ms| ==>
         gs[j].value.Some? && Proper(gs[j].value.value) && ms[j] == Member(gs[j].key, Canonical(gs[j].value.value))
  }

  /** What a text that begins with a member is read as, once its key and its value are. */
  lemma ReadsOneMember(t: string, key: string, afterKey: string, w: Value, after: string)
    requires t != "" && t[0] == '"' && ReadString(t[1..]) == Some((key, afterKey))
    requires afterKey != "" && afterKey[0] == ':' && ReadValue(afterKey[1..]) == Some((w, after)) && after != ""
    ensures after[0] == '}' ==> ReadMembers(t) == Some(([Field(key, Some(w))], after[1..]))
    ensures after[0] == ',' && ReadMembers(after[1..]).Some? ==>
      var more := ReadMembers(after[1..]).value;
      ReadMembers(t) == Some(([Field(key, Some(w))] + more.0, more.1))
  {
    hide ReadString, ReadValue;
  }

  lemma ReadsKey(ms: seq<Member>, x: string)
    requires ms != []
    ensures
      var t := Members(ms) + "}" + x;
      && t != "" && AfterKey(ms, x) != "" && AfterText(ms, x) != ""
      && t[0] == '"' && ReadString(t[1..]) == Some((ms[0].key, AfterKey(ms, x)))
      && AfterKey(ms, x)[0] == ':' && AfterKey(ms, x)[1..] == ms[0].text + AfterText(ms, x)
  {
    hide ReadString, EscapeAll, Members;
    MembersShape(ms, x);
    var rest := EscapeAll(ms[0].key) + "\"" + AfterKey(ms, x);
    assert ("\"" + rest)[1..] == rest;
    ReadsQuoted(ms[0].key, AfterKey(ms, x));
  }

  /** The value of the first member, which some field of the record wrote. */
  lemma ReadsMemberValue(f: seq<Field>, ms: seq<Member>, x: string) returns (w: Value)
    requires ms != [] && From(ms, f) && Proper(Rec(f)) && Ends(x)
    ensures ReadValue(ms[0].text + AfterText(ms, x)) == Some((w, AfterText(ms, x)))
    ensures Proper(w) && Canonical(w) == ms[0].text
    decreases f, |ms|, 0
  {
    hide Canonical, ReadValue, Members, AfterText;
    MoreMembersShape(ms, x);
    assert SomeFieldWrites(f, ms[0]);
    var i :| 0 <= i < |f| && Writes(f[i], ms[0]);
    w := ReadsValue(f[i].value.value, AfterText(ms, x));
    SameValueSameText(f[i].value.value, w);
  }

  lemma FromTail(ms: seq<Member>, f: seq<Field>)
    requires ms != [] && From(ms, f)
    ensures From(ms[1..], f)
  {
    hide SomeFieldWrites;
    assert forall j :: 0 <= j < |ms[1..]| ==> ms[1..][j] == ms[j + 1];
  }

  lemma {:induction false} ReadsMembers(f: seq<Field>, ms: seq<Member>, x: string) returns (gs: seq<Field>)
    requires ms != [] && From(ms, f) && Proper(Rec(f)) && Ends(x)
    ensures ReadMembers(Members(ms) + "}" + x) == Some((gs, x)) && ReadFrom(gs, ms)
    decreases f, |ms|, 1
  {
    hide Canonical, ReadValue, ReadString, ReadMembers, Members, AfterText, AfterKey, Proper, Writes, Ends;
    var t, after := Members(ms) + "}" + x, AfterText(ms, x);
    ReadsKey(ms, x);
    MoreMembersShape(ms, x);
    var w := ReadsMemberValue(f, ms, x);
    ReadsOneMember(t, ms[0].key, AfterKey(ms, x), w, after);
    var g := Field(ms[0].key, Some(w));
    assert ms[0] == Member(g.key, Canonical(w));
    if |ms| == 1 {
      gs := [g];
      assert after[1..] == x;
      assert ReadFrom(gs, ms);
    } else {
      FromTail(ms, f);
      var rest := ReadsMembers(f, ms[1..], x);
      gs := [g] + rest;
      assert after[1..] == Members(ms[1..]) + "}" + x;
      assert forall j :: 1 <= j < |ms| ==> ms[j] == ms[1..][j - 1] && gs[j] == rest[j - 1];
      assert ReadFrom(gs, ms);
    }
  }

  lemma ReadsBraces(t: string)
    requires |t| > 1 && t[0] == '{'
    ensures t[1] == '}' ==> ReadValue(t) == Some((Rec([]), t[2..]))
    ensures t[1] != '}' && ReadMembers(t[1..]).Some? ==>
      ReadValue(t) == Some((Rec(ReadMembers(t[1..]).value.0), ReadMembers(t[1..]).value.1))
  {
    hide ReadMembers, ReadItems, ReadString, ReadNat;
    NoWordBegins(t);
  }

  lemma {:induction false} ReadsRec(f: seq<Field>, x: string) returns (w: Value)
    requires Proper(Rec(f)) && Ends(x)
    ensures ReadValue(Canonical(Rec(f)) + x) == Some((w, x)) && Same(Rec(f), w) && Proper(w)
    decreases f, |Sort(Written(f))| + 1
  {
    hide ReadMembers, ReadValue, Members, Sort, Written, Proper, Same, Ends;
    var ms := Sort(Written(f));
    var t := Canonical(Rec(f)) + x;
    Opens("{", Members(ms), "}", x);
    MembersShape(ms, x);
    SortedIsFromFields(f);
    assert t[0] == '{' && t[1..] == Members(ms) + "}" + x && t[1] == t[1..][0];
    ReadsBraces(t);
    var gs := [];
    if ms != [] {
      gs := ReadsMembers(f, ms, x);
    } else {
      assert t[2..] == t[1..][1..] == x;
    }
    w := Rec(gs);
    ReadIsSame(f, gs);
  }

  /** Fields with the keys and texts of a record's members make the same record. */
  lemma ReadIsSame(f: seq<Field>, gs: seq<Field>)
    requires Proper(Rec(f)) && ReadFrom(gs, Sort(Written(f)))
    ensures Same(Rec(f), Rec(gs)) && Proper(Rec(gs))
  {
    hide Canonical, Written, Sort, Proper;
    var ms := Sort(Written(f));
    SortKeepsMembers(Written(f));
    forall i | 0 <= i < |f| && f[i].value.Some? ensures exists k :: 0 <= k < |gs| && SameField(f[i], gs[k]) {
      var m := Member(f[i].key, Canonical(f[i].value.value));
      assert Writes(f[i], m);
      WrittenHas(f, m);
      var k :| 0 <= k < |ms| && ms[k] == m;
      SameTextSameValue(f[i].value.value, gs[k].value.value);
      assert SameField(f[i], gs[k]);
    }
    forall k | 0 <= k < |gs| && gs[k].value.Some? ensures exists i :: 0 <= i < |f| && SameField(f[i], gs[k]) {
      assert ms[k] in ms;
      WrittenHas(f, ms[k]);
      var i :| 0 <= i < |f| && Writes(f[i], ms[k]);
      SameTextSameValue(f[i].value.value, gs[k].value.value);
      assert SameField(f[i], gs[k]);
    }
    ReadIsProper(f, gs);
  }

  lemma ReadIsProper(f: seq<Field>, gs: seq<Field>)
    requires Proper(Rec(f)) && ReadFrom(gs, Sort(Written(f)))
    ensures Proper(Rec(gs))
  {
    hide Canonical, Written, Sort, Less;
    ProperWritesDistinctKeys(f);
    SortAscends(Written(f));
    var ms := Sort(Written(f));
    forall i, k | 0 <= i < k < |gs| ensures gs[i].key != gs[k].key {
      LessIsTotal(ms[i].key, ms[k].key);
    }
  }

  /** A canonical text is a JSON text, and read as one it gives back the value, whole. */
  lemma CanonicalIsJson(v: Value)
    requires Proper(v)
    ensures exists w :: ReadValue(Canonical(v)) == Some((w, "")) && Same(v, w)
  {
    hide ReadValue, Canonical, Same, Proper;
    var w := ReadsValue(v, "");
    assert Canonical(v) + "" == Canonical(v);
  }
}
