/**
 The canonical serialiser behind every digest of a collection plan: records written in key order whatever
 order they were built in. Two values have the same text if and only if they are the same value.
 */
module CanonicalJson {
  import opened Basics
  import Text

  /** The shapes the serialiser supports. A field may be undefined, and then it is not written. */
  datatype Value =
    | Null
    | Bool(b: bool)
    | Int(n: int)
    | Str(s: string)
    | Arr(items: seq<Value>)
    | Rec(fields: seq<Field>)

  datatype Field = Field(key: string, value: Option<Value>)

  // ---------------------------------------------------------------------------------------------------
  // Key order
  // ---------------------------------------------------------------------------------------------------

  predicate Less(a: string, b: string) {
    b != [] && (a == [] || a[0] < b[0] || (a[0] == b[0] && Less(a[1..], b[1..])))
  }

  lemma {:induction false} LessIsTotal(a: string, b: string)
    ensures Less(a, b) || Less(b, a) || a == b
    ensures !(Less(a, b) && Less(b, a)) && !Less(a, a)
  {
    if a != [] && b != [] && a[0] == b[0] {
      LessIsTotal(a[1..], b[1..]);
      assert a == [a[0]] + a[1..] && b == [b[0]] + b[1..];
    }
    if a != [] { LessIsTotal(a[1..], a[1..]); }
  }

  lemma {:induction false} LessIsTransitive(a: string, b: string, c: string)
    requires Less(a, b) && Less(b, c)
    ensures Less(a, c)
  {
    if a != [] && a[0] == b[0] == c[0] {
      LessIsTransitive(a[1..], b[1..], c[1..]);
    }
  }

  /** The two part at position `k`: `a` ends there, or goes on with the smaller character. */
  predicate PartsBelow(a: string, b: string, k: nat) {
    k <= |a| && k < |b| && a[..k] == b[..k] && (k == |a| || a[k] < b[k])
  }

  /** The order is that of the first difference, a text coming before every longer one it begins. */
  lemma {:induction false} LessIsByFirstDifference(a: string, b: string)
    ensures Less(a, b) <==> exists k: nat :: PartsBelow(a, b, k)
  {
    if a == [] || b == [] || a[0] != b[0] {
      assert PartsBelow(a, b, 0) <==> Less(a, b);
    } else {
      LessIsByFirstDifference(a[1..], b[1..]);
      assert a == [a[0]] + a[1..] && b == [b[0]] + b[1..];
      forall k: nat ensures PartsBelow(a[1..], b[1..], k) <==> PartsBelow(a, b, k + 1) {
        if k < |a| && k < |b| {
          assert a[..k + 1] == [a[0]] + a[1..][..k] && b[..k + 1] == [b[0]] + b[1..][..k];
        }
      }
      if k: nat :| PartsBelow(a, b, k) {
        assert PartsBelow(a[1..], b[1..], k - 1);
      }
    }
  }

  /** A record member: its key and the text of its value. */
  datatype Member = Member(key: string, text: string)

  function Insert(m: Member, sorted: seq<Member>): (r: seq<Member>)
    ensures multiset(r) == multiset(sorted) + multiset{m}
  {
    if sorted == [] || Less(m.key, sorted[0].key) then [m] + sorted
    else
      var r := [sorted[0]] + Insert(m, sorted[1..]);
      assert sorted == [sorted[0]] + sorted[1..];
      r
  }

  function Sort(ms: seq<Member>): (r: seq<Member>)
    ensures multiset(r) == multiset(ms)
  {
    if ms == [] then []
    else
      assert ms == [ms[0]] + ms[1..];
      Insert(ms[0], Sort(ms[1..]))
  }

  ghost predicate Ascending(ms: seq<Member>) {
    forall i, k :: 0 <= i < k < |ms| ==> Less(ms[i].key, ms[k].key)
  }

  ghost predicate DistinctKeys(ms: seq<Member>) {
    forall i, k :: 0 <= i < k < |ms| ==> ms[i].key != ms[k].key
  }

  lemma {:induction false} InsertKeepsAscending(m: Member, sorted: seq<Member>)
    requires Ascending(sorted) && forall x :: x in sorted ==> x.key != m.key
    ensures Ascending(Insert(m, sorted))
  {
    if sorted != [] {
      LessIsTotal(m.key, sorted[0].key);
      if Less(m.key, sorted[0].key) {
        forall k | 0 <= k < |sorted| ensures Less(m.key, sorted[k].key) {
          if k > 0 { LessIsTransitive(m.key, sorted[0].key, sorted[k].key); }
        }
      } else {
        InsertKeepsAscending(m, sorted[1..]);
        var tail := Insert(m, sorted[1..]);
        forall k | 0 <= k < |tail| ensures Less(sorted[0].key, tail[k].key) {
          assert tail[k] in multiset(tail);
          assert tail[k] == m || tail[k] in sorted[1..];
        }
      }
    }
  }

  lemma {:induction false} SortAscends(ms: seq<Member>)
    requires DistinctKeys(ms)
    ensures Ascending(Sort(ms))
  {
    if ms != [] {
      SortAscends(ms[1..]);
      forall x | x in Sort(ms[1..]) ensures x.key != ms[0].key {
        assert x in multiset(Sort(ms[1..]));
        assert x in ms[1..];
      }
      InsertKeepsAscending(ms[0], Sort(ms[1..]));
    }
  }

  lemma FirstIsNotLater(a: seq<Member>)
    requires a != [] && Ascending(a)
    ensures a[0] !in a[1..]
  {
    LessIsTotal(a[0].key, a[0].key);
    assert forall k :: 0 < k < |a| ==> Less(a[0].key, a[k].key);
  }

  /** An ascending list is determined by what it holds. */
  lemma {:induction false} AscendingIsUnique(a: seq<Member>, b: seq<Member>)
    requires Ascending(a) && Ascending(b) && forall x :: x in a <==> x in b
    ensures a == b
  {
    assert a != [] ==> a[0] in b;
    assert b != [] ==> b[0] in a;
    if a != [] {
      LessIsTotal(a[0].key, b[0].key);
      assert a[0] == b[0];
      assert a == [a[0]] + a[1..] && b == [b[0]] + b[1..];
      FirstIsNotLater(a);
      FirstIsNotLater(b);
      forall x ensures x in a[1..] <==> x in b[1..] {
        assert x in a <==> x == a[0] || x in a[1..];
        assert x in b <==> x == b[0] || x in b[1..];
      }
      AscendingIsUnique(a[1..], b[1..]);
    }
  }

  lemma SortIsCanonical(a: seq<Member>, b: seq<Member>)
    requires DistinctKeys(a) && DistinctKeys(b) && forall x :: x in a <==> x in b
    ensures Sort(a) == Sort(b)
  {
    SortAscends(a);
    SortAscends(b);
    SortKeepsMembers(a);
    SortKeepsMembers(b);
    AscendingIsUnique(Sort(a), Sort(b));
  }

  lemma SortKeepsMembers(a: seq<Member>)
    ensures |Sort(a)| == |a| && forall x :: x in Sort(a) <==> x in a
  {
    assert forall x :: x in Sort(a) <==> x in multiset(Sort(a));
    assert |multiset(Sort(a))| == |Sort(a)|;
  }

  // ---------------------------------------------------------------------------------------------------
  // Text
  // ---------------------------------------------------------------------------------------------------

  function HexDigit(d: nat): char
    requires d < 16
  {
    if d < 10 then (48 + d) as char else (87 + d) as char
  }

  /** One character of a string, escaped as section 7 of RFC 8259 asks. */
  function Escape(c: char): string {
    if c == '"' then "\\\""
    else if c == '\\' then "\\\\"
    else if c == 8 as char then "\\b"
    else if c == '\t' then "\\t"
    else if c == '\n' then "\\n"
    else if c == 12 as char then "\\f"
    else if c == '\r' then "\\r"
    else if c < ' ' then "\\u00" + [HexDigit(c as nat / 16), HexDigit(c as nat % 16)]
    else [c]
  }

  function EscapeAll(s: string): string {
    if s == [] then "" else Escape(s[0]) + EscapeAll(s[1..])
  }

  function Quote(s: string): string {
    "\"" + EscapeAll(s) + "\""
  }

  function Digit(d: nat): char
    requires d < 10
  {
    (48 + d) as char
  }

  function Decimal(n: nat): string {
    if n < 10 then [Digit(n)] else Decimal(n / 10) + [Digit(n % 10)]
  }

  function IntText(n: int): string {
    if n < 0 then "-" + Decimal(-n) else Decimal(n)
  }

  /** Member texts in the order given, with commas between them. */
  function Members(ms: seq<Member>): string
    decreases |ms|, 1
  {
    if ms == [] then "" else Quote(ms[0].key) + (":" + (ms[0].text + MoreMembers(ms)))
  }

  function MoreMembers(ms: seq<Member>): string
    requires ms != []
    decreases |ms|, 0
  {
    if |ms| == 1 then "" else "," + Members(ms[1..])
  }

  function Canonical(v: Value): string {
    match v
    case Null => "null"
    case Bool(b) => if b then "true" else "false"
    case Int(n) => IntText(n)
    case Str(s) => Quote(s)
    case Arr(items) => "[" + Items(items) + "]"
    case Rec(fields) => "{" + Members(Sort(Written(fields))) + "}"
  }

  function Items(items: seq<Value>): string
    decreases items, 1
  {
    if items == [] then "" else Canonical(items[0]) + MoreItems(items)
  }

  function MoreItems(items: seq<Value>): string
    requires items != []
    decreases items, 0
  {
    if |items| == 1 then "" else "," + Items(items[1..])
  }

  /** The members of a record: every field that is defined, with the text of its value. */
  function Written(fields: seq<Field>): seq<Member> {
    if fields == [] then []
    else
      (if fields[0].value.Some? then [Member(fields[0].key, Canonical(fields[0].value.value))] else [])
      + Written(fields[1..])
  }

  // ---------------------------------------------------------------------------------------------------
  // The same value
  // ---------------------------------------------------------------------------------------------------

  /** No record writes one key twice. */
  ghost predicate Proper(v: Value) {
    match v
    case Arr(items) => forall i :: 0 <= i < |items| ==> Proper(items[i])
    case Rec(fields) =>
      && (forall i, k :: 0 <= i < k < |fields| && fields[i].value.Some? && fields[k].value.Some?
            ==> fields[i].key != fields[k].key)
      && (forall i :: 0 <= i < |fields| && fields[i].value.Some? ==> Proper(fields[i].value.value))
    case _ => true
  }

  /** Equal as values: arrays item by item, records key by key, whatever order their fields were inserted in. */
  ghost predicate Same(a: Value, b: Value) {
    match (a, b)
    case (Arr(xs), Arr(ys)) => |xs| == |ys| && forall i :: 0 <= i < |xs| ==> Same(xs[i], ys[i])
    case (Rec(f), Rec(g)) =>
      && (forall i :: 0 <= i < |f| && f[i].value.Some? ==> exists k :: 0 <= k < |g| && SameField(f[i], g[k]))
      && (forall k :: 0 <= k < |g| && g[k].value.Some? ==> exists i :: 0 <= i < |f| && SameField(f[i], g[k]))
    case _ => a == b
  }

  ghost predicate SameField(f: Field, g: Field) {
    f.value.Some? && g.value.Some? && f.key == g.key && Same(f.value.value, g.value.value)
  }

  // ---------------------------------------------------------------------------------------------------
  // The same value has the same text
  // ---------------------------------------------------------------------------------------------------

  /** The member a field writes. */
  ghost predicate Writes(f: Field, m: Member) {
    f.value.Some? && m == Member(f.key, Canonical(f.value.value))
  }

  lemma {:induction false} WrittenHas(fields: seq<Field>, m: Member)
    ensures m in Written(fields) <==> exists i :: 0 <= i < |fields| && Writes(fields[i], m)
  {
    if fields != [] {
      WrittenHas(fields[1..], m);
      if i :| 0 <= i < |fields[1..]| && Writes(fields[1..][i], m) {
        assert Writes(fields[i + 1], m);
      }
      if i :| 0 <= i < |fields| && Writes(fields[i], m) {
        assert i > 0 ==> Writes(fields[1..][i - 1], m);
      }
    }
  }

  lemma {:induction false} WrittenKeysAreDistinct(fields: seq<Field>)
    requires forall i, k :: 0 <= i < k < |fields| && fields[i].value.Some? && fields[k].value.Some?
               ==> fields[i].key != fields[k].key
    ensures DistinctKeys(Written(fields))
  {
    if fields != [] {
      WrittenKeysAreDistinct(fields[1..]);
      forall m | fields[0].value.Some? && m in Written(fields[1..]) ensures m.key != fields[0].key {
        WrittenHas(fields[1..], m);
        var i :| 0 <= i < |fields[1..]| && Writes(fields[1..][i], m);
        assert fields[1..][i] == fields[i + 1];
      }
    }
  }

  lemma {:induction false} SameTextsSameItems(xs: seq<Value>, ys: seq<Value>)
    requires |xs| == |ys| && forall i :: 0 <= i < |xs| ==> Canonical(xs[i]) == Canonical(ys[i])
    ensures Items(xs) == Items(ys)
  {
    if xs != [] {
      SameTextsSameItems(xs[1..], ys[1..]);
    }
  }

  ghost predicate SameText(f: Field, g: Field) {
    f.value.Some? && g.value.Some? && f.key == g.key && Canonical(f.value.value) == Canonical(g.value.value)
  }

  /** Every defined field of `f` is in `g`, under the same key with the same text. */
  ghost predicate TextsWithin(f: seq<Field>, g: seq<Field>) {
    forall i :: 0 <= i < |f| && f[i].value.Some? ==> exists k :: 0 <= k < |g| && SameText(f[i], g[k])
  }

  lemma WithinIsWritten(f: seq<Field>, g: seq<Field>, m: Member)
    requires TextsWithin(f, g) && m in Written(f)
    ensures m in Written(g)
  {
    WrittenHas(f, m);
    WrittenHas(g, m);
    var i :| 0 <= i < |f| && Writes(f[i], m);
    var k :| 0 <= k < |g| && SameText(f[i], g[k]);
    assert Writes(g[k], m);
  }

  lemma ProperWritesDistinctKeys(f: seq<Field>)
    requires Proper(Rec(f))
    ensures DistinctKeys(Written(f))
  {
    WrittenKeysAreDistinct(f);
  }

  lemma SameWithinSameMembers(f: seq<Field>, g: seq<Field>)
    requires Proper(Rec(f)) && Proper(Rec(g)) && TextsWithin(f, g) && TextsWithin(g, f)
    ensures Sort(Written(f)) == Sort(Written(g))
  {
    hide Canonical, Written, Sort, TextsWithin, Proper, DistinctKeys;
    ProperWritesDistinctKeys(f);
    ProperWritesDistinctKeys(g);
    forall m ensures m in Written(f) <==> m in Written(g) {
      if m in Written(f) { WithinIsWritten(f, g, m); }
      if m in Written(g) { WithinIsWritten(g, f, m); }
    }
    SortIsCanonical(Written(f), Written(g));
  }

  lemma SamePairsAreWithin(f: seq<Field>, g: seq<Field>)
    requires Same(Rec(f), Rec(g))
    requires forall i, k :: 0 <= i < |f| && 0 <= k < |g| && SameField(f[i], g[k]) ==> SameText(f[i], g[k])
    ensures TextsWithin(f, g) && TextsWithin(g, f)
  {
    hide Canonical, SameField;
    forall i | 0 <= i < |f| && f[i].value.Some? ensures exists k :: 0 <= k < |g| && SameText(f[i], g[k]) {
      var k :| 0 <= k < |g| && SameField(f[i], g[k]);
      assert SameText(f[i], g[k]);
    }
    forall k | 0 <= k < |g| && g[k].value.Some? ensures exists i :: 0 <= i < |f| && SameText(g[k], f[i]) {
      var i :| 0 <= i < |f| && SameField(f[i], g[k]);
      assert SameText(f[i], g[k]) && SameText(g[k], f[i]);
    }
  }

  /** Equal values have equal texts: the order fields were inserted in, and undefined fields, leave no trace. */
  lemma {:induction false} SameValueSameText(a: Value, b: Value)
    requires Proper(a) && Proper(b) && Same(a, b)
    ensures Canonical(a) == Canonical(b)
    decreases a
  {
    if a.Arr? && b.Arr? {
      forall i | 0 <= i < |a.items| ensures Canonical(a.items[i]) == Canonical(b.items[i]) {
        SameValueSameText(a.items[i], b.items[i]);
      }
      SameTextsSameItems(a.items, b.items);
    } else if a.Rec? && b.Rec? {
      SameRecordSameMembers(a, b);
    }
  }

  lemma {:induction false} SameRecordSameMembers(a: Value, b: Value)
    requires a.Rec? && b.Rec? && Proper(a) && Proper(b) && Same(a, b)
    ensures Sort(Written(a.fields)) == Sort(Written(b.fields))
    decreases a, 0
  {
    var f, g := a.fields, b.fields;
    hide Canonical, Written, Sort;
    forall i, k | 0 <= i < |f| && 0 <= k < |g| && SameField(f[i], g[k]) ensures SameText(f[i], g[k]) {
      SameValueSameText(f[i].value.value, g[k].value.value);
    }
    SamePairsAreWithin(f, g);
    SameWithinSameMembers(f, g);
  }

  // ---------------------------------------------------------------------------------------------------
  // A text says where it ends
  // ---------------------------------------------------------------------------------------------------

  /** What may follow a value: nothing, or a character no value continues with. */
  predicate Ends(rest: string) {
    rest == [] || rest[0] == ',' || rest[0] == ']' || rest[0] == '}' || rest[0] == ':'
  }

  /** The text of a string's characters says where each of them ends. */
  lemma EscapeIsSelfDelimiting(c: char, x: string, d: char, y: string)
    requires Escape(c) + x == Escape(d) + y
    ensures c == d && x == y
  {
    var l, r := Escape(c) + x, Escape(d) + y;
    assert l[0] == Escape(c)[0] && r[0] == Escape(d)[0];
    assert |Escape(c)| > 1 <==> l[0] == '\\';
    assert |Escape(d)| > 1 <==> r[0] == '\\';
    if |Escape(c)| > 1 {
      assert l[1] == Escape(c)[1] && r[1] == Escape(d)[1];
      if l[1] == 'u' {
        assert l[4] == Escape(c)[4] == HexDigit(c as nat / 16) && l[5] == Escape(c)[5] == HexDigit(c as nat % 16);
        assert r[4] == Escape(d)[4] == HexDigit(d as nat / 16) && r[5] == Escape(d)[5] == HexDigit(d as nat % 16);
      }
    }
    assert c == d;
    assert l[|Escape(c)|..] == x && r[|Escape(d)|..] == y;
  }

  lemma {:induction false} QuoteIsSelfDelimiting(s: string, x: string, t: string, y: string)
    requires EscapeAll(s) + "\"" + x == EscapeAll(t) + "\"" + y
    ensures s == t && x == y
  {
    hide Escape;
    var l, r := EscapeAll(s) + "\"" + x, EscapeAll(t) + "\"" + y;
    QuoteEndsFirst(s, x);
    QuoteEndsFirst(t, y);
    if s != [] && t != [] {
      var x', y' := EscapeAll(s[1..]) + "\"" + x, EscapeAll(t[1..]) + "\"" + y;
      assert l == Escape(s[0]) + x' && r == Escape(t[0]) + y';
      EscapeIsSelfDelimiting(s[0], x', t[0], y');
      QuoteIsSelfDelimiting(s[1..], x, t[1..], y);
      assert s == [s[0]] + s[1..] && t == [t[0]] + t[1..];
    } else {
      assert l[1..] == x && r[1..] == y;
    }
  }

  lemma QuoteEndsFirst(s: string, x: string)
    ensures (EscapeAll(s) + "\"" + x)[0] == '"' <==> s == []
  {
    if s != [] { assert (EscapeAll(s) + "\"" + x)[0] == Escape(s[0])[0]; }
  }

  lemma {:induction false} DecimalIsDigits(n: nat)
    ensures Decimal(n) != "" && forall i :: 0 <= i < |Decimal(n)| ==> Text.IsDigit(Decimal(n)[i])
  {
    if n >= 10 { DecimalIsDigits(n / 10); }
  }

  lemma {:induction false} DecimalIsInjective(n: nat, m: nat)
    requires Decimal(n) == Decimal(m)
    ensures n == m
  {
    DecimalIsDigits(n / 10);
    DecimalIsDigits(m / 10);
    var d, e := Decimal(n), Decimal(m);
    assert d[|d| - 1] == Digit(n % 10) && e[|e| - 1] == Digit(m % 10);
    if n >= 10 && m >= 10 {
      assert d[..|d| - 1] == Decimal(n / 10) && e[..|e| - 1] == Decimal(m / 10);
      DecimalIsInjective(n / 10, m / 10);
    }
  }

  /** Digits end where the first other character is. */
  lemma DigitsEnd(d: string, x: string, e: string, y: string)
    requires d + x == e + y && Ends(x) && Ends(y)
    requires forall i :: 0 <= i < |d| ==> Text.IsDigit(d[i])
    requires forall i :: 0 <= i < |e| ==> Text.IsDigit(e[i])
    ensures d == e && x == y
  {
    var text := d + x;
    assert (forall i :: 0 <= i < |d| ==> Text.IsDigit(text[i])) && (|d| < |text| ==> text[|d|] == x[0] && !Text.IsDigit(text[|d|]));
    assert (forall i :: 0 <= i < |e| ==> text[i] == e[i] && Text.IsDigit(text[i]));
    assert |e| < |text| ==> text[|e|] == y[0] && !Text.IsDigit(text[|e|]);
    assert |d| == |e|;
    assert (d + x)[..|d|] == d && (e + y)[..|e|] == e;
    assert (d + x)[|d|..] == x && (e + y)[|e|..] == y;
  }

  /** What is left after a leading text is dropped from both sides. */
  lemma Drop(a: string, x: string, b: string, y: string)
    requires a + x == b + y && |a| == |b|
    ensures a == b && x == y
  {
    assert (a + x)[..|a|] == a && (b + y)[..|b|] == b;
    assert (a + x)[|a|..] == x && (b + y)[|b|..] == y;
  }

  lemma Regroup(open: string, body: string, close: string, x: string)
    ensures (open + body + close) + x == open + (body + close + x)
    ensures open != "" ==> ((open + body + close) + x)[0] == open[0]
  {
    assert (open + body + close) + x == open + (body + close + x);
  }

  lemma SignTells(n: int, x: string)
    ensures (IntText(n) + x)[0] == '-' <==> n < 0
    ensures n < 0 ==> IntText(n) + x == "-" + (Decimal(-n) + x)
  {
    DecimalIsDigits(if n < 0 then -n else n);
    if n < 0 { Regroup("-", Decimal(-n), "", x); assert Decimal(-n) + "" == Decimal(-n); }
  }

  lemma IntIsSelfDelimiting(n: int, x: string, m: int, y: string)
    requires IntText(n) + x == IntText(m) + y && Ends(x) && Ends(y)
    ensures n == m && x == y
  {
    SignTells(n, x);
    SignTells(m, y);
    var p, q := if n < 0 then -n else n, if m < 0 then -m else m;
    DecimalIsDigits(p);
    DecimalIsDigits(q);
    hide Decimal;
    if n < 0 { Drop("-", Decimal(p) + x, "-", Decimal(q) + y); }
    DigitsEnd(Decimal(p), x, Decimal(q), y);
    DecimalIsInjective(p, q);
  }

  /** Which constructor a value has, as its first character tells. */
  function Kind(v: Value): nat {
    match v
    case Null => 0
    case Bool(_) => 1
    case Int(_) => 2
    case Str(_) => 3
    case Arr(_) => 4
    case Rec(_) => 5
  }

  function KindOf(head: char): nat {
    if head == 'n' then 0
    else if head == 't' || head == 'f' then 1
    else if head == '-' || Text.IsDigit(head) then 2
    else if head == '"' then 3
    else if head == '[' then 4
    else if head == '{' then 5
    else 6
  }

  lemma HeadTellsKind(v: Value, x: string)
    ensures Canonical(v) != "" && (Canonical(v) + x)[0] == Canonical(v)[0] && KindOf(Canonical(v)[0]) == Kind(v)
  {
    if v.Int? { DecimalIsDigits(if v.n < 0 then -v.n else v.n); }
  }

  lemma ItemsShape(xs: seq<Value>, x: string)
    ensures xs == [] ==> Items(xs) + "]" + x == "]" + x
    ensures xs != [] ==> Items(xs) + "]" + x == Canonical(xs[0]) + (MoreItems(xs) + "]" + x)
    ensures (Items(xs) + "]" + x)[0] == ']' <==> xs == []
  {
    if xs != [] {
      HeadTellsKind(xs[0], MoreItems(xs) + "]" + x);
      hide Canonical, MoreItems;
      Regroup(Canonical(xs[0]), MoreItems(xs), "]", x);
    }
  }

  lemma MoreItemsShape(xs: seq<Value>, x: string)
    requires xs != []
    ensures Ends(MoreItems(xs) + "]" + x)
    ensures |xs| == 1 ==> MoreItems(xs) + "]" + x == "]" + x
    ensures |xs| > 1 ==> MoreItems(xs) + "]" + x == "," + (Items(xs[1..]) + "]" + x)
    ensures |xs| == 1 <==> (MoreItems(xs) + "]" + x)[0] == ']'
  {
    hide Canonical, Items;
    if |xs| > 1 { Regroup(",", Items(xs[1..]), "]", x); }
  }

  lemma {:induction false} ItemsAreSelfDelimiting(xs: seq<Value>, x: string, ys: seq<Value>, y: string)
    requires Items(xs) + "]" + x == Items(ys) + "]" + y
    ensures |xs| == |ys| && x == y && forall i :: 0 <= i < |xs| ==> Canonical(xs[i]) == Canonical(ys[i])
    decreases xs
  {
    hide Canonical;
    ItemsShape(xs, x);
    ItemsShape(ys, y);
    assert xs == [] <==> ys == [];
    if xs == [] {
      Drop("]", x, "]", y);
    } else {
      MoreItemsShape(xs, x);
      MoreItemsShape(ys, y);
      hide MoreItems;
      SelfDelimiting(xs[0], MoreItems(xs) + "]" + x, ys[0], MoreItems(ys) + "]" + y);
      if |xs| == 1 {
        Drop("]", x, "]", y);
      } else {
        Drop(",", Items(xs[1..]) + "]" + x, ",", Items(ys[1..]) + "]" + y);
        ItemsAreSelfDelimiting(xs[1..], x, ys[1..], y);
        assert forall i :: 1 <= i < |xs| ==> xs[i] == xs[1..][i - 1] && ys[i] == ys[1..][i - 1];
      }
    }
  }

  ghost predicate SomeFieldWrites(fields: seq<Field>, m: Member) {
    exists i :: 0 <= i < |fields| && Writes(fields[i], m)
  }

  /** Every member is one a field of the record writes. */
  ghost predicate From(ms: seq<Member>, fields: seq<Field>) {
    forall j :: 0 <= j < |ms| ==> SomeFieldWrites(fields, ms[j])
  }

  /** What follows the text of the first member. */
  function AfterText(ms: seq<Member>, x: string): string
    requires ms != []
  {
    MoreMembers(ms) + "}" + x
  }

  /** What follows the key of the first member. */
  function AfterKey(ms: seq<Member>, x: string): string
    requires ms != []
  {
    ":" + (ms[0].text + AfterText(ms, x))
  }

  lemma MembersShape(ms: seq<Member>, x: string)
    ensures ms == [] ==> Members(ms) + "}" + x == "}" + x
    ensures ms != [] ==> Members(ms) + "}" + x == "\"" + (EscapeAll(ms[0].key) + "\"" + AfterKey(ms, x))
    ensures (Members(ms) + "}" + x)[0] == '}' <==> ms == []
  {
    if ms != [] {
      hide EscapeAll, MoreMembers;
      var key, text, more := EscapeAll(ms[0].key), ms[0].text, MoreMembers(ms);
      Regroup(Quote(ms[0].key), ":" + (text + more), "}", x);
      Regroup(":", text + more, "}", x);
      Regroup(text, more, "}", x);
      Regroup("\"", key, "\"", AfterKey(ms, x));
    }
  }

  lemma MoreMembersShape(ms: seq<Member>, x: string)
    requires ms != []
    ensures Ends(AfterText(ms, x))
    ensures |ms| == 1 ==> AfterText(ms, x) == "}" + x
    ensures |ms| > 1 ==> AfterText(ms, x) == "," + (Members(ms[1..]) + "}" + x)
    ensures |ms| == 1 <==> AfterText(ms, x)[0] == '}'
  {
    hide Members;
    if |ms| > 1 { Regroup(",", Members(ms[1..]), "}", x); }
  }

  lemma {:induction false} MembersAreSelfDelimiting(
      f: seq<Field>, ms: seq<Member>, x: string, g: seq<Field>, ns: seq<Member>, y: string)
    requires From(ms, f) && From(ns, g) && Members(ms) + "}" + x == Members(ns) + "}" + y
    ensures ms == ns && x == y
    decreases f, |ms|
  {
    hide Canonical, EscapeAll, Members, AfterText;
    MembersShape(ms, x);
    MembersShape(ns, y);
    assert ms == [] <==> ns == [];
    if ms == [] {
      Drop("}", x, "}", y);
    } else {
      MoreMembersShape(ms, x);
      MoreMembersShape(ns, y);
      Drop("\"", EscapeAll(ms[0].key) + "\"" + AfterKey(ms, x), "\"", EscapeAll(ns[0].key) + "\"" + AfterKey(ns, y));
      QuoteIsSelfDelimiting(ms[0].key, AfterKey(ms, x), ns[0].key, AfterKey(ns, y));
      Drop(":", ms[0].text + AfterText(ms, x), ":", ns[0].text + AfterText(ns, y));
      assert SomeFieldWrites(f, ms[0]) && SomeFieldWrites(g, ns[0]);
      var i :| 0 <= i < |f| && Writes(f[i], ms[0]);
      var k :| 0 <= k < |g| && Writes(g[k], ns[0]);
      SelfDelimiting(f[i].value.value, AfterText(ms, x), g[k].value.value, AfterText(ns, y));
      if |ms| == 1 {
        Drop("}", x, "}", y);
      } else {
        Drop(",", Members(ms[1..]) + "}" + x, ",", Members(ns[1..]) + "}" + y);
        MembersAreSelfDelimiting(f, ms[1..], x, g, ns[1..], y);
        assert ms == [ms[0]] + ms[1..] && ns == [ns[0]] + ns[1..];
      }
    }
  }

  lemma SortedIsFromFields(fields: seq<Field>)
    ensures From(Sort(Written(fields)), fields)
  {
    SortKeepsMembers(Written(fields));
    forall j | 0 <= j < |Sort(Written(fields))| ensures SomeFieldWrites(fields, Sort(Written(fields))[j]) {
      assert Sort(Written(fields))[j] in Sort(Written(fields));
      WrittenHas(fields, Sort(Written(fields))[j]);
    }
  }

  /** A canonical text ends in one place only: no canonical text is a proper beginning of another. */
  lemma {:induction false} SelfDelimiting(a: Value, x: string, b: Value, y: string)
    requires Canonical(a) + x == Canonical(b) + y && Ends(x) && Ends(y)
    ensures Canonical(a) == Canonical(b) && x == y
    decreases a
  {
    HeadTellsKind(a, x);
    HeadTellsKind(b, y);
    assert Kind(a) == Kind(b);
    match a {
      case Null => Drop("null", x, "null", y);
      case Bool(p) =>
        assert (Canonical(a) + x)[0] == (Canonical(b) + y)[0];
        assert p == b.b;
        Drop(Canonical(a), x, Canonical(a), y);
      case Int(n) => IntIsSelfDelimiting(n, x, b.n, y);
      case Str(s) =>
        Regroup("\"", EscapeAll(s), "\"", x);
        Regroup("\"", EscapeAll(b.s), "\"", y);
        Drop("\"", EscapeAll(s) + "\"" + x, "\"", EscapeAll(b.s) + "\"" + y);
        QuoteIsSelfDelimiting(s, x, b.s, y);
      case Arr(items) =>
        Regroup("[", Items(items), "]", x);
        Regroup("[", Items(b.items), "]", y);
        Drop("[", Items(items) + "]" + x, "[", Items(b.items) + "]" + y);
        ItemsAreSelfDelimiting(items, x, b.items, y);
        SameTextsSameItems(items, b.items);
      case Rec(f) =>
        Regroup("{", Members(Sort(Written(f))), "}", x);
        Regroup("{", Members(Sort(Written(b.fields))), "}", y);
        Drop("{", Members(Sort(Written(f))) + "}" + x, "{", Members(Sort(Written(b.fields))) + "}" + y);
        SortedIsFromFields(f);
        SortedIsFromFields(b.fields);
        MembersAreSelfDelimiting(f, Sort(Written(f)), x, b.fields, Sort(Written(b.fields)), y);
    }
  }

  // ---------------------------------------------------------------------------------------------------
  // The same text is the same value
  // ---------------------------------------------------------------------------------------------------

  lemma RecordTextTellsMembers(f: seq<Field>, g: seq<Field>)
    requires Canonical(Rec(f)) == Canonical(Rec(g))
    ensures Sort(Written(f)) == Sort(Written(g))
  {
    var p, q := Sort(Written(f)), Sort(Written(g));
    Regroup("{", Members(p), "}", "");
    Regroup("{", Members(q), "}", "");
    Drop("{", Members(p) + "}" + "", "{", Members(q) + "}" + "");
    SortedIsFromFields(f);
    SortedIsFromFields(g);
    MembersAreSelfDelimiting(f, p, "", g, q, "");
  }

  lemma ArrayTextTellsItems(xs: seq<Value>, ys: seq<Value>)
    requires Canonical(Arr(xs)) == Canonical(Arr(ys))
    ensures |xs| == |ys| && forall i :: 0 <= i < |xs| ==> Canonical(xs[i]) == Canonical(ys[i])
  {
    Regroup("[", Items(xs), "]", "");
    Regroup("[", Items(ys), "]", "");
    Drop("[", Items(xs) + "]" + "", "[", Items(ys) + "]" + "");
    ItemsAreSelfDelimiting(xs, "", ys, "");
  }

  /** A field of one record has a field with the same key and text in the other. */
  lemma FindSameText(f: seq<Field>, g: seq<Field>, i: nat) returns (k: nat)
    requires i < |f| && f[i].value.Some? && Sort(Written(f)) == Sort(Written(g))
    ensures k < |g| && SameText(f[i], g[k])
  {
    hide Canonical, Written, Sort;
    var m := Member(f[i].key, Canonical(f[i].value.value));
    assert Writes(f[i], m);
    WrittenHas(f, m);
    WrittenHas(g, m);
    SortKeepsMembers(Written(f));
    SortKeepsMembers(Written(g));
    k :| 0 <= k < |g| && Writes(g[k], m);
  }

  /** Equal texts are texts of equal values. */
  lemma {:induction false} SameTextSameValue(a: Value, b: Value)
    requires Canonical(a) == Canonical(b)
    ensures Same(a, b)
    decreases a, 1
  {
    assert Canonical(a) + "" == Canonical(a);
    HeadTellsKind(a, "");
    HeadTellsKind(b, "");
    match a {
      case Null =>
      case Bool(_) =>
      case Int(n) => IntIsSelfDelimiting(n, "", b.n, "");
      case Str(s) =>
        Regroup("\"", EscapeAll(s), "\"", "");
        Regroup("\"", EscapeAll(b.s), "\"", "");
        Drop("\"", EscapeAll(s) + "\"" + "", "\"", EscapeAll(b.s) + "\"" + "");
        QuoteIsSelfDelimiting(s, "", b.s, "");
      case Arr(xs) =>
        ArrayTextTellsItems(xs, b.items);
        forall i | 0 <= i < |xs| ensures Same(xs[i], b.items[i]) {
          SameTextSameValue(xs[i], b.items[i]);
        }
      case Rec(f) =>
        RecordTextTellsMembers(f, b.fields);
        SameMembersSameRecord(a, b);
    }
  }

  lemma {:induction false} SameMembersSameRecord(a: Value, b: Value)
    requires a.Rec? && b.Rec? && Sort(Written(a.fields)) == Sort(Written(b.fields))
    ensures Same(a, b)
    decreases a, 0
  {
    hide Canonical, Written, Sort;
    var f, g := a.fields, b.fields;
    forall i | 0 <= i < |f| && f[i].value.Some? ensures exists k :: 0 <= k < |g| && SameField(f[i], g[k]) {
      var k := FindSameText(f, g, i);
      SameTextSameValue(f[i].value.value, g[k].value.value);
    }
    forall k | 0 <= k < |g| && g[k].value.Some? ensures exists i :: 0 <= i < |f| && SameField(f[i], g[k]) {
      var i := FindSameText(g, f, k);
      SameTextSameValue(f[i].value.value, g[k].value.value);
    }
  }

  /** Canonical text is exactly identity of values: for every two proper values, in whatever order they were built. */
  lemma CanonicalIsExact(a: Value, b: Value)
    requires Proper(a) && Proper(b)
    ensures Canonical(a) == Canonical(b) <==> Same(a, b)
  {
    if Same(a, b) { SameValueSameText(a, b); }
    if Canonical(a) == Canonical(b) { SameTextSameValue(a, b); }
  }

  lemma FieldOfSameRecord(f: seq<Field>, g: seq<Field>, i: nat) returns (k: nat)
    requires Same(Rec(f), Rec(g)) && i < |f| && f[i].value.Some?
    ensures k < |g| && g[k].value.Some? && g[k].key == f[i].key && Same(f[i].value.value, g[k].value.value)
  {
    k :| 0 <= k < |g| && SameField(f[i], g[k]);
  }

  lemma SameStringsAreEqual(s: string, t: string)
    requires Same(Str(s), Str(t))
    ensures s == t
  {
  }

  // ---------------------------------------------------------------------------------------------------
  // Digest preimages
  // ---------------------------------------------------------------------------------------------------

  /** What is hashed for a value under a purpose. The separator is the one character a domain never contains. */
  function Preimage(domain: string, text: string): string {
    "phase-269-collection/" + domain + [0 as char] + text
  }

  /** Two digests of different things, or of the same thing for different purposes, hash different bytes. */
  lemma PreimageIsExact(d1: string, t1: string, d2: string, t2: string)
    requires 0 as char !in d1 && 0 as char !in d2
    ensures Preimage(d1, t1) == Preimage(d2, t2) <==> d1 == d2 && t1 == t2
  {
    var head := "phase-269-collection/";
    var p, q := Preimage(d1, t1), Preimage(d2, t2);
    assert p[|head|..] == d1 + [0 as char] + t1 && q[|head|..] == d2 + [0 as char] + t2;
    var l, r := d1 + [0 as char] + t1, d2 + [0 as char] + t2;
    assert (forall i :: 0 <= i < |d1| ==> l[i] == d1[i] && l[i] != 0 as char) && l[|d1|] == 0 as char;
    assert (forall i :: 0 <= i < |d2| ==> r[i] == d2[i] && r[i] != 0 as char) && r[|d2|] == 0 as char;
    assert p == q ==> |d1| == |d2|;
    assert l[..|d1|] == d1 && l[|d1| + 1..] == t1 && r[..|d2|] == d2 && r[|d2| + 1..] == t2;
  }
}
