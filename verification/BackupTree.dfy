/**
 Copying, digesting and verifying a backup set. The digest of a directory is taken over a text listing of it;
 what a verification can and cannot notice is exactly what that text can and cannot tell apart.
 */
module BackupTree {
  import opened Basics
  import opened Text

  /** A directory is its entries in the order its names sort; a file's bytes are its content. */
  datatype Node = File(content: string) | Dir(entries: seq<Entry>) | Link | Special

  datatype Entry = Entry(name: string, node: Node)

  /** Nothing but plain files and directories, all the way down. */
  predicate Plain(n: Node) {
    match n
    case File(_) => true
    case Dir(entries) => forall e :: e in entries ==> Plain(e.node)
    case Link => false
    case Special => false
  }

  predicate AllPlain(entries: seq<Entry>) {
    forall e :: e in entries ==> Plain(e.node)
  }

  function Size(entries: seq<Entry>): nat {
    if entries == [] then 0
    else 1 + (if entries[0].node.Dir? then Size(entries[0].node.entries) else 0) + Size(entries[1..])
  }

  // ---------------------------------------------------------------------------------------------------
  // Copying
  // ---------------------------------------------------------------------------------------------------

  const MAX_TREE_ENTRIES: nat := 5000

  lemma {:induction false} SizeConcat(a: seq<Entry>, b: seq<Entry>)
    ensures Size(a + b) == Size(a) + Size(b)
    decreases |a|
  {
    if a == [] {
      assert a + b == b;
    } else {
      SizeConcat(a[1..], b);
      assert (a + b)[1..] == a[1..] + b;
    }
  }

  lemma SizeOfOne(e: Entry)
    ensures Size([e]) == 1 + if e.node.Dir? then Size(e.node.entries) else 0
  {
    assert [e][1..] == [];
  }

  /** Count a tree's entries, giving up at the first link or special file and at one entry more than the bound. */
  method AssertPlainTree(entries: seq<Entry>, before: nat, maxEntries: nat) returns (seen: Option<nat>)
    requires before <= maxEntries
    ensures seen == if AllPlain(entries) && before + Size(entries) <= maxEntries then Some(before + Size(entries)) else None
    decreases entries
  {
    hide Size;
    SizeOfNone();
    var count := before;
    for i := 0 to |entries|
      invariant AllPlain(entries[..i]) && count == before + Size(entries[..i]) <= maxEntries
    {
      var e := entries[i];
      assert e in entries && entries == entries[..i] + ([e] + entries[i + 1..]) && entries[..i + 1] == entries[..i] + [e];
      SizeConcat(entries[..i], [e]);
      SizeConcat(entries[..i], [e] + entries[i + 1..]);
      SizeConcat([e], entries[i + 1..]);
      SizeOfOne(e);
      if count >= maxEntries { return None; }
      count := count + 1;
      match e.node {
        case File(_) =>
        case Dir(inner) =>
          var inside := AssertPlainTree(inner, count, maxEntries);
          if inside.None? { return None; }
          count := inside.value;
        case _ => return None;
      }
    }
    assert entries[..|entries|] == entries;
    seen := Some(count);
  }

  lemma SizeOfNone()
    ensures Size([]) == 0
  {
  }

  /** Copy a tree entry by entry, giving up at the first link or special file. */
  method CopyEntries(source: Node) returns (copy: Option<Node>)
    requires source.Dir?
    ensures copy == if Plain(source) then Some(source) else None
    decreases source
  {
    var made: seq<Entry> := [];
    for i := 0 to |source.entries|
      invariant made == source.entries[..i] && AllPlain(made)
    {
      var e := source.entries[i];
      assert e in source.entries && source.entries[..i + 1] == source.entries[..i] + [e];
      match e.node {
        case File(content) => made := made + [Entry(e.name, File(content))];
        case Dir(_) =>
          var inner := CopyEntries(e.node);
          if inner.None? {
            return None;
          }
          made := made + [Entry(e.name, inner.value)];
        case _ => return None;
      }
    }
    assert made == source.entries;
    copy := Some(Dir(made));
  }

  /** Prove the tree plain and no larger than a command will copy, and only then copy it. */
  method CopyTree(source: Node) returns (copy: Option<Node>)
    requires source.Dir?
    ensures copy == if Plain(source) && Size(source.entries) <= 5000 then Some(source) else None
  {
    var seen := AssertPlainTree(source.entries, 0, MAX_TREE_ENTRIES);
    if seen.None? { return None; }
    copy := CopyEntries(source);
  }

  // ---------------------------------------------------------------------------------------------------
  // The listing
  // ---------------------------------------------------------------------------------------------------

  /** One line of the listing, as what it says: the path from the top, and the file's own digest. */
  datatype Record = DirAt(path: seq<string>) | FileAt(path: seq<string>, digest: string)

  function Line(r: Record): string {
    match r
    case DirAt(path) => "d " + Join(path, "/") + "\n"
    case FileAt(path, digest) => "f " + Join(path, "/") + " " + digest + "\n"
  }

  function Listing(records: seq<Record>): string {
    if records == [] then "" else Line(records[0]) + Listing(records[1..])
  }

  function Records(sha: string -> string, entries: seq<Entry>, prefix: seq<string>): seq<Record>
    decreases Size(entries)
  {
    if entries == [] then []
    else
      var path := prefix + [entries[0].name];
      (match entries[0].node
       case Dir(inner) => [DirAt(path)] + Records(sha, inner, path)
       case File(content) => [FileAt(path, sha(content))]
       case _ => [])
      + Records(sha, entries[1..], prefix)
  }

  function FileCount(entries: seq<Entry>): nat
    decreases Size(entries)
  {
    if entries == [] then 0
    else
      (match entries[0].node case Dir(inner) => FileCount(inner) case File(_) => 1 case _ => 0) + FileCount(entries[1..])
  }

  function ByteCount(entries: seq<Entry>): nat
    decreases Size(entries)
  {
    if entries == [] then 0
    else
      (match entries[0].node case Dir(inner) => ByteCount(inner) case File(c) => |c| case _ => 0) + ByteCount(entries[1..])
  }

  lemma HeadFirst(sha: string -> string, entries: seq<Entry>, prefix: seq<string>)
    requires entries != []
    ensures Records(sha, entries, prefix) == Records(sha, [entries[0]], prefix) + Records(sha, entries[1..], prefix)
    ensures FileCount(entries) == FileCount([entries[0]]) + FileCount(entries[1..])
    ensures ByteCount(entries) == ByteCount([entries[0]]) + ByteCount(entries[1..])
  {
    OneEntry(sha, entries[0], prefix);
  }

  lemma {:induction false} RecordsSnoc(sha: string -> string, entries: seq<Entry>, last: Entry, prefix: seq<string>)
    ensures Records(sha, entries + [last], prefix) == Records(sha, entries, prefix) + Records(sha, [last], prefix)
    ensures FileCount(entries + [last]) == FileCount(entries) + FileCount([last])
    ensures ByteCount(entries + [last]) == ByteCount(entries) + ByteCount([last])
    decreases |entries|
  {
    if entries == [] {
      assert [] + [last] == [last];
    } else {
      hide Records, FileCount, ByteCount;
      RecordsSnoc(sha, entries[1..], last, prefix);
      assert (entries + [last])[1..] == entries[1..] + [last];
      HeadFirst(sha, entries, prefix);
      HeadFirst(sha, entries + [last], prefix);
    }
  }

  lemma FirstLine(records: seq<Record>)
    requires records != []
    ensures Listing(records) == Line(records[0]) + Listing(records[1..])
  {
  }

  lemma EmptyListing()
    ensures Listing([]) == ""
  {
  }

  lemma {:induction false} ListingConcat(a: seq<Record>, b: seq<Record>)
    ensures Listing(a + b) == Listing(a) + Listing(b)
  {
    hide Line, Listing;
    if a == [] {
      assert a + b == b;
      EmptyListing();
    } else {
      ListingConcat(a[1..], b);
      assert (a + b)[1..] == a[1..] + b && (a + b)[0] == a[0];
      FirstLine(a);
      FirstLine(a + b);
    }
  }

  lemma OneEntry(sha: string -> string, e: Entry, prefix: seq<string>)
    ensures
      var path := prefix + [e.name];
      Records(sha, [e], prefix)
      == match e.node
         case Dir(inner) => [DirAt(path)] + Records(sha, inner, path)
         case File(content) => [FileAt(path, sha(content))]
         case _ => []
    ensures FileCount([e]) == match e.node case Dir(inner) => FileCount(inner) case File(_) => 1 case _ => 0
    ensures ByteCount([e]) == match e.node case Dir(inner) => ByteCount(inner) case File(c) => |c| case _ => 0
  {
    assert [e][1..] == [];
  }

  /** What a walk has fed to the running hash, and counted, once it is through `entries`. */
  ghost predicate Fed(sha: string -> string, entries: seq<Entry>, prefix: seq<string>, from: Digesting, to: Digesting) {
    && to.text == from.text + Listing(Records(sha, entries, prefix))
    && to.files == from.files + FileCount(entries)
    && to.bytes == from.bytes + ByteCount(entries)
  }

  datatype Digesting = Digesting(text: string, files: nat, bytes: nat)

  lemma FedNothing(sha: string -> string, prefix: seq<string>, d: Digesting)
    ensures Fed(sha, [], prefix, d, d)
  {
  }

  lemma FedMore(sha: string -> string, entries: seq<Entry>, e: Entry, prefix: seq<string>, a: Digesting, b: Digesting, c: Digesting)
    requires Fed(sha, entries, prefix, a, b) && Fed(sha, [e], prefix, b, c)
    ensures Fed(sha, entries + [e], prefix, a, c)
  {
    hide Listing, Records, FileCount, ByteCount;
    RecordsSnoc(sha, entries, e, prefix);
    ListingConcat(Records(sha, entries, prefix), Records(sha, [e], prefix));
  }

  lemma FedDirectory(sha: string -> string, e: Entry, prefix: seq<string>, a: Digesting, b: Digesting)
    requires
      var path := prefix + [e.name];
      e.node.Dir? && Fed(sha, e.node.entries, path, a.(text := a.text + Line(DirAt(path))), b)
    ensures Fed(sha, [e], prefix, a, b)
  {
    hide Listing, Records, FileCount, ByteCount, Line;
    var path := prefix + [e.name];
    OneEntry(sha, e, prefix);
    ListingConcat([DirAt(path)], Records(sha, e.node.entries, path));
    OneLine(DirAt(path));
  }

  lemma FedFile(sha: string -> string, e: Entry, prefix: seq<string>, a: Digesting)
    requires e.node.File?
    ensures
      var line := Line(FileAt(prefix + [e.name], sha(e.node.content)));
      Fed(sha, [e], prefix, a, Digesting(a.text + line, a.files + 1, a.bytes + |e.node.content|))
  {
    hide Listing, Records, FileCount, ByteCount, Line;
    OneEntry(sha, e, prefix);
    OneLine(FileAt(prefix + [e.name], sha(e.node.content)));
  }

  /** The walk that feeds the running hash. It stops at the first link or special file. */
  method Walk(sha: string -> string, entries: seq<Entry>, prefix: seq<string>, from: Digesting)
    returns (ok: bool, to: Digesting)
    ensures ok == AllPlain(entries)
    ensures ok ==> Fed(sha, entries, prefix, from, to)
    decreases entries
  {
    hide Fed, Line;
    to := from;
    FedNothing(sha, prefix, from);
    for i := 0 to |entries|
      invariant AllPlain(entries[..i]) && Fed(sha, entries[..i], prefix, from, to)
    {
      var e, before := entries[i], to;
      var path := prefix + [e.name];
      assert e in entries && entries[..i + 1] == entries[..i] + [e];
      match e.node {
        case Dir(inner) =>
          ok, to := Walk(sha, inner, path, to.(text := to.text + Line(DirAt(path))));
          if !ok {
            return;
          }
          FedDirectory(sha, e, prefix, before, to);
        case File(content) =>
          to := Digesting(to.text + Line(FileAt(path, sha(content))), to.files + 1, to.bytes + |content|);
          FedFile(sha, e, prefix, before);
        case _ =>
          return false, to;
      }
      FedMore(sha, entries[..i], e, prefix, from, before, to);
    }
    assert entries[..|entries|] == entries;
    ok := true;
  }

  lemma OneLine(r: Record)
    ensures Listing([r]) == Line(r)
  {
    assert [r][1..] == [];
    assert Line(r) + "" == Line(r);
  }

  // ---------------------------------------------------------------------------------------------------
  // What a listing tells apart
  // ---------------------------------------------------------------------------------------------------

  /** A name a listing can carry: not empty, no slash (no file system has those), and no newline. */
  predicate CleanName(name: string) {
    name != "" && '/' !in name && '\n' !in name
  }

  ghost predicate CleanNames(entries: seq<Entry>)
    decreases entries
  {
    forall e :: e in entries ==> CleanName(e.name) && (e.node.Dir? ==> CleanNames(e.node.entries))
  }

  /** At `k` a newline is followed by the opening of a line. */
  predicate BreaksAt(s: string, k: nat) {
    k + 2 < |s| && s[k] == '\n' && (s[k + 1] == 'd' || s[k + 1] == 'f') && s[k + 2] == ' '
  }

  ghost predicate Unbroken(s: string) {
    forall k :: 0 <= k < |s| ==> !BreaksAt(s, k)
  }

  predicate OpensALine(s: string) {
    |s| >= 2 && (s[0] == 'd' || s[0] == 'f') && s[1] == ' '
  }

  /** A name in which no line of a listing opens, even if a blank follows it. It may hold other newlines. */
  ghost predicate UnbrokenName(name: string) {
    name != "" && '/' !in name && Unbroken(name + " ")
  }

  ghost predicate UnbrokenNames(entries: seq<Entry>)
    decreases entries
  {
    forall e :: e in entries ==> UnbrokenName(e.name) && (e.node.Dir? ==> UnbrokenNames(e.node.entries))
  }

  ghost predicate UnbrokenPath(path: seq<string>) {
    path != [] && forall name :: name in path ==> UnbrokenName(name)
  }

  ghost predicate UnbrokenRecord(r: Record) {
    UnbrokenPath(r.path) && (r.FileAt? ==> CleanDigest(r.digest))
  }

  predicate CleanPath(path: seq<string>) {
    path != [] && forall name :: name in path ==> CleanName(name)
  }

  /** A digest is written without blanks or newlines: it is hexadecimal. */
  predicate CleanDigest(digest: string) {
    ' ' !in digest && '\n' !in digest
  }

  predicate CleanRecord(r: Record) {
    CleanPath(r.path) && (r.FileAt? ==> CleanDigest(r.digest))
  }

  /** The digest function is taken to be injective, and its output to be clean. */
  ghost predicate Digests(sha: string -> string) {
    && (forall x :: CleanDigest(sha(x)))
    && (forall x, y :: sha(x) == sha(y) ==> x == y)
  }

  // That assumption can be met: spell each character as that many letters and a stop.

  function Tally(n: nat): string {
    seq(n, i => 'a')
  }

  function SpelledOut(s: string): string {
    if s == "" then "" else Tally(s[0] as int) + ['b'] + SpelledOut(s[1..])
  }

  lemma {:induction false} SpelledOutIsClean(s: string)
    ensures CleanDigest(SpelledOut(s))
  {
    if s != "" { SpelledOutIsClean(s[1..]); }
  }

  lemma {:induction false} SpelledOutIsExact(s: string, t: string)
    requires SpelledOut(s) == SpelledOut(t)
    ensures s == t
  {
    if s != "" && t != "" {
      FirstSeparator(Tally(s[0] as int), SpelledOut(s[1..]), Tally(t[0] as int), SpelledOut(t[1..]), 'b');
      assert |Tally(s[0] as int)| == |Tally(t[0] as int)|;
      SpelledOutIsExact(s[1..], t[1..]);
      assert s == [s[0]] + s[1..] && t == [t[0]] + t[1..];
    }
  }

  lemma DigestsExist()
    ensures exists sha: string -> string :: Digests(sha)
  {
    hide SpelledOut, CleanDigest;
    var sha: string -> string := x => SpelledOut(x);
    forall x ensures CleanDigest(sha(x)) { SpelledOutIsClean(x); }
    forall x, y | sha(x) == sha(y) ensures x == y { SpelledOutIsExact(x, y); }
    assert Digests(sha);
  }

  lemma {:induction false} JoinHasNoNewline(path: seq<string>)
    requires forall name :: name in path ==> '\n' !in name
    ensures '\n' !in Join(path, "/")
  {
    if |path| > 1 {
      assert path == [path[0]] + path[1..];
      JoinHasNoNewline(path[1..]);
    }
  }

  /** Everything on a line but its newline. */
  function Body(r: Record): string {
    match r
    case DirAt(path) => "d " + Join(path, "/")
    case FileAt(path, digest) => "f " + Join(path, "/") + " " + digest
  }

  lemma BodyIsOneLine(r: Record)
    requires CleanRecord(r)
    ensures '\n' !in Body(r) && Line(r) == Body(r) + "\n"
  {
    assert forall name :: name in r.path ==> CleanName(name);
    JoinHasNoNewline(r.path);
  }

  /** Joined names, with a blank after them, hold no opening of a line either. */
  lemma {:induction false} JoinIsUnbroken(path: seq<string>)
    requires UnbrokenPath(path)
    ensures Unbroken(Join(path, "/") + " ")
  {
    if |path| == 1 {
      assert path[0] in path;
    } else {
      var rest := path[1..];
      assert path[0] in path && forall name :: name in rest ==> name in path;
      JoinIsUnbroken(rest);
      JoinedByASlash(path[0], Join(rest, "/") + " ");
      assert Join(path, "/") + " " == path[0] + "/" + (Join(rest, "/") + " ");
    }
  }

  lemma JoinedByASlash(a: string, b: string)
    requires Unbroken(a + " ") && Unbroken(b)
    ensures Unbroken(a + "/" + b)
  {
    var s := a + "/" + b;
    forall k | 0 <= k < |s| ensures !BreaksAt(s, k) {
      if k < |a| {
        assert !BreaksAt(a + " ", k);
        assert forall m :: 0 <= m < |a| ==> s[m] == a[m] == (a + " ")[m];
        assert s[|a|] == '/';
      } else if k > |a| {
        assert !BreaksAt(b, k - |a| - 1);
        assert forall m :: |a| < m < |s| ==> s[m] == b[m - |a| - 1];
      }
    }
  }

  lemma BodyIsUnbroken(r: Record)
    requires UnbrokenRecord(r)
    ensures Unbroken(Body(r)) && Line(r) == Body(r) + "\n"
  {
    JoinIsUnbroken(r.path);
    hide Join, UnbrokenPath;
    var path := Join(r.path, "/");
    BetweenIsUnbroken(if r.DirAt? then "d " else "f ", path, if r.DirAt? then "" else r.digest);
    assert r.DirAt? ==> Body(r) == "d " + path;
    assert r.FileAt? ==> Body(r) == "f " + path + " " + r.digest;
  }

  lemma BetweenIsUnbroken(head: string, path: string, digest: string)
    requires |head| == 2 && head[0] != '\n' && head[1] != '\n' && Unbroken(path + " ") && '\n' !in digest
    ensures Unbroken(head + path) && Unbroken(head + path + " " + digest)
  {
    var s := head + path + " " + digest;
    assert forall m :: 2 <= m < 3 + |path| ==> s[m] == (path + " ")[m - 2];
    assert forall m :: 3 + |path| <= m < |s| ==> s[m] == digest[m - 3 - |path|] && s[m] in digest;
    forall k | 0 <= k < |s| ensures !BreaksAt(s, k) {
      if 2 <= k < 2 + |path| {
        assert !BreaksAt(path + " ", k - 2);
      }
    }
    assert forall m :: 0 <= m < |head + path| ==> (head + path)[m] == s[m];
    forall k | 0 <= k < |head + path| ensures !BreaksAt(head + path, k) {
      assert !BreaksAt(s, k);
    }
  }

  lemma JoinIsExact(a: seq<string>, b: seq<string>)
    requires UnbrokenPath(a) && UnbrokenPath(b) && Join(a, "/") == Join(b, "/")
    ensures a == b
  {
    assert ['/'] == "/";
    SplitJoin(a, '/');
    SplitJoin(b, '/');
  }

  /** The last blank of a file's line is where its digest begins, whatever blanks its name holds. */
  lemma LastBlank(a: string, x: string, b: string, y: string)
    requires a + " " + x == b + " " + y && ' ' !in x && ' ' !in y
    ensures a == b && x == y
  {
    var s := a + " " + x;
    forall k | |a| < k < |s| ensures s[k] != ' ' { NoBlankAfter(a, x, k); }
    forall k | |b| < k < |s| ensures s[k] != ' ' { NoBlankAfter(b, y, k); }
    assert s[|a|] == ' ' && s[|b|] == ' ';
    assert |a| == |b|;
    assert a == s[..|a|] && x == s[|a| + 1..];
    assert b == s[..|b|] && y == s[|b| + 1..];
  }

  lemma NoBlankAfter(a: string, x: string, k: nat)
    requires ' ' !in x && |a| < k < |a| + 1 + |x|
    ensures (a + " " + x)[k] != ' '
  {
    assert (a + " " + x)[k] == x[k - |a| - 1];
    assert x[k - |a| - 1] in x;
  }

  lemma BodyIsExact(a: Record, b: Record)
    requires UnbrokenRecord(a) && UnbrokenRecord(b) && Body(a) == Body(b)
    ensures a == b
  {
    hide Join, UnbrokenPath;
    assert Body(a)[0] == if a.DirAt? then 'd' else 'f';
    assert Body(b)[0] == if b.DirAt? then 'd' else 'f';
    if a.DirAt? {
      assert Body(a)[2..] == Join(a.path, "/") && Body(b)[2..] == Join(b.path, "/");
    } else {
      var pa, pb := Join(a.path, "/"), Join(b.path, "/");
      assert Body(a)[2..] == pa + " " + a.digest && Body(b)[2..] == pb + " " + b.digest;
      LastBlank(pa, a.digest, pb, b.digest);
    }
    JoinIsExact(a.path, b.path);
  }

  /** What may follow a line: nothing, or the next one. */
  ghost predicate IsListing(text: string) {
    text == "" || OpensALine(text)
  }

  lemma ListingOpens(records: seq<Record>)
    ensures IsListing(Listing(records)) && (records == [] <==> Listing(records) == "")
  {
    hide Join;
    if records != [] {
      assert Listing(records)[0] == Line(records[0])[0] && Listing(records)[1] == Line(records[0])[1];
    }
  }

  /** A line ends where the next one opens, whatever newlines it holds. */
  lemma FirstLineEnds(a: string, x: string, b: string, y: string)
    requires a + "\n" + x == b + "\n" + y && Unbroken(a) && Unbroken(b) && IsListing(x) && IsListing(y)
    ensures a == b && x == y
  {
    if |a| < |b| {
      NoLineInside(a, x, b, y);
    } else if |b| < |a| {
      NoLineInside(b, y, a, x);
    }
    var s := a + "\n" + x;
    assert a == s[..|a|] && b == s[..|b|] && x == s[|a| + 1..] && y == s[|b| + 1..];
  }

  lemma NoLineInside(a: string, x: string, b: string, y: string)
    requires a + "\n" + x == b + "\n" + y && Unbroken(b) && IsListing(x)
    ensures |a| >= |b|
  {
    var s, n := a + "\n" + x, |a|;
    assert s[n] == '\n' && s[|b|] == '\n' && |s| == |b| + 1 + |y|;
    if n < |b| {
      assert b[n] == s[n];
      assert x[0] == s[n + 1] && x[1] == s[n + 2];
      assert n + 2 < |b| ==> b[n + 1] == s[n + 1] && b[n + 2] == s[n + 2] && BreaksAt(b, n);
    }
  }

  /** Equal listings of records that hold no opening of a line are listings of equal records. */
  lemma {:induction false} ListingIsExact(a: seq<Record>, b: seq<Record>)
    requires (forall r :: r in a ==> UnbrokenRecord(r)) && (forall r :: r in b ==> UnbrokenRecord(r))
    requires Listing(a) == Listing(b)
    ensures a == b
  {
    hide Listing, Line, Body, UnbrokenRecord, Unbroken;
    ListingOpens(a);
    ListingOpens(b);
    if a != [] {
      FirstLine(a);
      FirstLine(b);
      BodyIsUnbroken(a[0]);
      BodyIsUnbroken(b[0]);
      ListingOpens(a[1..]);
      ListingOpens(b[1..]);
      assert Body(a[0]) + "\n" + Listing(a[1..]) == Body(b[0]) + "\n" + Listing(b[1..]);
      FirstLineEnds(Body(a[0]), Listing(a[1..]), Body(b[0]), Listing(b[1..]));
      BodyIsExact(a[0], b[0]);
      ListingIsExact(a[1..], b[1..]);
      assert a == [a[0]] + a[1..] && b == [b[0]] + b[1..];
    }
  }

  lemma {:induction false} RecordsAreUnbroken(sha: string -> string, entries: seq<Entry>, prefix: seq<string>)
    requires Digests(sha) && UnbrokenNames(entries) && forall name :: name in prefix ==> UnbrokenName(name)
    ensures forall r :: r in Records(sha, entries, prefix) ==> UnbrokenRecord(r)
    decreases Size(entries)
  {
    hide UnbrokenName;
    if entries != [] {
      var e := entries[0];
      assert e in entries;
      assert UnbrokenNames(entries[1..]) by {
        assert forall x :: x in entries[1..] ==> x in entries;
      }
      if e.node.Dir? {
        RecordsAreUnbroken(sha, e.node.entries, prefix + [e.name]);
      }
      RecordsAreUnbroken(sha, entries[1..], prefix);
    }
  }

  /** Names without newlines are a case of that, and so are their records. */
  lemma CleanNameIsUnbroken(name: string)
    requires CleanName(name)
    ensures UnbrokenName(name)
  {
    assert forall k :: 0 <= k < |name| ==> (name + " ")[k] == name[k] && name[k] in name;
  }

  lemma {:induction false} CleanNamesAreUnbroken(entries: seq<Entry>)
    requires CleanNames(entries)
    ensures UnbrokenNames(entries)
    decreases entries
  {
    hide CleanName, UnbrokenName;
    forall e | e in entries ensures UnbrokenName(e.name) && (e.node.Dir? ==> UnbrokenNames(e.node.entries)) {
      CleanNameIsUnbroken(e.name);
      if e.node.Dir? { CleanNamesAreUnbroken(e.node.entries); }
    }
  }

  lemma {:induction false} RecordsAreClean(sha: string -> string, entries: seq<Entry>, prefix: seq<string>)
    requires Digests(sha) && CleanNames(entries) && forall name :: name in prefix ==> CleanName(name)
    ensures forall r :: r in Records(sha, entries, prefix) ==> CleanRecord(r)
    decreases Size(entries)
  {
    if entries != [] {
      var e := entries[0];
      assert e in entries;
      assert CleanNames(entries[1..]) by {
        assert forall x :: x in entries[1..] ==> x in entries;
      }
      if e.node.Dir? {
        RecordsAreClean(sha, e.node.entries, prefix + [e.name]);
      }
      RecordsAreClean(sha, entries[1..], prefix);
    }
  }

  /** What follows a directory's own records: nothing, or a record not below it. */
  predicate Outside(records: seq<Record>, prefix: seq<string>) {
    records == [] || !(prefix < records[0].path)
  }

  lemma FirstIsInside(sha: string -> string, entries: seq<Entry>, prefix: seq<string>)
    requires entries != [] && AllPlain(entries)
    ensures Records(sha, entries, prefix) != []
    ensures Records(sha, entries, prefix)[0].path == prefix + [entries[0].name]
  {
    assert Plain(entries[0].node);
  }

  /** The records after a directory's own are outside it. */
  lemma SiblingsAreOutside(sha: string -> string, rest: seq<Entry>, prefix: seq<string>, name: string, after: seq<Record>)
    requires AllPlain(rest) && Outside(after, prefix)
    ensures Outside(Records(sha, rest, prefix) + after, prefix + [name])
  {
    if rest != [] {
      FirstIsInside(sha, rest, prefix);
    } else {
      assert Records(sha, rest, prefix) + after == after;
      assert prefix <= prefix + [name];
    }
  }

  /** The records of a directory determine its whole tree, wherever among other records they stand. */
  lemma {:induction false} RecordsAreExact(
      sha: string -> string, a: seq<Entry>, b: seq<Entry>, prefix: seq<string>, ra: seq<Record>, rb: seq<Record>)
    requires Digests(sha) && AllPlain(a) && AllPlain(b) && Outside(ra, prefix) && Outside(rb, prefix)
    requires Records(sha, a, prefix) + ra == Records(sha, b, prefix) + rb
    ensures a == b && ra == rb
    decreases Size(a), 1
  {
    SameFirstName(sha, a, b, prefix, ra, rb);
    assert a == [] ==> Records(sha, a, prefix) + ra == ra;
    assert b == [] ==> Records(sha, b, prefix) + rb == rb;
    if a != [] {
      var x, y := a[0], b[0];
      var ta, tb := Records(sha, a[1..], prefix) + ra, Records(sha, b[1..], prefix) + rb;
      HeadFirst(sha, a, prefix);
      HeadFirst(sha, b, prefix);
      PartsAreSmaller(a);
      assert Plain(x.node) && Plain(y.node) && AllPlain(a[1..]) && AllPlain(b[1..]);
      hide Records, Plain, AllPlain, Size;
      Regroup(Records(sha, [x], prefix), Records(sha, a[1..], prefix), ra);
      Regroup(Records(sha, [y], prefix), Records(sha, b[1..], prefix), rb);
      SiblingsAreOutside(sha, a[1..], prefix, x.name, ra);
      SiblingsAreOutside(sha, b[1..], prefix, x.name, rb);
      SameHead(sha, x, y, prefix, ta, tb);
      RecordsAreExact(sha, a[1..], b[1..], prefix, ra, rb);
      assert a == [x] + a[1..] && b == [y] + b[1..];
    }
  }

  lemma PartsAreSmaller(a: seq<Entry>)
    requires a != []
    ensures Size(a[1..]) < Size(a) && Size([a[0]]) <= Size(a)
  {
    assert [a[0]][1..] == [];
  }

  lemma SameFirstName(
      sha: string -> string, a: seq<Entry>, b: seq<Entry>, prefix: seq<string>, ra: seq<Record>, rb: seq<Record>)
    requires AllPlain(a) && AllPlain(b) && Outside(ra, prefix) && Outside(rb, prefix)
    requires Records(sha, a, prefix) + ra == Records(sha, b, prefix) + rb
    ensures a == [] <==> b == []
    ensures a != [] ==> a[0].name == b[0].name
  {
    var all := Records(sha, a, prefix) + ra;
    if a != [] {
      FirstIsInside(sha, a, prefix);
      assert prefix < all[0].path == prefix + [a[0].name];
    }
    if b != [] {
      FirstIsInside(sha, b, prefix);
      assert all == Records(sha, b, prefix) + rb;
      assert prefix < all[0].path == prefix + [b[0].name];
    }
    assert a == [] ==> all == ra;
    assert b == [] ==> all == rb;
    assert a == [] <==> b == [];
    if a != [] {
      assert (prefix + [a[0].name])[|prefix|] == (prefix + [b[0].name])[|prefix|];
    }
  }

  lemma {:induction false} SameHead(
      sha: string -> string, x: Entry, y: Entry, prefix: seq<string>, ta: seq<Record>, tb: seq<Record>)
    requires Digests(sha) && Plain(x.node) && Plain(y.node) && x.name == y.name
    requires Outside(ta, prefix + [x.name]) && Outside(tb, prefix + [x.name])
    requires Records(sha, [x], prefix) + ta == Records(sha, [y], prefix) + tb
    ensures x == y && ta == tb
    decreases Size([x]), 0
  {
    var path := prefix + [x.name];
    PlainHead(x.node);
    PlainHead(y.node);
    OneEntry(sha, x, prefix);
    OneEntry(sha, y, prefix);
    assert x.node.Dir? ==> Size(x.node.entries) < Size([x]);
    hide Records, Size, Plain, Outside;
    if x.node.Dir? {
      SameFirst(DirAt(path), Records(sha, x.node.entries, path), ta, Records(sha, [y], prefix), tb);
      RecordsAreExact(sha, x.node.entries, y.node.entries, path, ta, tb);
    } else {
      SameFirst(FileAt(path, sha(x.node.content)), [], ta, Records(sha, [y], prefix), tb);
      assert ta == [] + ta && tb == [] + tb;
    }
  }

  lemma Regroup<T>(x: seq<T>, y: seq<T>, z: seq<T>)
    ensures (x + y) + z == x + (y + z)
  {
  }

  lemma SameFirst<T>(head: T, more: seq<T>, rest: seq<T>, other: seq<T>, otherRest: seq<T>)
    requires other != [] && ([head] + more) + rest == other + otherRest
    ensures other[0] == head && more + rest == other[1..] + otherRest
  {
    var all := ([head] + more) + rest;
    assert all[0] == head && all[1..] == more + rest;
    assert (other + otherRest)[0] == other[0] && (other + otherRest)[1..] == other[1..] + otherRest;
  }

  lemma PlainHead(n: Node)
    requires Plain(n)
    ensures (n.File? || n.Dir?) && (n.Dir? ==> AllPlain(n.entries))
  {
  }

  /**
   The tree listing is injective on plain trees in whose names no line of a listing opens: equal digests mean the
   same names, the same shape and the same bytes.
   */
  lemma TreeDigestIsExact(sha: string -> string, a: seq<Entry>, b: seq<Entry>)
    requires Digests(sha) && AllPlain(a) && AllPlain(b) && UnbrokenNames(a) && UnbrokenNames(b)
    ensures TreeDigest(sha, a) == TreeDigest(sha, b) <==> a == b
  {
    if TreeDigest(sha, a) == TreeDigest(sha, b) {
      RecordsAreUnbroken(sha, a, []);
      RecordsAreUnbroken(sha, b, []);
      ListingIsExact(Records(sha, a, []), Records(sha, b, []));
      assert Records(sha, a, []) + [] == Records(sha, b, []) + [];
      RecordsAreExact(sha, a, b, [], [], []);
    }
  }

  /** The digest of a directory. */
  function TreeDigest(sha: string -> string, entries: seq<Entry>): string {
    sha(Listing(Records(sha, entries, [])))
  }

  lemma OneNode(sha: string -> string, e: Entry)
    requires e.node == Dir([]) || e.node.File?
    ensures Records(sha, [e], []) == [if e.node.Dir? then DirAt([e.name]) else FileAt([e.name], sha(e.node.content))]
  {
    OneEntry(sha, e, []);
    assert [] + [e.name] == [e.name];
  }

  lemma TwoNodes(sha: string -> string, a: Entry, b: Entry, x: Record, y: Record)
    requires Records(sha, [a], []) == [x] && Records(sha, [b], []) == [y]
    ensures Listing(Records(sha, [a, b], [])) == Line(x) + Line(y)
  {
    hide Records, Line, Listing;
    assert [a] + [b] == [a, b];
    RecordsSnoc(sha, [a], b, []);
    ListingConcat([x], [y]);
    OneLine(x);
    OneLine(y);
  }

  /**
   A newline in a name breaks that where a line opens after it: whatever stands before and after, a directory
   so named reads like the two directories named by the parts.
   */
  lemma NewlineInANameIsNotSeen(sha: string -> string, before: string, after: string)
    ensures
      var one := [Entry(before + "\nd " + after, Dir([]))];
      var two := [Entry(before, Dir([])), Entry(after, Dir([]))];
      one != two && AllPlain(one) && AllPlain(two) && TreeDigest(sha, one) == TreeDigest(sha, two)
  {
    var one := [Entry(before + "\nd " + after, Dir([]))];
    var two := [Entry(before, Dir([])), Entry(after, Dir([]))];
    assert |one| != |two|;
    OneNode(sha, one[0]);
    OneNode(sha, two[0]);
    OneNode(sha, two[1]);
    hide Records, Listing;
    OneLine(DirAt([one[0].name]));
    TwoNodes(sha, two[0], two[1], DirAt([before]), DirAt([after]));
    assert Line(DirAt([before + "\nd " + after])) == Line(DirAt([before])) + Line(DirAt([after]));
  }

  /** And a file with a digest before the newline reads like two files. */
  lemma DigestInANameIsNotSeen(sha: string -> string, before: string, first: string, after: string, second: string)
    ensures
      var one := [Entry(before + " " + sha(first) + "\nf " + after, File(second))];
      var two := [Entry(before, File(first)), Entry(after, File(second))];
      one != two && AllPlain(one) && AllPlain(two) && TreeDigest(sha, one) == TreeDigest(sha, two)
  {
    hide Records, Listing, Line;
    var name := before + " " + sha(first) + "\nf " + after;
    var one := [Entry(name, File(second))];
    var two := [Entry(before, File(first)), Entry(after, File(second))];
    assert |one| != |two|;
    OneNode(sha, one[0]);
    OneNode(sha, two[0]);
    OneNode(sha, two[1]);
    OneLine(FileAt([name], sha(second)));
    TwoNodes(sha, two[0], two[1], FileAt([before], sha(first)), FileAt([after], sha(second)));
    TwoFilesInOneLine(before, sha(first), after, sha(second));
  }

  lemma FileLine(name: string, digest: string)
    ensures Line(FileAt([name], digest)) == "f " + name + (" " + digest + "\n")
    ensures Line(FileAt([name], digest)) == "f " + (name + " " + digest) + "\n"
  {
    assert Join([name], "/") == name;
    assert "f " + name + " " + digest == "f " + (name + " " + digest);
    assert "f " + name + " " + digest + "\n" == "f " + name + (" " + digest + "\n");
  }

  lemma OpenedInside(a: string, b: string, tail: string)
    ensures "f " + (a + "\nf " + b) + tail == ("f " + a + "\n") + ("f " + b + tail)
  {
    assert "\nf " == "\n" + "f ";
    assert a + "\nf " + b == (a + "\n") + ("f " + b);
    assert "f " + ((a + "\n") + ("f " + b)) == ("f " + a + "\n") + ("f " + b);
  }

  lemma TwoFilesInOneLine(before: string, first: string, after: string, second: string)
    ensures Line(FileAt([before + " " + first + "\nf " + after], second)) == Line(FileAt([before], first)) + Line(FileAt([after], second))
  {
    hide Line;
    FileLine(before + " " + first + "\nf " + after, second);
    FileLine(before, first);
    FileLine(after, second);
    OpenedInside(before + " " + first, after, " " + second + "\n");
  }
}
