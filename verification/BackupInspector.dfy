/**
 What the offline inspector makes of a backup set: which component each entry is recognised as, which of the
 required ones are missing, and the verdict on the schema the dump holds.
 */
module BackupInspector {
  import opened Basics
  import opened Text
  import opened BackupTree
  import D = DumpScanner

  datatype Component = Database | Keystore | Secrets | PromotionRecords

  const COMPONENTS: seq<Component> := [Database, Keystore, Secrets, PromotionRecords]

  predicate Required(c: Component) {
    !c.PromotionRecords?
  }

  function ArtifactName(c: Component): string {
    match c
    case Database => "catalog-backup.sql"
    case Keystore => "keystore-backup"
    case Secrets => "secrets-backup"
    case PromotionRecords => "promotion-records-backup"
  }

  /** What lies in the directory of a set, beside its manifest. */
  type Contents = map<string, Node>

  // ---------------------------------------------------------------------------------------------------
  // Files
  // ---------------------------------------------------------------------------------------------------

  const HEAD_BYTES: nat := 512
  const PLAIN_DUMP_MARKER: string := "PostgreSQL database dump"
  const CUSTOM_DUMP_MAGIC: string := "PGDMP"
  const GZIP_MAGIC: string := [0x1f as char, 0x8b as char]
  const SCAN_MAX_BYTES: nat := 2 * 1024 * 1024 * 1024
  const MAX_LINE_BYTES: nat := 8 * 1024 * 1024

  predicate OccursAt(s: string, word: string, i: nat) {
    i + |word| <= |s| && s[i..i + |word|] == word
  }

  predicate Occurs(s: string, word: string) {
    exists i :: 0 <= i <= |s| && OccursAt(s, word, i)
  }

  function Head(content: string): string {
    if |content| <= HEAD_BYTES then content else content[..HEAD_BYTES]
  }

  /** How the windows of a scan cut up one file, and what the decoder still held at its end. */
  datatype Reading = Reading(windows: seq<D.Read>, last: string)

  type Reader = string -> Reading

  /** Every file is read whole, in windows of any sizes. A decoder cut off in a character leaves replacements. */
  ghost predicate ReadsAll(reader: Reader) {
    forall text ::
      && D.Remaining(reader(text).windows, reader(text).last) == text
      && (forall i :: 0 <= i < |reader(text).last| ==> reader(text).last[i] == 0xFFFD as char)
  }

  function FoundVersion(f: D.Finding): Option<nat> {
    if f.Found? then Some(f.version) else None
  }

  function ScannedVersion(reader: Reader, content: string): Option<nat> {
    FoundVersion(D.Scan(reader(content).windows, reader(content).last, SCAN_MAX_BYTES, MAX_LINE_BYTES))
  }

  /** What one entry of a set is taken for. A dump has a version, when one could be established. */
  datatype Artifact = Unrecognised | Dump(version: Option<nat>) | KeystoreCopy | SecretsCopy | RecordsCopy

  function ComponentOf(a: Artifact): Option<Component> {
    match a
    case Unrecognised => None
    case Dump(_) => Some(Database)
    case KeystoreCopy => Some(Keystore)
    case SecretsCopy => Some(Secrets)
    case RecordsCopy => Some(PromotionRecords)
  }

  function InspectFile(reader: Reader, content: string): Artifact {
    if CUSTOM_DUMP_MAGIC <= content || GZIP_MAGIC <= content then Dump(None)
    else if content == "" || !Occurs(Head(content), PLAIN_DUMP_MARKER) then Unrecognised
    else Dump(ScannedVersion(reader, content))
  }

  // ---------------------------------------------------------------------------------------------------
  // Directories
  // ---------------------------------------------------------------------------------------------------

  function Child(entries: seq<Entry>, name: string): Option<Node> {
    if entries == [] then None else if entries[0].name == name then Some(entries[0].node) else Child(entries[1..], name)
  }

  predicate HasDirectory(entries: seq<Entry>, name: string) {
    Child(entries, name).Some? && Child(entries, name).value.Dir?
  }

  predicate LooksLikeKeystore(entries: seq<Entry>) {
    HasDirectory(entries, "keys") && HasDirectory(entries, "tombstones")
  }

  const ROOT_KEY: string := "custodian_root_key"

  /** The secrets every set must hold; the root key is one more when the keystore holds a ring. */
  const SECRET_NAMES: seq<string> :=
    ["admin_database_url", "completion_secret", "custodian_kek", "database_url", "operator_ui_token", "postgres_password"]

  function RequiredSecrets(ring: bool): seq<string> {
    if ring then SECRET_NAMES + [ROOT_KEY] else SECRET_NAMES
  }

  /** A secret counts when it is a regular file with something in it. */
  predicate SecretIsThere(entries: seq<Entry>, name: string) {
    Child(entries, name).Some? && Child(entries, name).value.File? && Child(entries, name).value.content != ""
  }

  predicate NamesASecret(entries: seq<Entry>, ring: bool) {
    exists name :: name in RequiredSecrets(ring) && Child(entries, name).Some?
  }

  predicate SecretsAreComplete(entries: seq<Entry>, ring: bool) {
    && (forall name :: name in RequiredSecrets(ring) ==> SecretIsThere(entries, name))
    && (Child(entries, ROOT_KEY).Some? ==> SecretIsThere(entries, ROOT_KEY))
  }

  predicate IsJsonName(name: string) {
    |name| >= 5 && Lower(name[|name| - 5..]) == ".json"
  }

  function InspectDirectory(ring: bool, entries: seq<Entry>): Artifact {
    if LooksLikeKeystore(entries) then KeystoreCopy
    else if NamesASecret(entries, ring) then if SecretsAreComplete(entries, ring) then SecretsCopy else Unrecognised
    else if entries != [] && forall e :: e in entries ==> IsJsonName(e.name) then RecordsCopy
    else Unrecognised
  }

  function Inspect(reader: Reader, ring: bool, n: Node): Artifact {
    match n
    case File(content) => InspectFile(reader, content)
    case Dir(entries) => InspectDirectory(ring, entries)
    case _ => Unrecognised
  }

  /** The keystore of the set holds a ring of wrapping keys. */
  predicate HasRing(contents: Contents) {
    var name := ArtifactName(Keystore);
    && name in contents && contents[name].Dir? && HasDirectory(contents[name].entries, "ring")
    && var ring := Child(contents[name].entries, "ring").value.entries;
       Child(ring, "kek-ring.json").Some? && Child(ring, "kek-ring.json").value.File?
  }

  // ---------------------------------------------------------------------------------------------------
  // The set
  // ---------------------------------------------------------------------------------------------------

  function ArtifactAt(reader: Reader, contents: Contents, name: string): Artifact
    requires name in contents
  {
    Inspect(reader, HasRing(contents), contents[name])
  }

  /** Some entry of the set is recognised as the component, whatever its name. */
  predicate Sees(reader: Reader, contents: Contents, c: Component) {
    exists name :: name in contents && ComponentOf(ArtifactAt(reader, contents, name)) == Some(c)
  }

  predicate Complete(reader: Reader, contents: Contents) {
    forall c :: Required(c) ==> Sees(reader, contents, c)
  }

  ghost function DumpVersions(reader: Reader, contents: Contents): set<Option<nat>> {
    set name | name in contents && ArtifactAt(reader, contents, name).Dump? :: ArtifactAt(reader, contents, name).version
  }

  datatype Verdict = Incomplete | Indeterminate | Ahead | Current | RollbackPoint

  function VerdictOn(version: nat, build: nat): Verdict {
    if version > build then Ahead else if version == build then Current else RollbackPoint
  }

  ghost predicate AgreeOn(versions: set<Option<nat>>, version: nat) {
    versions == {Some(version)}
  }

  /** The one version every dump of the set is known to hold. */
  ghost function Agreed(versions: set<Option<nat>>): (r: Option<nat>)
    ensures r.Some? ==> AgreeOn(versions, r.value)
    ensures forall v: nat :: AgreeOn(versions, v) ==> r == Some(v)
  {
    if v: nat :| AgreeOn(versions, v) then
      assert Some(v) in versions;
      Some(v)
    else None
  }

  /** The verdict speaks of a version only when every required component is seen and all dumps agree on it. */
  ghost function VerdictOf(reader: Reader, contents: Contents, build: nat): Verdict {
    if !Complete(reader, contents) then Incomplete
    else
      match Agreed(DumpVersions(reader, contents))
      case None => Indeterminate
      case Some(version) => VerdictOn(version, build)
  }

  function Missing(seen: set<Component>, cs: seq<Component>): seq<Component> {
    if cs == [] then []
    else
      var last := cs[|cs| - 1];
      Missing(seen, cs[..|cs| - 1]) + if Required(last) && last !in seen then [last] else []
  }

  ghost function SeenIn(reader: Reader, contents: Contents, names: set<string>): set<Component>
    requires names <= contents.Keys
  {
    set name | name in names && ComponentOf(ArtifactAt(reader, contents, name)).Some?
      :: ComponentOf(ArtifactAt(reader, contents, name)).value
  }

  ghost function VersionsIn(reader: Reader, contents: Contents, names: set<string>): set<Option<nat>>
    requires names <= contents.Keys
  {
    set name | name in names && ArtifactAt(reader, contents, name).Dump? :: ArtifactAt(reader, contents, name).version
  }

  lemma AllComponents()
    ensures forall c: Component :: c in COMPONENTS
  {
    forall c: Component ensures c in COMPONENTS {
      match c {
        case Database => assert COMPONENTS[0] == c;
        case Keystore => assert COMPONENTS[1] == c;
        case Secrets => assert COMPONENTS[2] == c;
        case PromotionRecords => assert COMPONENTS[3] == c;
      }
    }
  }

  lemma {:induction false} MissingIs(seen: set<Component>, cs: seq<Component>)
    ensures forall c :: c in Missing(seen, cs) <==> c in cs && Required(c) && c !in seen
  {
    if cs != [] {
      var last := |cs| - 1;
      MissingIs(seen, cs[..last]);
      assert cs == cs[..last] + [cs[last]];
    }
  }

  predicate AllAgree(versions: seq<Option<nat>>) {
    versions != [] && versions[0].Some? && forall i :: 0 <= i < |versions| ==> versions[i] == versions[0]
  }

  /** Agreement of the versions of a list, as the verdict asks for it. */
  lemma OneAnswer(versions: seq<Option<nat>>)
    ensures Agreed(set x | x in versions) == if AllAgree(versions) then versions[0] else None
  {
    var all := set x | x in versions;
    if AllAgree(versions) {
      assert versions[0] in versions;
      assert AgreeOn(all, versions[0].value);
    } else if v: nat :| AgreeOn(all, v) {
      assert Some(v) in all;
      forall i | 0 <= i < |versions| ensures versions[i] == Some(v) {
        assert versions[i] in all;
      }
    }
  }

  function Names(listing: seq<string>): set<string> {
    set name | name in listing
  }

  /** Recognise every entry, name what is missing, and settle the verdict. `listing` is the directory's own order. */
  method InspectBackupDirectory(reader: Reader, contents: Contents, listing: seq<string>, build: nat)
    returns (missing: seq<Component>, verdict: Verdict)
    requires Names(listing) == contents.Keys
    ensures missing == Missing(SeenIn(reader, contents, contents.Keys), COMPONENTS)
    ensures missing == [] <==> Complete(reader, contents)
    ensures verdict == VerdictOf(reader, contents, build)
  {
    hide Inspect, HasRing;
    var present: set<Component>, versions: seq<Option<nat>> := {}, [];
    for i := 0 to |listing|
      invariant Names(listing[..i]) <= contents.Keys
      invariant present == SeenIn(reader, contents, Names(listing[..i]))
      invariant (set v | v in versions) == VersionsIn(reader, contents, Names(listing[..i]))
    {
      var name := listing[i];
      assert name in contents.Keys;
      assert listing[..i + 1] == listing[..i] + [name];
      var a := ArtifactAt(reader, contents, name);
      var c := ComponentOf(a);
      ghost var before, after := Names(listing[..i]), Names(listing[..i + 1]);
      assert after == before + {name};
      SeenMore(reader, contents, before, name);
      if c.Some? { present := present + {c.value}; }
      ghost var were := versions;
      if a.Dump? { versions := versions + [a.version]; }
      assert (set v | v in versions) == (set v | v in were) + if a.Dump? then {a.version} else {};
    }
    assert listing[..|listing|] == listing;
    missing := [];
    for i := 0 to |COMPONENTS|
      invariant missing == Missing(present, COMPONENTS[..i])
    {
      assert COMPONENTS[..i + 1] == COMPONENTS[..i] + [COMPONENTS[i]];
      if Required(COMPONENTS[i]) && COMPONENTS[i] !in present {
        missing := missing + [COMPONENTS[i]];
      }
    }
    assert COMPONENTS[..|COMPONENTS|] == COMPONENTS;
    CompleteMeans(reader, contents);
    OneAnswer(versions);
    verdict := DeriveVerdict(missing, versions, build);
  }

  lemma SeenMore(reader: Reader, contents: Contents, names: set<string>, name: string)
    requires names <= contents.Keys && name in contents
    ensures
      var a := ArtifactAt(reader, contents, name);
      && SeenIn(reader, contents, names + {name}) ==
         SeenIn(reader, contents, names) + (if ComponentOf(a).Some? then {ComponentOf(a).value} else {})
      && VersionsIn(reader, contents, names + {name}) ==
         VersionsIn(reader, contents, names) + (if a.Dump? then {a.version} else {})
  {
  }

  lemma CompleteMeans(reader: Reader, contents: Contents)
    ensures Missing(SeenIn(reader, contents, contents.Keys), COMPONENTS) == [] <==> Complete(reader, contents)
    ensures VersionsIn(reader, contents, contents.Keys) == DumpVersions(reader, contents)
    ensures forall c :: c in SeenIn(reader, contents, contents.Keys) <==> Sees(reader, contents, c)
  {
    hide ArtifactAt;
    var seen := SeenIn(reader, contents, contents.Keys);
    MissingIs(seen, COMPONENTS);
    AllComponents();
    if Missing(seen, COMPONENTS) != [] {
      assert Missing(seen, COMPONENTS)[0] in Missing(seen, COMPONENTS);
    }
  }

  method DeriveVerdict(missing: seq<Component>, versions: seq<Option<nat>>, build: nat) returns (verdict: Verdict)
    ensures verdict == if missing != [] then Incomplete
                       else if AllAgree(versions) then VerdictOn(versions[0].value, build) else Indeterminate
  {
    if missing != [] { return Incomplete; }
    if exists v :: v in versions && v.None? { return Indeterminate; }
    var distinct := set v | v in versions;
    if versions == [] { return Indeterminate; }
    assert versions[0] in versions;
    if distinct != {versions[0]} {
      return Indeterminate;
    }
    assert forall i :: 0 <= i < |versions| ==> versions[i] in distinct;
    var version := versions[0].value;
    if version > build { return Ahead; }
    return if version == build then Current else RollbackPoint;
  }

  /** Each verdict is given exactly when what it says is so: a newer dump is ahead, an older one a rollback point. */
  lemma EachVerdictHolds(reader: Reader, contents: Contents, build: nat)
    ensures
      var v, all, versions := VerdictOf(reader, contents, build), Complete(reader, contents), DumpVersions(reader, contents);
      && (v.Incomplete? <==> !all)
      && (v.Current? <==> all && versions == {Some(build)})
      && (v.Ahead? <==> all && exists n: nat :: AgreeOn(versions, n) && n > build)
      && (v.RollbackPoint? <==> all && exists n: nat :: AgreeOn(versions, n) && n < build)
      && (v.Indeterminate? <==> all && forall n: nat :: !AgreeOn(versions, n))
  {
    hide Complete, DumpVersions;
  }

  /** The name stands in the directory; and what it names is a file that is not empty. */
  predicate Stands(entries: seq<Entry>, name: string) {
    exists i :: 0 <= i < |entries| && entries[i].name == name
  }

  predicate Filled(entries: seq<Entry>, name: string) {
    Child(entries, name).Some? && Child(entries, name).value.File? && |Child(entries, name).value.content| > 0
  }

  /** The six secrets, and the root key where there is a ring. */
  predicate SecretsFilled(ring: bool, entries: seq<Entry>) {
    && Filled(entries, "admin_database_url") && Filled(entries, "completion_secret") && Filled(entries, "custodian_kek")
    && Filled(entries, "database_url") && Filled(entries, "operator_ui_token") && Filled(entries, "postgres_password")
    && (ring || Stands(entries, "custodian_root_key") ==> Filled(entries, "custodian_root_key"))
  }

  predicate SecretStands(ring: bool, entries: seq<Entry>) {
    || Stands(entries, "admin_database_url") || Stands(entries, "completion_secret") || Stands(entries, "custodian_kek")
    || Stands(entries, "database_url") || Stands(entries, "operator_ui_token") || Stands(entries, "postgres_password")
    || (ring && Stands(entries, "custodian_root_key"))
  }

  lemma {:induction false} ChildStands(entries: seq<Entry>, name: string)
    ensures Child(entries, name).Some? <==> Stands(entries, name)
  {
    if entries != [] && entries[0].name != name {
      ChildStands(entries[1..], name);
      if i :| 0 <= i < |entries| && entries[i].name == name {
        assert entries[1..][i - 1].name == name;
      }
      if i :| 0 <= i < |entries[1..]| && entries[1..][i].name == name {
        assert entries[i + 1].name == name;
      }
    }
  }

  lemma SecretIsFilled(entries: seq<Entry>, name: string)
    ensures SecretIsThere(entries, name) <==> Filled(entries, name)
  {
  }

  lemma RequiredByName(ring: bool, name: string)
    ensures name in RequiredSecrets(ring) <==>
      || name == "admin_database_url" || name == "completion_secret" || name == "custodian_kek" || name == "database_url"
      || name == "operator_ui_token" || name == "postgres_password" || (ring && name == "custodian_root_key")
  {
    var names := RequiredSecrets(ring);
    assert names[0] == "admin_database_url" && names[1] == "completion_secret" && names[2] == "custodian_kek";
    assert names[3] == "database_url" && names[4] == "operator_ui_token" && names[5] == "postgres_password";
    assert ring ==> names[6] == "custodian_root_key";
  }

  lemma SecretsByName(ring: bool, entries: seq<Entry>)
    ensures SecretsAreComplete(entries, ring) <==> SecretsFilled(ring, entries)
    ensures NamesASecret(entries, ring) <==> SecretStands(ring, entries)
  {
    hide RequiredSecrets, Stands, Child, Filled, SecretIsThere;
    forall name ensures SecretIsThere(entries, name) <==> Filled(entries, name) {
      SecretIsFilled(entries, name);
    }
    forall name ensures Child(entries, name).Some? <==> Stands(entries, name) {
      ChildStands(entries, name);
    }
    forall name ensures name in RequiredSecrets(ring) <==>
      || name == "admin_database_url" || name == "completion_secret" || name == "custodian_kek" || name == "database_url"
      || name == "operator_ui_token" || name == "postgres_password" || (ring && name == "custodian_root_key")
    {
      RequiredByName(ring, name);
    }
  }

  lemma JsonNames(name: string)
    ensures IsJsonName(name) <==>
      && |name| >= 5 && name[|name| - 5] == '.' && name[|name| - 4] in {'j', 'J'} && name[|name| - 3] in {'s', 'S'}
      && name[|name| - 2] in {'o', 'O'} && name[|name| - 1] in {'n', 'N'}
  {
    if |name| >= 5 {
      var end := name[|name| - 5..];
      assert forall i :: 0 <= i < 5 ==> Lower(end)[i] == LowerChar(name[|name| - 5 + i]);
      assert Lower(end) == [Lower(end)[0], Lower(end)[1], Lower(end)[2], Lower(end)[3], Lower(end)[4]];
    }
  }

  /** A directory is taken for what it holds by name: a keystore before secrets, secrets before records. */
  lemma DirectoryIsTakenFor(ring: bool, entries: seq<Entry>)
    ensures
      var a := InspectDirectory(ring, entries);
      var keystore := HasDirectory(entries, "keys") && HasDirectory(entries, "tombstones");
      && (a.KeystoreCopy? <==> keystore)
      && (a.SecretsCopy? <==> !keystore && SecretStands(ring, entries) && SecretsFilled(ring, entries))
      && (a.RecordsCopy? <==>
            (!keystore && !SecretStands(ring, entries) && entries != [] && forall e :: e in entries ==> IsJsonName(e.name)))
      && !a.Dump?
  {
    hide HasDirectory, IsJsonName, SecretsAreComplete, NamesASecret, SecretStands, SecretsFilled;
    SecretsByName(ring, entries);
  }

  /** The words every plain dump begins with stand at one place of the first 512 bytes. */
  predicate MarkedAt(content: string, i: nat) {
    i + 24 <= |content| && i + 24 <= 512 && content[i..i + 24] == "PostgreSQL database dump"
  }

  lemma HeadAt(content: string, i: nat, n: nat)
    requires i + n <= |content| && i + n <= 512
    ensures i + n <= |Head(content)| && Head(content)[i..i + n] == content[i..i + n]
  {
    if |content| > 512 {
      assert content[..512][i..i + n] == content[i..i + n];
    }
  }

  lemma MarkedIsOccurring(content: string, i: nat)
    ensures MarkedAt(content, i) <==> i <= |Head(content)| && OccursAt(Head(content), PLAIN_DUMP_MARKER, i)
  {
    var marker := PLAIN_DUMP_MARKER;
    assert |marker| == 24;
    if i + 24 <= |content| && i + 24 <= 512 { HeadAt(content, i, 24); }
  }

  lemma MarkedIsNotEmpty(content: string, i: nat)
    requires MarkedAt(content, i)
    ensures content != ""
  {
  }

  /** A file is a dump by its first bytes, or by those words; a packed one never has a version. */
  lemma FileIsTakenFor(reader: Reader, content: string)
    ensures
      var a := InspectFile(reader, content);
      var packed := "PGDMP" <= content || [0x1f as char, 0x8b as char] <= content;
      && (a.Dump? <==> packed || exists i: nat :: MarkedAt(content, i)) && (!a.Dump? ==> a.Unrecognised?)
      && (a.Dump? ==> a.version == if packed then None else ScannedVersion(reader, content))
  {
    hide ScannedVersion, MarkedAt, OccursAt, Head;
    forall i: nat ensures MarkedAt(content, i) <==>
      i <= |Head(content)| && OccursAt(Head(content), PLAIN_DUMP_MARKER, i)
    {
      MarkedIsOccurring(content, i);
    }
    if i: nat :| MarkedAt(content, i) {
      MarkedIsNotEmpty(content, i);
      assert OccursAt(Head(content), PLAIN_DUMP_MARKER, i);
    }
  }

  // ---------------------------------------------------------------------------------------------------
  // A listing of a directory holds no schema version
  // ---------------------------------------------------------------------------------------------------

  predicate LineStart(text: string, k: nat)
    requires k < |text|
  {
    k == 0 || text[k - 1] == '\n'
  }

  /** No line of the text begins as a COPY or an INSERT does. */
  ghost predicate Quiet(text: string) {
    forall k :: 0 <= k < |text| && LineStart(text, k) ==> QuietChar(text[k])
  }

  predicate QuietChar(c: char) {
    LowerChar(c) != 'c' && LowerChar(c) != 'i'
  }

  predicate QuietLine(line: string) {
    line == "" || QuietChar(line[0])
  }

  lemma NoWord(line: string, word: string)
    requires line != [] && word != [] && LowerChar(line[0]) != LowerChar(word[0])
    ensures D.After(line, word).None?
  {
    if |word| <= |line| {
      assert Lower(line[..|word|])[0] == LowerChar(line[0]) && Lower(word)[0] == LowerChar(word[0]);
    }
  }

  lemma QuietLineIsNothing(st: D.State, line: string)
    requires QuietLine(line) && !st.inCopy
    ensures D.PushLine(st, line) == st
  {
    if line != "" {
      NoWord(line, "copy");
      NoWord(line, "insert");
    }
  }

  lemma {:induction false} QuietLinesAreNothing(st: D.State, lines: seq<string>)
    requires !st.inCopy && forall l :: l in lines ==> QuietLine(l)
    ensures D.Feed(st, lines) == st
    decreases |lines|
  {
    hide D.PushLine;
    if lines != [] {
      assert lines[0] in lines;
      QuietLineIsNothing(st, lines[0]);
      assert forall l :: l in lines[1..] ==> l in lines;
      QuietLinesAreNothing(st, lines[1..]);
    }
  }

  lemma {:induction false} LinesOfQuiet(text: string)
    requires Quiet(text)
    ensures forall l :: l in D.Lines(text) ==> QuietLine(l)
    decreases |text|
  {
    var k := Find(text, '\n');
    if k < |text| {
      QuietAfter(text, k + 1);
      LinesOfQuiet(text[k + 1..]);
    }
    if text != "" { assert LineStart(text, 0); }
  }

  lemma QuietAfter(text: string, k: nat)
    requires Quiet(text) && 0 < k <= |text| && text[k - 1] == '\n'
    ensures Quiet(text[k..])
  {
    forall j | 0 <= j < |text| - k && LineStart(text[k..], j) ensures QuietChar(text[k..][j]) {
      assert LineStart(text, k + j);
    }
  }

  lemma QuietPrefix(text: string, k: nat)
    requires Quiet(text) && k <= |text|
    ensures Quiet(text[..k])
  {
    forall j | 0 <= j < k && LineStart(text[..k], j) ensures QuietChar(text[..k][j]) {
      assert LineStart(text, j);
    }
  }

  lemma QuietTogether(a: string, b: string)
    requires Quiet(a) && Quiet(b) && (a == "" || a[|a| - 1] == '\n')
    ensures Quiet(a + b)
  {
    forall k | 0 <= k < |a + b| && LineStart(a + b, k) ensures QuietChar((a + b)[k]) {
      if k < |a| {
        assert LineStart(a, k);
      } else {
        assert LineStart(b, k - |a|);
      }
    }
  }

  lemma QuietWindow(st: D.State, text: string, ahead: string)
    requires Quiet(text + ahead) && !st.inCopy
    ensures D.Window(st, text).0 == st && Quiet(D.Window(st, text).1 + ahead)
  {
    var cut := D.FindLast(text, '\n');
    if cut > 0 {
      assert (text + ahead)[cut..] == text[cut..] + ahead;
      QuietAfter(text + ahead, cut);
      if cut > 1 {
        assert (text + ahead)[..cut - 1] == text[..cut - 1];
        QuietPrefix(text + ahead, cut - 1);
        LinesOfQuiet(text[..cut - 1]);
        QuietLinesAreNothing(st, D.Lines(text[..cut - 1]));
      }
    } else {
      assert text[0..] == text;
    }
  }

  lemma QuietFinish(st: D.State, carry: string, last: string, truncated: bool, maxLineBytes: nat)
    requires st.found == [] && !st.inCopy && QuietLine(carry) && QuietLine(last)
    ensures FoundVersion(D.Finish(st, carry + last, truncated, maxLineBytes)).None?
  {
    hide D.PushLine, D.ByteLength;
    assert carry != "" ==> (carry + last)[0] == carry[0];
    assert carry == "" ==> carry + last == last;
    QuietLineIsNothing(st, carry + last);
  }

  lemma {:induction false} QuietScan(
      st: D.State, carry: string, visited: nat, windows: seq<D.Read>, last: string, maxBytes: nat, maxLineBytes: nat)
    requires st.found == [] && !st.inCopy && QuietLine(last)
    requires Quiet(carry + D.Remaining(windows, last))
    ensures FoundVersion(D.ScanFrom(st, carry, visited, windows, last, maxBytes, maxLineBytes)).None?
    decreases |windows|
  {
    hide D.PushLine, D.ByteLength, D.Window, D.Finish, Quiet;
    QuietHead(carry, D.Remaining(windows, last));
    QuietFinish(st, carry, last, true, maxLineBytes);
    QuietFinish(st, carry, last, false, maxLineBytes);
    if visited < maxBytes && windows != [] && windows[0].Chunk? {
      var text, ahead := carry + windows[0].text, D.Remaining(windows[1..], last);
      assert carry + D.Remaining(windows, last) == text + ahead;
      QuietWindow(st, text, ahead);
      QuietScan(st, D.Window(st, text).1, visited + windows[0].bytes, windows[1..], last, maxBytes, maxLineBytes);
    }
  }

  lemma QuietHead(carry: string, ahead: string)
    requires Quiet(carry + ahead)
    ensures QuietLine(carry)
  {
    if carry != "" {
      assert LineStart(carry + ahead, 0) && (carry + ahead)[0] == carry[0];
    }
  }

  lemma QuietHasNoVersion(reader: Reader, text: string)
    requires ReadsAll(reader) && Quiet(text)
    ensures ScannedVersion(reader, text).None?
  {
    hide Quiet, D.ScanFrom;
    var r := reader(text);
    assert "" + D.Remaining(r.windows, r.last) == text;
    QuietScan(D.INITIAL, "", 0, r.windows, r.last, SCAN_MAX_BYTES, MAX_LINE_BYTES);
  }

  lemma LineIsQuiet(r: Record)
    requires CleanRecord(r)
    ensures Line(r) != "" && Quiet(Line(r)) && Line(r)[|Line(r)| - 1] == '\n' && Line(r)[0] in {'d', 'f'}
  {
    BodyIsOneLine(r);
    assert Line(r)[0] == Body(r)[0] && Line(r)[0] in {'d', 'f'};
    assert forall k :: 0 <= k < |Body(r)| ==> Line(r)[k] == Body(r)[k] && Body(r)[k] in Body(r);
    assert forall k :: 0 < k < |Line(r)| ==> !LineStart(Line(r), k);
  }

  lemma {:induction false} ListingIsQuiet(records: seq<Record>)
    requires forall r :: r in records ==> CleanRecord(r)
    ensures Quiet(Listing(records)) && (records != [] ==> Listing(records) != "" && Listing(records)[0] in {'d', 'f'})
  {
    hide Line, CleanRecord, Quiet;
    if records == [] {
      NothingIsQuiet();
    } else {
      assert records[0] in records && forall r :: r in records[1..] ==> r in records;
      ListingIsQuiet(records[1..]);
      FirstLine(records);
      LineIsQuiet(records[0]);
      QuietTogether(Line(records[0]), Listing(records[1..]));
    }
  }

  lemma NothingIsQuiet()
    ensures Quiet("")
  {
  }

  /**
   A file that holds the listing of a directory is no dump whose version can be read: either nothing in its first
   512 bytes says it is a dump, and it is not recognised at all, or it is a dump without a version.
   */
  lemma ListingIsNoDump(reader: Reader, sha: string -> string, entries: seq<Entry>)
    requires ReadsAll(reader) && Digests(sha) && CleanNames(entries)
    ensures
      var text := Listing(Records(sha, entries, []));
      InspectFile(reader, text) == if Occurs(Head(text), PLAIN_DUMP_MARKER) then Dump(None) else Unrecognised
  {
    hide Listing, Records, Digests, CleanNames, CleanRecord, Quiet, ScannedVersion, Occurs;
    var records := Records(sha, entries, []);
    RecordsAreClean(sha, entries, []);
    ListingIsQuiet(records);
    QuietHasNoVersion(reader, Listing(records));
    EmptyHasNoMarker();
    EmptyListing();
  }

  lemma EmptyHasNoMarker()
    ensures !Occurs(Head(""), PLAIN_DUMP_MARKER)
  {
  }
}
