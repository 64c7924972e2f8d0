/**
 How large a published backup set is against the bound its own manifest puts on removing it. The bound is taken
 from a count of files; the removal walks directories too.
 */
module RemovalBound {
  import opened Basics
  import opened Text
  import opened BackupTree
  import opened BackupInspector
  import opened BackupSet
  import P = RetentionProtocol
  import E = RetentionEngine

  const MANIFEST_NAME: string := "catalog-backup-manifest.json"

  // ---------------------------------------------------------------------------------------------------
  // The tree of a set
  // ---------------------------------------------------------------------------------------------------

  /** The places below the root, one per file and per directory. */
  ghost function Paths(entries: seq<Entry>, prefix: P.Path): P.Tree
    decreases Size(entries)
  {
    if entries == [] then {}
    else
      var path := prefix + [entries[0].name];
      {path} + (if entries[0].node.Dir? then Paths(entries[0].node.entries, path) else {}) + Paths(entries[1..], prefix)
  }

  function DirectoryCount(entries: seq<Entry>): nat
    decreases Size(entries)
  {
    if entries == [] then 0
    else (if entries[0].node.Dir? then 1 + DirectoryCount(entries[0].node.entries) else 0) + DirectoryCount(entries[1..])
  }

  /** As a file system has it: no two entries of one directory share a name. */
  ghost predicate UniqueNames(entries: seq<Entry>)
    decreases entries
  {
    && (forall i, k :: 0 <= i < k < |entries| ==> entries[i].name != entries[k].name)
    && (forall e :: e in entries ==> e.node.Dir? ==> UniqueNames(e.node.entries))
  }

  lemma {:induction false} PathsAreBelow(entries: seq<Entry>, prefix: P.Path, path: P.Path)
    requires path in Paths(entries, prefix)
    ensures |path| > |prefix| && prefix <= path && exists e :: e in entries && e.name == path[|prefix|]
    decreases Size(entries)
  {
    var here := prefix + [entries[0].name];
    assert entries[0] in entries && here[|prefix|] == entries[0].name;
    if path == here {
    } else if entries[0].node.Dir? && path in Paths(entries[0].node.entries, here) {
      PathsAreBelow(entries[0].node.entries, here, path);
      assert path[|prefix|] == here[|prefix|];
    } else {
      PathsAreBelow(entries[1..], prefix, path);
    }
  }

  lemma UniqueParts(entries: seq<Entry>)
    requires entries != [] && UniqueNames(entries)
    ensures UniqueNames(entries[1..]) && (entries[0].node.Dir? ==> UniqueNames(entries[0].node.entries))
    ensures forall e :: e in entries[1..] ==> e.name != entries[0].name
  {
    assert entries[0] in entries;
    assert forall e :: e in entries[1..] ==> e in entries;
  }

  lemma HereIsApart(entries: seq<Entry>, prefix: P.Path)
    requires entries != [] && UniqueNames(entries)
    ensures
      var here := prefix + [entries[0].name];
      && (entries[0].node.Dir? ==> {here} !! Paths(entries[0].node.entries, here))
      && {here} !! Paths(entries[1..], prefix)
      && (entries[0].node.Dir? ==> Paths(entries[0].node.entries, here) !! Paths(entries[1..], prefix))
  {
    UniqueParts(entries);
    var here := prefix + [entries[0].name];
    forall p | p in Paths(entries[1..], prefix) ensures |p| > |prefix| && p[|prefix|] != entries[0].name {
      PathsAreBelow(entries[1..], prefix, p);
    }
    if entries[0].node.Dir? {
      forall p | p in Paths(entries[0].node.entries, here) ensures |p| > |here| && p[|prefix|] == entries[0].name {
        PathsAreBelow(entries[0].node.entries, here, p);
        assert p[|prefix|] == here[|prefix|];
      }
    }
  }

  /** A tree has one path per entry, and every entry is a file or a directory. */
  lemma {:induction false} PathsAreCounted(entries: seq<Entry>, prefix: P.Path)
    requires AllPlain(entries) && UniqueNames(entries)
    ensures |Paths(entries, prefix)| == FileCount(entries) + DirectoryCount(entries)
    decreases Size(entries)
  {
    if entries != [] {
      UniqueParts(entries);
      HereIsApart(entries, prefix);
      hide UniqueNames;
      assert Plain(entries[0].node) && AllPlain(entries[1..]);
      if entries[0].node.Dir? {
        PathsAreCounted(entries[0].node.entries, prefix + [entries[0].name]);
      }
      PathsAreCounted(entries[1..], prefix);
    }
  }

  // ---------------------------------------------------------------------------------------------------
  // A set and what its manifest declares
  // ---------------------------------------------------------------------------------------------------

  function ArtifactEntry(contents: Contents, c: Component): seq<Entry> {
    var name := ArtifactName(c);
    if name in contents then [Entry(name, contents[name])] else []
  }

  /** Everything in the directory of a set: its manifest and its artifacts. */
  function SetEntries(contents: Contents, manifest: string): seq<Entry> {
    [Entry(MANIFEST_NAME, File(manifest))]
    + (ArtifactEntry(contents, Database) + (ArtifactEntry(contents, Keystore)
    + (ArtifactEntry(contents, Secrets) + ArtifactEntry(contents, PromotionRecords))))
  }

  ghost function SetTree(contents: Contents, manifest: string): P.Tree {
    Paths(SetEntries(contents, manifest), [])
  }

  function DeclaredEntries(components: seq<Described>): nat {
    if components == [] then 0
    else
      var last := components[|components| - 1];
      DeclaredEntries(components[..|components| - 1]) + if last.present then last.entries else 0
  }

  function DeclaredBytes(components: seq<Described>): nat {
    if components == [] then 0
    else
      var last := components[|components| - 1];
      DeclaredBytes(components[..|components| - 1]) + if last.present then last.bytes else 0
  }

  function FilesAt(contents: Contents, c: Component): nat {
    if ArtifactName(c) in contents then FilesIn(contents[ArtifactName(c)]) else 0
  }

  function DirectoriesAt(contents: Contents, c: Component): nat {
    DirectoryCount(ArtifactEntry(contents, c))
  }

  /** How many directories a set holds, its artifacts' own included. */
  function Directories(contents: Contents): nat {
    DirectoriesAt(contents, Database) + DirectoriesAt(contents, Keystore) + DirectoriesAt(contents, Secrets)
    + DirectoriesAt(contents, PromotionRecords)
  }

  lemma {:induction false} CountsConcat(a: seq<Entry>, b: seq<Entry>)
    ensures FileCount(a + b) == FileCount(a) + FileCount(b)
    ensures DirectoryCount(a + b) == DirectoryCount(a) + DirectoryCount(b)
    decreases |a|
  {
    if a == [] {
      assert a + b == b;
    } else {
      CountsConcat(a[1..], b);
      assert (a + b)[1..] == a[1..] + b;
    }
  }

  lemma OneArtifact(contents: Contents, c: Component)
    ensures FileCount(ArtifactEntry(contents, c)) == FilesAt(contents, c)
  {
    if ArtifactName(c) in contents {
      assert ArtifactEntry(contents, c)[1..] == [];
    }
  }

  lemma ManifestEntryCounts(manifest: string)
    ensures FileCount([Entry(MANIFEST_NAME, File(manifest))]) == 1
    ensures DirectoryCount([Entry(MANIFEST_NAME, File(manifest))]) == 0
  {
    assert [Entry(MANIFEST_NAME, File(manifest))][1..] == [];
  }

  lemma SetCounts(contents: Contents, manifest: string)
    ensures FileCount(SetEntries(contents, manifest)) == 1 + FilesAt(contents, Database) + FilesAt(contents, Keystore)
      + FilesAt(contents, Secrets) + FilesAt(contents, PromotionRecords)
    ensures DirectoryCount(SetEntries(contents, manifest)) == Directories(contents)
  {
    hide FileCount, DirectoryCount, ArtifactEntry, FilesAt;
    var d, k, s, p := ArtifactEntry(contents, Database), ArtifactEntry(contents, Keystore),
      ArtifactEntry(contents, Secrets), ArtifactEntry(contents, PromotionRecords);
    ManifestEntryCounts(manifest);
    CountsConcat([Entry(MANIFEST_NAME, File(manifest))], d + (k + (s + p)));
    CountsConcat(d, k + (s + p));
    CountsConcat(k, s + p);
    CountsConcat(s, p);
    OneArtifact(contents, Database);
    OneArtifact(contents, Keystore);
    OneArtifact(contents, Secrets);
    OneArtifact(contents, PromotionRecords);
  }

  lemma DeclaredAre(sha: string -> string, contents: Contents)
    requires Staged(contents)
    ensures DeclaredEntries(TakenComponents(sha, contents)) == FilesAt(contents, Database) + FilesAt(contents, Keystore)
      + FilesAt(contents, Secrets) + FilesAt(contents, PromotionRecords)
  {
    hide FilesIn, BytesIn, Fingerprint;
    var d, k, s, p := Describe(sha, contents, Database).value, Describe(sha, contents, Keystore).value,
      Describe(sha, contents, Secrets).value, Describe(sha, contents, PromotionRecords).value;
    assert TakenComponents(sha, contents) == [d, k, s, p];
    assert [d, k, s, p][..3] == [d, k, s] && [d, k, s][..2] == [d, k] && [d, k][..1] == [d] && [d][..0] == [];
    assert DeclaredEntries([d]) == FilesAt(contents, Database);
    assert DeclaredEntries([d, k]) == DeclaredEntries([d]) + FilesAt(contents, Keystore);
    assert DeclaredEntries([d, k, s]) == DeclaredEntries([d, k]) + FilesAt(contents, Secrets);
  }

  /** A set whose directories a file system could hold. */
  ghost predicate OnDisk(contents: Contents) {
    forall name :: name in contents && contents[name].Dir? ==> UniqueNames(contents[name].entries)
  }

  lemma SetIsOnDisk(contents: Contents, manifest: string)
    requires Staged(contents) && OnDisk(contents)
    ensures AllPlain(SetEntries(contents, manifest)) && UniqueNames(SetEntries(contents, manifest))
  {
    hide Plain;
    var entries := SetEntries(contents, manifest);
    assert |MANIFEST_NAME| == 28 && |ArtifactName(Database)| == 18 && |ArtifactName(Keystore)| == 15;
    assert |ArtifactName(Secrets)| == 14 && |ArtifactName(PromotionRecords)| == 24;
    AFileIsPlain(manifest);
    forall e | e in entries ensures Plain(e.node) && (e.node.Dir? ==> UniqueNames(e.node.entries)) {
      assert e == Entry(MANIFEST_NAME, File(manifest)) || (e.name in contents && e.node == contents[e.name]);
    }
    assert forall i, k :: 0 <= i < k < |entries| ==> |entries[i].name| != |entries[k].name|;
  }

  lemma AFileIsPlain(content: string)
    ensures Plain(File(content))
  {
  }

  /** The row of a set as the inventory reads it off the manifest. */
  function RowOf(components: seq<Described>): P.Row {
    P.Row(DeclaredEntries(components), DeclaredBytes(components))
  }

  /** The plan that removes one published set. */
  ghost function RemovalOf(sha: string -> string, n: P.Name, contents: Contents, manifest: string): P.Operation
    requires Staged(contents)
  {
    P.Operation([n], map[n := RowOf(TakenComponents(sha, contents))], map[n := SetTree(contents, manifest)], None)
  }

  lemma OneSetFits(op: P.Operation, n: P.Name)
    requires op.WellFormed() && op.removals == [n]
    ensures E.PlannedFit(op) <==> |op.initial[n]| <= E.RemovalEntryBound(op.rows[n].entries)
  {
    assert n in op.removals;
  }

  lemma PlannedIsReady(op: P.Operation)
    requires op.WellFormed()
    ensures P.Inv(op, P.Planned(op)) && P.Ready(op, P.Planned(op))
  {
  }

  /**
   Whether the removal of a published set can complete is decided by its shape alone: it holds its manifest, the
   files its manifest counts and the directories it does not, and the bound leaves room for as many directories
   as files and 63 more.
   */
  lemma RemovableExactlyWhen(sha: string -> string, n: P.Name, contents: Contents, manifest: string)
    requires Staged(contents) && OnDisk(contents)
    ensures
      var op := RemovalOf(sha, n, contents, manifest);
      && op.WellFormed()
      && |op.initial[n]| == 1 + op.rows[n].entries + Directories(contents)
      && (E.Recoverable(op, P.Planned(op)) <==> Directories(contents) <= op.rows[n].entries + 63)
  {
    hide SetEntries, Directories, Paths, TakenComponents, DeclaredEntries, DeclaredBytes, Staged, OnDisk, UniqueNames, AllPlain,
      P.Inv, P.Planned, E.Recoverable, E.PlannedFit;
    var op := RemovalOf(sha, n, contents, manifest);
    SetIsOnDisk(contents, manifest);
    PathsAreCounted(SetEntries(contents, manifest), []);
    SetCounts(contents, manifest);
    DeclaredAre(sha, contents);
    OneSetFits(op, n);
    PlannedIsReady(op);
    E.RecoverableWhenReady(op, P.Planned(op));
  }

  // ---------------------------------------------------------------------------------------------------
  // A set that verifies and cannot be removed
  // ---------------------------------------------------------------------------------------------------

  function Letters(k: nat): string {
    seq(k, i => 'd')
  }

  /** `k` empty directories. */
  function EmptyDirectories(k: nat): (entries: seq<Entry>)
    ensures |entries| == k && forall i :: 0 <= i < k ==> entries[i] == Entry(Letters(i + 1), Dir([]))
  {
    seq(k, i requires 0 <= i < k => Entry(Letters(i + 1), Dir([])))
  }

  function Secret(name: string): Entry {
    Entry(name, File("secret"))
  }

  function AllSecrets(): seq<Entry> {
    [Secret("admin_database_url"), Secret("completion_secret"), Secret("custodian_kek"), Secret("database_url"),
     Secret("operator_ui_token"), Secret("postgres_password")]
  }

  function EmptyKeystore(): seq<Entry> {
    [Entry("keys", Dir([])), Entry("tombstones", Dir([]))]
  }

  /** A dump, an empty keystore, the six secrets, and promotion records that hold nothing but directories. */
  function SparseSet(dump: string, k: nat): Contents {
    map["catalog-backup.sql" := File(dump), "keystore-backup" := Dir(EmptyKeystore()),
        "secrets-backup" := Dir(AllSecrets()), "promotion-records-backup" := Dir(EmptyDirectories(k))]
  }

  lemma NamesDiffer()
    ensures forall c, d: Component :: ArtifactName(c) == ArtifactName(d) ==> c == d
  {
    assert |ArtifactName(Database)| == 18 && |ArtifactName(Keystore)| == 15;
    assert |ArtifactName(Secrets)| == 14 && |ArtifactName(PromotionRecords)| == 24;
  }

  lemma SparseArtifacts(dump: string, k: nat)
    ensures
      var contents := SparseSet(dump, k);
      && contents.Keys == {ArtifactName(Database), ArtifactName(Keystore), ArtifactName(Secrets), ArtifactName(PromotionRecords)}
      && contents[ArtifactName(Database)] == File(dump) && contents[ArtifactName(Keystore)] == Dir(EmptyKeystore())
      && contents[ArtifactName(Secrets)] == Dir(AllSecrets())
      && contents[ArtifactName(PromotionRecords)] == Dir(EmptyDirectories(k))
  {
    NamesDiffer();
    assert ArtifactName(Database) != ArtifactName(Keystore) && ArtifactName(Database) != ArtifactName(Secrets);
    assert ArtifactName(Database) != ArtifactName(PromotionRecords) && ArtifactName(Keystore) != ArtifactName(Secrets);
    assert ArtifactName(Keystore) != ArtifactName(PromotionRecords) && ArtifactName(Secrets) != ArtifactName(PromotionRecords);
  }

  lemma KeystoreParts()
    ensures LooksLikeKeystore(EmptyKeystore()) && AllPlain(EmptyKeystore()) && UniqueNames(EmptyKeystore())
    ensures CleanNames(EmptyKeystore()) && Child(EmptyKeystore(), "ring").None?
    ensures FileCount(EmptyKeystore()) == 0 && DirectoryCount(EmptyKeystore()) == 2
  {
    var entries := EmptyKeystore();
    assert |"keys"| == 4 && |"tombstones"| == 10 && |"ring"| == 4 && "keys"[0] != "ring"[0];
    assert entries[1..] == [Entry("tombstones", Dir([]))] && entries[1..][1..] == [];
    assert Child([], "ring").None? && Child(entries[1..], "ring").None?;
    assert CleanName("keys") && CleanName("tombstones");
  }

  lemma {:induction false} NoChild(entries: seq<Entry>, name: string)
    requires forall e :: e in entries ==> e.name != name
    ensures Child(entries, name).None?
  {
    if entries != [] {
      assert entries[0] in entries && forall e :: e in entries[1..] ==> e in entries;
      NoChild(entries[1..], name);
    }
  }

  lemma {:induction false} ChildIs(entries: seq<Entry>, i: nat)
    requires i < |entries| && forall k :: 0 <= k < i ==> entries[k].name != entries[i].name
    ensures Child(entries, entries[i].name) == Some(entries[i].node)
  {
    if i > 0 {
      assert entries[0].name != entries[i].name && entries[1..][i - 1] == entries[i];
      ChildIs(entries[1..], i - 1);
    }
  }

  lemma SecretNamesDiffer()
    ensures forall i, k :: 0 <= i < k < |AllSecrets()| ==> AllSecrets()[i].name != AllSecrets()[k].name
    ensures forall e :: e in AllSecrets() ==> e.name != ROOT_KEY && e.name != "keys"
    ensures |AllSecrets()| == |SECRET_NAMES| && forall i :: 0 <= i < |SECRET_NAMES| ==> AllSecrets()[i] == Secret(SECRET_NAMES[i])
  {
    NamesLookLike();
  }

  lemma NamesLookLike()
    ensures |SECRET_NAMES| == 6 && |ROOT_KEY| == 18 && ROOT_KEY[0] == 'c' && |"keys"| == 4
    ensures |SECRET_NAMES[0]| == 18 && |SECRET_NAMES[1]| == 17 && |SECRET_NAMES[2]| == 13
    ensures |SECRET_NAMES[3]| == 12 && |SECRET_NAMES[4]| == 17 && |SECRET_NAMES[5]| == 17
    ensures SECRET_NAMES[0][0] == 'a' && SECRET_NAMES[1][0] == 'c' && SECRET_NAMES[2][0] == 'c'
    ensures SECRET_NAMES[3][0] == 'd' && SECRET_NAMES[4][0] == 'o' && SECRET_NAMES[5][0] == 'p'
  {
  }

  lemma SecretsAreRecognised()
    ensures InspectDirectory(false, AllSecrets()).SecretsCopy?
  {
    hide AllSecrets;
    SecretNamesDiffer();
    NoChild(AllSecrets(), ROOT_KEY);
    NoChild(AllSecrets(), "keys");
    forall i | 0 <= i < |SECRET_NAMES| ensures SecretIsThere(AllSecrets(), SECRET_NAMES[i]) {
      ChildIs(AllSecrets(), i);
    }
    assert SECRET_NAMES[0] in RequiredSecrets(false) && Child(AllSecrets(), SECRET_NAMES[0]).Some?;
  }

  lemma LongNamesAreClean()
    ensures CleanName("admin_database_url") && CleanName("completion_secret") && CleanName("custodian_kek")
  {
  }

  lemma MoreNamesAreClean()
    ensures CleanName("database_url") && CleanName("operator_ui_token") && CleanName("postgres_password")
  {
  }

  lemma SecretNamesAreClean()
    ensures forall i :: 0 <= i < |SECRET_NAMES| ==> CleanName(SECRET_NAMES[i])
  {
    hide CleanName;
    LongNamesAreClean();
    MoreNamesAreClean();
  }

  lemma SecretsParts()
    ensures AllPlain(AllSecrets()) && UniqueNames(AllSecrets()) && CleanNames(AllSecrets())
    ensures FileCount(AllSecrets()) == 6 && DirectoryCount(AllSecrets()) == 0
  {
    hide AllSecrets, CleanName;
    var all := AllSecrets();
    SecretNamesDiffer();
    SecretNamesAreClean();
    OnlyFiles(all);
  }

  lemma {:induction false} OnlyFiles(entries: seq<Entry>)
    requires forall e :: e in entries ==> e.node.File?
    ensures AllPlain(entries) && FileCount(entries) == |entries| && DirectoryCount(entries) == 0
  {
    if entries != [] {
      assert entries[0] in entries && forall e :: e in entries[1..] ==> e in entries;
      OnlyFiles(entries[1..]);
    }
  }

  lemma LettersAreOnlyThat(name: string, k: nat)
    requires name != [] && (name[0] != 'd' || name[|name| - 1] != 'd' || (|name| > 1 && name[1] != 'd'))
    ensures forall e :: e in EmptyDirectories(k) ==> e.name != name
  {
    forall e | e in EmptyDirectories(k) ensures e.name != name {
      assert forall i :: 0 <= i < |e.name| ==> e.name[i] == 'd';
    }
  }

  lemma DirectoriesAreUnrecognised(reader: Reader, ring: bool, k: nat)
    ensures Inspect(reader, ring, Dir(EmptyDirectories(k))).Unrecognised?
  {
    hide EmptyDirectories, Child;
    var entries := EmptyDirectories(k);
    LettersAreOnlyThat("keys", k);
    NoChild(entries, "keys");
    forall name | name in RequiredSecrets(ring) ensures Child(entries, name).None? {
      LettersAreOnlyThat(name, k);
      NoChild(entries, name);
    }
    forall e | e in entries ensures !IsJsonName(e.name) {
      NoJson(e.name);
    }
    assert entries != [] ==> entries[0] in entries;
  }

  lemma NoJson(name: string)
    requires forall i :: 0 <= i < |name| ==> name[i] == 'd'
    ensures !IsJsonName(name)
  {
    if |name| >= 5 {
      assert Lower(name[|name| - 5..])[0] == 'd';
      assert ".json"[0] == '.';
    }
  }

  lemma {:induction false} OnlyEmptyDirectories(entries: seq<Entry>)
    requires forall e :: e in entries ==> e.node == Dir([])
    ensures AllPlain(entries) && FileCount(entries) == 0 && DirectoryCount(entries) == |entries|
  {
    if entries != [] {
      assert entries[0] in entries && forall e :: e in entries[1..] ==> e in entries;
      OnlyEmptyDirectories(entries[1..]);
    }
  }

  lemma DirectoriesParts(k: nat)
    ensures AllPlain(EmptyDirectories(k)) && UniqueNames(EmptyDirectories(k)) && CleanNames(EmptyDirectories(k))
    ensures FileCount(EmptyDirectories(k)) == 0 && DirectoryCount(EmptyDirectories(k)) == k
  {
    var entries := EmptyDirectories(k);
    forall e | e in entries ensures e.node == Dir([]) && CleanName(e.name) {
      assert forall i :: 0 <= i < |e.name| ==> e.name[i] == 'd';
    }
    OnlyEmptyDirectories(entries);
    assert forall i, j :: 0 <= i < j < |entries| ==> |entries[i].name| != |entries[j].name|;
  }

  lemma SparseIsClean(dump: string, k: nat)
    ensures OnDisk(SparseSet(dump, k)) && !HasRing(SparseSet(dump, k)) && AllClean(SparseSet(dump, k))
  {
    hide SparseSet, EmptyKeystore, AllSecrets, EmptyDirectories, UniqueNames, CleanNames, LooksLikeKeystore, ArtifactName;
    SparseArtifacts(dump, k);
    KeystoreParts();
    SecretsParts();
    DirectoriesParts(k);
  }

  lemma SparseIsStaged(dump: string, k: nat)
    ensures Staged(SparseSet(dump, k))
  {
    hide SparseSet, EmptyKeystore, AllSecrets, EmptyDirectories, UniqueNames, CleanNames, LooksLikeKeystore, ArtifactName;
    SparseArtifacts(dump, k);
    KeystoreParts();
    SecretsParts();
    DirectoriesParts(k);
    AFileIsPlain(dump);
    var contents := SparseSet(dump, k);
    var d, s, p, q := ArtifactName(Database), ArtifactName(Keystore), ArtifactName(Secrets), ArtifactName(PromotionRecords);
    forall name | name in contents ensures Plain(contents[name]) && exists c :: name == ArtifactName(c) {
      assert name == d || name == s || name == p || name == q;
    }
    forall c ensures ArtifactName(c) in contents {
      match c { case Database => case Keystore => case Secrets => case PromotionRecords => }
    }
  }

  lemma SparseIsOrdinary(reader: Reader, dump: string, k: nat)
    ensures Ordinary(reader, SparseSet(dump, k))
  {
    hide SparseSet, EmptyKeystore, AllSecrets, EmptyDirectories, InspectDirectory, LooksLikeKeystore, HasRing, Staged, AllClean, OnDisk, ArtifactName;
    SparseArtifacts(dump, k);
    SparseIsStaged(dump, k);
    SparseIsClean(dump, k);
    KeystoreParts();
    SecretsAreRecognised();
    DirectoriesAreUnrecognised(reader, true, k);
    DirectoriesAreUnrecognised(reader, false, k);
  }

  /** What the inspector makes of the sparse set: complete, and one dump of a known version. */
  lemma SparseIsAccepted(reader: Reader, build: nat, dump: string, k: nat)
    requires InspectFile(reader, dump) == Dump(Some(build))
    ensures InspectionAccepts(reader, build, build, SparseSet(dump, k))
  {
    SparseArtifacts(dump, k);
    SparseIsOrdinary(reader, dump, k);
    SparseIsClean(dump, k);
    DirectoriesAreUnrecognised(reader, false, k);
    var contents := SparseSet(dump, k);
    hide SparseSet, EmptyKeystore, AllSecrets, EmptyDirectories, InspectFile, HasRing, ArtifactName;
    assert ArtifactAt(reader, contents, ArtifactName(Database)) == Dump(Some(build));
    assert ArtifactAt(reader, contents, ArtifactName(Keystore)).KeystoreCopy?;
    assert ArtifactAt(reader, contents, ArtifactName(Secrets)).SecretsCopy?;
    assert ArtifactAt(reader, contents, ArtifactName(PromotionRecords)).Unrecognised?;
    hide ArtifactAt;
    OneDump(reader, contents, build);
  }

  lemma OneDump(reader: Reader, contents: Contents, build: nat)
    requires contents.Keys == {ArtifactName(Database), ArtifactName(Keystore), ArtifactName(Secrets), ArtifactName(PromotionRecords)}
    requires ArtifactAt(reader, contents, ArtifactName(Database)) == Dump(Some(build))
    requires ArtifactAt(reader, contents, ArtifactName(Keystore)).KeystoreCopy?
    requires ArtifactAt(reader, contents, ArtifactName(Secrets)).SecretsCopy?
    requires ArtifactAt(reader, contents, ArtifactName(PromotionRecords)).Unrecognised?
    ensures InspectionAccepts(reader, build, build, contents)
  {
    hide ArtifactAt, ArtifactName;
    var versions := DumpVersions(reader, contents);
    assert ArtifactAt(reader, contents, ArtifactName(Database)).version in versions;
    assert AgreeOn(versions, build);
    assert Sees(reader, contents, Database) && Sees(reader, contents, Keystore) && Sees(reader, contents, Secrets);
  }

  /**
   A set this program takes and verifies, whose removal can never complete: past 65 empty directories in the
   promotion records there is more to walk than the bound allows, and no run of its removal completes.
   */
  lemma EmptyDirectoriesStrand(
      sha: string -> string, reader: Reader, build: nat, dump: string, n: P.Name, k: nat, manifest: string)
    requires Digests(sha) && InspectFile(reader, dump) == Dump(Some(build))
    ensures
      var contents := SparseSet(dump, k);
      && Ordinary(reader, contents)
      && Problems(sha, reader, build, Taken(sha, build, contents), contents) == []
      && var op := RemovalOf(sha, n, contents, manifest);
         op.WellFormed() && (E.Recoverable(op, P.Planned(op)) <==> k <= 65)
  {
    hide SparseSet, InspectFile, InspectionAccepts, Problems, Directories, TakenComponents, RemovalOf, E.Recoverable, P.Planned,
      SetTree, Ordinary, Staged, OnDisk, ReadsAsTaken, Digests, FilesAt;
    var contents := SparseSet(dump, k);
    SparseIsStaged(dump, k);
    SparseIsClean(dump, k);
    SparseIsOrdinary(reader, dump, k);
    SparseIsAccepted(reader, build, dump, k);
    SparseCounts(dump, k);
    ReadsAsItself(sha, contents);
    VerifiesExactlyWhenItReadsTheSame(sha, reader, build, build, contents, contents);
    RemovableExactlyWhen(sha, n, contents, manifest);
    DeclaredAre(sha, contents);
    RowOfRemoval(sha, n, contents, manifest);
  }

  lemma ReadsAsItself(sha: string -> string, contents: Contents)
    requires Staged(contents)
    ensures ReadsAsTaken(sha, contents, contents)
  {
    hide Fingerprint;
    forall c ensures ReadsTheSame(sha, contents, contents, c) {
    }
  }

  lemma RowOfRemoval(sha: string -> string, n: P.Name, contents: Contents, manifest: string)
    requires Staged(contents)
    ensures
      var op := RemovalOf(sha, n, contents, manifest);
      n in op.rows && op.rows[n].entries == DeclaredEntries(TakenComponents(sha, contents)) && op.removals == [n]
  {
  }

  lemma SparseCounts(dump: string, k: nat)
    ensures
      var contents := SparseSet(dump, k);
      && FilesAt(contents, Database) + FilesAt(contents, Keystore) + FilesAt(contents, Secrets)
         + FilesAt(contents, PromotionRecords) == 7
      && Directories(contents) == 5 + k
  {
    hide SparseSet, EmptyKeystore, AllSecrets, EmptyDirectories, FileCount, ArtifactName, DirectoryCount;
    SparseArtifacts(dump, k);
    KeystoreParts();
    SecretsParts();
    DirectoriesParts(k);
    var contents := SparseSet(dump, k);
    OneEntryCounts(Entry(ArtifactName(Database), contents[ArtifactName(Database)]));
    OneEntryCounts(Entry(ArtifactName(Keystore), contents[ArtifactName(Keystore)]));
    OneEntryCounts(Entry(ArtifactName(Secrets), contents[ArtifactName(Secrets)]));
    OneEntryCounts(Entry(ArtifactName(PromotionRecords), contents[ArtifactName(PromotionRecords)]));
  }

  lemma OneEntryCounts(e: Entry)
    ensures DirectoryCount([e]) == if e.node.Dir? then 1 + DirectoryCount(e.node.entries) else 0
  {
    assert [e][1..] == [];
  }
}
