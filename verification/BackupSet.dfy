/** Taking the description of a staged backup set, and later verifying a set against it. */
module BackupSet {
  import opened Basics
  import opened BackupTree
  import opened BackupInspector

  datatype Described = Described(id: Component, artifact: string, present: bool, bytes: nat, entries: nat, digest: string)

  datatype Manifest = Manifest(schemaVersion: nat, components: seq<Described>)

  /** The text the digest of an artifact is taken over: a file's bytes, or a directory's listing. */
  function Fingerprint(sha: string -> string, n: Node): string {
    match n
    case File(content) => content
    case Dir(entries) => Listing(Records(sha, entries, []))
    case _ => ""
  }

  function BytesIn(n: Node): nat {
    match n case File(content) => |content| case Dir(entries) => ByteCount(entries) case _ => 0
  }

  function FilesIn(n: Node): nat {
    match n case File(_) => 1 case Dir(entries) => FileCount(entries) case _ => 0
  }

  /** What a description counts: the bytes of a file or of every file below a directory, and those files. */
  lemma SizesAdd(n: Node, e: Entry, rest: seq<Entry>)
    ensures n.File? ==> BytesIn(n) == |n.content| && FilesIn(n) == 1
    ensures BytesIn(Dir([])) == 0 && FilesIn(Dir([])) == 0
    ensures BytesIn(Dir([e] + rest)) == BytesIn(e.node) + BytesIn(Dir(rest))
    ensures FilesIn(Dir([e] + rest)) == FilesIn(e.node) + FilesIn(Dir(rest))
  {
  }

  /** One component as it lies; nothing when it cannot be described, because a link or special file is in it. */
  function Describe(sha: string -> string, contents: Contents, c: Component): Option<Described> {
    var name := ArtifactName(c);
    if name !in contents then Some(Described(c, name, false, 0, 0, ""))
    else
      var n := contents[name];
      if !Plain(n) then None else Some(Described(c, name, true, BytesIn(n), FilesIn(n), sha(Fingerprint(sha, n))))
  }

  datatype Finding =
    | ComponentMissing(id: Component)
    | ComponentSymlink(id: Component)
    | ComponentSpecial(id: Component)
    | ComponentChanged(id: Component)
    | Unexpected
    | SchemaIncompatible
    | SchemaDisagreement
    | SchemaIndeterminate
    | SetIncomplete

  /** The last declaration of a component in a manifest is the one that counts. */
  function Declared(components: seq<Described>, c: Component): Option<Described> {
    if components == [] then None
    else if components[|components| - 1].id == c then Some(components[|components| - 1])
    else Declared(components[..|components| - 1], c)
  }

  function FindingFor(sha: string -> string, components: seq<Described>, contents: Contents, c: Component): Option<Finding> {
    match Declared(components, c)
    case None => if Required(c) then Some(ComponentMissing(c)) else None
    case Some(expected) =>
      if !expected.present then if Required(c) then Some(ComponentMissing(c)) else None
      else if expected.artifact !in contents then Some(ComponentMissing(c))
      else if contents[expected.artifact].Link? then Some(ComponentSymlink(c))
      else
        match Describe(sha, contents, c)
        case None => Some(ComponentSpecial(c))
        case Some(actual) => if actual.digest != expected.digest then Some(ComponentChanged(c)) else None
  }

  function ExpectedNames(components: seq<Described>): set<string> {
    set d | d in components && d.present :: d.artifact
  }

  function FindingsFor(sha: string -> string, components: seq<Described>, contents: Contents, cs: seq<Component>): seq<Finding> {
    if cs == [] then []
    else
      var rest := FindingsFor(sha, components, contents, cs[..|cs| - 1]);
      match FindingFor(sha, components, contents, cs[|cs| - 1])
      case None => rest
      case Some(f) => rest + [f]
  }

  /** The problems with the components and the names of a set, in the order they are found. */
  function OwnProblems(sha: string -> string, components: seq<Described>, contents: Contents): seq<Finding> {
    FindingsFor(sha, components, contents, COMPONENTS)
    + if contents.Keys <= ExpectedNames(components) then [] else [Unexpected]
  }

  function MissingFindings(missing: seq<Component>): seq<Finding> {
    if missing == [] then [] else MissingFindings(missing[..|missing| - 1]) + [ComponentMissing(missing[|missing| - 1])]
  }

  /** What each of the inspector's verdicts means beside the version the manifest records. */
  function VerdictFindings(verdict: Verdict, recorded: nat, build: nat): seq<Finding> {
    match verdict
    case Current => if recorded != build then [SchemaDisagreement] else []
    case RollbackPoint => if recorded >= build then [SchemaDisagreement] else []
    case Ahead => [SchemaIncompatible]
    case Indeterminate => [SchemaIndeterminate]
    case Incomplete => [SetIncomplete]
  }

  /** Every problem with a set, in the order they are found: its own, its version's, and the inspector's. */
  ghost function Problems(sha: string -> string, reader: Reader, build: nat, manifest: Manifest, contents: Contents)
    : seq<Finding>
  {
    OwnProblems(sha, manifest.components, contents)
    + (if manifest.schemaVersion > build then [SchemaIncompatible] else [])
    + MissingFindings(Missing(SeenIn(reader, contents, contents.Keys), COMPONENTS))
    + VerdictFindings(VerdictOf(reader, contents, build), manifest.schemaVersion, build)
  }

  // ---------------------------------------------------------------------------------------------------
  // Verifying
  // ---------------------------------------------------------------------------------------------------

  /** Compare the components and the names of a set against its manifest. */
  method VerifyComponents(sha: string -> string, components: seq<Described>, contents: Contents, listing: seq<string>)
    returns (problems: seq<Finding>, verified: seq<Component>)
    requires Names(listing) == contents.Keys
    ensures problems == OwnProblems(sha, components, contents)
    ensures forall c :: c in verified <==>
      Declared(components, c).Some? && Declared(components, c).value.present && FindingFor(sha, components, contents, c).None?
  {
    problems, verified := [], [];
    for i := 0 to |COMPONENTS|
      invariant problems == FindingsFor(sha, components, contents, COMPONENTS[..i])
      invariant forall c :: c in verified <==>
        && c in COMPONENTS[..i] && Declared(components, c).Some? && Declared(components, c).value.present
        && FindingFor(sha, components, contents, c).None?
    {
      var c := COMPONENTS[i];
      assert COMPONENTS[..i + 1] == COMPONENTS[..i] + [c];
      var expected := Declared(components, c);
      if expected.None? || !expected.value.present {
        if Required(c) {
          problems := problems + [ComponentMissing(c)];
        }
        continue;
      }
      if expected.value.artifact !in contents {
        problems := problems + [ComponentMissing(c)];
        continue;
      }
      if contents[expected.value.artifact].Link? {
        problems := problems + [ComponentSymlink(c)];
        continue;
      }
      var actual := Describe(sha, contents, c);
      if actual.None? {
        problems := problems + [ComponentSpecial(c)];
        continue;
      }
      if actual.value.digest != expected.value.digest {
        problems := problems + [ComponentChanged(c)];
        continue;
      }
      verified := verified + [c];
    }
    assert COMPONENTS[..|COMPONENTS|] == COMPONENTS;
    AllComponents();
    ghost var found := problems;
    for i := 0 to |listing|
      invariant problems == found && forall k :: 0 <= k < i ==> listing[k] in ExpectedNames(components)
    {
      if listing[i] !in ExpectedNames(components) {
        assert listing[i] in contents.Keys;
        problems := problems + [Unexpected];
        return;
      }
    }
    assert forall name :: name in contents.Keys ==> name in listing;
  }

  /**
   Verify a set: its components and names against the manifest, the recorded schema version against this build,
   and then what the offline inspector makes of it. `listing` is the directory's own order of its names.
   */
  method Verify(sha: string -> string, reader: Reader, build: nat, manifest: Manifest, contents: Contents, listing: seq<string>)
    returns (problems: seq<Finding>, verified: seq<Component>, restorable: bool)
    requires Names(listing) == contents.Keys
    ensures problems == Problems(sha, reader, build, manifest, contents)
    ensures forall c :: c in verified <==>
      && Declared(manifest.components, c).Some? && Declared(manifest.components, c).value.present
      && FindingFor(sha, manifest.components, contents, c).None?
    ensures restorable <==> VerdictOf(reader, contents, build).Current? && manifest.schemaVersion == build
  {
    hide OwnProblems, VerdictOf, SeenIn, FindingFor, Complete;
    problems, verified := VerifyComponents(sha, manifest.components, contents, listing);
    if manifest.schemaVersion > build {
      problems := problems + [SchemaIncompatible];
    }
    ghost var before := problems;
    var missing, verdict := InspectBackupDirectory(reader, contents, listing, build);
    for i := 0 to |missing|
      invariant problems == before + MissingFindings(missing[..i])
    {
      assert missing[..i + 1] == missing[..i] + [missing[i]];
      problems := problems + [ComponentMissing(missing[i])];
    }
    assert missing[..|missing|] == missing;
    restorable := false;
    match verdict {
      case Current =>
        if manifest.schemaVersion != build {
          problems := problems + [SchemaDisagreement];
        } else {
          restorable := true;
        }
      case RollbackPoint =>
        if manifest.schemaVersion >= build {
          problems := problems + [SchemaDisagreement];
        }
      case Ahead => problems := problems + [SchemaIncompatible];
      case Indeterminate => problems := problems + [SchemaIndeterminate];
      case Incomplete => problems := problems + [SetIncomplete];
    }
  }

  // ---------------------------------------------------------------------------------------------------
  // Taking, then verifying
  // ---------------------------------------------------------------------------------------------------

  /** What a backup publishes: the required artifacts, nothing undeclared, nothing but plain files and directories. */
  ghost predicate Staged(contents: Contents) {
    && (forall c :: Required(c) ==> ArtifactName(c) in contents)
    && (forall name :: name in contents ==> Plain(contents[name]) && exists c :: name == ArtifactName(c))
  }

  /** The manifest's components: all four slots, present or absent. */
  function TakenComponents(sha: string -> string, contents: Contents): seq<Described>
    requires forall c :: ArtifactName(c) in contents ==> Plain(contents[ArtifactName(c)])
  {
    [Describe(sha, contents, Database).value, Describe(sha, contents, Keystore).value,
     Describe(sha, contents, Secrets).value, Describe(sha, contents, PromotionRecords).value]
  }

  /** The manifest a build writes records its own schema version. */
  function Taken(sha: string -> string, takenBy: nat, contents: Contents): Manifest
    requires forall c :: ArtifactName(c) in contents ==> Plain(contents[ArtifactName(c)])
  {
    Manifest(takenBy, TakenComponents(sha, contents))
  }

  lemma TakenDeclares(sha: string -> string, contents: Contents, c: Component)
    requires Staged(contents)
    ensures Declared(TakenComponents(sha, contents), c) == Describe(sha, contents, c)
  {
    var d, k, s, p := Describe(sha, contents, Database).value, Describe(sha, contents, Keystore).value,
      Describe(sha, contents, Secrets).value, Describe(sha, contents, PromotionRecords).value;
    assert d.id == Database && k.id == Keystore && s.id == Secrets && p.id == PromotionRecords;
    assert TakenComponents(sha, contents) == [d, k, s, p];
    hide Describe, TakenComponents, Staged;
    assert [d, k, s, p][..3] == [d, k, s] && [d, k, s][..2] == [d, k] && [d, k][..1] == [d];
    assert Declared([d], Database) == Some(d);
    assert Declared([d, k], Keystore) == Some(k) && Declared([d, k], Database) == Some(d);
    assert Declared([d, k, s], Secrets) == Some(s);
    assert Declared([d, k, s], Keystore) == Some(k) && Declared([d, k, s], Database) == Some(d);
  }

  lemma TakenNames(sha: string -> string, contents: Contents)
    requires Staged(contents)
    ensures ExpectedNames(TakenComponents(sha, contents)) == contents.Keys
  {
    var m := TakenComponents(sha, contents);
    forall name | name in contents ensures name in ExpectedNames(m) {
      var c :| name == ArtifactName(c);
      var d := Describe(sha, contents, c).value;
      assert d in m by {
        match c {
          case Database => assert m[0] == d;
          case Keystore => assert m[1] == d;
          case Secrets => assert m[2] == d;
          case PromotionRecords => assert m[3] == d;
        }
      }
      assert d.present;
    }
  }

  /** One artifact reads the same: it is there, plain, and has the fingerprint it had. */
  ghost predicate ReadsTheSame(sha: string -> string, before: Contents, after: Contents, c: Component) {
    var name := ArtifactName(c);
    name in before ==> name in after && Plain(after[name]) && Fingerprint(sha, after[name]) == Fingerprint(sha, before[name])
  }

  lemma NoFindingWhen(sha: string -> string, before: Contents, after: Contents, c: Component)
    requires Digests(sha) && Staged(before)
    ensures FindingFor(sha, TakenComponents(sha, before), after, c).None? <==> ReadsTheSame(sha, before, after, c)
  {
    TakenDeclares(sha, before, c);
    var name := ArtifactName(c);
    hide Digests, Declared, TakenComponents, Fingerprint;
    if name in before && name in after && Plain(after[name]) {
      ShaIsExact(sha, Fingerprint(sha, after[name]), Fingerprint(sha, before[name]));
    }
  }

  lemma ShaIsExact(sha: string -> string, x: string, y: string)
    requires Digests(sha)
    ensures sha(x) == sha(y) <==> x == y
  {
  }

  lemma {:induction false} NoFindings(sha: string -> string, m: seq<Described>, contents: Contents, cs: seq<Component>)
    ensures FindingsFor(sha, m, contents, cs) == [] <==> forall c :: c in cs ==> FindingFor(sha, m, contents, c).None?
  {
    hide FindingFor;
    if cs != [] {
      var last := |cs| - 1;
      NoFindings(sha, m, contents, cs[..last]);
      assert cs == cs[..last] + [cs[last]];
    }
  }

  /** The names the set was published with, each plain and with the fingerprint it had. */
  ghost predicate ReadsAsTaken(sha: string -> string, before: Contents, after: Contents) {
    after.Keys == before.Keys && forall c :: ReadsTheSame(sha, before, after, c)
  }

  /** The inspector recognises everything required and the dump's version agrees with the recorded one. */
  ghost predicate InspectionAccepts(reader: Reader, build: nat, recorded: nat, contents: Contents) {
    match VerdictOf(reader, contents, build)
    case Current => recorded == build
    case RollbackPoint => recorded < build
    case _ => false
  }

  lemma NoOwnProblemsWhen(sha: string -> string, before: Contents, after: Contents)
    requires Digests(sha) && Staged(before)
    ensures OwnProblems(sha, TakenComponents(sha, before), after) == [] <==> ReadsAsTaken(sha, before, after)
  {
    var m := TakenComponents(sha, before);
    NoFindings(sha, m, after, COMPONENTS);
    AllComponents();
    TakenNames(sha, before);
    forall c ensures FindingFor(sha, m, after, c).None? <==> ReadsTheSame(sha, before, after, c) {
      NoFindingWhen(sha, before, after, c);
    }
    hide FindingsFor, FindingFor, Declared, TakenComponents, ExpectedNames, Digests;
    if forall c :: ReadsTheSame(sha, before, after, c) {
      forall name | name in before ensures name in after {
        var c :| name == ArtifactName(c);
        assert ReadsTheSame(sha, before, after, c);
      }
    }
  }

  lemma NoOtherProblemsWhen(reader: Reader, build: nat, recorded: nat, contents: Contents)
    ensures
      (&& recorded <= build
       && MissingFindings(Missing(SeenIn(reader, contents, contents.Keys), COMPONENTS)) == []
       && VerdictFindings(VerdictOf(reader, contents, build), recorded, build) == [])
      <==> InspectionAccepts(reader, build, recorded, contents)
  {
    hide SeenIn, Complete, DumpVersions;
    CompleteMeans(reader, contents);
  }

  /**
   Exactly what a verification accepts: every name and fingerprint as the set was published, and an inspection
   that recognises the required components and agrees with the recorded version.
   */
  lemma VerifiesExactlyWhenItReadsTheSame(
      sha: string -> string, reader: Reader, takenBy: nat, build: nat, before: Contents, after: Contents)
    requires Digests(sha) && Staged(before)
    ensures Problems(sha, reader, build, Taken(sha, takenBy, before), after) == []
      <==> ReadsAsTaken(sha, before, after) && InspectionAccepts(reader, build, takenBy, after)
  {
    hide OwnProblems, ReadsAsTaken, InspectionAccepts, VerdictOf, SeenIn, MissingFindings, VerdictFindings, TakenComponents, Digests;
    NoOwnProblemsWhen(sha, before, after);
    NoOtherProblemsWhen(reader, build, takenBy, after);
  }

  // ---------------------------------------------------------------------------------------------------
  // What a verification does not see
  // ---------------------------------------------------------------------------------------------------

  ghost predicate Clean(n: Node) {
    n.Dir? ==> CleanNames(n.entries)
  }

  ghost predicate AllClean(contents: Contents) {
    forall name :: name in contents ==> Clean(contents[name])
  }

  lemma FingerprintIsExact(sha: string -> string, a: Node, b: Node)
    requires Digests(sha) && Plain(a) && Plain(b) && Clean(a) && Clean(b) && a.Dir? == b.Dir?
    ensures Fingerprint(sha, a) == Fingerprint(sha, b) <==> a == b
  {
    if a.Dir? {
      CleanNamesAreUnbroken(a.entries);
      CleanNamesAreUnbroken(b.entries);
      TreeDigestIsExact(sha, a.entries, b.entries);
    }
  }

  /**
   A set as an installation's backup leaves it: the dump is a file and the rest are directories, the keystore and
   the secrets are recognised as what they are named, and the promotion records as neither.
   */
  ghost predicate Ordinary(reader: Reader, contents: Contents) {
    && Staged(contents) && AllClean(contents)
    && contents[ArtifactName(Database)].File?
    && contents[ArtifactName(Keystore)].Dir? && LooksLikeKeystore(contents[ArtifactName(Keystore)].entries)
    && contents[ArtifactName(Secrets)].Dir? && ArtifactAt(reader, contents, ArtifactName(Secrets)).SecretsCopy?
    && (ArtifactName(PromotionRecords) in contents ==>
          && contents[ArtifactName(PromotionRecords)].Dir?
          && forall ring :: !Inspect(reader, ring, contents[ArtifactName(PromotionRecords)]).KeystoreCopy?
                         && !Inspect(reader, ring, contents[ArtifactName(PromotionRecords)]).SecretsCopy?)
  }

  /** The set with its promotion records replaced by a file that holds their listing. */
  ghost function RecordsAsFile(sha: string -> string, contents: Contents): Contents
    requires ArtifactName(PromotionRecords) in contents
  {
    contents[ArtifactName(PromotionRecords) := File(Fingerprint(sha, contents[ArtifactName(PromotionRecords)]))]
  }

  /** Both lie plainly and read the same: they are equal, or one is a directory and the other a file of its listing. */
  lemma ReadsTheSameMeans(sha: string -> string, before: Contents, after: Contents, c: Component)
    requires Digests(sha) && Staged(before) && AllClean(before) && AllClean(after) && ReadsAsTaken(sha, before, after)
    requires ArtifactName(c) in before
    ensures
      var x, y := before[ArtifactName(c)], after[ArtifactName(c)];
      && Plain(x) && Plain(y)
      && (x.Dir? == y.Dir? ==> y == x)
      && (x.Dir? && !y.Dir? ==> y == File(Fingerprint(sha, x)))
      && (!x.Dir? && y.Dir? ==> x == File(Fingerprint(sha, y)))
  {
    hide Digests, Clean;
    assert ReadsTheSame(sha, before, after, c);
    assert Clean(before[ArtifactName(c)]) && Clean(after[ArtifactName(c)]);
    if before[ArtifactName(c)].Dir? == after[ArtifactName(c)].Dir? {
      FingerprintIsExact(sha, after[ArtifactName(c)], before[ArtifactName(c)]);
    }
  }

  /** A file that holds a directory's listing is not recognised, or it is a dump nobody can tell the version of. */
  lemma SwappedIsNoDump(sha: string -> string, reader: Reader, ring: bool, d: Node)
    requires Digests(sha) && ReadsAll(reader) && d.Dir? && Clean(d)
    ensures
      var text := Fingerprint(sha, d);
      Inspect(reader, ring, File(text)) == if Occurs(Head(text), PLAIN_DUMP_MARKER) then Dump(None) else Unrecognised
  {
    hide Digests, ReadsAll, InspectFile;
    ListingIsNoDump(reader, sha, d.entries);
  }

  lemma AcceptedMeans(reader: Reader, build: nat, recorded: nat, contents: Contents)
    requires InspectionAccepts(reader, build, recorded, contents)
    ensures Complete(reader, contents) && Agreed(DumpVersions(reader, contents)).Some?
    ensures forall name :: name in contents && ArtifactAt(reader, contents, name).Dump? ==>
      ArtifactAt(reader, contents, name).version.Some?
  {
    hide Complete, ArtifactAt;
    var versions := DumpVersions(reader, contents);
    forall name | name in contents && ArtifactAt(reader, contents, name).Dump?
      ensures ArtifactAt(reader, contents, name).version.Some?
    {
      assert ArtifactAt(reader, contents, name).version in versions;
    }
  }

  /** The names of an ordinary set. */
  lemma OrdinaryNames(reader: Reader, contents: Contents, name: string)
    requires Ordinary(reader, contents) && name in contents
    ensures name == ArtifactName(Database) || name == ArtifactName(Keystore) || name == ArtifactName(Secrets)
      || name == ArtifactName(PromotionRecords)
  {
    var c :| name == ArtifactName(c);
    match c {
      case Database => case Keystore => case Secrets => case PromotionRecords =>
    }
  }

  /** In an ordinary set that is accepted, the dump is the file of that name and its version is known. */
  lemma TheDumpIsTheDump(reader: Reader, build: nat, recorded: nat, contents: Contents)
    requires Ordinary(reader, contents) && InspectionAccepts(reader, build, recorded, contents)
    ensures
      var a := ArtifactAt(reader, contents, ArtifactName(Database));
      a.Dump? && a.version.Some?
  {
    hide InspectFile, InspectDirectory, HasRing, InspectionAccepts;
    AcceptedMeans(reader, build, recorded, contents);
    assert Sees(reader, contents, Database);
    var name :| name in contents && ComponentOf(ArtifactAt(reader, contents, name)) == Some(Database);
    OrdinaryNames(reader, contents, name);
    DirectoriesAreNoDumps(HasRing(contents), contents[name]);
  }

  lemma DirectoriesAreNoDumps(ring: bool, n: Node)
    ensures n.Dir? ==> !InspectDirectory(ring, n.entries).Dump?
    ensures n.Dir? && LooksLikeKeystore(n.entries) ==> InspectDirectory(ring, n.entries).KeystoreCopy?
    ensures n.Dir? && !LooksLikeKeystore(n.entries) ==> !InspectDirectory(ring, n.entries).KeystoreCopy?
  {
  }

  lemma FilesAreDumpsOrNothing(reader: Reader, content: string)
    ensures InspectFile(reader, content).Dump? || InspectFile(reader, content).Unrecognised?
  {
    hide Occurs, ScannedVersion;
  }

  /** What the acceptance of `after` is held against in the lemmas below. */
  ghost predicate Swapped(
      sha: string -> string, reader: Reader, takenBy: nat, build: nat, before: Contents, after: Contents)
  {
    && Digests(sha) && ReadsAll(reader) && Ordinary(reader, before) && AllClean(after)
    && InspectionAccepts(reader, build, takenBy, before) && InspectionAccepts(reader, build, takenBy, after)
    && ReadsAsTaken(sha, before, after)
  }

  /** No listing has the dump's version in it, so no directory can stand for the dump. */
  lemma TheDumpIsUnchanged(
      sha: string -> string, reader: Reader, takenBy: nat, build: nat, before: Contents, after: Contents)
    requires Swapped(sha, reader, takenBy, build, before, after)
    ensures after[ArtifactName(Database)] == before[ArtifactName(Database)]
  {
    hide Digests, ReadsAll, InspectionAccepts, InspectFile, HasRing, Clean, Fingerprint;
    var name := ArtifactName(Database);
    ReadsTheSameMeans(sha, before, after, Database);
    TheDumpIsTheDump(reader, build, takenBy, before);
    if after[name].Dir? {
      SwappedIsNoDump(sha, reader, HasRing(before), after[name]);
    }
  }

  lemma KindsAfter(
      sha: string -> string, reader: Reader, takenBy: nat, build: nat, before: Contents, after: Contents, c: Component)
    requires Swapped(sha, reader, takenBy, build, before, after) && !c.Database? && ArtifactName(c) in before
    ensures after[ArtifactName(c)] == before[ArtifactName(c)]
      || after[ArtifactName(c)] == File(Fingerprint(sha, before[ArtifactName(c)]))
  {
    hide Digests, ReadsAll, InspectionAccepts, InspectFile, HasRing, Clean, Fingerprint;
    ReadsTheSameMeans(sha, before, after, c);
  }

  /** Nothing else in the set is recognised as the keystore. */
  lemma TheKeystoreIsUnchanged(
      sha: string -> string, reader: Reader, takenBy: nat, build: nat, before: Contents, after: Contents)
    requires Swapped(sha, reader, takenBy, build, before, after)
    ensures after[ArtifactName(Keystore)] == before[ArtifactName(Keystore)]
  {
    hide Digests, ReadsAll, InspectionAccepts, InspectFile, InspectDirectory, LooksLikeKeystore, HasRing, Clean, Fingerprint, AllClean;
    KindsAfter(sha, reader, takenBy, build, before, after, Keystore);
    KindsAfter(sha, reader, takenBy, build, before, after, Secrets);
    TheDumpIsUnchanged(sha, reader, takenBy, build, before, after);
    AcceptedMeans(reader, build, takenBy, after);
    assert Sees(reader, after, Keystore);
    var name :| name in after && ComponentOf(ArtifactAt(reader, after, name)) == Some(Keystore);
    OrdinaryNames(reader, before, name);
    if after[name].File? {
      FilesAreDumpsOrNothing(reader, after[name].content);
    }
    DirectoriesAreNoDumps(HasRing(before), before[name]);
    DirectoriesAreNoDumps(HasRing(after), before[name]);
    if name == ArtifactName(PromotionRecords) {
      KindsAfter(sha, reader, takenBy, build, before, after, PromotionRecords);
      assert !Inspect(reader, HasRing(after), before[name]).KeystoreCopy?;
    }
  }

  /** Nothing else in the set is recognised as the secrets. */
  lemma TheSecretsAreUnchanged(
      sha: string -> string, reader: Reader, takenBy: nat, build: nat, before: Contents, after: Contents)
    requires Swapped(sha, reader, takenBy, build, before, after)
    ensures after[ArtifactName(Secrets)] == before[ArtifactName(Secrets)]
  {
    hide Digests, ReadsAll, InspectionAccepts, InspectFile, InspectDirectory, LooksLikeKeystore, HasRing, Clean, Fingerprint, AllClean;
    TheKeystoreIsUnchanged(sha, reader, takenBy, build, before, after);
    KindsAfter(sha, reader, takenBy, build, before, after, Secrets);
    TheDumpIsUnchanged(sha, reader, takenBy, build, before, after);
    AcceptedMeans(reader, build, takenBy, after);
    assert Sees(reader, after, Secrets);
    var name :| name in after && ComponentOf(ArtifactAt(reader, after, name)) == Some(Secrets);
    OrdinaryNames(reader, before, name);
    if after[name].File? {
      FilesAreDumpsOrNothing(reader, after[name].content);
    }
    DirectoriesAreNoDumps(HasRing(after), before[ArtifactName(Keystore)]);
    if name == ArtifactName(PromotionRecords) {
      KindsAfter(sha, reader, takenBy, build, before, after, PromotionRecords);
      assert !Inspect(reader, HasRing(after), before[name]).SecretsCopy?;
    }
  }

  /** Whether the file that stands for the promotion records escapes recognition. */
  ghost predicate PassesUnseen(sha: string -> string, before: Contents)
    requires ArtifactName(PromotionRecords) in before
  {
    !Occurs(Head(Fingerprint(sha, before[ArtifactName(PromotionRecords)])), PLAIN_DUMP_MARKER)
  }

  lemma OnlyTheRecordsCanBeSwapped(
      sha: string -> string, reader: Reader, takenBy: nat, build: nat, before: Contents, after: Contents)
    requires Swapped(sha, reader, takenBy, build, before, after)
    ensures after == before
      || (ArtifactName(PromotionRecords) in before && PassesUnseen(sha, before) && after == RecordsAsFile(sha, before))
  {
    hide Digests, ReadsAll, InspectionAccepts, Inspect, HasRing, Clean, Fingerprint, AllClean;
    TheDumpIsUnchanged(sha, reader, takenBy, build, before, after);
    TheKeystoreIsUnchanged(sha, reader, takenBy, build, before, after);
    TheSecretsAreUnchanged(sha, reader, takenBy, build, before, after);
    forall name | name in before && name != ArtifactName(PromotionRecords) ensures after[name] == before[name] {
      OrdinaryNames(reader, before, name);
    }
    var records := ArtifactName(PromotionRecords);
    if records !in before {
      assert after == before;
      return;
    }
    KindsAfter(sha, reader, takenBy, build, before, after, PromotionRecords);
    if after[records] == before[records] {
      assert after == before;
    } else {
      assert after == RecordsAsFile(sha, before);
      AcceptedMeans(reader, build, takenBy, after);
      TheRecordsAreClean(sha, reader, before);
      SwappedIsNoDump(sha, reader, HasRing(after), before[records]);
      assert ArtifactAt(reader, after, records) == Inspect(reader, HasRing(after), File(Fingerprint(sha, before[records])));
    }
  }

  lemma TheRecordsAreClean(sha: string -> string, reader: Reader, before: Contents)
    requires Ordinary(reader, before) && ArtifactName(PromotionRecords) in before
    ensures Clean(before[ArtifactName(PromotionRecords)])
  {
  }

  lemma SwappedRecordsReadTheSame(sha: string -> string, before: Contents)
    requires Staged(before) && ArtifactName(PromotionRecords) in before
    ensures ReadsAsTaken(sha, before, RecordsAsFile(sha, before))
  {
    hide Listing, Records;
    forall c ensures ReadsTheSame(sha, before, RecordsAsFile(sha, before), c) {
    }
  }

  lemma SwappedRecordsAreAccepted(sha: string -> string, reader: Reader, takenBy: nat, build: nat, before: Contents)
    requires Digests(sha) && ReadsAll(reader) && Ordinary(reader, before)
    requires InspectionAccepts(reader, build, takenBy, before)
    requires ArtifactName(PromotionRecords) in before && PassesUnseen(sha, before)
    ensures InspectionAccepts(reader, build, takenBy, RecordsAsFile(sha, before))
  {
    var after, records := RecordsAsFile(sha, before), ArtifactName(PromotionRecords);
    assert HasRing(after) == HasRing(before);
    hide Digests, ReadsAll, InspectFile, InspectDirectory, HasRing, Fingerprint, RecordsAsFile;
    TheRecordsAreClean(sha, reader, before);
    SwappedIsNoDump(sha, reader, HasRing(after), before[records]);
    assert ArtifactAt(reader, after, records).Unrecognised?;
    DirectoriesAreNoDumps(HasRing(before), before[records]);
    assert !Inspect(reader, HasRing(before), before[records]).KeystoreCopy?;
    var was := ArtifactAt(reader, before, records);
    assert was.Unrecognised? || was.RecordsCopy?;
    assert forall name :: name in before && name != records ==>
      name in after && ArtifactAt(reader, after, name) == ArtifactAt(reader, before, name);
    UnseenRecordsDecideNothing(reader, before, after, build, takenBy);
  }

  /** Entries that are neither dumps nor required components decide nothing. */
  lemma UnseenRecordsDecideNothing(reader: Reader, before: Contents, after: Contents, build: nat, takenBy: nat)
    requires before.Keys == after.Keys && InspectionAccepts(reader, build, takenBy, before)
    requires forall name :: name in before ==>
      || ArtifactAt(reader, after, name) == ArtifactAt(reader, before, name)
      || (  (ArtifactAt(reader, before, name).Unrecognised? || ArtifactAt(reader, before, name).RecordsCopy?)
         && (ArtifactAt(reader, after, name).Unrecognised? || ArtifactAt(reader, after, name).RecordsCopy?))
    ensures InspectionAccepts(reader, build, takenBy, after)
  {
    hide ArtifactAt;
    assert DumpVersions(reader, after) == DumpVersions(reader, before);
    forall c | Required(c) ensures Sees(reader, after, c) {
      assert Sees(reader, before, c);
      var name :| name in before && ComponentOf(ArtifactAt(reader, before, name)) == Some(c);
      assert name in after && ComponentOf(ArtifactAt(reader, after, name)) == Some(c);
    }
  }

  /**
   Where names hold no newline, a verification of an ordinary set that verified when it was taken accepts exactly
   two things: the set that was published, byte for byte; or that set with the promotion records replaced by a
   file that holds their listing, unless the listing says in its first 512 bytes that it is a database dump. The
   dump, the keystore and the secrets cannot change kind unnoticed.
   */
  lemma VerifiesExactlyWhenUnchanged(
      sha: string -> string, reader: Reader, takenBy: nat, build: nat, before: Contents, after: Contents)
    requires Digests(sha) && ReadsAll(reader) && Ordinary(reader, before) && AllClean(after)
    requires Problems(sha, reader, build, Taken(sha, takenBy, before), before) == []
    ensures Problems(sha, reader, build, Taken(sha, takenBy, before), after) == [] <==>
      || after == before
      || (ArtifactName(PromotionRecords) in before && PassesUnseen(sha, before) && after == RecordsAsFile(sha, before))
  {
    hide Problems, Digests, ReadsAll, AllClean, InspectionAccepts, Inspect, HasRing, Clean, Fingerprint, Taken, PassesUnseen, RecordsAsFile, ReadsAsTaken;
    VerifiesExactlyWhenItReadsTheSame(sha, reader, takenBy, build, before, before);
    VerifiesExactlyWhenItReadsTheSame(sha, reader, takenBy, build, before, after);
    if ReadsAsTaken(sha, before, after) && InspectionAccepts(reader, build, takenBy, after) {
      OnlyTheRecordsCanBeSwapped(sha, reader, takenBy, build, before, after);
    }
    if ArtifactName(PromotionRecords) in before && PassesUnseen(sha, before) {
      SwappedRecordsReadTheSame(sha, before);
      SwappedRecordsAreAccepted(sha, reader, takenBy, build, before);
    }
  }

  /** So the kind of the promotion records is not verified: their directory and a file of its listing both pass. */
  lemma AFileCanStandForADirectory(sha: string -> string, reader: Reader, takenBy: nat, build: nat, before: Contents)
    requires Digests(sha) && ReadsAll(reader) && Ordinary(reader, before)
    requires Problems(sha, reader, build, Taken(sha, takenBy, before), before) == []
    requires ArtifactName(PromotionRecords) in before && PassesUnseen(sha, before)
    ensures
      var forged := RecordsAsFile(sha, before);
      && before[ArtifactName(PromotionRecords)].Dir? && forged[ArtifactName(PromotionRecords)].File?
      && Problems(sha, reader, build, Taken(sha, takenBy, before), forged) == []
  {
    hide Problems, Digests, ReadsAll, InspectionAccepts, Inspect, HasRing, Clean, Fingerprint, Taken, PassesUnseen, ReadsAsTaken;
    VerifiesExactlyWhenItReadsTheSame(sha, reader, takenBy, build, before, before);
    VerifiesExactlyWhenItReadsTheSame(sha, reader, takenBy, build, before, RecordsAsFile(sha, before));
    SwappedRecordsReadTheSame(sha, before);
    SwappedRecordsAreAccepted(sha, reader, takenBy, build, before);
  }
}
