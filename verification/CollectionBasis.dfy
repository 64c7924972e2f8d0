/**
 What a collection plan was decided from, as a digest: a confirmation is refused when it moved. Equal digests mean
 the same readings of the same records, the same membership rows and the same state of the collection, unless two
 of the texts that were hashed for them collide.
 */
module CollectionBasis {
  import opened Basics
  import opened CollectionPlan
  import opened CanonicalJson
  import Q = CollectionQueue
  import Text

  /** All that is assumed of the hash: it answers sixty-four hexadecimal digits. */
  ghost predicate HexDigests(sha: string -> string) {
    forall x :: Text.IsHexOf(sha(x), 64)
  }

  /** Such a function there is; that it cannot be injective is why collisions are part of what is stated. */
  lemma HexDigestsExist()
    ensures exists sha: string -> string :: HexDigests(sha)
  {
    var sha: string -> string := x => seq(64, i => '0');
    assert HexDigests(sha);
  }

  /** No two of these texts have one digest. */
  ghost predicate Apart(sha: string -> string, texts: set<string>) {
    forall x, y :: x in texts && y in texts && sha(x) == sha(y) ==> x == y
  }

  function Digest(sha: string -> string, domain: string, text: string): string {
    sha(Preimage(domain, text))
  }

  lemma DigestIsHex(sha: string -> string, domain: string, text: string)
    requires HexDigests(sha)
    ensures Text.IsHexOf(Digest(sha, domain, text), 64)
  {
  }

  lemma DigestIsExact(sha: string -> string, texts: set<string>, domain: string, x: string, y: string)
    requires Apart(sha, texts) && 0 as char !in domain
    requires Preimage(domain, x) in texts && Preimage(domain, y) in texts
    ensures Digest(sha, domain, x) == Digest(sha, domain, y) <==> x == y
  {
    PreimageIsExact(domain, x, domain, y);
  }

  // ---------------------------------------------------------------------------------------------------
  // Sorted texts
  // ---------------------------------------------------------------------------------------------------

  predicate NotAfter(a: string, b: string) {
    a == b || Less(a, b)
  }

  ghost predicate Sorted(texts: seq<string>) {
    forall i, k :: 0 <= i < k < |texts| ==> NotAfter(texts[i], texts[k])
  }

  function Place(text: string, texts: seq<string>): seq<string> {
    if texts == [] then [text]
    else if NotAfter(text, texts[0]) then [text] + texts
    else [texts[0]] + Place(text, texts[1..])
  }

  function SortTexts(texts: seq<string>): seq<string> {
    if texts == [] then [] else Place(texts[0], SortTexts(texts[1..]))
  }

  lemma NotAfterIsTransitive(a: string, b: string, c: string)
    requires NotAfter(a, b) && NotAfter(b, c)
    ensures NotAfter(a, c)
  {
    if Less(a, b) && Less(b, c) { LessIsTransitive(a, b, c); }
  }

  lemma {:induction false} PlaceKeeps(text: string, texts: seq<string>)
    ensures multiset(Place(text, texts)) == multiset{text} + multiset(texts)
  {
    hide NotAfter;
    if texts != [] && !NotAfter(text, texts[0]) {
      PlaceKeeps(text, texts[1..]);
      assert texts == [texts[0]] + texts[1..];
    }
  }

  lemma HeadThenSorted(head: string, tail: seq<string>)
    requires Sorted(tail) && (tail != [] ==> NotAfter(head, tail[0]))
    ensures Sorted([head] + tail)
  {
    hide NotAfter;
    forall k | 0 <= k < |tail| ensures NotAfter(head, tail[k]) {
      if k > 0 { NotAfterIsTransitive(head, tail[0], tail[k]); }
    }
  }

  lemma {:induction false} PlaceSorts(text: string, texts: seq<string>)
    requires Sorted(texts)
    ensures Sorted(Place(text, texts))
  {
    hide NotAfter, Sorted;
    if texts == [] {
      NoneIsSorted();
      HeadThenSorted(text, []);
      assert [text] + [] == [text];
    } else if NotAfter(text, texts[0]) {
      HeadThenSorted(text, texts);
    } else {
      NotAfterIsTotal(text, texts[0]);
      RestIsSorted(texts);
      PlaceSorts(text, texts[1..]);
      assert Place(text, texts[1..])[0] == text || Place(text, texts[1..])[0] == texts[1];
      HeadThenSorted(texts[0], Place(text, texts[1..]));
    }
  }

  lemma NoneIsSorted()
    ensures Sorted([])
  {
  }

  lemma RestIsSorted(texts: seq<string>)
    requires texts != [] && Sorted(texts)
    ensures Sorted(texts[1..]) && (|texts| > 1 ==> NotAfter(texts[0], texts[1]))
    ensures forall t :: t in texts ==> NotAfter(texts[0], t)
  {
    hide Less;
  }

  lemma NotAfterIsTotal(a: string, b: string)
    ensures NotAfter(a, b) || NotAfter(b, a)
    ensures NotAfter(a, b) && NotAfter(b, a) ==> a == b
  {
    hide Less;
    LessIsTotal(a, b);
  }

  lemma {:induction false} SortFacts(texts: seq<string>)
    ensures Sorted(SortTexts(texts)) && multiset(SortTexts(texts)) == multiset(texts)
  {
    hide NotAfter, Place;
    if texts != [] {
      SortFacts(texts[1..]);
      PlaceSorts(texts[0], SortTexts(texts[1..]));
      PlaceKeeps(texts[0], SortTexts(texts[1..]));
      assert texts == [texts[0]] + texts[1..];
    }
  }

  lemma WithoutOne<T>(s: seq<T>, k: nat)
    requires k < |s|
    ensures s == s[..k] + [s[k]] + s[k + 1..]
    ensures multiset(s[..k] + s[k + 1..]) == multiset(s) - multiset{s[k]}
  {
    var front, back := s[..k], s[k + 1..];
    assert s == front + [s[k]] + back;
    assert multiset(front + back) == multiset(front) + multiset(back);
    assert multiset(front + [s[k]] + back) == multiset(front) + multiset{s[k]} + multiset(back);
  }

  lemma WithoutHead(a: seq<string>)
    requires a != []
    ensures multiset(a[1..]) == multiset(a) - multiset{a[0]}
  {
    WithoutOne(a, 0);
    assert a[..0] + a[1..] == a[1..];
  }

  lemma {:induction false} SortedIsUnique(a: seq<string>, b: seq<string>)
    requires Sorted(a) && Sorted(b) && multiset(a) == multiset(b)
    ensures a == b
  {
    hide NotAfter, Sorted;
    assert |a| == |multiset(a)| == |multiset(b)| == |b|;
    if a != [] {
      assert a[0] in multiset(b) && b[0] in multiset(a);
      RestIsSorted(a);
      RestIsSorted(b);
      NotAfterIsTotal(a[0], b[0]);
      WithoutHead(a);
      WithoutHead(b);
      SortedIsUnique(a[1..], b[1..]);
      assert a == [a[0]] + a[1..] && b == [b[0]] + b[1..];
    }
  }

  /** Sorting leaves exactly how often each text is there. */
  lemma SortedExactly(a: seq<string>, b: seq<string>)
    ensures SortTexts(a) == SortTexts(b) <==> multiset(a) == multiset(b)
  {
    SortFacts(a);
    SortFacts(b);
    if multiset(a) == multiset(b) { SortedIsUnique(SortTexts(a), SortTexts(b)); }
  }

  // ---------------------------------------------------------------------------------------------------
  // One reading of a record
  // ---------------------------------------------------------------------------------------------------

  function RefText(sha: string -> string, r: ProviderRef): string {
    r.refType + "=" + Digest(sha, "ref", r.value)
  }

  function RefTexts(sha: string -> string, refs: seq<ProviderRef>): seq<string> {
    seq(|refs|, i requires 0 <= i < |refs| => RefText(sha, refs[i]))
  }

  /** What is hashed for the references of one reading. */
  function HashedForRefs(refs: seq<ProviderRef>): set<string> {
    set r | r in refs :: Preimage("ref", r.value)
  }

  /** The digest at the end has one length, so it is told from whatever the type holds. */
  lemma RefTextIsExact(sha: string -> string, texts: set<string>, r: ProviderRef, q: ProviderRef)
    requires HexDigests(sha) && Apart(sha, texts) && Preimage("ref", r.value) in texts && Preimage("ref", q.value) in texts
    ensures RefText(sha, r) == RefText(sha, q) <==> r == q
  {
    DigestIsExact(sha, texts, "ref", r.value, q.value);
    DigestIsHex(sha, "ref", r.value);
    DigestIsHex(sha, "ref", q.value);
    hide Digest, HexDigests, Apart, Preimage;
    var s, t := RefText(sha, r), RefText(sha, q);
    assert s[|s| - 64..] == Digest(sha, "ref", r.value) && s[..|s| - 65] == r.refType;
    assert t[|t| - 64..] == Digest(sha, "ref", q.value) && t[..|t| - 65] == q.refType;
  }

  lemma {:induction false} RefTextsCount(sha: string -> string, texts: set<string>, refs: seq<ProviderRef>, r: ProviderRef)
    requires HexDigests(sha) && Apart(sha, texts) && HashedForRefs(refs) <= texts && Preimage("ref", r.value) in texts
    ensures multiset(RefTexts(sha, refs))[RefText(sha, r)] == multiset(refs)[r]
  {
    hide HexDigests, Apart, RefText, Preimage;
    if refs != [] {
      assert refs == [refs[0]] + refs[1..] && refs[0] in refs && forall q :: q in refs[1..] ==> q in refs;
      assert HashedForRefs(refs[1..]) <= HashedForRefs(refs) && Preimage("ref", refs[0].value) in HashedForRefs(refs);
      RefTextsCount(sha, texts, refs[1..], r);
      RefTextIsExact(sha, texts, refs[0], r);
      assert RefTexts(sha, refs) == [RefText(sha, refs[0])] + RefTexts(sha, refs[1..]);
    }
  }

  lemma RefTextsWithout(sha: string -> string, front: seq<ProviderRef>, r: ProviderRef, back: seq<ProviderRef>)
    ensures multiset(RefTexts(sha, front + [r] + back)) == multiset(RefTexts(sha, front + back)) + multiset{RefText(sha, r)}
  {
    hide RefText;
    assert RefTexts(sha, front + [r] + back) == RefTexts(sha, front) + [RefText(sha, r)] + RefTexts(sha, back);
    assert RefTexts(sha, front + back) == RefTexts(sha, front) + RefTexts(sha, back);
  }

  lemma RestOfRefs(a: seq<ProviderRef>, b: seq<ProviderRef>) returns (k: nat)
    requires a != [] && multiset(a) == multiset(b)
    ensures k < |b| && b == b[..k] + [a[0]] + b[k + 1..] && multiset(a[1..]) == multiset(b[..k] + b[k + 1..])
  {
    assert a[0] in multiset(b);
    k :| 0 <= k < |b| && b[k] == a[0];
    WithoutOne(a, 0);
    WithoutOne(b, k);
    assert a[..0] + a[1..] == a[1..];
  }

  lemma {:induction false} SameRefsSameTexts(sha: string -> string, a: seq<ProviderRef>, b: seq<ProviderRef>)
    requires multiset(a) == multiset(b)
    ensures multiset(RefTexts(sha, a)) == multiset(RefTexts(sha, b))
    decreases |a|
  {
    hide RefText, RefTexts;
    if a == [] {
      assert |multiset(b)| == 0;
    } else {
      var k := RestOfRefs(a, b);
      SameRefsSameTexts(sha, a[1..], b[..k] + b[k + 1..]);
      RefTextsWithout(sha, [], a[0], a[1..]);
      RefTextsWithout(sha, b[..k], a[0], b[k + 1..]);
      assert [] + [a[0]] + a[1..] == a && [] + a[1..] == a[1..];
    }
  }

  lemma RefTextsTell(sha: string -> string, texts: set<string>, a: seq<ProviderRef>, b: seq<ProviderRef>)
    requires HexDigests(sha) && Apart(sha, texts) && HashedForRefs(a) <= texts && HashedForRefs(b) <= texts
    requires multiset(RefTexts(sha, a)) == multiset(RefTexts(sha, b))
    ensures multiset(a) == multiset(b)
  {
    hide HexDigests, Apart, RefText, RefTexts, Preimage;
    forall r ensures multiset(a)[r] == multiset(b)[r] {
      if r in a || r in b {
        assert Preimage("ref", r.value) in HashedForRefs(a) + HashedForRefs(b);
        RefTextsCount(sha, texts, a, r);
        RefTextsCount(sha, texts, b, r);
      }
    }
  }

  const IDENTITY_KEYS := ["title", "year", "refs"]

  function TextOrNull(s: Option<string>): Value {
    if s.Some? then Str(s.value) else Null
  }

  function IntOrNull(n: Option<int>): Value {
    if n.Some? then Int(n.value) else Null
  }

  function Strings(texts: seq<string>): Value {
    Arr(seq(|texts|, i requires 0 <= i < |texts| => Str(texts[i])))
  }

  function IdentityValues(sha: string -> string, d: Identity): seq<Value> {
    [TextOrNull(d.title), IntOrNull(d.year), Strings(SortTexts(RefTexts(sha, d.refs)))]
  }

  function IdentityText(sha: string -> string, d: Identity): string {
    Canonical(Q.Record(IDENTITY_KEYS, IdentityValues(sha, d)))
  }

  /** One record read alike: its title, its year and its references, however the references are listed. */
  ghost predicate ReadAlike(a: Option<Identity>, b: Option<Identity>) {
    && a.Some? == b.Some?
    && (a.Some? ==>
          && a.value.title == b.value.title && a.value.year == b.value.year
          && multiset(a.value.refs) == multiset(b.value.refs))
  }

  lemma IdentityKeysDiffer()
    ensures Q.Distinct(IDENTITY_KEYS) && |IDENTITY_KEYS| == 3
  {
    assert IDENTITY_KEYS[0][0] == 't' && IDENTITY_KEYS[1][0] == 'y' && IDENTITY_KEYS[2][0] == 'r';
  }

  lemma SameScalars(a: Value, b: Value)
    requires Same(a, b) && !a.Arr? && !a.Rec?
    ensures a == b
  {
  }

  lemma SameStringLists(a: seq<string>, b: seq<string>)
    requires Same(Strings(a), Strings(b))
    ensures a == b
  {
    var x, y := Strings(a).items, Strings(b).items;
    assert |a| == |x| == |y| == |b|;
    forall i | 0 <= i < |a| ensures a[i] == b[i] {
      assert Same(x[i], y[i]);
      SameStringsAreEqual(a[i], b[i]);
    }
  }

  /** However the references are listed, one reading has one text. */
  lemma AlikeHaveOneText(sha: string -> string, a: Identity, b: Identity)
    requires ReadAlike(Some(a), Some(b))
    ensures IdentityText(sha, a) == IdentityText(sha, b)
  {
    hide Canonical, Q.Record, RefTexts, SortTexts, Strings;
    SameRefsSameTexts(sha, a.refs, b.refs);
    SortedExactly(RefTexts(sha, a.refs), RefTexts(sha, b.refs));
  }

  /** And the text of a reading tells everything of it that a plan looks at or a create would disclose. */
  lemma IdentityTextIsExact(sha: string -> string, texts: set<string>, a: Identity, b: Identity)
    requires HexDigests(sha) && Apart(sha, texts) && HashedForRefs(a.refs) <= texts && HashedForRefs(b.refs) <= texts
    ensures IdentityText(sha, a) == IdentityText(sha, b) <==> ReadAlike(Some(a), Some(b))
  {
    hide Canonical, Same, Q.Record, HexDigests, Apart, HashedForRefs, RefTexts, SortTexts, Strings, Q.Distinct;
    var x, y := IdentityValues(sha, a), IdentityValues(sha, b);
    if ReadAlike(Some(a), Some(b)) { AlikeHaveOneText(sha, a, b); }
    if IdentityText(sha, a) == IdentityText(sha, b) {
      IdentityKeysDiffer();
      Q.RecordTextTellsValues(IDENTITY_KEYS, x, y, 0);
      Q.RecordTextTellsValues(IDENTITY_KEYS, x, y, 1);
      Q.RecordTextTellsValues(IDENTITY_KEYS, x, y, 2);
      SameScalars(x[0], y[0]);
      SameScalars(x[1], y[1]);
      SameStringLists(SortTexts(RefTexts(sha, a.refs)), SortTexts(RefTexts(sha, b.refs)));
      SortedExactly(RefTexts(sha, a.refs), RefTexts(sha, b.refs));
      RefTextsTell(sha, texts, a.refs, b.refs);
    }
  }

  // ---------------------------------------------------------------------------------------------------
  // One line
  // ---------------------------------------------------------------------------------------------------

  function IdentityPart(sha: string -> string, d: Option<Identity>): string {
    if d.None? then "absent" else Digest(sha, "identity", IdentityText(sha, d.value))
  }

  function MemberPart(row: Option<Row>): string {
    match row
    case None => "none"
    case Some(Row(Intended, synced)) => if synced then "intended:synced" else "intended:unsynced"
    case Some(Row(Removing, synced)) => if synced then "removing:synced" else "removing:unsynced"
  }

  function BasisLine(sha: string -> string, id: ItemId, d: Option<Identity>, row: Option<Row>): string {
    id + "|" + (IdentityPart(sha, d) + "|" + MemberPart(row))
  }

  /** What is hashed for one reading. */
  function HashedFor(sha: string -> string, d: Option<Identity>): set<string> {
    if d.None? then {} else {Preimage("identity", IdentityText(sha, d.value))} + HashedForRefs(d.value.refs)
  }

  lemma IdentityPartHasNoBar(sha: string -> string, d: Option<Identity>)
    requires HexDigests(sha)
    ensures '|' !in IdentityPart(sha, d) && (IdentityPart(sha, d) == "absent" <==> d.None?)
  {
    hide HexDigests, IdentityText, Digest;
    if d.Some? { DigestIsHex(sha, "identity", IdentityText(sha, d.value)); }
    assert |"absent"| == 6;
  }

  lemma IdentityPartIsExact(sha: string -> string, texts: set<string>, a: Option<Identity>, b: Option<Identity>)
    requires HexDigests(sha) && Apart(sha, texts) && HashedFor(sha, a) <= texts && HashedFor(sha, b) <= texts
    ensures IdentityPart(sha, a) == IdentityPart(sha, b) <==> ReadAlike(a, b)
  {
    hide HexDigests, Apart, IdentityText, Digest, HashedForRefs, Preimage;
    IdentityPartHasNoBar(sha, a);
    IdentityPartHasNoBar(sha, b);
    if a.Some? && b.Some? {
      DigestIsExact(sha, texts, "identity", IdentityText(sha, a.value), IdentityText(sha, b.value));
      IdentityTextIsExact(sha, texts, a.value, b.value);
    }
  }

  lemma MemberPartIsExact(a: Option<Row>, b: Option<Row>)
    ensures MemberPart(a) == MemberPart(b) <==> a == b
    ensures '|' !in MemberPart(a)
  {
    assert |"none"| == 4 && |"intended:synced"| == 15 && |"intended:unsynced"| == 17;
    assert |"removing:synced"| == 15 && |"removing:unsynced"| == 17;
    assert "intended:synced"[0] == "intended:unsynced"[0] == 'i' && "removing:synced"[0] == "removing:unsynced"[0] == 'r';
  }

  lemma IdsHaveNoBar(id: ItemId)
    requires IsItemId(id)
    ensures '|' !in id
  {
  }

  /** A line determines the record, what was read of it, and its row. */
  lemma LineIsExact(
      sha: string -> string, texts: set<string>, id: ItemId, a: Option<Identity>, row: Option<Row>,
      other: ItemId, b: Option<Identity>, was: Option<Row>)
    requires HexDigests(sha) && Apart(sha, texts) && HashedFor(sha, a) <= texts && HashedFor(sha, b) <= texts
    requires IsItemId(id) && IsItemId(other)
    ensures BasisLine(sha, id, a, row) == BasisLine(sha, other, b, was) <==> id == other && ReadAlike(a, b) && row == was
  {
    hide HexDigests, Apart, HashedFor, IdentityPart, MemberPart, ReadAlike, IsItemId;
    IdsHaveNoBar(id);
    IdsHaveNoBar(other);
    IdentityPartIsExact(sha, texts, a, b);
    IdentityPartHasNoBar(sha, a);
    IdentityPartHasNoBar(sha, b);
    MemberPartIsExact(row, was);
    if BasisLine(sha, id, a, row) == BasisLine(sha, other, b, was) {
      var rest, otherRest := IdentityPart(sha, a) + "|" + MemberPart(row), IdentityPart(sha, b) + "|" + MemberPart(was);
      Text.FirstSeparator(id, rest, other, otherRest, '|');
      Text.FirstSeparator(IdentityPart(sha, a), MemberPart(row), IdentityPart(sha, b), MemberPart(was), '|');
    }
  }

  // ---------------------------------------------------------------------------------------------------
  // The basis
  // ---------------------------------------------------------------------------------------------------

  /** The durable state of the collection itself. */
  datatype CollectionState = CollectionState(status: Status, settled: bool, needsSync: bool, attempts: nat)

  /** Everything one plan looked at. `considered` is what is selected or recorded, in order. */
  datatype Basis = Basis(
    collectionKey: string, state: Option<CollectionState>, considered: seq<ItemId>, catalog: Catalog, rows: Rows)

  function StatusText(s: Status): string {
    match s
    case Planned => "planned"
    case InFlight => "in_flight"
    case Ambiguous => "ambiguous"
    case Published => "published"
    case RevokePending => "revoke_pending"
  }

  lemma StatusTextIsExact(s: Status, t: Status)
    ensures StatusText(s) == StatusText(t) <==> s == t
  {
    assert |"planned"| == 7 && |"in_flight"| == 9 && |"ambiguous"| == 9 && |"published"| == 9 && |"revoke_pending"| == 14;
    assert "in_flight"[0] == 'i' && "ambiguous"[0] == 'a' && "published"[0] == 'p';
  }

  const STATE_KEYS := ["status", "settled", "needsSync", "attemptCount"]

  function StateValues(s: CollectionState): seq<Value> {
    [Str(StatusText(s.status)), Bool(s.settled), Bool(s.needsSync), Int(s.attempts)]
  }

  function StateText(s: Option<CollectionState>): string {
    if s.None? then "absent" else Canonical(Q.Record(STATE_KEYS, StateValues(s.value)))
  }

  lemma StateKeysDiffer()
    ensures Q.Distinct(STATE_KEYS) && |STATE_KEYS| == 4
  {
    assert STATE_KEYS[0][0] == 's' && STATE_KEYS[1][0] == 's' && STATE_KEYS[2][0] == 'n' && STATE_KEYS[3][0] == 'a';
    assert STATE_KEYS[0][1] == 't' && STATE_KEYS[1][1] == 'e';
  }

  lemma RecordsOpenWithABrace(fields: seq<Field>)
    ensures Canonical(Rec(fields)) != "absent"
  {
    assert Canonical(Rec(fields))[0] == '{' && "absent"[0] == 'a';
  }

  lemma StateTextIsExact(s: Option<CollectionState>, t: Option<CollectionState>)
    ensures StateText(s) == StateText(t) <==> s == t
  {
    hide Canonical, Same, StatusText, Q.Distinct;
    if s.Some? { RecordsOpenWithABrace(Q.Record(STATE_KEYS, StateValues(s.value)).fields); }
    if t.Some? { RecordsOpenWithABrace(Q.Record(STATE_KEYS, StateValues(t.value)).fields); }
    if s.Some? && t.Some? && StateText(s) == StateText(t) {
      var x, y := StateValues(s.value), StateValues(t.value);
      StateKeysDiffer();
      Q.RecordTextTellsString(STATE_KEYS, x, y, 0, StatusText(s.value.status), StatusText(t.value.status));
      Q.RecordTextTellsValues(STATE_KEYS, x, y, 1);
      Q.RecordTextTellsValues(STATE_KEYS, x, y, 2);
      Q.RecordTextTellsValues(STATE_KEYS, x, y, 3);
      SameScalars(x[1], y[1]);
      SameScalars(x[2], y[2]);
      SameScalars(x[3], y[3]);
      StatusTextIsExact(s.value.status, t.value.status);
    }
  }

  function LineOf(sha: string -> string, b: Basis, id: ItemId): string {
    BasisLine(sha, id, Lookup(b.catalog, id), Lookup(b.rows, id))
  }

  function LinesOf(sha: string -> string, b: Basis): seq<string> {
    seq(|b.considered|, i requires 0 <= i < |b.considered| => LineOf(sha, b, b.considered[i]))
  }

  const BASIS_KEYS := ["version", "target", "collectionKey", "state", "basis"]

  function BasisValues(b: Basis, lines: seq<string>): seq<Value> {
    [Int(2), Str("jellyfin"), Str(b.collectionKey), Str(StateText(b.state)), Strings(lines)]
  }

  function BasisText(sha: string -> string, b: Basis): string {
    Canonical(Q.Record(BASIS_KEYS, BasisValues(b, SortTexts(LinesOf(sha, b)))))
  }

  /** The digest a confirmation is bound to, beside the plan's own. */
  function BasisDigest(sha: string -> string, b: Basis): string {
    Digest(sha, "basis", BasisText(sha, b))
  }

  lemma BasisKeysDiffer()
    ensures Q.Distinct(BASIS_KEYS) && |BASIS_KEYS| == 5
  {
    assert BASIS_KEYS[0][0] == 'v' && BASIS_KEYS[1][0] == 't' && BASIS_KEYS[2][0] == 'c';
    assert BASIS_KEYS[3][0] == 's' && BASIS_KEYS[4][0] == 'b';
  }

  /** What every basis the planner builds satisfies: identifiers as the parser lets them through, in order. */
  ghost predicate IsBasis(b: Basis) {
    CollectionPlan.Ascending(b.considered) && forall id :: id in b.considered ==> IsItemId(id)
  }

  /** Two plans looked at the same things. */
  ghost predicate SameBasis(a: Basis, b: Basis) {
    && a.collectionKey == b.collectionKey && a.state == b.state && a.considered == b.considered
    && forall id :: id in a.considered ==>
         ReadAlike(Lookup(a.catalog, id), Lookup(b.catalog, id)) && Lookup(a.rows, id) == Lookup(b.rows, id)
  }

  /** Every text that is hashed on the way to the digest of a basis. */
  ghost function Hashed(sha: string -> string, b: Basis): set<string> {
    {Preimage("basis", BasisText(sha, b))}
    + set id, x | id in b.considered && x in HashedFor(sha, Lookup(b.catalog, id)) :: x
  }

  /** Two different ones of these texts have one digest. */
  ghost predicate Collide(sha: string -> string, texts: set<string>) {
    exists x, y :: x in texts && y in texts && x != y && sha(x) == sha(y)
  }

  lemma HashedHas(sha: string -> string, b: Basis, id: ItemId)
    requires id in b.considered
    ensures HashedFor(sha, Lookup(b.catalog, id)) <= Hashed(sha, b)
  {
    hide HashedFor, BasisText, Preimage;
  }

  /** A record considered by one basis, with its line in the other, is considered by the other and read alike. */
  lemma LineFound(sha: string -> string, texts: set<string>, a: Basis, b: Basis, id: ItemId)
    requires HexDigests(sha) && Apart(sha, texts) && Hashed(sha, a) <= texts && Hashed(sha, b) <= texts
    requires IsBasis(a) && IsBasis(b) && id in a.considered
    requires multiset(LinesOf(sha, a)) == multiset(LinesOf(sha, b))
    ensures id in b.considered
    ensures ReadAlike(Lookup(a.catalog, id), Lookup(b.catalog, id)) && Lookup(a.rows, id) == Lookup(b.rows, id)
  {
    hide HexDigests, Apart, Hashed, HashedFor, BasisLine, IsItemId, ReadAlike;
    var i :| 0 <= i < |a.considered| && a.considered[i] == id;
    assert LinesOf(sha, a)[i] in multiset(LinesOf(sha, a));
    var k :| 0 <= k < |LinesOf(sha, b)| && LinesOf(sha, b)[k] == LinesOf(sha, a)[i];
    var other := b.considered[k];
    HashedHas(sha, a, id);
    HashedHas(sha, b, other);
    LineIsExact(sha, texts, id, Lookup(a.catalog, id), Lookup(a.rows, id), other, Lookup(b.catalog, other), Lookup(b.rows, other));
  }

  lemma LinesTell(sha: string -> string, texts: set<string>, a: Basis, b: Basis)
    requires HexDigests(sha) && Apart(sha, texts) && Hashed(sha, a) <= texts && Hashed(sha, b) <= texts
    requires IsBasis(a) && IsBasis(b) && multiset(LinesOf(sha, a)) == multiset(LinesOf(sha, b))
    ensures a.considered == b.considered
    ensures forall id :: id in a.considered ==>
      ReadAlike(Lookup(a.catalog, id), Lookup(b.catalog, id)) && Lookup(a.rows, id) == Lookup(b.rows, id)
  {
    hide HexDigests, Apart, Hashed, LinesOf, IsItemId, ReadAlike;
    forall id | id in a.considered
      ensures id in b.considered
      ensures ReadAlike(Lookup(a.catalog, id), Lookup(b.catalog, id)) && Lookup(a.rows, id) == Lookup(b.rows, id)
    {
      LineFound(sha, texts, a, b, id);
    }
    forall id | id in b.considered ensures id in a.considered {
      LineFound(sha, texts, b, a, id);
    }
    CollectionPlan.AscendingIsUnique(a.considered, b.considered);
  }

  lemma AlikeHaveOneLine(sha: string -> string, id: ItemId, a: Option<Identity>, b: Option<Identity>, row: Option<Row>)
    requires ReadAlike(a, b)
    ensures BasisLine(sha, id, a, row) == BasisLine(sha, id, b, row)
  {
    hide IdentityText, MemberPart, Digest;
    if a.Some? { AlikeHaveOneText(sha, a.value, b.value); }
  }

  /** The same things looked at have one digest, whatever the hash. */
  lemma SameBasisSameDigest(sha: string -> string, a: Basis, b: Basis)
    requires SameBasis(a, b)
    ensures BasisDigest(sha, a) == BasisDigest(sha, b)
  {
    hide BasisLine, ReadAlike, Canonical, Q.Record, StateText, SortTexts, Strings;
    forall i | 0 <= i < |a.considered| ensures LinesOf(sha, a)[i] == LinesOf(sha, b)[i] {
      var id := a.considered[i];
      assert id in a.considered;
      AlikeHaveOneLine(sha, id, Lookup(a.catalog, id), Lookup(b.catalog, id), Lookup(a.rows, id));
    }
    assert LinesOf(sha, a) == LinesOf(sha, b);
  }

  lemma DigestTells(sha: string -> string, texts: set<string>, a: Basis, b: Basis)
    requires HexDigests(sha) && Apart(sha, texts) && Hashed(sha, a) <= texts && Hashed(sha, b) <= texts
    requires IsBasis(a) && IsBasis(b) && BasisDigest(sha, a) == BasisDigest(sha, b)
    ensures SameBasis(a, b)
  {
    hide HexDigests, Apart, HashedFor, IsBasis, LinesOf, Canonical, Same, Q.Record, Q.Distinct, StateText, Strings, SortTexts,
      Digest, ReadAlike, Preimage;
    var l, m := SortTexts(LinesOf(sha, a)), SortTexts(LinesOf(sha, b));
    var x, y := BasisValues(a, l), BasisValues(b, m);
    DigestIsExact(sha, texts, "basis", BasisText(sha, a), BasisText(sha, b));
    BasisKeysDiffer();
    Q.RecordTextTellsString(BASIS_KEYS, x, y, 2, a.collectionKey, b.collectionKey);
    Q.RecordTextTellsString(BASIS_KEYS, x, y, 3, StateText(a.state), StateText(b.state));
    Q.RecordTextTellsValues(BASIS_KEYS, x, y, 4);
    SameStringLists(l, m);
    StateTextIsExact(a.state, b.state);
    SortedExactly(LinesOf(sha, a), LinesOf(sha, b));
    LinesTell(sha, texts, a, b);
  }

  /**
   The basis digest moves exactly when what was looked at did: another record considered, a title, year or
   reference changed, a membership row changed, or anything of the collection's own state. Only a collision among
   the texts hashed for the two could hide a move.
   */
  lemma BasisIsExact(sha: string -> string, a: Basis, b: Basis)
    requires HexDigests(sha) && IsBasis(a) && IsBasis(b)
    ensures SameBasis(a, b) ==> BasisDigest(sha, a) == BasisDigest(sha, b)
    ensures BasisDigest(sha, a) == BasisDigest(sha, b) ==> SameBasis(a, b) || Collide(sha, Hashed(sha, a) + Hashed(sha, b))
  {
    hide HexDigests, Hashed, IsBasis, SameBasis, BasisDigest;
    if SameBasis(a, b) { SameBasisSameDigest(sha, a, b); }
    if BasisDigest(sha, a) == BasisDigest(sha, b) && Apart(sha, Hashed(sha, a) + Hashed(sha, b)) {
      DigestTells(sha, Hashed(sha, a) + Hashed(sha, b), a, b);
    }
  }

  /** The lines as the planner collects them, one a record, and the digest of all of them. */
  method BuildBasis(sha: string -> string, b: Basis) returns (digest: string)
    ensures digest == BasisDigest(sha, b)
  {
    hide LineOf, Digest, Canonical, Q.Record, SortTexts, StateText, Strings;
    var lines: seq<string> := [];
    for i := 0 to |b.considered|
      invariant lines == LinesOf(sha, b)[..i]
    {
      lines := lines + [LineOf(sha, b, b.considered[i])];
      assert LinesOf(sha, b)[..i + 1] == LinesOf(sha, b)[..i] + [LinesOf(sha, b)[i]];
    }
    assert LinesOf(sha, b)[..|b.considered|] == LinesOf(sha, b);
    digest := Digest(sha, "basis", Canonical(Q.Record(BASIS_KEYS, BasisValues(b, SortTexts(lines)))));
  }

  lemma AlikeDecidesAlike(mode: Mode, selected: bool, a: Option<Identity>, b: Option<Identity>, row: Option<Row>)
    requires ReadAlike(a, b)
    ensures DecideMember(mode, selected, a, row) == DecideMember(mode, selected, b, row)
  {
    if a.Some? {
      assert |multiset(a.value.refs)| == |a.value.refs| && |multiset(b.value.refs)| == |b.value.refs|;
    }
  }

  lemma SameBasisSamePlan(
      a: Basis, b: Basis, mode: Mode, selected: set<ItemId>, first: seq<PlanMember>, second: seq<PlanMember>)
    requires SameBasis(a, b)
    requires IsPlan(first, a.catalog, a.rows, mode, selected) && Ids(first) == a.considered
    requires IsPlan(second, b.catalog, b.rows, mode, selected) && Ids(second) == b.considered
    ensures first == second
  {
    hide DecideMember, ReadAlike;
    assert |first| == |Ids(first)| == |Ids(second)| == |second|;
    forall i | 0 <= i < |first| ensures first[i] == second[i] {
      var id := first[i].itemId;
      assert Ids(first)[i] == Ids(second)[i] == id && id in a.considered;
      AlikeDecidesAlike(mode, id in selected, Lookup(a.catalog, id), Lookup(b.catalog, id), Lookup(a.rows, id));
    }
  }

  /** What the decision about the collection as a whole sees of its state. */
  function ExistingOf(state: Option<CollectionState>): Option<Existing> {
    if state.None? then None else Some(Existing(state.value.status, state.value.needsSync))
  }

  /**
   So a confirmation whose basis still holds is for the plan that would be made now: with the same mode and
   selection, equal basis digests mean the same decision about each record and about the collection, or a collision.
   */
  lemma SameDigestSamePlan(
      sha: string -> string, a: Basis, b: Basis, mode: Mode, selected: set<ItemId>,
      first: seq<PlanMember>, second: seq<PlanMember>)
    requires HexDigests(sha) && IsBasis(a) && IsBasis(b) && BasisDigest(sha, a) == BasisDigest(sha, b)
    requires IsPlan(first, a.catalog, a.rows, mode, selected) && Ids(first) == a.considered
    requires IsPlan(second, b.catalog, b.rows, mode, selected) && Ids(second) == b.considered
    ensures
      || Collide(sha, Hashed(sha, a) + Hashed(sha, b))
      || (first == second
          && DecideCollection(mode, ExistingOf(a.state), first) == DecideCollection(mode, ExistingOf(b.state), second))
  {
    hide HexDigests, Hashed, IsBasis, BasisDigest, Collide, DecideCollection, IsPlan;
    BasisIsExact(sha, a, b);
    if SameBasis(a, b) { SameBasisSamePlan(a, b, mode, selected, first, second); }
  }
}
