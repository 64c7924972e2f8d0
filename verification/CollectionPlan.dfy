/**
 Planning and queuing a managed collection: which records a selection puts in, which it takes out, and the
 durable membership the plan is written into. Queuing a plan is a fixed point, and nothing a selection says
 can put in a record that cannot be read.
 */
module CollectionPlan {
  import opened Basics
  import CanonicalJson
  import Text

  type ItemId = string

  const MAX_ITEMS: nat := 500
  const READ_CONCURRENCY: nat := 8

  datatype ProviderRef = ProviderRef(refType: string, value: string)

  datatype Identity = Identity(title: Option<string>, year: Option<int>, refs: seq<ProviderRef>)

  /** What the catalog answers: a record that is not in the map could not be read. */
  type Catalog = map<ItemId, Identity>

  datatype MemberState = Intended | Removing

  datatype Row = Row(state: MemberState, synced: bool)

  type Rows = map<ItemId, Row>

  datatype Mode = Sync | Revoke

  datatype MemberAction = Add | Keep | Remove | Blocked

  datatype MemberReason =
    | NotAMember | AlreadyMember | Restored | Deselected | PendingRemoval
    | Forgotten | NoProviderRefs | UnreadableRecord | Revoking

  datatype PlanMember = PlanMember(itemId: ItemId, action: MemberAction, reason: MemberReason)

  // ---------------------------------------------------------------------------------------------------
  // Ordered, duplicate-free lists of identifiers
  // ---------------------------------------------------------------------------------------------------

  ghost predicate Ascending(ids: seq<ItemId>) {
    forall i, k :: 0 <= i < k < |ids| ==> CanonicalJson.Less(ids[i], ids[k])
  }

  function InsertId(id: ItemId, ids: seq<ItemId>): seq<ItemId> {
    if ids == [] then [id]
    else if id == ids[0] then ids
    else if CanonicalJson.Less(id, ids[0]) then [id] + ids
    else [ids[0]] + InsertId(id, ids[1..])
  }

  lemma {:induction false} InsertIdFacts(id: ItemId, ids: seq<ItemId>)
    requires Ascending(ids)
    ensures Ascending(InsertId(id, ids)) && forall x :: x in InsertId(id, ids) <==> x == id || x in ids
  {
    if ids != [] && id != ids[0] {
      CanonicalJson.LessIsTotal(id, ids[0]);
      if CanonicalJson.Less(id, ids[0]) {
        forall k | 0 <= k < |ids| ensures CanonicalJson.Less(id, ids[k]) {
          if k > 0 { CanonicalJson.LessIsTransitive(id, ids[0], ids[k]); }
        }
      } else {
        InsertIdFacts(id, ids[1..]);
        var tail := InsertId(id, ids[1..]);
        forall k | 0 <= k < |tail| ensures CanonicalJson.Less(ids[0], tail[k]) {
          assert tail[k] in tail;
        }
        assert ids == [ids[0]] + ids[1..];
      }
    }
  }

  lemma AscendingHead(ids: seq<ItemId>)
    requires ids != [] && Ascending(ids)
    ensures ids[0] !in ids[1..] && ids == [ids[0]] + ids[1..]
  {
    CanonicalJson.LessIsTotal(ids[0], ids[0]);
    assert forall k :: 0 < k < |ids| ==> CanonicalJson.Less(ids[0], ids[k]);
  }

  /** An ascending list is determined by the set it holds. */
  lemma {:induction false} AscendingIsUnique(a: seq<ItemId>, b: seq<ItemId>)
    requires Ascending(a) && Ascending(b) && forall x :: x in a <==> x in b
    ensures a == b
  {
    assert a != [] ==> a[0] in b;
    assert b != [] ==> b[0] in a;
    if a != [] {
      CanonicalJson.LessIsTotal(a[0], b[0]);
      AscendingHead(a);
      AscendingHead(b);
      assert a[0] == b[0];
      forall x ensures x in a[1..] <==> x in b[1..] {
        assert x in a <==> x == a[0] || x in a[1..];
        assert x in b <==> x == b[0] || x in b[1..];
      }
      AscendingIsUnique(a[1..], b[1..]);
    }
  }

  method SortIds(ids: seq<ItemId>) returns (sorted: seq<ItemId>)
    ensures Ascending(sorted) && forall x :: x in sorted <==> x in ids
  {
    sorted := [];
    for i := 0 to |ids|
      invariant Ascending(sorted) && forall x :: x in sorted <==> x in ids[..i]
    {
      InsertIdFacts(ids[i], sorted);
      sorted := InsertId(ids[i], sorted);
      assert ids[..i + 1] == ids[..i] + [ids[i]];
    }
  }

  /** Eight, four, four, four and twelve lower-case hexadecimal digits, with hyphens between. */
  predicate IsItemId(s: string) {
    && |s| == 36
    && forall i :: 0 <= i < 36 ==> if i in {8, 13, 18, 23} then s[i] == '-' else Text.IsHex(s[i])
  }

  /**
   Parse an explicit selection. One malformed identifier refuses the whole of it; otherwise the answer is
   the ascending list of the identifiers in it, so it says nothing of the order or the duplicates sent.
   */
  method ParseItemIds(raw: seq<string>) returns (parsed: Option<seq<ItemId>>)
    ensures parsed.None? <==> |raw| > 1000 || exists i :: 0 <= i < |raw| && !IsItemId(raw[i])
    ensures parsed.Some? ==> Ascending(parsed.value) && forall x :: x in parsed.value <==> x in raw
  {
    if |raw| > MAX_ITEMS * 2 { return None; }
    for i := 0 to |raw|
      invariant forall k :: 0 <= k < i ==> IsItemId(raw[k])
    {
      if !IsItemId(raw[i]) { return None; }
    }
    var sorted := SortIds(raw);
    return Some(sorted);
  }

  /** Two orderings of one selection, with any duplicates, are one selection. */
  lemma SelectionHasNoOrder(raw1: seq<string>, raw2: seq<string>, p1: seq<ItemId>, p2: seq<ItemId>)
    requires forall x :: x in raw1 <==> x in raw2
    requires Ascending(p1) && forall x :: x in p1 <==> x in raw1
    requires Ascending(p2) && forall x :: x in p2 <==> x in raw2
    ensures p1 == p2
  {
    AscendingIsUnique(p1, p2);
  }

  // ---------------------------------------------------------------------------------------------------
  // Reading identities with a pool of workers
  // ---------------------------------------------------------------------------------------------------

  datatype Worker = Idle | Reading(index: nat) | Finished

  ghost function Readable(catalog: Catalog, ids: seq<ItemId>): Catalog {
    map id | id in ids && id in catalog :: catalog[id]
  }

  function Unfinished(workers: seq<Worker>): nat {
    if workers == [] then 0 else Unfinished(workers[1..]) + match workers[0] case Finished => 0 case Idle => 1 case Reading(_) => 2
  }

  lemma {:induction false} UnfinishedUpdate(workers: seq<Worker>, w: nat, next: Worker)
    requires w < |workers|
    ensures Unfinished(workers[w := next]) ==
            Unfinished(workers) - Unfinished([workers[w]]) + Unfinished([next])
    ensures Unfinished([workers[w]]) <= Unfinished(workers)
  {
    if w > 0 {
      UnfinishedUpdate(workers[1..], w - 1, next);
      assert workers[w := next][1..] == workers[1..][w - 1 := next];
    } else {
      assert workers[w := next][1..] == workers[1..];
    }
  }

  /** Some worker has claimed the identifier at `i` and is still reading it. */
  ghost predicate InFlight(workers: seq<Worker>, i: nat) {
    exists w :: 0 <= w < |workers| && workers[w] == Reading(i)
  }

  /**
   Decrypt a set of identities with up to eight workers sharing one counter. Whichever worker runs next, the
   answer is every readable record of the list and nothing else, and it ends.
   */
  method ReadIdentities(catalog: Catalog, ids: seq<ItemId>) returns (out: Catalog)
    ensures out == Readable(catalog, ids)
  {
    out := map[];
    var next := 0;
    var pool := if |ids| < 1 then 1 else if |ids| < READ_CONCURRENCY then |ids| else READ_CONCURRENCY;
    var workers := seq(pool, i => Idle);
    while exists w :: 0 <= w < |workers| && !workers[w].Finished?
      invariant next <= |ids|
      invariant |workers| == pool
      invariant forall w :: 0 <= w < |workers| && workers[w].Reading? ==> workers[w].index < next
      invariant forall w :: 0 <= w < |workers| && workers[w].Finished? ==> next == |ids|
      invariant forall id :: id in out ==> id in ids && id in catalog && out[id] == catalog[id]
      invariant forall i :: 0 <= i < next && ids[i] in catalog ==> ids[i] in out || InFlight(workers, i)
      decreases 2 * (|ids| - next) + Unfinished(workers)
    {
      var w :| 0 <= w < |workers| && !workers[w].Finished?;
      ghost var before := workers;
      match workers[w] {
        case Idle =>
          if next >= |ids| {
            UnfinishedUpdate(workers, w, Finished);
            workers := workers[w := Finished];
          } else {
            UnfinishedUpdate(workers, w, Reading(next));
            workers := workers[w := Reading(next)];
            assert workers[w] == Reading(next);
            next := next + 1;
          }
        case Reading(i) =>
          if ids[i] in catalog { out := out[ids[i] := catalog[ids[i]]]; }
          UnfinishedUpdate(workers, w, Idle);
          workers := workers[w := Idle];
      }
      forall i | 0 <= i < next && ids[i] in catalog ensures ids[i] in out || InFlight(workers, i) {
        if v :| 0 <= v < |before| && before[v] == Reading(i) && v != w {
          assert workers[v] == Reading(i);
        }
      }
    }
    forall i | 0 <= i < |ids| && ids[i] in catalog ensures ids[i] in out {
      assert workers[0].Finished?;
      assert !InFlight(workers, i);
    }
  }

  // ---------------------------------------------------------------------------------------------------
  // The plan
  // ---------------------------------------------------------------------------------------------------

  function DecideMember(mode: Mode, isSelected: bool, identity: Option<Identity>, row: Option<Row>): (MemberAction, MemberReason) {
    if mode.Revoke? then
      if row.Some? then (Remove, Revoking) else (Blocked, Revoking)
    else if identity.None? then
      if row.Some? then (Remove, Forgotten) else (Blocked, UnreadableRecord)
    else if identity.value.refs == [] then
      if row.Some? then (Remove, NoProviderRefs) else (Blocked, NoProviderRefs)
    else
      var pendingRemoval := row.Some? && row.value.state.Removing?;
      if !isSelected then (Remove, if pendingRemoval then PendingRemoval else Deselected)
      else if pendingRemoval then (Add, Restored)
      else if row.Some? then (Keep, AlreadyMember) else (Add, NotAMember)
  }

  function Lookup<V>(m: map<ItemId, V>, id: ItemId): Option<V> {
    if id in m then Some(m[id]) else None
  }

  function Decide(catalog: Catalog, rows: Rows, mode: Mode, selected: set<ItemId>, id: ItemId): PlanMember {
    var (action, reason) := DecideMember(mode, id in selected, Lookup(catalog, id), Lookup(rows, id));
    PlanMember(id, action, reason)
  }

  function Ids(members: seq<PlanMember>): seq<ItemId> {
    seq(|members|, i requires 0 <= i < |members| => members[i].itemId)
  }

  /** One decision for every record selected or recorded, in the order of the identifiers. */
  ghost predicate IsPlan(members: seq<PlanMember>, catalog: Catalog, rows: Rows, mode: Mode, selected: set<ItemId>) {
    && Ascending(Ids(members))
    && (forall id :: id in Ids(members) <==> id in selected || id in rows)
    && (forall i :: 0 <= i < |members| ==> members[i] == Decide(catalog, rows, mode, selected, members[i].itemId))
  }

  /** The selection decides as a set: every plan of it is the same document. */
  lemma PlanIsUnique(a: seq<PlanMember>, b: seq<PlanMember>, catalog: Catalog, rows: Rows, mode: Mode, selected: set<ItemId>)
    requires IsPlan(a, catalog, rows, mode, selected) && IsPlan(b, catalog, rows, mode, selected)
    ensures a == b
  {
    AscendingIsUnique(Ids(a), Ids(b));
    assert |a| == |Ids(a)| == |Ids(b)| == |b|;
    forall i | 0 <= i < |a| ensures a[i] == b[i] {
      assert Ids(a)[i] == Ids(b)[i];
    }
  }

  method BuildMembers(catalog: Catalog, rows: Rows, recorded: seq<ItemId>, mode: Mode, selected: seq<ItemId>)
    returns (members: seq<PlanMember>)
    requires forall id :: id in recorded <==> id in rows
    ensures IsPlan(members, catalog, rows, mode, set id | id in selected)
  {
    var chosen := set id | id in selected;
    var considered := SortIds(selected + recorded);
    var identities := ReadIdentities(catalog, considered);
    members := [];
    for i := 0 to |considered|
      invariant Ids(members) == considered[..i]
      invariant forall k :: 0 <= k < i ==> members[k] == Decide(catalog, rows, mode, chosen, considered[k])
    {
      assert Lookup(identities, considered[i]) == Lookup(catalog, considered[i]);
      members := members + [Decide(identities, rows, mode, chosen, considered[i])];
      assert considered[..i + 1] == considered[..i] + [considered[i]];
    }
    assert considered[..|considered|] == considered;
  }

  function PutsIn(m: PlanMember): bool {
    m.action.Add? || m.action.Keep?
  }

  /** The records the collection is to hold. */
  function IntendedBy(members: seq<PlanMember>): set<ItemId> {
    set m | m in members && PutsIn(m) :: m.itemId
  }

  /** What a selection may put in: what is selected, can be read, and has a provider reference. */
  function Belongs(catalog: Catalog, selected: set<ItemId>): set<ItemId> {
    set id | id in selected && id in catalog && catalog[id].refs != []
  }

  /** A sync plan puts in exactly the selected, readable, reference-bearing records, whatever is recorded. */
  lemma PlanPutsInWhatBelongs(members: seq<PlanMember>, catalog: Catalog, rows: Rows, selected: set<ItemId>)
    requires IsPlan(members, catalog, rows, Sync, selected)
    ensures IntendedBy(members) == Belongs(catalog, selected)
  {
    forall id | id in Belongs(catalog, selected) ensures id in IntendedBy(members) {
      assert id in Ids(members);
      var i :| 0 <= i < |members| && Ids(members)[i] == id;
      assert members[i] in members && PutsIn(members[i]);
    }
  }

  /**
   What a plan does with each record it considers. A sync adds what belongs and is not held, keeps what belongs and
   is held, takes out what is recorded and does not belong, and blocks the rest; a revocation takes out whatever is
   recorded and puts nothing in.
   */
  lemma EachRecordIsDecided(
      members: seq<PlanMember>, catalog: Catalog, rows: Rows, mode: Mode, selected: set<ItemId>, m: PlanMember)
    requires IsPlan(members, catalog, rows, mode, selected) && m in members
    ensures
      var id := m.itemId;
      var belongs, held := mode.Sync? && id in Belongs(catalog, selected), id in rows && rows[id].state.Intended?;
      && (m.action.Add? <==> belongs && !held)
      && (m.action.Keep? <==> belongs && held)
      && (m.action.Remove? <==> !belongs && id in rows)
      && (m.action.Blocked? <==> !belongs && id !in rows)
  {
    var i :| 0 <= i < |members| && members[i] == m;
    assert Ids(members)[i] in Ids(members);
  }

  /** And each record is given the one reason that holds of it; an erasure comes before what was selected. */
  lemma EachMemberReasonHolds(
      members: seq<PlanMember>, catalog: Catalog, rows: Rows, mode: Mode, selected: set<ItemId>, m: PlanMember)
    requires IsPlan(members, catalog, rows, mode, selected) && m in members
    ensures
      var id := m.itemId;
      var named := mode.Sync? && id in catalog && catalog[id].refs != [];
      && (m.reason.Revoking? <==> mode.Revoke?)
      && (m.reason.Forgotten? <==> mode.Sync? && id !in catalog && id in rows)
      && (m.reason.UnreadableRecord? <==> mode.Sync? && id !in catalog && id !in rows)
      && (m.reason.NoProviderRefs? <==> mode.Sync? && id in catalog && catalog[id].refs == [])
      && (m.reason.Deselected? <==> named && id !in selected && id in rows && rows[id].state.Intended?)
      && (m.reason.PendingRemoval? <==> named && id !in selected && id in rows && rows[id].state.Removing?)
      && (m.reason.Restored? <==> named && id in selected && id in rows && rows[id].state.Removing?)
      && (m.reason.AlreadyMember? <==> named && id in selected && id in rows && rows[id].state.Intended?)
      && (m.reason.NotAMember? <==> named && id in selected && id !in rows)
  {
    var i :| 0 <= i < |members| && members[i] == m;
    assert Ids(members)[i] in Ids(members);
  }

  // ---------------------------------------------------------------------------------------------------
  // Writing the membership
  // ---------------------------------------------------------------------------------------------------

  /** The intended membership becomes exactly these records; what was in and is not named is queued to come out. */
  function SetMembers(rows: Rows, intended: set<ItemId>): Rows {
    map id | id in rows.Keys + intended ::
      if id in intended then Row(Intended, id in rows && rows[id].state.Intended? && rows[id].synced)
      else Row(Removing, rows[id].synced)
  }

  function Holds(rows: Rows): set<ItemId> {
    set id | id in rows && rows[id].state.Intended?
  }

  lemma SetMembersHoldsExactly(rows: Rows, intended: set<ItemId>)
    ensures Holds(SetMembers(rows, intended)) == intended
    ensures SetMembers(SetMembers(rows, intended), intended) == SetMembers(rows, intended)
  {
  }

  /** No row is lost, and what was observed of a row counts on only while it stays on the side it was observed on. */
  lemma SetMembersKeepsWhatWasSynced(rows: Rows, intended: set<ItemId>, id: ItemId)
    ensures id in SetMembers(rows, intended) <==> id in rows || id in intended
    ensures id in SetMembers(rows, intended) ==>
      (SetMembers(rows, intended)[id].synced <==>
        id in rows && rows[id].synced && !(id in intended && rows[id].state.Removing?))
  {
  }

  /**
   Queuing reaches a fixed point: planning the same selection over the queued membership adds nothing and
   intends the same records, and queuing that plan changes no row.
   */
  lemma QueueIsAFixedPoint(
      catalog: Catalog, rows: Rows, selected: set<ItemId>, first: seq<PlanMember>, second: seq<PlanMember>)
    requires IsPlan(first, catalog, rows, Sync, selected)
    requires IsPlan(second, catalog, SetMembers(rows, IntendedBy(first)), Sync, selected)
    ensures Holds(SetMembers(rows, IntendedBy(first))) == Belongs(catalog, selected)
    ensures IntendedBy(second) == IntendedBy(first)
    ensures forall m :: m in second ==> !m.action.Add?
    ensures SetMembers(SetMembers(rows, IntendedBy(first)), IntendedBy(second)) == SetMembers(rows, IntendedBy(first))
  {
    var queued := SetMembers(rows, IntendedBy(first));
    PlanPutsInWhatBelongs(first, catalog, rows, selected);
    PlanPutsInWhatBelongs(second, catalog, queued, selected);
    SetMembersHoldsExactly(rows, IntendedBy(first));
    forall m | m in second ensures !m.action.Add? {
      var i :| 0 <= i < |second| && second[i] == m;
      assert PutsIn(m) ==> m.itemId in IntendedBy(second);
    }
  }

  /** One re-selection: what the catalog answered when it was planned, and what was selected. */
  datatype Selection = Selection(catalog: Catalog, selected: set<ItemId>)

  function AfterSelections(rows: Rows, history: seq<Selection>): Rows {
    if history == [] then rows
    else
      var last := history[|history| - 1];
      SetMembers(AfterSelections(rows, history[..|history| - 1]), Belongs(last.catalog, last.selected))
  }

  /**
   No history of re-selections overrides an erasure: what the collection holds is what the last plan could
   read with a reference, and a record ever recorded and not held is queued to come out.
   */
  lemma {:induction false} NoHistoryPutsInTheUnreadable(rows: Rows, history: seq<Selection>, id: ItemId)
    requires history != []
    ensures
      var last, after := history[|history| - 1], AfterSelections(rows, history);
      && (id in Holds(after) <==> id in last.selected && id in last.catalog && last.catalog[id].refs != [])
      && (id in rows ==> id in after)
      && (id in after && id !in Holds(after) ==> after[id].state.Removing?)
  {
    var front, last := history[..|history| - 1], history[|history| - 1];
    SetMembersHoldsExactly(AfterSelections(rows, front), Belongs(last.catalog, last.selected));
    if front != [] { NoHistoryPutsInTheUnreadable(rows, front, id); }
  }

  // ---------------------------------------------------------------------------------------------------
  // The collection as a whole
  // ---------------------------------------------------------------------------------------------------

  datatype Status = Planned | InFlight | Ambiguous | Published | RevokePending

  datatype Existing = Existing(status: Status, needsSync: bool)

  datatype CollectionAction = Create | Update | Unchanged | RevokeAll | BlockedPlan

  datatype CollectionReason = AbsentCollection | MembershipDiffers | Unsettled | InSync | NoMembers | Emptied | OperatorRevoke

  function CountOf(members: seq<PlanMember>, action: MemberAction): nat {
    if members == [] then 0
    else CountOf(members[..|members| - 1], action) + if members[|members| - 1].action == action then 1 else 0
  }

  lemma {:induction false} CountIsZero(members: seq<PlanMember>, action: MemberAction)
    ensures CountOf(members, action) == 0 <==> forall m :: m in members ==> m.action != action
  {
    if members != [] {
      CountIsZero(members[..|members| - 1], action);
      assert members == members[..|members| - 1] + [members[|members| - 1]];
    }
  }

  function DecideCollection(mode: Mode, existing: Option<Existing>, members: seq<PlanMember>): (CollectionAction, CollectionReason) {
    var resulting := CountOf(members, Add) + CountOf(members, Keep);
    if mode.Revoke? then (RevokeAll, OperatorRevoke)
    else if existing.None? then if resulting == 0 then (BlockedPlan, NoMembers) else (Create, AbsentCollection)
    else if resulting == 0 then (RevokeAll, Emptied)
    else if !existing.value.status.Published? then (Update, Unsettled)
    else if CountOf(members, Add) > 0 || CountOf(members, Remove) > 0 || existing.value.needsSync then (Update, MembershipDiffers)
    else (Unchanged, InSync)
  }

  /** What a plan says of one record it considers. */
  lemma Considers(members: seq<PlanMember>, catalog: Catalog, rows: Rows, mode: Mode, selected: set<ItemId>, id: ItemId)
    requires IsPlan(members, catalog, rows, mode, selected)
    ensures (exists m :: m in members && m.itemId == id) <==> id in selected || id in rows
    ensures forall m :: m in members && m.itemId == id ==> m == Decide(catalog, rows, mode, selected, id)
  {
    if id in selected || id in rows {
      assert id in Ids(members);
      var i :| 0 <= i < |members| && Ids(members)[i] == id;
      assert members[i] in members && members[i].itemId == id;
    }
    forall m | m in members && m.itemId == id
      ensures m == Decide(catalog, rows, mode, selected, id) && (id in selected || id in rows)
    {
      var i :| 0 <= i < |members| && members[i] == m;
      assert Ids(members)[i] in Ids(members);
    }
  }

  lemma NothingToDoMeansInPlace(members: seq<PlanMember>, catalog: Catalog, rows: Rows, selected: set<ItemId>)
    requires IsPlan(members, catalog, rows, Sync, selected)
    ensures (CountOf(members, Add) == 0 && CountOf(members, Remove) == 0) <==>
            Holds(rows) == rows.Keys == Belongs(catalog, selected)
  {
    hide IsPlan;
    CountIsZero(members, Add);
    CountIsZero(members, Remove);
    if CountOf(members, Add) == 0 && CountOf(members, Remove) == 0 {
      forall id ensures (id in rows <==> id in Belongs(catalog, selected)) && (id in rows ==> id in Holds(rows)) {
        Considers(members, catalog, rows, Sync, selected, id);
        if id in selected || id in rows {
          var m :| m in members && m.itemId == id;
          assert !m.action.Add? && !m.action.Remove?;
        }
      }
    }
    if Holds(rows) == rows.Keys == Belongs(catalog, selected) {
      forall m | m in members ensures !m.action.Add? && !m.action.Remove? {
        Considers(members, catalog, rows, Sync, selected, m.itemId);
        assert m.itemId in rows <==> m.itemId in Belongs(catalog, selected);
        assert m.itemId in rows <==> m.itemId in Holds(rows);
      }
    }
  }

  lemma NothingInMeansNothingBelongs(members: seq<PlanMember>, catalog: Catalog, rows: Rows, selected: set<ItemId>)
    requires IsPlan(members, catalog, rows, Sync, selected)
    ensures CountOf(members, Add) + CountOf(members, Keep) == 0 <==> Belongs(catalog, selected) == {}
  {
    PlanPutsInWhatBelongs(members, catalog, rows, selected);
    CountIsZero(members, Add);
    CountIsZero(members, Keep);
    if m :| m in members && PutsIn(m) {
      assert m.itemId in IntendedBy(members);
    }
  }

  /**
   What a plan does with the whole collection. One with nothing that belongs in it is blocked when there is none and
   deleted when there is; one that does not exist is created; the rest are updated unless nothing differs.
   */
  lemma CollectionDecidedExactlyWhen(
      members: seq<PlanMember>, catalog: Catalog, rows: Rows, mode: Mode, selected: set<ItemId>, existing: Option<Existing>)
    requires IsPlan(members, catalog, rows, mode, selected)
    ensures
      var d := DecideCollection(mode, existing, members);
      var empty := Belongs(catalog, selected) == {};
      var inPlace := Holds(rows) == rows.Keys == Belongs(catalog, selected);
      d == (
        if mode.Revoke? then (RevokeAll, OperatorRevoke)
        else if empty then if existing.None? then (BlockedPlan, NoMembers) else (RevokeAll, Emptied)
        else if existing.None? then (Create, AbsentCollection)
        else if existing.value.status.Published? && !existing.value.needsSync && inPlace then (Unchanged, InSync)
        else if existing.value.status.Published? then (Update, MembershipDiffers)
        else (Update, Unsettled))
  {
    hide IsPlan, Holds, Belongs, CountOf;
    if mode.Sync? {
      NothingToDoMeansInPlace(members, catalog, rows, selected);
      NothingInMeansNothingBelongs(members, catalog, rows, selected);
    }
  }

  /** A sync plan changes nothing exactly when the settled, synced collection already holds what belongs, and only that. */
  lemma UnchangedExactlyWhenSettled(
      members: seq<PlanMember>, catalog: Catalog, rows: Rows, selected: set<ItemId>, existing: Existing)
    requires IsPlan(members, catalog, rows, Sync, selected)
    ensures
      DecideCollection(Sync, Some(existing), members).0.Unchanged? <==>
      && existing.status.Published? && !existing.needsSync
      && Holds(rows) == rows.Keys == Belongs(catalog, selected) != {}
  {
    NothingToDoMeansInPlace(members, catalog, rows, selected);
    NothingInMeansNothingBelongs(members, catalog, rows, selected);
  }
}
