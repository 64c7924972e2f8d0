/**
 Writing a collection plan into the durable model in one transaction, and what the digest an operator
 confirms commits the plan to.
 */
module CollectionQueue {
  import opened Basics
  import opened CollectionPlan
  import opened CanonicalJson

  datatype Plan = Plan(
    name: string, mode: Mode, collectionKey: string, action: CollectionAction, reason: CollectionReason,
    members: seq<PlanMember>)

  datatype QueueAction = CreatedIt | UpdatedIt | LeftUnchanged | RevokeQueued | NothingQueued | Threw

  /** The plan was written. A connection that cannot be had is thrown to the caller, not reported. */
  predicate Wrote(q: QueueAction) {
    !q.NothingQueued? && !q.Threw?
  }

  /** Records the sweep takes out: held, and absent from the catalog's tables or forgotten there. */
  function Swept(rows: Rows, forgotten: set<ItemId>): Rows {
    map id | id in rows :: if id in forgotten then Row(Removing, rows[id].synced) else rows[id]
  }

  /** The sweep queues the whole collection for revocation when it leaves nothing intended. */
  function SweptStatus(status: Status, rows: Rows, forgotten: set<ItemId>): Status {
    if Holds(Swept(rows, forgotten)) == {} then RevokePending else status
  }

  /** Some record is queued to come out. */
  predicate Leaving(rows: Rows) {
    exists id :: id in rows && rows[id].state.Removing?
  }

  /** What queuing reports of a sync plan, by what the plan said it would do. */
  function QueuedAs(action: CollectionAction): QueueAction {
    match action
    case Create => CreatedIt
    case RevokeAll => RevokeQueued
    case Unchanged => LeftUnchanged
    case _ => UpdatedIt
  }

  /** A sync plan is reported created, revoked or unchanged exactly when it said so, and updated in every other case. */
  lemma QueuedAsPlanned(action: CollectionAction)
    ensures
      var q := QueuedAs(action);
      && (q.CreatedIt? <==> action.Create?) && (q.RevokeQueued? <==> action.RevokeAll?)
      && (q.LeftUnchanged? <==> action.Unchanged?) && (q.UpdatedIt? <==> action.Update? || action.BlockedPlan?)
  {
  }

  /** A sweep loses no row, takes out exactly what was forgotten, and queues what is left empty for deletion. */
  lemma SweepTakesOutTheForgotten(status: Status, rows: Rows, forgotten: set<ItemId>)
    ensures Swept(rows, forgotten).Keys == rows.Keys
    ensures Holds(Swept(rows, forgotten)) == Holds(rows) - forgotten
    ensures forall id :: id in rows && id !in forgotten ==> Swept(rows, forgotten)[id] == rows[id]
    ensures forall id :: id in rows && id in forgotten ==> Swept(rows, forgotten)[id] == rows[id].(state := Removing)
    ensures SweptStatus(status, rows, forgotten) == if Holds(rows) <= forgotten then RevokePending else status
  {
    var left := Holds(Swept(rows, forgotten));
    assert left == Holds(rows) - forgotten;
    if left == {} {
      forall id | id in Holds(rows) ensures id in forgotten {
        assert id in Holds(rows) - forgotten || id in forgotten;
      }
    }
  }

  ghost predicate NeedsSweep(members: seq<PlanMember>) {
    exists i :: 0 <= i < |members| && members[i].action.Remove? && members[i].reason.Forgotten?
  }

  /** The durable state of one collection key: the active row, if there is one, and its member rows. */
  class ManagedStore {
    var status: Option<Status>
    var needsSync: bool
    var rows: Rows
    var answers: seq<Outcome>

    ghost predicate Valid()
      reads this
    {
      status.None? ==> rows == map[]
    }

    constructor ()
      ensures Valid() && status.None? && rows == map[]
    {
      status, needsSync, rows, answers := None, false, map[], [];
    }

    /** The connection may fail on any statement. */
    method Query() returns (ok: bool)
      modifies this`answers
      ensures old(answers) == [] ==> ok && answers == []
      ensures old(answers) != [] ==> answers == old(answers)[1..] && (ok <==> old(answers)[0].Done?)
    {
      if answers == [] { return true; }
      ok := answers[0].Done?;
      answers := answers[1..];
    }

    /** Queue every held record the catalog has erased. A failure is counted and changes nothing. */
    method SweepForgotten(forgotten: set<ItemId>) returns (ok: bool)
      requires Valid()
      modifies this
      ensures Valid()
      ensures old(answers) == [] ==> ok && answers == []
      ensures !ok || old(status).None? ==> rows == old(rows) && status == old(status) && needsSync == old(needsSync)
      ensures ok && old(status) == Some(RevokePending) ==> rows == old(rows) && status == old(status)
      ensures ok && old(status) == Some(RevokePending) ==> needsSync == old(needsSync)
      ensures ok && old(status).Some? && old(status).value != RevokePending ==>
        && rows == Swept(old(rows), forgotten)
        && status == Some(SweptStatus(old(status).value, old(rows), forgotten))
        && (needsSync <==> old(needsSync) || Leaving(rows) || Holds(rows) == {})
    {
      ok := Query();
      if !ok || status.None? || status == Some(RevokePending) { return; }
      var was := rows;
      rows := Swept(was, forgotten);
      status := Some(SweptStatus(status.value, was, forgotten));
      needsSync := needsSync || Leaving(rows) || Holds(rows) == {};
    }

    method HasForgotten(members: seq<PlanMember>) returns (found: bool)
      ensures found <==> NeedsSweep(members)
    {
      for i := 0 to |members|
        invariant forall k :: 0 <= k < i ==> !(members[k].action.Remove? && members[k].reason.Forgotten?)
      {
        if members[i].action.Remove? && members[i].reason.Forgotten? { return true; }
      }
      return false;
    }

    /**
     Write the plan. The transaction commits whole or leaves the rows as the sweep left them. When every
     statement works, a sync plan leaves exactly the plan's records held, and a revocation leaves none.
     A sync plan takes over the row that is there without changing its status, so it ends queued for revocation,
     whatever it put in, exactly when it already was, or when the sweep left nothing of it.
     */
    method QueueCollectionPlan(plan: Plan, forgotten: set<ItemId>) returns (queued: QueueAction, members: nat, failures: nat)
      requires Valid()
      modifies this
      ensures Valid()
      ensures (queued.Threw? || (failures > 0 && queued.NothingQueued?)) && !NeedsSweep(plan.members) ==>
        rows == old(rows) && status == old(status) && needsSync == old(needsSync)
      ensures Wrote(queued) && plan.mode.Sync? ==>
        && Holds(rows) == IntendedBy(plan.members) && members == |IntendedBy(plan.members)| && needsSync
        && (!NeedsSweep(plan.members) ==> rows == SetMembers(old(rows), IntendedBy(plan.members)))
      ensures Wrote(queued) && plan.mode.Revoke? ==>
        Holds(rows) == {} && status == Some(RevokePending) && members == 0
      ensures Wrote(queued) && plan.mode.Sync? ==> queued == QueuedAs(plan.action)
      ensures Wrote(queued) && plan.mode.Revoke? ==> queued == RevokeQueued
      ensures !Wrote(queued) ==> members == 0 && (rows == old(rows) || rows == Swept(old(rows), forgotten))
      ensures Wrote(queued) && plan.mode.Sync? && !NeedsSweep(plan.members) ==>
        status == if old(status).None? then Some(Planned) else old(status)
      ensures old(answers) == [] && plan.mode.Sync? && !plan.action.BlockedPlan? ==>
        (status == Some(RevokePending) <==>
          || old(status) == Some(RevokePending)
          || (old(status).Some? && NeedsSweep(plan.members) && Holds(Swept(old(rows), forgotten)) == {}))
      ensures old(answers) == [] ==> failures == 0 && !queued.Threw?
      ensures old(answers) == [] && plan.mode.Sync? ==> (queued.NothingQueued? <==> plan.action.BlockedPlan?)
      ensures old(answers) == [] && plan.mode.Revoke? && !plan.action.BlockedPlan? ==>
        (queued.NothingQueued? <==> old(status).None?)
    {
      hide SetMembers, Swept, Holds, Leaving, NeedsSweep, IntendedBy;
      failures, queued, members := 0, NothingQueued, 0;
      var intended := IntendedBy(plan.members);
      var sweep := HasForgotten(plan.members);
      if sweep {
        var ok := SweepForgotten(forgotten);
        if !ok { failures := failures + 1; }
      }
      if plan.action.BlockedPlan? { return; }

      var ok := Query();
      if !ok { return Threw, 0, failures; }
      if plan.mode.Revoke? {
        var found;
        found, ok := WriteRevocation();
        if ok && !found { return; }
        queued := RevokeQueued;
      } else {
        ok := WriteMembership(intended);
        queued, members := QueuedAs(plan.action), |intended|;
      }
      if !ok {
        queued, members, failures := NothingQueued, 0, failures + 1;
      }
    }

    /** One transaction: take over or insert the row, and make its intended membership exactly these records. */
    method WriteMembership(intended: set<ItemId>) returns (ok: bool)
      requires Valid()
      modifies this
      ensures Valid()
      ensures !ok ==> rows == old(rows) && status == old(status) && needsSync == old(needsSync)
      ensures ok ==> rows == SetMembers(old(rows), intended) && Holds(rows) == intended && needsSync
      ensures ok ==> status == if old(status).None? then Some(Planned) else old(status)
      ensures old(answers) == [] ==> ok && answers == []
    {
      var statusBefore, rowsBefore, needsSyncBefore := status, rows, needsSync;
      ok := Query();
      if ok {
        if status.None? { status := Some(Planned); }
        needsSync := true;
        ok := Query();
      }
      if ok {
        SetMembersHoldsExactly(rows, intended);
        rows := SetMembers(rows, intended);
        ok := Query();
      }
      if !ok { status, rows, needsSync := statusBefore, rowsBefore, needsSyncBefore; }
    }

    /** One transaction: empty the membership of the row that is there, if one is, and queue it for deletion. */
    method WriteRevocation() returns (found: bool, ok: bool)
      requires Valid()
      modifies this
      ensures Valid()
      ensures !ok || !found ==> rows == old(rows) && status == old(status) && needsSync == old(needsSync)
      ensures ok ==> found == old(status).Some?
      ensures ok && found ==> rows == SetMembers(old(rows), {}) && Holds(rows) == {} && status == Some(RevokePending)
      ensures old(answers) == [] ==> ok && answers == []
    {
      var statusBefore, rowsBefore, needsSyncBefore := status, rows, needsSync;
      found := status.Some?;
      ok := Query();
      if ok && !found {
        ok := Query();
        return;
      }
      if ok { ok := Query(); }
      if ok {
        SetMembersHoldsExactly(rows, {});
        rows, needsSync := SetMembers(rows, {}), true;
        ok := Query();
      }
      if ok {
        status := Some(RevokePending);
        ok := Query();
      }
      if !ok { status, rows, needsSync := statusBefore, rowsBefore, needsSyncBefore; }
    }
  }

  /**
   An input on which that goes wrong: the one record of a published collection was forgotten, and the selection
   now names another, readable one. The plan puts it in, and the sweep has queued the collection for deletion.
   */
  lemma ReplacingAForgottenRecordIsRevoked(a: ItemId, b: ItemId, identity: Identity)
    requires Less(a, b) && identity.refs != []
    ensures
      var catalog, rows: Rows := map[b := identity], map[a := Row(Intended, true)];
      var members := [Decide(catalog, rows, Sync, {b}, a), Decide(catalog, rows, Sync, {b}, b)];
      && IsPlan(members, catalog, rows, Sync, {b}) && NeedsSweep(members)
      && IntendedBy(members) == {b}
      && SweptStatus(Published, rows, {a}) == RevokePending
  {
    LessIsTotal(a, b);
    var catalog, rows: Rows := map[b := identity], map[a := Row(Intended, true)];
    var members := [Decide(catalog, rows, Sync, {b}, a), Decide(catalog, rows, Sync, {b}, b)];
    assert members[0].itemId == a && members[1].itemId == b;
    assert Ids(members) == [a, b];
    assert members[0].action.Remove? && members[0].reason.Forgotten?;
    assert PutsIn(members[1]) && !PutsIn(members[0]);
    assert Swept(rows, {a})[a].state.Removing?;
  }

  // ---------------------------------------------------------------------------------------------------
  // What the plan digest commits to
  // ---------------------------------------------------------------------------------------------------

  function ModeText(m: Mode): string {
    match m case Sync => "sync" case Revoke => "revoke"
  }

  function MemberActionText(a: MemberAction): string {
    match a case Add => "add" case Keep => "keep" case Remove => "remove" case Blocked => "blocked"
  }

  function MemberReasonText(r: MemberReason): string {
    match r
    case NotAMember => "NOT_A_MEMBER"
    case AlreadyMember => "ALREADY_MEMBER"
    case Restored => "RESTORED"
    case Deselected => "DESELECTED"
    case PendingRemoval => "PENDING_REMOVAL"
    case Forgotten => "FORGOTTEN"
    case NoProviderRefs => "NO_PROVIDER_REFS"
    case UnreadableRecord => "UNREADABLE"
    case Revoking => "REVOKING"
  }

  function CollectionActionText(a: CollectionAction): string {
    match a
    case Create => "create"
    case Update => "update"
    case Unchanged => "unchanged"
    case RevokeAll => "revoke"
    case BlockedPlan => "blocked"
  }

  function CollectionReasonText(r: CollectionReason): string {
    match r
    case AbsentCollection => "ABSENT"
    case MembershipDiffers => "MEMBERSHIP_DIFFERS"
    case Unsettled => "UNSETTLED"
    case InSync => "IN_SYNC"
    case NoMembers => "NO_MEMBERS"
    case Emptied => "EMPTIED"
    case OperatorRevoke => "OPERATOR_REVOKE"
  }

  lemma TextsTellActions(a: MemberAction, b: MemberAction, m: Mode, n: Mode)
    ensures MemberActionText(a) == MemberActionText(b) ==> a == b
    ensures ModeText(m) == ModeText(n) ==> m == n
  {
    assert "add"[0] == 'a' && "keep"[0] == 'k' && "remove"[0] == 'r' && "blocked"[0] == 'b';
    assert "sync"[0] == 's' && "revoke"[0] == 'r';
  }

  lemma TextsTellReasons(a: MemberReason, b: MemberReason)
    ensures MemberReasonText(a) == MemberReasonText(b) ==> a == b
  {
    assert |"NOT_A_MEMBER"| == 12 && |"ALREADY_MEMBER"| == 14 && |"RESTORED"| == 8 && |"DESELECTED"| == 10;
    assert |"PENDING_REMOVAL"| == 15 && |"FORGOTTEN"| == 9 && |"NO_PROVIDER_REFS"| == 16;
    assert |"UNREADABLE"| == 10 && |"REVOKING"| == 8;
    assert "RESTORED"[2] == 'S' && "REVOKING"[2] == 'V' && "DESELECTED"[0] == 'D' && "UNREADABLE"[0] == 'U';
  }

  lemma TextsTellCollectionReasons(a: CollectionReason, b: CollectionReason)
    ensures CollectionReasonText(a) == CollectionReasonText(b) ==> a == b
  {
    assert "ABSENT"[0] == 'A' && "MEMBERSHIP_DIFFERS"[0] == 'M' && "UNSETTLED"[0] == 'U' && "IN_SYNC"[0] == 'I';
    assert "NO_MEMBERS"[0] == 'N' && "EMPTIED"[0] == 'E' && "OPERATOR_REVOKE"[0] == 'O';
  }

  lemma TextsTellCollectionActions(a: CollectionAction, b: CollectionAction)
    ensures CollectionActionText(a) == CollectionActionText(b) ==> a == b
  {
    assert "create"[0] == 'c' && "update"[0] == 'u' && "unchanged"[0] == 'u' && "revoke"[0] == 'r' && "blocked"[0] == 'b';
    assert "update"[1] == 'p' && "unchanged"[1] == 'n';
  }

  /** A record of string fields, in the order given. */
  function Record(keys: seq<string>, values: seq<Value>): Value
    requires |keys| == |values|
  {
    Rec(seq(|keys|, i requires 0 <= i < |keys| => Field(keys[i], Some(values[i]))))
  }

  ghost predicate Distinct(keys: seq<string>) {
    forall i, k :: 0 <= i < k < |keys| ==> keys[i] != keys[k]
  }

  /** Records over the same distinct keys have one text only when their values do. */
  lemma RecordTextTellsValues(keys: seq<string>, a: seq<Value>, b: seq<Value>, i: nat)
    requires Distinct(keys) && |keys| == |a| == |b| && i < |keys|
    requires Canonical(Record(keys, a)) == Canonical(Record(keys, b))
    ensures Same(a[i], b[i])
  {
    hide Canonical, Same;
    var f, g := Record(keys, a).fields, Record(keys, b).fields;
    SameTextSameValue(Rec(f), Rec(g));
    assert f[i] == Field(keys[i], Some(a[i])) && g[i] == Field(keys[i], Some(b[i]));
    var k := FieldOfSameRecord(f, g, i);
    assert g[k] == Field(keys[k], Some(b[k]));
    assert k == i;
  }

  lemma RecordTextTellsString(keys: seq<string>, a: seq<Value>, b: seq<Value>, i: nat, s: string, t: string)
    requires Distinct(keys) && |keys| == |a| == |b| && i < |keys| && a[i] == Str(s) && b[i] == Str(t)
    requires Canonical(Record(keys, a)) == Canonical(Record(keys, b))
    ensures s == t
  {
    hide Canonical, Same;
    RecordTextTellsValues(keys, a, b, i);
    SameStringsAreEqual(s, t);
  }

  const MEMBER_KEYS := ["itemId", "action", "reason"]

  function MemberText(m: PlanMember): string {
    Canonical(Record(MEMBER_KEYS, MemberValues(m)))
  }

  function MemberValues(m: PlanMember): seq<Value> {
    [Str(m.itemId), Str(MemberActionText(m.action)), Str(MemberReasonText(m.reason))]
  }

  lemma MemberTextIsExact(m: PlanMember, n: PlanMember)
    ensures MemberText(m) == MemberText(n) <==> m == n
  {
    hide Canonical, Same, Record;
    assert |MEMBER_KEYS| == 3 && MEMBER_KEYS[0][0] == 'i' && MEMBER_KEYS[1][0] == 'a' && MEMBER_KEYS[2][0] == 'r';
    assert Distinct(MEMBER_KEYS);
    if MemberText(m) == MemberText(n) {
      var a, b := MemberValues(m), MemberValues(n);
      RecordTextTellsString(MEMBER_KEYS, a, b, 0, m.itemId, n.itemId);
      RecordTextTellsString(MEMBER_KEYS, a, b, 1, MemberActionText(m.action), MemberActionText(n.action));
      RecordTextTellsString(MEMBER_KEYS, a, b, 2, MemberReasonText(m.reason), MemberReasonText(n.reason));
      TextsTellActions(m.action, n.action, Sync, Sync);
      TextsTellReasons(m.reason, n.reason);
    }
  }

  function MemberTexts(members: seq<PlanMember>): seq<Value> {
    seq(|members|, i requires 0 <= i < |members| => Str(MemberText(members[i])))
  }

  const COLLECTION_KEYS := ["action", "reason"]

  function CollectionValues(a: CollectionAction, r: CollectionReason): seq<Value> {
    [Str(CollectionActionText(a)), Str(CollectionReasonText(r))]
  }

  function CollectionText(a: CollectionAction, r: CollectionReason): string {
    Canonical(Record(COLLECTION_KEYS, CollectionValues(a, r)))
  }

  lemma CollectionKeysDiffer()
    ensures |COLLECTION_KEYS| == 2 && Distinct(COLLECTION_KEYS)
  {
    assert COLLECTION_KEYS[0][0] == 'a' && COLLECTION_KEYS[1][0] == 'r';
  }

  lemma CollectionTextIsExact(a: CollectionAction, r: CollectionReason, b: CollectionAction, s: CollectionReason)
    ensures CollectionText(a, r) == CollectionText(b, s) <==> a == b && r == s
  {
    hide Canonical, Same, Record, CollectionActionText, CollectionReasonText, Distinct;
    CollectionKeysDiffer();
    if CollectionText(a, r) == CollectionText(b, s) {
      var x, y := CollectionValues(a, r), CollectionValues(b, s);
      RecordTextTellsString(COLLECTION_KEYS, x, y, 0, CollectionActionText(a), CollectionActionText(b));
      RecordTextTellsString(COLLECTION_KEYS, x, y, 1, CollectionReasonText(r), CollectionReasonText(s));
      TextsTellCollectionActions(a, b);
      TextsTellCollectionReasons(r, s);
    }
  }

  const PLAN_KEYS := ["version", "target", "name", "mode", "collectionKey", "collection", "members"]

  function PlanValues(p: Plan): seq<Value> {
    [Int(2), Str("jellyfin"), Str(p.name), Str(ModeText(p.mode)), Str(p.collectionKey),
     Str(CollectionText(p.action, p.reason)), Arr(MemberTexts(p.members))]
  }

  /** What is hashed into the digest an operator confirms. */
  function PlanPreimage(p: Plan): string {
    Preimage("plan", Canonical(Record(PLAN_KEYS, PlanValues(p))))
  }

  lemma PlanKeysAreDistinct()
    ensures Distinct(PLAN_KEYS) && |PLAN_KEYS| == 7
  {
    assert PLAN_KEYS[0][0] == 'v' && PLAN_KEYS[1][0] == 't' && PLAN_KEYS[2][0] == 'n';
    assert PLAN_KEYS[3][0] == 'm' && PLAN_KEYS[3][1] == 'o' && PLAN_KEYS[6][0] == 'm' && PLAN_KEYS[6][1] == 'e';
    assert PLAN_KEYS[4][0] == 'c' && PLAN_KEYS[5][0] == 'c' && |PLAN_KEYS[4]| == 13 && |PLAN_KEYS[5]| == 10;
  }

  /** A confirmed digest is of one plan only: plans with one preimage are the same plan in every respect it carries. */
  lemma PlanPreimageIsExact(p: Plan, q: Plan)
    ensures PlanPreimage(p) == PlanPreimage(q) <==> p == q
  {
    hide Canonical, Record, CollectionText, MemberText, Preimage;
    if PlanPreimage(p) == PlanPreimage(q) {
      var x, y := PlanValues(p), PlanValues(q);
      PreimageIsExact("plan", Canonical(Record(PLAN_KEYS, x)), "plan", Canonical(Record(PLAN_KEYS, y)));
      PlanKeysAreDistinct();
      RecordTextTellsString(PLAN_KEYS, x, y, 2, p.name, q.name);
      RecordTextTellsString(PLAN_KEYS, x, y, 3, ModeText(p.mode), ModeText(q.mode));
      RecordTextTellsString(PLAN_KEYS, x, y, 4, p.collectionKey, q.collectionKey);
      RecordTextTellsString(PLAN_KEYS, x, y, 5, CollectionText(p.action, p.reason), CollectionText(q.action, q.reason));
      RecordTextTellsValues(PLAN_KEYS, x, y, 6);
      TextsTellActions(Add, Add, p.mode, q.mode);
      CollectionTextIsExact(p.action, p.reason, q.action, q.reason);
      assert Same(Arr(MemberTexts(p.members)), Arr(MemberTexts(q.members)));
      assert |MemberTexts(p.members)| == |MemberTexts(q.members)|;
      forall i | 0 <= i < |p.members| ensures p.members[i] == q.members[i] {
        assert Same(MemberTexts(p.members)[i], MemberTexts(q.members)[i]);
        MemberTextIsExact(p.members[i], q.members[i]);
      }
    }
  }
}
