/**
 Auditing managed collections against a media server whose every call may throw, truncate or answer, and the
 repairs that may be proposed from it.
 */
module CollectionDrift {
  import opened Basics
  import CollectionPlan

  type Id = string

  datatype Status = Published | RevokePending | Unsettled

  datatype Row = Row(key: string, name: string, status: Status)

  /** How a lookup by correlation token ends. */
  datatype Lookup = LookupThrew | Found(handle: Option<string>)

  /** How resolving one intended member ends; an undisclosable record resolves to nothing, completely. */
  datatype Resolution = ResolveThrew | Undisclosed | Resolved(ids: seq<Id>, truncated: bool)

  datatype Listing = ListingThrew | Listed(ids: seq<Id>, truncated: bool)

  /** A member of a collection, and how resolving it would end. */
  datatype Member = Member(intended: bool, resolution: Resolution)

  /** Everything one audit of one collection may see. `handle` is what the record itself holds, if there is one. */
  datatype View = View(handle: Option<Option<string>>, lookup: Lookup, members: seq<Member>, listing: string -> Listing)

  datatype Verdict = Ok | UnsettledYet | MembershipDrift | ExternalMissing | RevokeOutstanding | Unknown

  datatype Reason =
    | InAgreement | NeverSettled | MembersMissing | MembersExtra | MembersBoth | DeletedExternally | AwaitingRevoke
    | LookupFailed | ListingFailed | ListingTruncated | ResolutionIncomplete | RecoveryUntrusted

  datatype Repair = NoRepair | Recreate | SyncMembers

  datatype Finding = Finding(
    key: string, name: string, verdict: Verdict, reason: Reason, expected: nat, present: Option<nat>,
    missing: Option<nat>, extra: Option<nat>, complete: bool, repair: Repair)

  /** What was read of the last recovery proof. A read that fails is taken for there being none. */
  datatype ProofRead = ProofUnreadable | Proof(recorded: Option<string>)

  predicate Trusted(p: ProofRead) {
    p.ProofUnreadable? || p.recorded.None? || p.recorded.value == "verified"
  }

  // ---------------------------------------------------------------------------------------------------
  // One collection
  // ---------------------------------------------------------------------------------------------------

  /** Nothing was learned about a member that could not be resolved whole. */
  predicate Unresolved(m: Member) {
    m.intended && (m.resolution.ResolveThrew? || (m.resolution.Resolved? && m.resolution.truncated))
  }

  function Contribution(m: Member): set<Id> {
    if m.intended && m.resolution.Resolved? && !m.resolution.truncated then set id | id in m.resolution.ids else {}
  }

  function IntendedIds(members: seq<Member>): set<Id> {
    set i, id | 0 <= i < |members| && id in Contribution(members[i]) :: id
  }

  predicate Incomplete(members: seq<Member>) {
    exists i :: 0 <= i < |members| && Unresolved(members[i])
  }

  /** The library items the readable members resolve to, and whether any could not be told. */
  method ResolveIntended(members: seq<Member>) returns (ids: set<Id>, incomplete: bool)
    ensures ids == IntendedIds(members) && incomplete == Incomplete(members)
  {
    ids, incomplete := {}, false;
    for i := 0 to |members|
      invariant ids == IntendedIds(members[..i]) && incomplete == Incomplete(members[..i])
    {
      var m := members[i];
      OneMoreMember(members, i);
      if !m.intended {
        continue;
      }
      match m.resolution {
        case ResolveThrew => incomplete := true;
        case Undisclosed =>
        case Resolved(found, truncated) =>
          if truncated {
            incomplete := true;
          } else {
            ids := ids + set id | id in found;
          }
      }
    }
    assert members[..|members|] == members;
  }

  lemma OneMoreMember(members: seq<Member>, i: nat)
    requires i < |members|
    ensures IntendedIds(members[..i + 1]) == IntendedIds(members[..i]) + Contribution(members[i])
    ensures Incomplete(members[..i + 1]) == (Incomplete(members[..i]) || Unresolved(members[i]))
  {
    var before, after := members[..i], members[..i + 1];
    assert after == before + [members[i]];
    forall id ensures id in IntendedIds(after) <==> id in IntendedIds(before) || id in Contribution(members[i]) {
      if id in IntendedIds(before) {
        var k :| 0 <= k < |before| && id in Contribution(before[k]);
        assert after[k] == before[k];
      }
      if id in Contribution(members[i]) {
        assert id in Contribution(after[i]);
      }
    }
    if Incomplete(before) {
      var k :| 0 <= k < |before| && Unresolved(before[k]);
      assert Unresolved(after[k]);
    }
    if Unresolved(members[i]) {
      assert Unresolved(after[i]);
    }
  }

  function Nothing(row: Row, verdict: Verdict, reason: Reason, complete: bool, repair: Repair): Finding {
    Finding(row.key, row.name, verdict, reason, 0, None, None, None, complete, repair)
  }

  /** The finding of one collection, in the order of what can be vouched for. */
  function Audit(row: Row, view: View, trusted: bool): Finding {
    if row.status.RevokePending? then Nothing(row, RevokeOutstanding, AwaitingRevoke, true, NoRepair)
    else if !row.status.Published? then Nothing(row, UnsettledYet, NeverSettled, true, NoRepair)
    else if view.handle.None? || view.lookup.LookupThrew? then Nothing(row, Unknown, LookupFailed, false, NoRepair)
    else if view.lookup.handle.None? then
      if !trusted then Nothing(row, Unknown, RecoveryUntrusted, false, NoRepair)
      else Nothing(row, ExternalMissing, DeletedExternally, true, Recreate)
    else
      var intended := IntendedIds(view.members);
      if Incomplete(view.members) then Nothing(row, Unknown, ResolutionIncomplete, false, NoRepair).(expected := |intended|)
      else
        match view.listing(view.lookup.handle.value)
        case ListingThrew => Nothing(row, Unknown, ListingFailed, false, NoRepair).(expected := |intended|)
        case Listed(ids, true) =>
          Nothing(row, Unknown, ListingTruncated, false, NoRepair).(expected := |intended|, present := Some(|ids|))
        case Listed(ids, false) =>
          var there := set id | id in ids;
          var missing, extra := |intended - there|, |there - intended|;
          var drifted := missing > 0 || extra > 0;
          Finding(
            row.key, row.name, if drifted then MembershipDrift else Ok,
            if missing > 0 && extra > 0 then MembersBoth else if missing > 0 then MembersMissing
            else if extra > 0 then MembersExtra else InAgreement,
            |intended|, Some(|ids|), Some(missing), Some(extra), true, if drifted then SyncMembers else NoRepair)
  }

  /** The same, asking the server only for what each step needs. */
  method AuditOne(row: Row, view: View, trusted: bool) returns (f: Finding)
    ensures f == Audit(row, view, trusted)
  {
    if row.status.RevokePending? {
      return Nothing(row, RevokeOutstanding, AwaitingRevoke, true, NoRepair);
    }
    if !row.status.Published? {
      return Nothing(row, UnsettledYet, NeverSettled, true, NoRepair);
    }
    if view.handle.None? {
      return Nothing(row, Unknown, LookupFailed, false, NoRepair);
    }
    // Held or not, a handle is only good for as long as the token still finds something.
    var handle := view.handle.value;
    match view.lookup {
      case LookupThrew => return Nothing(row, Unknown, LookupFailed, false, NoRepair);
      case Found(found) => handle := found;
    }
    if handle.None? {
      if !trusted {
        return Nothing(row, Unknown, RecoveryUntrusted, false, NoRepair);
      }
      return Nothing(row, ExternalMissing, DeletedExternally, true, Recreate);
    }
    var intended, incomplete := ResolveIntended(view.members);
    if incomplete {
      return Nothing(row, Unknown, ResolutionIncomplete, false, NoRepair).(expected := |intended|);
    }
    match view.listing(handle.value) {
      case ListingThrew =>
        f := Nothing(row, Unknown, ListingFailed, false, NoRepair).(expected := |intended|);
      case Listed(ids, truncated) =>
        if truncated {
          return Nothing(row, Unknown, ListingTruncated, false, NoRepair).(expected := |intended|, present := Some(|ids|));
        }
        var there := set id | id in ids;
        var missing, extra := |intended - there|, |there - intended|;
        var reason := if missing > 0 && extra > 0 then MembersBoth
          else if missing > 0 then MembersMissing else if extra > 0 then MembersExtra else InAgreement;
        var drifted := missing > 0 || extra > 0;
        f := Finding(
          row.key, row.name, if drifted then MembershipDrift else Ok, reason, |intended|, Some(|ids|), Some(missing),
          Some(extra), true, if drifted then SyncMembers else NoRepair);
    }
  }

  // ---------------------------------------------------------------------------------------------------
  // What a finding means
  // ---------------------------------------------------------------------------------------------------

  /** The token was looked up and the server answered that nothing carries it. */
  predicate ProvablyAbsent(view: View) {
    view.handle.Some? && view.lookup == Found(None)
  }

  /** Everything a membership comparison needs was read, whole. */
  predicate SeenWhole(view: View) {
    && view.handle.Some? && view.lookup.Found? && view.lookup.handle.Some?
    && !Incomplete(view.members)
    && view.listing(view.lookup.handle.value).Listed? && !view.listing(view.lookup.handle.value).truncated
  }

  function There(view: View): set<Id>
    requires SeenWhole(view)
  {
    set id | id in view.listing(view.lookup.handle.value).ids
  }

  /** Recreating is proposed exactly for a published collection the server says is gone, while that is believed. */
  lemma RecreateExactlyWhen(row: Row, view: View, trusted: bool)
    ensures Audit(row, view, trusted).repair.Recreate? <==> row.status.Published? && ProvablyAbsent(view) && trusted
  {
  }

  lemma NoneMissing(a: set<Id>, b: set<Id>)
    ensures |a - b| == 0 <==> a <= b
  {
    if |a - b| == 0 {
      assert a - b == {};
      assert forall x :: x in a && x !in b ==> x in a - b;
    }
    if a <= b {
      assert a - b == {};
    }
  }

  /** A sync is proposed exactly when everything was seen and the two sides differ, with the exact differences. */
  lemma SyncExactlyWhen(row: Row, view: View, trusted: bool)
    ensures Audit(row, view, trusted).repair.SyncMembers?
      <==> row.status.Published? && SeenWhole(view) && IntendedIds(view.members) != There(view)
    ensures row.status.Published? && SeenWhole(view) ==>
      var f := Audit(row, view, trusted);
      && f.missing == Some(|IntendedIds(view.members) - There(view)|)
      && f.extra == Some(|There(view) - IntendedIds(view.members)|)
      && (f.verdict.Ok? <==> IntendedIds(view.members) == There(view))
  {
    hide IntendedIds, Incomplete;
    if SeenWhole(view) {
      NoneMissing(IntendedIds(view.members), There(view));
      NoneMissing(There(view), IntendedIds(view.members));
    }
  }

  /** Whatever could not be read is unknown, and what is unknown is never repaired. */
  lemma UnreadIsUnknown(row: Row, view: View, trusted: bool)
    ensures
      var f := Audit(row, view, trusted);
      && (f.verdict.Unknown? <==> row.status.Published? && !SeenWhole(view) && !(ProvablyAbsent(view) && trusted))
      && (f.verdict.Unknown? <==> !f.complete)
      && (!f.complete ==> f.repair.NoRepair? && f.missing.None? && f.extra.None?)
  {
    hide IntendedIds, Incomplete;
  }

  /**
   The recovery proof is the one read whose failure is not unknown: a recreate is proposed although the recorded
   proof is broken exactly when reading the proof failed.
   */
  lemma AnUnreadableProofIsTrusted(row: Row, view: View, proof: ProofRead, recorded: Option<string>)
    requires proof == ProofUnreadable || proof == Proof(recorded)
    requires recorded.Some? && recorded.value != "verified"
    ensures Audit(row, view, Trusted(proof)).repair.Recreate?
      <==> row.status.Published? && ProvablyAbsent(view) && proof.ProofUnreadable?
  {
    RecreateExactlyWhen(row, view, Trusted(proof));
  }

  /** The member is intended, and the item is among those it was resolved to, whole. */
  predicate ResolvedTo(m: Member, id: Id) {
    m.intended && m.resolution.Resolved? && !m.resolution.truncated && id in m.resolution.ids
  }

  /** What the members resolve to: exactly the items of those intended members that were resolved whole. */
  lemma IntendedIdsAre(members: seq<Member>, id: Id)
    ensures id in IntendedIds(members) <==>
      exists i :: 0 <= i < |members| && ResolvedTo(members[i], id)
  {
    if i :| 0 <= i < |members| && ResolvedTo(members[i], id) {
      assert id in Contribution(members[i]);
    }
    if i :| 0 <= i < |members| && id in Contribution(members[i]) {
      assert ResolvedTo(members[i], id);
    }
  }

  /** The token was found on the server, and the collection it stands for can be compared. */
  predicate Located(row: Row, view: View) {
    row.status.Published? && view.handle.Some? && view.lookup.Found? && view.lookup.handle.Some?
  }

  /** Every finding is about its own row, and gives the one reason that holds. */
  lemma EachFindingHolds(row: Row, view: View, trusted: bool)
    ensures
      var f := Audit(row, view, trusted);
      var listing := if Located(row, view) then view.listing(view.lookup.handle.value) else ListingThrew;
      var comparable := Located(row, view) && !Incomplete(view.members);
      && f.key == row.key && f.name == row.name
      && (f.verdict.RevokeOutstanding? <==> row.status.RevokePending?)
      && (f.verdict.UnsettledYet? <==> row.status.Unsettled?)
      && (f.verdict.ExternalMissing? <==> row.status.Published? && ProvablyAbsent(view) && trusted)
      && (f.reason.AwaitingRevoke? <==> row.status.RevokePending?)
      && (f.reason.NeverSettled? <==> row.status.Unsettled?)
      && (f.reason.LookupFailed? <==> row.status.Published? && (view.handle.None? || view.lookup.LookupThrew?))
      && (f.reason.RecoveryUntrusted? <==> row.status.Published? && ProvablyAbsent(view) && !trusted)
      && (f.reason.DeletedExternally? <==> row.status.Published? && ProvablyAbsent(view) && trusted)
      && (f.reason.ResolutionIncomplete? <==> Located(row, view) && Incomplete(view.members))
      && (f.reason.ListingFailed? <==> comparable && listing.ListingThrew?)
      && (f.reason.ListingTruncated? <==> comparable && listing.Listed? && listing.truncated)
      && f.expected == (if Located(row, view) then |IntendedIds(view.members)| else 0)
      && f.present == (if comparable && listing.Listed? then Some(|listing.ids|) else None)
      && (f.complete <==> !f.verdict.Unknown?)
  {
    hide IntendedIds, Incomplete;
  }

  /** And of a collection seen whole, which way the two sides differ. */
  lemma EachDifferenceIsNamed(row: Row, view: View, trusted: bool)
    requires row.status.Published? && SeenWhole(view)
    ensures
      var f := Audit(row, view, trusted);
      var intended, there := IntendedIds(view.members), There(view);
      && (f.reason.InAgreement? <==> intended == there)
      && (f.reason.MembersMissing? <==> there < intended)
      && (f.reason.MembersExtra? <==> intended < there)
      && (f.reason.MembersBoth? <==> !(intended <= there) && !(there <= intended))
      && (f.verdict.MembershipDrift? <==> intended != there)
  {
    hide IntendedIds, Incomplete;
    NoneMissing(IntendedIds(view.members), There(view));
    NoneMissing(There(view), IntendedIds(view.members));
  }

  // ---------------------------------------------------------------------------------------------------
  // The repair plan
  // ---------------------------------------------------------------------------------------------------

  datatype Action = Action(key: string, name: string, repair: Repair, reason: Reason)

  predicate Repairable(f: Finding) {
    !f.repair.NoRepair? && f.complete
  }

  function ActionOf(f: Finding): Action {
    Action(f.key, f.name, f.repair, f.reason)
  }

  function Keys(actions: seq<Action>): seq<string> {
    seq(|actions|, i requires 0 <= i < |actions| => actions[i].key)
  }

  ghost predicate DistinctKeys(findings: seq<Finding>) {
    forall i, k :: 0 <= i < |findings| && 0 <= k < |findings| && findings[i].key == findings[k].key ==> i == k
  }

  /** A repair plan: one action for each repairable finding and no other, in the order of their keys. */
  ghost predicate IsRepairPlan(actions: seq<Action>, findings: seq<Finding>) {
    && CollectionPlan.Ascending(Keys(actions))
    && (forall a :: a in actions ==> exists f :: f in findings && Repairable(f) && a == ActionOf(f))
    && (forall f :: f in findings && Repairable(f) ==> ActionOf(f) in actions)
  }

  function Repairs(findings: seq<Finding>): seq<Finding> {
    if findings == [] then []
    else Repairs(findings[..|findings| - 1]) + if Repairable(findings[|findings| - 1]) then [findings[|findings| - 1]] else []
  }

  lemma {:induction false} RepairsAre(findings: seq<Finding>)
    ensures forall f :: f in Repairs(findings) <==> f in findings && Repairable(f)
  {
    if findings != [] {
      var last := |findings| - 1;
      RepairsAre(findings[..last]);
      assert findings == findings[..last] + [findings[last]];
    }
  }

  function WithKey(findings: seq<Finding>, key: string): (f: Finding)
    requires exists i :: 0 <= i < |findings| && findings[i].key == key
    ensures f in findings && f.key == key
  {
    if findings[0].key == key then findings[0]
    else
      assert exists i :: 0 <= i < |findings[1..]| && findings[1..][i].key == key by {
        var i :| 0 <= i < |findings| && findings[i].key == key;
        assert findings[1..][i - 1].key == key;
      }
      WithKey(findings[1..], key)
  }

  /** The action repairs a finding with this key. */
  ghost predicate RepairOf(findings: seq<Finding>, a: Action, key: string) {
    exists f :: f in findings && Repairable(f) && a == ActionOf(f) && f.key == key
  }

  lemma KeysOfRepairs(findings: seq<Finding>, repairs: seq<Finding>, keys: seq<string>)
    requires |keys| == |repairs| && forall i :: 0 <= i < |keys| ==> keys[i] == repairs[i].key
    requires forall f :: f in repairs <==> f in findings && Repairable(f)
    ensures forall f :: f in findings && Repairable(f) ==> f.key in keys
    ensures forall key :: key in keys ==> exists i :: 0 <= i < |repairs| && repairs[i].key == key
  {
    forall f | f in findings && Repairable(f) ensures f.key in keys {
      var j :| 0 <= j < |repairs| && repairs[j] == f;
      assert keys[j] == f.key;
    }
    forall key | key in keys ensures exists i :: 0 <= i < |repairs| && repairs[i].key == key {
      var j :| 0 <= j < |keys| && keys[j] == key;
      assert repairs[j].key == key;
    }
  }

  /** One action per repairable complete finding, in key order. */
  method BuildRepairPlan(findings: seq<Finding>) returns (actions: seq<Action>)
    requires DistinctKeys(findings)
    ensures IsRepairPlan(actions, findings)
  {
    hide DistinctKeys, Repairable, IsRepairPlan, RepairOf, CollectionPlan.Ascending;
    var repairs := Repairs(findings);
    RepairsAre(findings);
    var keys := seq(|repairs|, i requires 0 <= i < |repairs| => repairs[i].key);
    KeysOfRepairs(findings, repairs, keys);
    var sorted := CollectionPlan.SortIds(keys);
    actions := [];
    for i := 0 to |sorted|
      invariant Keys(actions) == sorted[..i]
      invariant |actions| == i && forall k :: 0 <= k < i ==> RepairOf(findings, actions[k], sorted[k])
    {
      assert sorted[i] in keys;
      var f := WithKey(repairs, sorted[i]);
      IsRepairOf(findings, f);
      actions := actions + [ActionOf(f)];
      assert sorted[..i + 1] == sorted[..i] + [sorted[i]];
    }
    assert sorted[..|sorted|] == sorted;
    BuiltIsRepairPlan(findings, sorted, actions);
  }

  lemma IsRepairOf(findings: seq<Finding>, f: Finding)
    requires f in findings && Repairable(f)
    ensures RepairOf(findings, ActionOf(f), f.key)
  {
  }

  lemma BuiltIsRepairPlan(findings: seq<Finding>, sorted: seq<string>, actions: seq<Action>)
    requires DistinctKeys(findings) && |actions| == |sorted| && Keys(actions) == sorted && CollectionPlan.Ascending(sorted)
    requires forall k :: 0 <= k < |sorted| ==> RepairOf(findings, actions[k], sorted[k])
    requires forall f :: f in findings && Repairable(f) ==> f.key in sorted
    ensures IsRepairPlan(actions, findings)
  {
    hide DistinctKeys, Repairable, ActionOf, CollectionPlan.Ascending;
    EveryRepairIsPlanned(findings, sorted, actions);
    forall a | a in actions ensures exists f :: f in findings && Repairable(f) && a == ActionOf(f) {
      var k :| 0 <= k < |actions| && actions[k] == a;
      assert RepairOf(findings, actions[k], sorted[k]);
    }
  }

  lemma EveryRepairIsPlanned(findings: seq<Finding>, sorted: seq<string>, actions: seq<Action>)
    requires DistinctKeys(findings) && |actions| == |sorted|
    requires forall k :: 0 <= k < |sorted| ==> RepairOf(findings, actions[k], sorted[k])
    requires forall f :: f in findings && Repairable(f) ==> f.key in sorted
    ensures forall f :: f in findings && Repairable(f) ==> ActionOf(f) in actions
  {
    hide DistinctKeys, Repairable, ActionOf;
    forall f | f in findings && Repairable(f) ensures ActionOf(f) in actions {
      var k :| 0 <= k < |sorted| && sorted[k] == f.key;
      var g :| g in findings && Repairable(g) && actions[k] == ActionOf(g) && g.key == sorted[k];
      SameKeySameFinding(findings, f, g);
    }
  }

  lemma SameKeySameFinding(findings: seq<Finding>, f: Finding, g: Finding)
    requires DistinctKeys(findings) && f in findings && g in findings && f.key == g.key
    ensures f == g
  {
    var i :| 0 <= i < |findings| && findings[i] == f;
    var k :| 0 <= k < |findings| && findings[k] == g;
    assert i == k;
  }

  /** The plan depends on the findings as a set: listing the collections in another order gives the same plan. */
  lemma RepairPlanHasNoOrder(a: seq<Finding>, b: seq<Finding>, p: seq<Action>, q: seq<Action>)
    requires DistinctKeys(a) && DistinctKeys(b) && forall f :: f in a <==> f in b
    requires IsRepairPlan(p, a) && IsRepairPlan(q, b)
    ensures p == q
  {
    SameActions(a, b, p, q);
    KeysOfSameActions(p, q);
    CollectionPlan.AscendingIsUnique(Keys(p), Keys(q));
    assert |p| == |Keys(p)| == |Keys(q)| == |q|;
    forall i | 0 <= i < |p| ensures p[i] == q[i] {
      assert p[i] in q;
      assert Keys(p)[i] == p[i].key && Keys(q)[i] == q[i].key;
      var f :| f in a && Repairable(f) && p[i] == ActionOf(f);
      assert q[i] in q;
      var g :| g in b && Repairable(g) && q[i] == ActionOf(g);
      SameKeySameFinding(a, f, g);
    }
  }

  lemma SameActions(a: seq<Finding>, b: seq<Finding>, p: seq<Action>, q: seq<Action>)
    requires (forall f :: f in a <==> f in b) && IsRepairPlan(p, a) && IsRepairPlan(q, b)
    ensures forall x :: x in p <==> x in q
  {
  }

  lemma KeysOfSameActions(p: seq<Action>, q: seq<Action>)
    requires forall x :: x in p <==> x in q
    ensures forall k :: k in Keys(p) <==> k in Keys(q)
  {
    forall k | k in Keys(p) ensures k in Keys(q) {
      var i :| 0 <= i < |p| && Keys(p)[i] == k;
      assert p[i] in q;
      var j :| 0 <= j < |q| && q[j] == p[i];
      assert Keys(q)[j] == k;
    }
    forall k | k in Keys(q) ensures k in Keys(p) {
      var i :| 0 <= i < |q| && Keys(q)[i] == k;
      assert q[i] in p;
      var j :| 0 <= j < |p| && p[j] == q[i];
      assert Keys(p)[j] == k;
    }
  }

  // ---------------------------------------------------------------------------------------------------
  // Applying a plan
  // ---------------------------------------------------------------------------------------------------

  /** How one action goes: no connection, no row any more, refused or applied by its guard, and whether it commits. */
  datatype Attempt = NoConnection | NoRow(commits: bool) | Guarded(applies: bool, commits: bool) | StatementThrew

  datatype Tally = Tally(rearmed: nat, scheduled: nat, failed: nat)

  /** What is durable of one action afterwards. */
  predicate Landed(a: Attempt) {
    a.Guarded? && a.applies && a.commits
  }

  /** No connection was refused before the action at `i`. */
  ghost predicate Connected(attempts: seq<Attempt>, i: nat)
    requires i <= |attempts|
  {
    forall k :: 0 <= k < i ==> !attempts[k].NoConnection?
  }

  /** Actions counted twice: counted by what their guard said, and again because the commit then failed. */
  function CountedTwice(attempts: seq<Attempt>): nat {
    if attempts == [] then 0
    else
      var last := attempts[|attempts| - 1];
      CountedTwice(attempts[..|attempts| - 1]) + if last.Guarded? && !last.commits then 1 else 0
  }

  /** How many actions of one kind their guard let through. */
  function Applied(actions: seq<Action>, attempts: seq<Attempt>, repair: Repair): nat
    requires |actions| == |attempts|
  {
    if actions == [] then 0
    else
      var last := |actions| - 1;
      Applied(actions[..last], attempts[..last], repair)
      + if actions[last].repair == repair && attempts[last].Guarded? && attempts[last].applies then 1 else 0
  }

  /**
   Apply a plan, one transaction an action, and answer the actions that are durable. When no connection is ever
   refused the three counts add up to the plan, plus one for every action whose guard answered and whose commit
   then failed; what is counted as re-armed or scheduled is what a guard let through, committed or not. The first
   connection that is refused is thrown to the caller: the counts are lost, and what came before it stays.
   */
  method ApplyRepair(actions: seq<Action>, attempts: seq<Attempt>) returns (tally: Option<Tally>, landed: seq<Action>)
    requires |attempts| == |actions| && forall a :: a in actions ==> !a.repair.NoRepair?
    ensures tally.None? <==> exists i :: 0 <= i < |attempts| && attempts[i].NoConnection?
    ensures tally.Some? ==>
      var t := tally.value;
      && t.rearmed == Applied(actions, attempts, Recreate) && t.scheduled == Applied(actions, attempts, SyncMembers)
      && t.rearmed + t.scheduled + t.failed == |actions| + CountedTwice(attempts)
    ensures forall a :: a in landed ==> exists i :: 0 <= i < |actions| && actions[i] == a && attempts[i] == Guarded(true, true)
    ensures forall i :: 0 <= i < |actions| && Connected(attempts, i) && attempts[i] == Guarded(true, true) ==>
      actions[i] in landed
  {
    var t := Tally(0, 0, 0);
    landed := [];
    for i := 0 to |actions|
      invariant Connected(attempts, i)
      invariant t.rearmed == Applied(actions[..i], attempts[..i], Recreate)
      invariant t.scheduled == Applied(actions[..i], attempts[..i], SyncMembers)
      invariant t.rearmed + t.scheduled + t.failed == i + CountedTwice(attempts[..i])
      invariant forall a :: a in landed ==> exists k :: 0 <= k < i && actions[k] == a && Landed(attempts[k])
      invariant forall k :: 0 <= k < i && Landed(attempts[k]) ==> actions[k] in landed
    {
      if attempts[i].NoConnection? {
        return None, landed;
      }
      t := Counted(actions, attempts, i, t);
      if Landed(attempts[i]) {
        landed := landed + [actions[i]];
      }
    }
    assert attempts[..|attempts|] == attempts && actions[..|actions|] == actions;
    tally := Some(t);
  }

  /** The counts after one more action. */
  method Counted(actions: seq<Action>, attempts: seq<Attempt>, i: nat, before: Tally) returns (t: Tally)
    requires i < |actions| == |attempts| && !attempts[i].NoConnection? && forall a :: a in actions ==> !a.repair.NoRepair?
    requires before.rearmed == Applied(actions[..i], attempts[..i], Recreate)
    requires before.scheduled == Applied(actions[..i], attempts[..i], SyncMembers)
    requires before.rearmed + before.scheduled + before.failed == i + CountedTwice(attempts[..i])
    ensures t.rearmed == Applied(actions[..i + 1], attempts[..i + 1], Recreate)
    ensures t.scheduled == Applied(actions[..i + 1], attempts[..i + 1], SyncMembers)
    ensures t.rearmed + t.scheduled + t.failed == i + 1 + CountedTwice(attempts[..i + 1])
  {
    t := before;
    assert attempts[..i + 1][..i] == attempts[..i] && actions[..i + 1][..i] == actions[..i];
    assert actions[i] in actions;
    match attempts[i] {
      case StatementThrew => t := t.(failed := t.failed + 1);
      case NoRow(_) => t := t.(failed := t.failed + 1);
      case Guarded(applies, commits) =>
        if applies {
          if actions[i].repair.Recreate? {
            t := t.(rearmed := t.rearmed + 1);
          } else {
            t := t.(scheduled := t.scheduled + 1);
          }
        } else {
          t := t.(failed := t.failed + 1);
        }
        if !commits {
          t := t.(failed := t.failed + 1);
        }
    }
  }
}
