/**
 Importing a snapshot into the catalog. A run may fail at any record and be run again; what a record's write may
 touch is decided by the catalog itself, whatever was planned.
 */
module CatalogImport {
  import opened Basics

  type Id = string
  type Identity = string

  datatype Shred = Active | ShredPending | ShredComplete

  /** One catalog row: what a lookup reads of it, and the identity written under its key lineage. */
  datatype Item = Item(present: bool, forgotten: bool, shred: Option<Shred>, identity: Option<Identity>)

  type Catalog = map<Id, Item>

  datatype Record = Record(id: Id, identity: Identity)

  function At(catalog: Catalog, id: Id): Option<Item> {
    if id in catalog then Some(catalog[id]) else None
  }

  /** A snapshot holds every identity once. */
  ghost predicate Distinct(records: seq<Record>) {
    forall i, k :: 0 <= i < |records| && 0 <= k < |records| && records[i].id == records[k].id ==> i == k
  }

  // ---------------------------------------------------------------------------------------------------
  // What the catalog does
  // ---------------------------------------------------------------------------------------------------

  /** A new lineage. An active one makes it do nothing; an erased, forgotten or already present row refuses. */
  function Add(catalog: Catalog, r: Record): Option<Catalog> {
    match At(catalog, r.id)
    case Some(Item(present, forgotten, shred, _)) =>
      if shred.Some? then if shred.value.Active? then Some(catalog) else None
      else if forgotten || present then None
      else Some(catalog[r.id := Item(true, false, Some(Active), Some(r.identity))])
    case None => Some(catalog[r.id := Item(true, false, Some(Active), Some(r.identity))])
  }

  /** A new identity in the same lineage, for a present row that is active and not forgotten. */
  function Update(catalog: Catalog, r: Record): Option<Catalog> {
    match At(catalog, r.id)
    case Some(item) =>
      if item.shred == Some(Active) && item.present && !item.forgotten then
        Some(catalog[r.id := item.(identity := Some(r.identity))])
      else None
    case None => None
  }

  /** How a call goes besides: it may fail before anything is written, or after everything was. */
  datatype Fault = Goes | FailsBefore | FailsAfter

  // ---------------------------------------------------------------------------------------------------
  // Planning
  // ---------------------------------------------------------------------------------------------------

  datatype Action = Create | UpdateIt | Unchanged | Blocked

  function Plan(catalog: Catalog, updateExisting: bool, r: Record): Action {
    var state := At(catalog, r.id);
    if state.None? || (!state.value.present && state.value.shred.None?) then Create
    else if state.value.forgotten || (state.value.shred.Some? && !state.value.shred.value.Active?) then Blocked
    else if updateExisting then UpdateIt
    else Unchanged
  }

  function Plans(catalog: Catalog, updateExisting: bool, records: seq<Record>): seq<Action> {
    seq(|records|, i requires 0 <= i < |records| => Plan(catalog, updateExisting, records[i]))
  }

  const LOOKUP_BATCH: nat := 500

  function Restricted(catalog: Catalog, ids: seq<Id>): Catalog {
    map id | id in ids && id in catalog :: catalog[id]
  }

  lemma RestrictedConcat(catalog: Catalog, a: seq<Id>, b: seq<Id>)
    ensures Restricted(catalog, a + b) == Restricted(catalog, a) + Restricted(catalog, b)
  {
  }

  lemma LookedUpPlansTheSame(catalog: Catalog, ids: seq<Id>, updateExisting: bool, r: Record)
    requires r.id in ids
    ensures Plan(Restricted(catalog, ids), updateExisting, r) == Plan(catalog, updateExisting, r)
  {
  }

  /** Ask for the rows of many ids, never more than a batch at a time. */
  method LookUp(catalog: Catalog, ids: seq<Id>) returns (rows: Catalog, queries: nat)
    ensures rows == Restricted(catalog, ids)
    ensures |ids| <= queries * 500 < |ids| + 500
  {
    rows, queries := map[], 0;
    var i := 0;
    while i < |ids|
      invariant 0 <= i && rows == Restricted(catalog, if i <= |ids| then ids[..i] else ids)
      invariant i == queries * LOOKUP_BATCH < |ids| + LOOKUP_BATCH
      decreases |ids| - i
    {
      hide Restricted;
      var end := if i + LOOKUP_BATCH <= |ids| then i + LOOKUP_BATCH else |ids|;
      var batch := ids[i..end];
      rows := rows + Restricted(catalog, batch);
      assert ids[..end] == ids[..i] + batch;
      RestrictedConcat(catalog, ids[..i], batch);
      queries := queries + 1;
      i := i + LOOKUP_BATCH;
    }
    assert i >= |ids| ==> (if i <= |ids| then ids[..i] else ids) == ids;
  }

  function Count(actions: seq<Action>, a: Action): nat {
    if actions == [] then 0 else Count(actions[..|actions| - 1], a) + if actions[|actions| - 1] == a then 1 else 0
  }

  lemma {:induction false} CountsAddUp(actions: seq<Action>)
    ensures Count(actions, Create) + Count(actions, UpdateIt) + Count(actions, Unchanged) + Count(actions, Blocked) == |actions|
  {
    if actions != [] {
      CountsAddUp(actions[..|actions| - 1]);
    }
  }

  lemma NothingPlanned(catalog: Catalog, updateExisting: bool, records: seq<Record>)
    ensures Plans(catalog, updateExisting, records[..0]) == [] && forall a :: Count([], a) == 0
  {
  }

  lemma PlansOneMore(catalog: Catalog, updateExisting: bool, records: seq<Record>, i: nat, actions: seq<Action>)
    requires i < |records| && actions == Plans(catalog, updateExisting, records[..i])
    ensures
      var a := Plan(catalog, updateExisting, records[i]);
      && Plans(catalog, updateExisting, records[..i + 1]) == actions + [a]
      && forall b :: Count(actions + [a], b) == Count(actions, b) + if a == b then 1 else 0
  {
    hide Plan;
    var a := Plan(catalog, updateExisting, records[i]);
    assert records[..i + 1] == records[..i] + [records[i]];
    assert (actions + [a])[..|actions|] == actions;
  }

  method PlanImport(catalog: Catalog, updateExisting: bool, records: seq<Record>) returns (actions: seq<Action>, noop: bool)
    ensures actions == Plans(catalog, updateExisting, records)
    ensures noop <==> Count(actions, Create) == 0 && Count(actions, UpdateIt) == 0
  {
    hide Plan, Restricted, Plans, Count;
    var ids := seq(|records|, i requires 0 <= i < |records| => records[i].id);
    var existing, _ := LookUp(catalog, ids);
    actions := [];
    NothingPlanned(catalog, updateExisting, records);
    var creates, updates := 0, 0;
    for i := 0 to |records|
      invariant actions == Plans(catalog, updateExisting, records[..i])
      invariant creates == Count(actions, Create) && updates == Count(actions, UpdateIt)
    {
      assert records[i].id == ids[i] && ids[i] in ids;
      LookedUpPlansTheSame(catalog, ids, updateExisting, records[i]);
      var a := Plan(existing, updateExisting, records[i]);
      PlansOneMore(catalog, updateExisting, records, i, actions);
      actions := actions + [a];
      if a.Create? { creates := creates + 1; }
      if a.UpdateIt? { updates := updates + 1; }
    }
    assert records[..|records|] == records;
    noop := creates == 0 && updates == 0;
  }

  // ---------------------------------------------------------------------------------------------------
  // Applying
  // ---------------------------------------------------------------------------------------------------

  /** The write an action asks for; nothing when the catalog refuses it. */
  function Write(catalog: Catalog, r: Record, a: Action): Option<Catalog> {
    match a
    case Create => Add(catalog, r)
    case UpdateIt => Update(catalog, r)
    case _ => Some(catalog)
  }

  predicate Attempts(a: Action) {
    a.Create? || a.UpdateIt?
  }

  /** One record: the catalog after it, and whether the caller is told it failed. */
  function Try(catalog: Catalog, r: Record, a: Action, f: Fault): (Catalog, bool) {
    if !Attempts(a) then (catalog, false)
    else if f.FailsBefore? || Write(catalog, r, a).None? then (catalog, true)
    else (Write(catalog, r, a).value, f.FailsAfter?)
  }

  datatype Progress = Progress(catalog: Catalog, stopped: bool)

  /** The first `k` records of a run. */
  function RunTo(catalog: Catalog, records: seq<Record>, actions: seq<Action>, faults: nat -> Fault, goOn: bool, k: nat): Progress
    requires k <= |records| == |actions|
  {
    if k == 0 then Progress(catalog, false)
    else
      var p := RunTo(catalog, records, actions, faults, goOn, k - 1);
      if p.stopped then p
      else
        var (after, failed) := Try(p.catalog, records[k - 1], actions[k - 1], faults(k - 1));
        Progress(after, failed && !goOn)
  }

  datatype Tally = Tally(created: nat, updated: nat, failed: nat, notAttempted: nat)

  datatype Outcome = Applied | Skipped | Failed | NotAttempted

  /** What the report says of one record. */
  function OutcomeAt(catalog: Catalog, records: seq<Record>, actions: seq<Action>, faults: nat -> Fault, goOn: bool, i: nat): Outcome
    requires i < |records| == |actions|
  {
    var p := RunTo(catalog, records, actions, faults, goOn, i);
    if !Attempts(actions[i]) then Skipped
    else if p.stopped then NotAttempted
    else if Try(p.catalog, records[i], actions[i], faults(i)).1 then Failed
    else Applied
  }

  /** How many records of one action came out one way. */
  function Came(actions: seq<Action>, results: seq<Outcome>, a: Action, o: Outcome): nat
    requires |actions| == |results|
  {
    if actions == [] then 0
    else
      var last := |actions| - 1;
      Came(actions[..last], results[..last], a, o) + if actions[last] == a && results[last] == o then 1 else 0
  }

  lemma CameOneMore(actions: seq<Action>, i: nat, results: seq<Outcome>, o: Outcome, a: Action, q: Outcome)
    requires i < |actions| && |results| == i
    ensures Came(actions[..i + 1], results + [o], a, q)
      == Came(actions[..i], results, a, q) + if actions[i] == a && o == q then 1 else 0
  {
    var longer := actions[..i + 1];
    assert longer[..i] == actions[..i] && (results + [o])[..i] == results && longer[i] == actions[i];
  }

  lemma CountOneMore(actions: seq<Action>, i: nat, a: Action)
    requires i < |actions|
    ensures Count(actions[..i + 1], a) == Count(actions[..i], a) + if actions[i] == a then 1 else 0
  {
    var longer := actions[..i + 1];
    assert longer[..i] == actions[..i] && longer[i] == actions[i];
  }

  lemma CameSnoc(actions: seq<Action>, i: nat, results: seq<Outcome>, o: Outcome)
    requires i < |actions| && |results| == i
    ensures forall a, q ::
      Came(actions[..i + 1], results + [o], a, q) == Came(actions[..i], results, a, q) + (if actions[i] == a && o == q then 1 else 0)
    ensures forall a :: Count(actions[..i + 1], a) == Count(actions[..i], a) + (if actions[i] == a then 1 else 0)
  {
    hide Came, Count;
    forall a, q ensures
      Came(actions[..i + 1], results + [o], a, q) == Came(actions[..i], results, a, q) + (if actions[i] == a && o == q then 1 else 0)
    {
      CameOneMore(actions, i, results, o, a, q);
    }
    forall a ensures Count(actions[..i + 1], a) == Count(actions[..i], a) + (if actions[i] == a then 1 else 0) {
      CountOneMore(actions, i, a);
    }
  }

  /** The catalog of one running authority. */
  class Authority {
    var catalog: Catalog

    constructor (catalog: Catalog)
      ensures this.catalog == catalog
    {
      this.catalog := catalog;
    }

    method AddItem(r: Record, f: Fault) returns (failed: bool)
      modifies this
      ensures (catalog, failed) == Try(old(catalog), r, Create, f)
    {
      if f.FailsBefore? {
        return true;
      }
      var after := Add(catalog, r);
      if after.None? {
        return true;
      }
      catalog := after.value;
      failed := f.FailsAfter?;
    }

    method UpdateIdentity(r: Record, f: Fault) returns (failed: bool)
      modifies this
      ensures (catalog, failed) == Try(old(catalog), r, UpdateIt, f)
    {
      if f.FailsBefore? {
        return true;
      }
      var after := Update(catalog, r);
      if after.None? {
        return true;
      }
      catalog := after.value;
      failed := f.FailsAfter?;
    }

    method ApplyOne(r: Record, a: Action, f: Fault) returns (failed: bool)
      requires Attempts(a)
      modifies this
      ensures (catalog, failed) == Try(old(catalog), r, a, f)
    {
      if a.Create? {
        failed := AddItem(r, f);
      } else {
        failed := UpdateIdentity(r, f);
      }
    }

    /** Apply a plan. Every record of it is reported as what happened to it, and counted exactly once. */
    method Apply(records: seq<Record>, actions: seq<Action>, faults: nat -> Fault, goOn: bool)
      returns (t: Tally, results: seq<Outcome>)
      requires |records| == |actions|
      modifies this
      ensures catalog == RunTo(old(catalog), records, actions, faults, goOn, |records|).catalog
      ensures |results| == |actions|
      ensures forall i :: 0 <= i < |records| ==> results[i] == OutcomeAt(old(catalog), records, actions, faults, goOn, i)
      ensures t.created == Came(actions, results, Create, Applied) && t.updated == Came(actions, results, UpdateIt, Applied)
      ensures t.failed == Came(actions, results, Create, Failed) + Came(actions, results, UpdateIt, Failed)
      ensures t.created + t.updated + Count(actions, Unchanged) + Count(actions, Blocked) + t.failed + t.notAttempted == |actions|
      ensures t.notAttempted > 0 ==> t.failed > 0 && !goOn
    {
      hide Try, RunTo, OutcomeAt, Came, Count, Tallied;
      t, results := Tally(0, 0, 0, 0), [];
      var stopped := false;
      Begins(catalog, records, actions, faults, goOn);
      for i := 0 to |records|
        invariant |results| == i && Progress(catalog, stopped) == RunTo(old(catalog), records, actions, faults, goOn, i)
        invariant forall k :: 0 <= k < i ==> results[k] == OutcomeAt(old(catalog), records, actions, faults, goOn, k)
        invariant Tallied(t, actions[..i], results)
        invariant (t.notAttempted > 0 ==> stopped) && (stopped ==> t.failed > 0 && !goOn)
      {
        OneRecord(old(catalog), records, actions, faults, goOn, i);
        ghost var before := t;
        var outcome := Skipped;
        if Attempts(actions[i]) {
          if stopped {
            outcome := NotAttempted;
            t := t.(notAttempted := t.notAttempted + 1);
          } else {
            var failed := ApplyOne(records[i], actions[i], faults(i));
            outcome := if failed then Failed else Applied;
            if failed {
              t := t.(failed := t.failed + 1);
              if !goOn { stopped := true; }
            } else if actions[i].Create? {
              t := t.(created := t.created + 1);
            } else {
              t := t.(updated := t.updated + 1);
            }
          }
        }
        TalliedMore(before, actions, i, results, outcome);
        results := results + [outcome];
      }
      assert actions[..|actions|] == actions;
      TalliedMeans(t, actions, results);
      CountsAddUp(actions);
    }
  }

  /** The four counters say how the records attempted so far came out. */
  ghost predicate Tallied(t: Tally, actions: seq<Action>, results: seq<Outcome>)
    requires |actions| == |results|
  {
    && t.created == Came(actions, results, Create, Applied) && t.updated == Came(actions, results, UpdateIt, Applied)
    && t.failed == Came(actions, results, Create, Failed) + Came(actions, results, UpdateIt, Failed)
    && t.created + t.updated + t.failed + t.notAttempted == Count(actions, Create) + Count(actions, UpdateIt)
  }

  /** The counter one outcome moves. */
  ghost function Counted(t: Tally, a: Action, o: Outcome): Tally {
    if !Attempts(a) then t
    else match o
      case Applied => if a.Create? then t.(created := t.created + 1) else t.(updated := t.updated + 1)
      case Failed => t.(failed := t.failed + 1)
      case _ => t.(notAttempted := t.notAttempted + 1)
  }

  lemma TalliedMore(t: Tally, actions: seq<Action>, i: nat, results: seq<Outcome>, o: Outcome)
    requires i < |actions| && |results| == i && Tallied(t, actions[..i], results)
    requires Attempts(actions[i]) <==> !o.Skipped?
    ensures Tallied(Counted(t, actions[i], o), actions[..i + 1], results + [o])
  {
    hide Came, Count;
    CameSnoc(actions, i, results, o);
  }

  lemma TalliedMeans(t: Tally, actions: seq<Action>, results: seq<Outcome>)
    requires |actions| == |results| && Tallied(t, actions, results)
    ensures t.created == Came(actions, results, Create, Applied) && t.updated == Came(actions, results, UpdateIt, Applied)
    ensures t.failed == Came(actions, results, Create, Failed) + Came(actions, results, UpdateIt, Failed)
    ensures t.created + t.updated + t.failed + t.notAttempted == Count(actions, Create) + Count(actions, UpdateIt)
  {
  }

  lemma Begins(catalog: Catalog, records: seq<Record>, actions: seq<Action>, faults: nat -> Fault, goOn: bool)
    requires |records| == |actions|
    ensures RunTo(catalog, records, actions, faults, goOn, 0) == Progress(catalog, false)
    ensures forall a, o :: Came(actions[..0], [], a, o) == 0
    ensures forall a :: Count(actions[..0], a) == 0
    ensures Tallied(Tally(0, 0, 0, 0), actions[..0], [])
  {
  }

  lemma OneRecord(catalog: Catalog, records: seq<Record>, actions: seq<Action>, faults: nat -> Fault, goOn: bool, i: nat)
    requires i < |records| == |actions|
    ensures
      var p := RunTo(catalog, records, actions, faults, goOn, i);
      var (after, failed) := Try(p.catalog, records[i], actions[i], faults(i));
      && RunTo(catalog, records, actions, faults, goOn, i + 1) == (if p.stopped then p else Progress(after, failed && !goOn))
      && (!Attempts(actions[i]) ==> after == p.catalog && !failed)
      && OutcomeAt(catalog, records, actions, faults, goOn, i)
         == (if !Attempts(actions[i]) then Skipped else if p.stopped then NotAttempted else if failed then Failed else Applied)
  {
  }

  // ---------------------------------------------------------------------------------------------------
  // What no run does
  // ---------------------------------------------------------------------------------------------------

  /** A row that was erased or forgotten. */
  predicate Erased(item: Item) {
    item.forgotten || (item.shred.Some? && !item.shred.value.Active?)
  }

  lemma TryKeepsErased(catalog: Catalog, r: Record, a: Action, f: Fault, id: Id)
    requires id in catalog && Erased(catalog[id]) && (catalog[id].shred == Some(Active) ==> catalog[id].forgotten)
    ensures var after := Try(catalog, r, a, f).0; id in after && after[id] == catalog[id]
  {
  }

  /** No apply of any plan, however old, and however its calls fail, touches an erased row. */
  lemma {:induction false} NoRunReversesAnErasure(
      catalog: Catalog, records: seq<Record>, actions: seq<Action>, faults: nat -> Fault, goOn: bool, k: nat, id: Id)
    requires k <= |records| == |actions| && id in catalog && Erased(catalog[id])
    ensures
      var after := RunTo(catalog, records, actions, faults, goOn, k).catalog;
      id in after && after[id] == catalog[id]
  {
    if k > 0 {
      NoRunReversesAnErasure(catalog, records, actions, faults, goOn, k - 1, id);
      var p := RunTo(catalog, records, actions, faults, goOn, k - 1);
      TryKeepsErased(p.catalog, records[k - 1], actions[k - 1], faults(k - 1), id);
    }
  }

  /** Exactly what is planned as blocked: an erased row, unless it is absent and has no lineage at all. */
  lemma BlockedExactlyWhenErased(catalog: Catalog, updateExisting: bool, r: Record)
    ensures Plan(catalog, updateExisting, r).Blocked? <==>
      r.id in catalog && Erased(catalog[r.id]) && (catalog[r.id].present || catalog[r.id].shred.Some?)
    ensures r.id in catalog && Erased(catalog[r.id]) && !catalog[r.id].present && catalog[r.id].shred.None? ==>
      Plan(catalog, updateExisting, r).Create? && Add(catalog, r) == None
  {
  }

  /** What is planned for a record, said of its row alone; nothing is updated unless that was asked for. */
  lemma PlannedExactlyWhen(catalog: Catalog, updateExisting: bool, r: Record)
    ensures
      var a := Plan(catalog, updateExisting, r);
      var known := r.id in catalog && (catalog[r.id].present || catalog[r.id].shred.Some?);
      && (a.Create? <==> !known)
      && (a.Blocked? <==> known && Erased(catalog[r.id]))
      && (a.UpdateIt? <==> known && !Erased(catalog[r.id]) && updateExisting)
      && (a.Unchanged? <==> known && !Erased(catalog[r.id]) && !updateExisting)
  {
  }

  lemma TryKeepsPresent(catalog: Catalog, r: Record, a: Action, f: Fault, id: Id)
    requires id in catalog && (catalog[id].present || catalog[id].shred.Some?) && (r.id == id ==> !a.UpdateIt?)
    ensures var after := Try(catalog, r, a, f).0; id in after && after[id] == catalog[id]
  {
  }

  /** Of a row that is present or has a lineage, only an update changes anything, however old the plan is. */
  lemma {:induction false} OnlyUpdatesChangeAKnownRow(
      catalog: Catalog, records: seq<Record>, actions: seq<Action>, faults: nat -> Fault, goOn: bool, k: nat, id: Id)
    requires k <= |records| == |actions| && id in catalog && (catalog[id].present || catalog[id].shred.Some?)
    requires forall i :: 0 <= i < k && records[i].id == id ==> !actions[i].UpdateIt?
    ensures
      var after := RunTo(catalog, records, actions, faults, goOn, k).catalog;
      id in after && after[id] == catalog[id]
  {
    if k > 0 {
      hide Try;
      OnlyUpdatesChangeAKnownRow(catalog, records, actions, faults, goOn, k - 1, id);
      var p := RunTo(catalog, records, actions, faults, goOn, k - 1);
      TryKeepsPresent(p.catalog, records[k - 1], actions[k - 1], faults(k - 1), id);
    }
  }

  /** Adding to an active lineage again, as a plan made before it was created does, changes nothing and succeeds. */
  lemma AddingAgainIsDone(catalog: Catalog, r: Record)
    requires r.id in catalog && catalog[r.id].shred == Some(Active)
    ensures Try(catalog, r, Create, Goes) == (catalog, false)
  {
  }

  /** An import that was not asked to update changes no row that is present, whatever fails. */
  lemma WithoutUpdatesNothingPresentChanges(
      catalog: Catalog, records: seq<Record>, faults: nat -> Fault, goOn: bool, k: nat, id: Id)
    requires k <= |records| && id in catalog && catalog[id].present
    ensures
      var after := Run(catalog, false, records, faults, goOn, k).catalog;
      id in after && after[id] == catalog[id]
  {
    hide Plan, RunTo;
    var actions := Plans(catalog, false, records);
    forall i | 0 <= i < k ensures !actions[i].UpdateIt? {
      PlannedExactlyWhen(catalog, false, records[i]);
    }
    OnlyUpdatesChangeAKnownRow(catalog, records, actions, faults, goOn, k, id);
  }

  // ---------------------------------------------------------------------------------------------------
  // Running again
  // ---------------------------------------------------------------------------------------------------

  /** The catalog refuses what is planned for this record. */
  predicate Refuses(catalog: Catalog, updateExisting: bool, r: Record) {
    Write(catalog, r, Plan(catalog, updateExisting, r)).None?
  }

  /** The row of one record once its planned write has landed. */
  function Landed(catalog: Catalog, updateExisting: bool, r: Record): Option<Item> {
    if Refuses(catalog, updateExisting, r) then At(catalog, r.id)
    else At(Write(catalog, r, Plan(catalog, updateExisting, r)).value, r.id)
  }

  function Run(catalog: Catalog, updateExisting: bool, records: seq<Record>, faults: nat -> Fault, goOn: bool, k: nat): Progress
    requires k <= |records|
  {
    RunTo(catalog, records, Plans(catalog, updateExisting, records), faults, goOn, k)
  }

  function Clean(i: nat): Fault {
    Goes
  }

  lemma OneMoreRecord(catalog: Catalog, updateExisting: bool, records: seq<Record>, faults: nat -> Fault, goOn: bool, k: nat)
    requires 0 < k <= |records|
    ensures
      var p := Run(catalog, updateExisting, records, faults, goOn, k - 1);
      var (after, failed) := Try(p.catalog, records[k - 1], Plan(catalog, updateExisting, records[k - 1]), faults(k - 1));
      Run(catalog, updateExisting, records, faults, goOn, k) == if p.stopped then p else Progress(after, failed && !goOn)
  {
    hide Try, Plan;
  }

  /** A call that goes lands the record, and is told to have failed exactly when the catalog refuses it. */
  lemma GoesLands(catalog: Catalog, updateExisting: bool, r: Record)
    ensures
      var (after, failed) := Try(catalog, r, Plan(catalog, updateExisting, r), Goes);
      At(after, r.id) == Landed(catalog, updateExisting, r) && failed == Refuses(catalog, updateExisting, r)
  {
  }

  /** Any call leaves the row as it was or landed, and one the catalog refuses always fails. */
  lemma AnyCallLandsOrNot(catalog: Catalog, updateExisting: bool, r: Record, f: Fault)
    ensures
      var (after, failed) := Try(catalog, r, Plan(catalog, updateExisting, r), f);
      && (At(after, r.id) == At(catalog, r.id) || At(after, r.id) == Landed(catalog, updateExisting, r))
      && (Refuses(catalog, updateExisting, r) ==> failed)
  {
  }

  /** A row changes only by its own record. */
  lemma TryFrame(catalog: Catalog, r: Record, a: Action, f: Fault, id: Id)
    requires id != r.id
    ensures At(Try(catalog, r, a, f).0, id) == At(catalog, id)
  {
  }

  /** What happens to a record depends on its own row alone. */
  lemma OwnRowDecides(a: Catalog, b: Catalog, updateExisting: bool, r: Record)
    requires At(a, r.id) == At(b, r.id)
    ensures Plan(a, updateExisting, r) == Plan(b, updateExisting, r)
    ensures Refuses(a, updateExisting, r) == Refuses(b, updateExisting, r)
    ensures Landed(a, updateExisting, r) == Landed(b, updateExisting, r)
    ensures forall act, f :: At(Try(a, r, act, f).0, r.id) == At(Try(b, r, act, f).0, r.id)
    ensures forall act, f :: Try(a, r, act, f).1 == Try(b, r, act, f).1
  {
  }

  lemma {:induction false} UntouchedYet(
      catalog: Catalog, updateExisting: bool, records: seq<Record>, faults: nat -> Fault, goOn: bool, k: nat, id: Id)
    requires k <= |records| && forall i :: 0 <= i < k ==> records[i].id != id
    ensures At(Run(catalog, updateExisting, records, faults, goOn, k).catalog, id) == At(catalog, id)
  {
    if k > 0 {
      UntouchedYet(catalog, updateExisting, records, faults, goOn, k - 1, id);
      var p := Run(catalog, updateExisting, records, faults, goOn, k - 1);
      TryFrame(p.catalog, records[k - 1], Plans(catalog, updateExisting, records)[k - 1], faults(k - 1), id);
    }
  }

  /** After any run a row is as it was or as its own write leaves it. */
  lemma {:induction false} AsItWasOrLanded(
      catalog: Catalog, updateExisting: bool, records: seq<Record>, faults: nat -> Fault, goOn: bool, k: nat, i: nat)
    requires Distinct(records) && i < k <= |records|
    ensures
      var item := At(Run(catalog, updateExisting, records, faults, goOn, k).catalog, records[i].id);
      item == At(catalog, records[i].id) || item == Landed(catalog, updateExisting, records[i])
    ensures !goOn && (exists j :: 0 <= j < i && Refuses(catalog, updateExisting, records[j])) ==>
      At(Run(catalog, updateExisting, records, faults, goOn, k).catalog, records[i].id) == At(catalog, records[i].id)
  {
    hide Run, Try, Plan, Refuses, Landed;
    var p := Run(catalog, updateExisting, records, faults, goOn, k - 1);
    var r := records[k - 1];
    OneMoreRecord(catalog, updateExisting, records, faults, goOn, k);
    if i < k - 1 {
      AsItWasOrLanded(catalog, updateExisting, records, faults, goOn, k - 1, i);
      TryFrame(p.catalog, r, Plan(catalog, updateExisting, r), faults(k - 1), records[i].id);
    } else {
      UntouchedYet(catalog, updateExisting, records, faults, goOn, k - 1, r.id);
      OwnRowDecides(p.catalog, catalog, updateExisting, r);
      AnyCallLandsOrNot(p.catalog, updateExisting, r, faults(k - 1));
      if !goOn && exists j :: 0 <= j < i && Refuses(catalog, updateExisting, records[j]) {
        var j :| 0 <= j < i && Refuses(catalog, updateExisting, records[j]);
        RefusalStops(catalog, updateExisting, records, faults, k - 1, j);
      }
    }
  }

  /** Without going on, no run gets past a record the catalog refuses. */
  lemma {:induction false} RefusalStops(
      catalog: Catalog, updateExisting: bool, records: seq<Record>, faults: nat -> Fault, k: nat, j: nat)
    requires Distinct(records) && j < k <= |records| && Refuses(catalog, updateExisting, records[j])
    ensures Run(catalog, updateExisting, records, faults, false, k).stopped
  {
    hide Run, Try, Plan, Refuses, Landed;
    OneMoreRecord(catalog, updateExisting, records, faults, false, k);
    if j < k - 1 {
      RefusalStops(catalog, updateExisting, records, faults, k - 1, j);
    } else {
      var p := Run(catalog, updateExisting, records, faults, false, j);
      UntouchedYet(catalog, updateExisting, records, faults, false, j, records[j].id);
      OwnRowDecides(p.catalog, catalog, updateExisting, records[j]);
      AnyCallLandsOrNot(p.catalog, updateExisting, records[j], faults(j));
    }
  }

  lemma NothingRunsYet(catalog: Catalog, updateExisting: bool, records: seq<Record>, goOn: bool)
    ensures !Run(catalog, updateExisting, records, Clean, goOn, 0).stopped
  {
  }

  lemma EarlierAreOthers(records: seq<Record>, k: nat)
    requires Distinct(records) && 0 < k <= |records|
    ensures forall i :: 0 <= i < k - 1 ==> records[i].id != records[k - 1].id
  {
  }

  /** A run without failures lands every record it reaches; it stops only at one the catalog refuses. */
  lemma {:induction false} CleanRunLands(catalog: Catalog, updateExisting: bool, records: seq<Record>, goOn: bool, k: nat)
    requires Distinct(records) && k <= |records|
    ensures Run(catalog, updateExisting, records, Clean, goOn, k).stopped
      <==> !goOn && exists j :: 0 <= j < k && Refuses(catalog, updateExisting, records[j])
    ensures forall i :: 0 <= i < k && (goOn || forall j :: 0 <= j < i ==> !Refuses(catalog, updateExisting, records[j])) ==>
      At(Run(catalog, updateExisting, records, Clean, goOn, k).catalog, records[i].id) == Landed(catalog, updateExisting, records[i])
  {
    hide Try, Plan, Refuses, Landed, Run, At, Distinct;
    if k == 0 {
      NothingRunsYet(catalog, updateExisting, records, goOn);
    } else {
      CleanRunLands(catalog, updateExisting, records, goOn, k - 1);
      OneMoreRecord(catalog, updateExisting, records, Clean, goOn, k);
      var p := Run(catalog, updateExisting, records, Clean, goOn, k - 1);
      var r := records[k - 1];
      EarlierAreOthers(records, k);
      UntouchedYet(catalog, updateExisting, records, Clean, goOn, k - 1, r.id);
      OwnRowDecides(p.catalog, catalog, updateExisting, r);
      GoesLands(p.catalog, updateExisting, r);
      forall i | 0 <= i < k - 1
        ensures At(Try(p.catalog, r, Plan(catalog, updateExisting, r), Goes).0, records[i].id) == At(p.catalog, records[i].id) {
        TryFrame(p.catalog, r, Plan(catalog, updateExisting, r), Goes, records[i].id);
      }
    }
  }

  /**
   What an import leaves of one row: a row that is absent, has no lineage and was never forgotten is there with the
   record's identity; a present, active, unforgotten one has that identity if updates were asked for; any other is
   as it was.
   */
  function Imported(before: Option<Item>, updateExisting: bool, identity: Identity): Option<Item> {
    if before.None? || before.value.(identity := None) == Item(false, false, None, None) then
      Some(Item(true, false, Some(Active), Some(identity)))
    else if updateExisting && before.value.(identity := None) == Item(true, false, Some(Active), None) then
      Some(before.value.(identity := Some(identity)))
    else before
  }

  lemma LandedIsImported(catalog: Catalog, updateExisting: bool, r: Record)
    ensures Landed(catalog, updateExisting, r) == Imported(At(catalog, r.id), updateExisting, r.identity)
  {
  }

  /** The catalog refuses a forgotten row without a lineage, and an update of a row that is half there. */
  lemma RefusesExactlyWhen(catalog: Catalog, updateExisting: bool, r: Record)
    ensures Refuses(catalog, updateExisting, r) <==>
      && r.id in catalog
      && var item := catalog[r.id];
      || (item.forgotten && !item.present && item.shred.None?)
      || (updateExisting && !item.forgotten && item.present && item.shred.None?)
      || (updateExisting && !item.forgotten && !item.present && item.shred == Some(Active))
  {
  }

  /** A run without failures leaves of every row it reaches exactly what an import is to leave of it. */
  lemma CleanRunImports(catalog: Catalog, updateExisting: bool, records: seq<Record>, goOn: bool, i: nat)
    requires Distinct(records) && i < |records|
    requires goOn || forall j :: 0 <= j < i ==> !Refuses(catalog, updateExisting, records[j])
    ensures At(CleanRun(catalog, updateExisting, records, goOn), records[i].id)
      == Imported(At(catalog, records[i].id), updateExisting, records[i].identity)
  {
    hide Run, Refuses, Landed, Imported, At;
    CleanRunLands(catalog, updateExisting, records, goOn, |records|);
    LandedIsImported(catalog, updateExisting, records[i]);
  }

  /** After any run, whatever failed, a row is as it was or as an import is to leave it. */
  lemma AnyRunImportsOrNot(
      catalog: Catalog, updateExisting: bool, records: seq<Record>, faults: nat -> Fault, goOn: bool, k: nat, i: nat)
    requires Distinct(records) && i < k <= |records|
    ensures At(Run(catalog, updateExisting, records, faults, goOn, k).catalog, records[i].id) in
      {At(catalog, records[i].id), Imported(At(catalog, records[i].id), updateExisting, records[i].identity)}
  {
    hide Run, Refuses, Landed, Imported, At;
    AsItWasOrLanded(catalog, updateExisting, records, faults, goOn, k, i);
    LandedIsImported(catalog, updateExisting, records[i]);
  }

  /** Replanning a row that is as it was, or has landed, ends where the first plan would have. */
  lemma LandedStaysLanded(before: Catalog, after: Catalog, updateExisting: bool, r: Record)
    requires At(after, r.id) == At(before, r.id) || At(after, r.id) == Landed(before, updateExisting, r)
    ensures Refuses(after, updateExisting, r) == Refuses(before, updateExisting, r)
    ensures Landed(after, updateExisting, r) == Landed(before, updateExisting, r)
  {
  }

  /** Where a run without failures ends. */
  function CleanRun(catalog: Catalog, updateExisting: bool, records: seq<Record>, goOn: bool): Catalog {
    Run(catalog, updateExisting, records, Clean, goOn, |records|).catalog
  }

  lemma OneFailedRunIsResumed(
      catalog: Catalog, updateExisting: bool, records: seq<Record>, faults: nat -> Fault, goOn: bool)
    requires Distinct(records)
    ensures CleanRun(Run(catalog, updateExisting, records, faults, goOn, |records|).catalog, updateExisting, records, goOn)
      == CleanRun(catalog, updateExisting, records, goOn)
  {
    var n := |records|;
    var again := Run(catalog, updateExisting, records, faults, goOn, n).catalog;
    forall i | 0 <= i < n
      ensures Refuses(again, updateExisting, records[i]) == Refuses(catalog, updateExisting, records[i])
      ensures Landed(again, updateExisting, records[i]) == Landed(catalog, updateExisting, records[i]) {
      AsItWasOrLanded(catalog, updateExisting, records, faults, goOn, n, i);
      LandedStaysLanded(catalog, again, updateExisting, records[i]);
    }
    hide Run, Try, Plan, Refuses, Landed;
    forall id ensures At(CleanRun(again, updateExisting, records, goOn), id) == At(CleanRun(catalog, updateExisting, records, goOn), id) {
      if i :| 0 <= i < n && records[i].id == id {
        SameEnd(catalog, again, updateExisting, records, faults, goOn, i);
      } else {
        UntouchedYet(again, updateExisting, records, Clean, goOn, n, id);
        UntouchedYet(catalog, updateExisting, records, Clean, goOn, n, id);
        UntouchedYet(catalog, updateExisting, records, faults, goOn, n, id);
      }
    }
    SameRows(CleanRun(again, updateExisting, records, goOn), CleanRun(catalog, updateExisting, records, goOn));
  }

  lemma SameRows(a: Catalog, b: Catalog)
    requires forall id :: At(a, id) == At(b, id)
    ensures a == b
  {
    assert forall id :: id in a <==> At(a, id).Some?;
    assert forall id :: id in b <==> At(b, id).Some?;
    assert a.Keys == b.Keys;
    forall id | id in a ensures a[id] == b[id] {
      assert At(a, id) == At(b, id);
    }
  }

  lemma SameEnd(
      catalog: Catalog, again: Catalog, updateExisting: bool, records: seq<Record>, faults: nat -> Fault, goOn: bool, i: nat)
    requires Distinct(records) && i < |records|
    requires again == Run(catalog, updateExisting, records, faults, goOn, |records|).catalog
    requires forall k :: 0 <= k < |records| ==>
      Refuses(again, updateExisting, records[k]) == Refuses(catalog, updateExisting, records[k])
    requires Landed(again, updateExisting, records[i]) == Landed(catalog, updateExisting, records[i])
    ensures At(CleanRun(again, updateExisting, records, goOn), records[i].id)
      == At(CleanRun(catalog, updateExisting, records, goOn), records[i].id)
  {
    hide Run, Try, Plan, Refuses, Landed;
    var n := |records|;
    CleanRunLands(again, updateExisting, records, goOn, n);
    CleanRunLands(catalog, updateExisting, records, goOn, n);
    if !goOn && exists j :: 0 <= j < i && Refuses(catalog, updateExisting, records[j]) {
      AsItWasOrLanded(catalog, updateExisting, records, faults, goOn, n, i);
      AsItWasOrLanded(catalog, updateExisting, records, Clean, goOn, n, i);
      AsItWasOrLanded(again, updateExisting, records, Clean, goOn, n, i);
    }
  }

  /** The catalog after any number of runs of the same snapshot, each planned afresh and each failing as it may. */
  function AfterRuns(catalog: Catalog, updateExisting: bool, records: seq<Record>, goOn: bool, runs: seq<nat -> Fault>): Catalog {
    if runs == [] then catalog
    else
      var before := AfterRuns(catalog, updateExisting, records, goOn, runs[..|runs| - 1]);
      Run(before, updateExisting, records, runs[|runs| - 1], goOn, |records|).catalog
  }

  /**
   An import is resumable: after any number of failed runs, one run without failures ends in exactly the catalog
   that a single run without failures would have ended in.
   */
  lemma {:induction false} ResumesToTheSameCatalog(
      catalog: Catalog, updateExisting: bool, records: seq<Record>, goOn: bool, runs: seq<nat -> Fault>)
    requires Distinct(records)
    ensures CleanRun(AfterRuns(catalog, updateExisting, records, goOn, runs), updateExisting, records, goOn)
      == CleanRun(catalog, updateExisting, records, goOn)
  {
    if runs != [] {
      var earlier := runs[..|runs| - 1];
      ResumesToTheSameCatalog(catalog, updateExisting, records, goOn, earlier);
      OneFailedRunIsResumed(AfterRuns(catalog, updateExisting, records, goOn, earlier), updateExisting, records, runs[|runs| - 1], goOn);
    }
  }
}
