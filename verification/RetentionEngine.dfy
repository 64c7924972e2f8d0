/**
 The retention executor: a run, a resume and an abandon as they change the disk step by step, under a system
 that may fail any call or kill the process before any of them.

 Every effect goes through `Perform`, so `Valid` says that whatever the process did is one more stretch of a
 legal run of RetentionProtocol, and that the disk satisfies its invariant. A method that returns because the
 process was killed promises the same, which is what a later resume or abandon starts from.
 */
module RetentionEngine {
  import opened Basics
  import opened RetentionProtocol

  const REMOVAL_ENTRY_MARGIN: nat := 64

  /** How many entries a removal of this set will walk. */
  function RemovalEntryBound(declaredEntries: nat): nat {
    declaredEntries * 2 + REMOVAL_ENTRY_MARGIN
  }

  /** How many entries of planned set `i` are on disk, wherever it is. */
  ghost function Footprint(op: Operation, w: World, i: nat): nat
    requires i < |op.removals|
  {
    var n := op.removals[i];
    if n in w.dest then |w.dest[n]| else if n in Held(w.quarantine) then |Held(w.quarantine)[n]| else 0
  }

  ghost predicate FitsAt(op: Operation, w: World, i: nat)
    requires op.WellFormed() && i < |op.removals|
  {
    Footprint(op, w, i) <= RemovalEntryBound(op.rows[op.removals[i]].entries)
  }

  ghost predicate FitBelow(op: Operation, w: World, n: nat)
    requires op.WellFormed() && n <= |op.removals|
  {
    forall i :: 0 <= i < n ==> FitsAt(op, w, i)
  }

  /** From entry `i` on, nothing of what is on disk has grown or shrunk. */
  ghost predicate SameFrom(op: Operation, opening: World, now: World, i: nat) {
    forall k :: i <= k < |op.removals| ==> Footprint(op, now, k) == Footprint(op, opening, k)
  }

  lemma SameFromStep(op: Operation, opening: World, before: World, now: World, i: nat)
    requires op.WellFormed() && i < |op.removals| && SameFrom(op, opening, before, i) && SameFrom(op, before, now, i + 1)
    ensures SameFrom(op, opening, now, i + 1) && FitsAt(op, before, i) == FitsAt(op, opening, i)
  {
    hide Footprint;
  }

  lemma SameFromThen(op: Operation, opening: World, before: World, now: World, i: nat)
    requires SameFrom(op, opening, before, i) && SameFrom(op, before, now, i)
    ensures SameFrom(op, opening, now, i)
  {
    hide Footprint;
  }

  /** A footprint is read off the destination and the quarantine directory alone. */
  lemma RecordsHaveNoFootprint(op: Operation, before: World, after: World)
    requires after.dest == before.dest && Held(after.quarantine) == Held(before.quarantine)
    ensures forall k :: 0 <= k < |op.removals| ==> Footprint(op, after, k) == Footprint(op, before, k)
  {
  }

  /** So what only writes records keeps every size, and whether a set fits. */
  lemma RecordsHaveNoSize(op: Operation, before: World, now: World, i: nat)
    requires op.WellFormed() && i < |op.removals|
    requires now.dest == before.dest && Held(now.quarantine) == Held(before.quarantine)
    ensures SameFrom(op, before, now, i) && SameFrom(op, before, now, i + 1) && FitsAt(op, now, i) == FitsAt(op, before, i)
  {
    hide Footprint;
    RecordsHaveNoFootprint(op, before, now);
  }

  lemma RecordsKeepFit(op: Operation, before: World, now: World)
    requires op.WellFormed() && now.dest == before.dest && Held(now.quarantine) == Held(before.quarantine)
    ensures FitBelow(op, now, |op.removals|) == FitBelow(op, before, |op.removals|)
  {
    hide Inv, FitsAt;
    forall k | 0 <= k < |op.removals| ensures FitsAt(op, now, k) == FitsAt(op, before, k) {
      RecordsHaveNoSize(op, before, now, k);
    }
  }

  lemma FitBelowStep(op: Operation, w: World, i: nat)
    requires op.WellFormed() && i < |op.removals|
    ensures FitBelow(op, w, i) && FitsAt(op, w, i) ==> FitBelow(op, w, i + 1)
    ensures FitBelow(op, w, |op.removals|) ==> FitsAt(op, w, i)
  {
    hide FitsAt;
  }

  lemma FitBelowNone(op: Operation, w: World)
    requires op.WellFormed()
    ensures FitBelow(op, w, 0) && SameFrom(op, w, w, 0)
  {
  }

  /** What a resume needs: a quarantine directory with its marker, and no set larger than its removal bound. */
  ghost predicate Recoverable(op: Operation, w: World)
    requires op.WellFormed()
  {
    !w.quarantine.Unmarked? && FitBelow(op, w, |op.removals|)
  }

  /** No planned set is larger than its own removal bound allows. */
  ghost predicate PlannedFit(op: Operation)
    requires op.WellFormed()
  {
    forall n :: n in op.removals ==> |op.initial[n]| <= RemovalEntryBound(op.rows[n].entries)
  }

  /** Nothing the program does makes a set larger, so what fits when it is planned fits at every instant after. */
  lemma PlannedFitLasts(op: Operation, w: World)
    requires op.WellFormed() && Inv(op, w) && PlannedFit(op)
    ensures FitBelow(op, w, |op.removals|)
  {
    forall i | 0 <= i < |op.removals| ensures FitsAt(op, w, i) {
      var n := op.removals[i];
      assert n in op.removals;
      if n in Held(w.quarantine) {
        SubsetIsNoLarger(Held(w.quarantine)[n], op.initial[n]);
      }
    }
  }

  /** Before anything has begun, the planned sets fitting is all that recoverable asks. */
  lemma RecoverableWhenReady(op: Operation, w: World)
    requires op.WellFormed() && Inv(op, w) && Ready(op, w)
    ensures Recoverable(op, w) <==> PlannedFit(op)
  {
    if Recoverable(op, w) {
      forall n | n in op.removals ensures |op.initial[n]| <= RemovalEntryBound(op.rows[n].entries) {
        var i :| 0 <= i < |op.removals| && op.removals[i] == n;
        assert FitsAt(op, w, i);
      }
    } else if PlannedFit(op) {
      PlannedFitLasts(op, w);
    }
  }

  function RemovedNames(op: Operation, states: seq<EntryState>, k: nat): seq<Name>
    requires k <= |states| == |op.removals|
  {
    if k == 0 then []
    else RemovedNames(op, states, k - 1) + if states[k - 1].Removed? then [op.removals[k - 1]] else []
  }

  function Bytes(op: Operation, names: seq<Name>): nat {
    if names == [] then 0
    else
      var n := names[|names| - 1];
      Bytes(op, names[..|names| - 1]) + if n in op.rows then op.rows[n].bytes else 0
  }

  /** The bytes of a report are those its rows declare, each name counted once wherever it stands in the list. */
  lemma {:induction false} BytesAddUp(op: Operation, a: seq<Name>, b: seq<Name>)
    ensures Bytes(op, a + b) == Bytes(op, a) + Bytes(op, b)
    ensures Bytes(op, []) == 0
    ensures forall n :: n in op.rows ==> Bytes(op, [n]) == op.rows[n].bytes
  {
    if b == [] {
      assert a + b == a;
    } else {
      BytesAddUp(op, a, b[..|b| - 1]);
      assert (a + b)[..|a + b| - 1] == a + b[..|b| - 1];
    }
    forall n | n in op.rows ensures Bytes(op, [n]) == op.rows[n].bytes {
      assert [n][..0] == [];
    }
  }

  /** The names reported removed are the planned names on record as removed, in the order of the plan. */
  lemma {:induction false} RemovedNamesAreThose(op: Operation, states: seq<EntryState>, k: nat, n: Name)
    requires k <= |states| == |op.removals|
    ensures RemovedNames(op, states, k) == [] <==> forall i :: 0 <= i < k ==> !states[i].Removed?
    ensures n in RemovedNames(op, states, k) <==> exists i :: 0 <= i < k && op.removals[i] == n && states[i].Removed?
  {
    if k > 0 {
      RemovedNamesAreThose(op, states, k - 1, n);
    }
  }

  lemma {:induction false} AllRemoved(op: Operation, states: seq<EntryState>, k: nat)
    requires k <= |states| == |op.removals| && forall i :: 0 <= i < k ==> states[i].Removed?
    ensures RemovedNames(op, states, k) == op.removals[..k]
  {
    if k > 0 {
      AllRemoved(op, states, k - 1);
      assert op.removals[..k] == op.removals[..k - 1] + [op.removals[k - 1]];
    }
  }

  lemma {:induction false} SameStatesSameNames(op: Operation, a: seq<EntryState>, b: seq<EntryState>, k: nat)
    requires k <= |a| == |b| == |op.removals| && forall i :: 0 <= i < k ==> a[i].Removed? == b[i].Removed?
    ensures RemovedNames(op, a, k) == RemovedNames(op, b, k)
  {
    if k > 0 {
      SameStatesSameNames(op, a, b, k - 1);
    }
  }

  datatype RunState = FullyRemoved | RemovedButUnproven | Incomplete

  /** How a run or a resume ended. `complete` is the report's: everything planned is gone and the journal cleared. */
  datatype RunResult =
    | Reported(complete: bool, protectedVerified: bool, state: RunState, ok: bool)
    | FailedAfterEffect
    | RefusedBeforeEffect
    | RunKilled

  /**
   What a report says of the set the run promised to keep: it was proved from disk, after every removal, exactly
   when there is one and that proof answered yes, and only a complete run that proved it succeeded.
   */
  ghost predicate TellsOfTheKept(op: Operation, r: RunResult, proof: Outcome) {
    r.Reported? ==>
      && (r.protectedVerified <==> op.kept.Some? && proof.Done?)
      && (r.state.Incomplete? <==> !r.complete)
      && (r.state.FullyRemoved? <==> r.complete && op.kept.Some? && proof.Done?)
      && (r.ok <==> r.complete && op.kept.Some? && proof.Done?)
  }

  datatype AbandonState = Abandoned | AbandonedWithLoss | Partial

  datatype AbandonResult =
    | Unwound(state: AbandonState, cleared: bool)
    | AbandonFailedAfterEffect
    | AbandonRefused
    | AbandonKilled

  /**
   One recovery of an interrupted run, and what the system answers to each of its calls. Verifying the kept set
   at the end of a resume has an answer of its own.
   */
  datatype Recovery = ByResume(answers: seq<Outcome>, proof: Outcome) | ByAbandon(answers: seq<Outcome>)

  /** What an abandon says of one planned name. */
  datatype Fate = PutBackNow | AlreadyInPlace | GoneForever | Unresolved

  /** What an abandon that meets no failure says of planned entry `i`, from the disk it opened on. */
  ghost function FateOf(op: Operation, w: World, i: nat): Fate
    requires OnRecord(op, w, i)
  {
    var n := op.removals[i];
    if Begun(w.journal.value.states[i]) then if n in Held(w.quarantine) then Unresolved else GoneForever
    else if n in w.dest then AlreadyInPlace else PutBackNow
  }

  ghost function NamesWith(op: Operation, fates: seq<Fate>, f: Fate): seq<Name>
    requires |fates| <= |op.removals|
  {
    if fates == [] then []
    else
      var last := |fates| - 1;
      NamesWith(op, fates[..last], f) + if fates[last] == f then [op.removals[last]] else []
  }

  lemma NamesWithSnoc(op: Operation, fates: seq<Fate>, next: Fate, f: Fate)
    requires |fates| < |op.removals|
    ensures NamesWith(op, fates + [next], f) ==
            NamesWith(op, fates, f) + if next == f then [op.removals[|fates|]] else []
  {
    assert (fates + [next])[..|fates|] == fates;
  }

  lemma {:induction false} NoneWith(op: Operation, fates: seq<Fate>, f: Fate)
    requires |fates| <= |op.removals|
    ensures NamesWith(op, fates, f) == [] <==> forall i :: 0 <= i < |fates| ==> fates[i] != f
  {
    if fates != [] {
      var last := |fates| - 1;
      NoneWith(op, fates[..last], f);
      assert forall i :: 0 <= i < last ==> fates[..last][i] == fates[i];
    }
  }

  lemma SetAsideKeepsFootprints(op: Operation, w: World, i: nat)
    requires op.WellFormed() && Inv(op, w) && Permitted(op, w, Effect.SetAside(i))
    ensures forall k :: 0 <= k < |op.removals| ==>
      Footprint(op, Apply(op, w, Effect.SetAside(i)), k) == Footprint(op, w, k)
  {
  }

  lemma AbsentFits(op: Operation, w: World, i: nat)
    requires op.WellFormed() && i < |op.removals|
    requires op.removals[i] !in w.dest && op.removals[i] !in Held(w.quarantine)
    ensures FitsAt(op, w, i)
  {
  }

  /** What the invariant says of one entry on record. */
  lemma EntryFacts(op: Operation, w: World, i: nat)
    requires op.WellFormed() && Inv(op, w) && OnRecord(op, w, i)
    ensures EntryHolds(op, w, w.journal.value, i)
  {
  }

  /** A planned set is whole in the destination, or set aside, and never both. */
  lemma PlaceFacts(op: Operation, w: World, i: nat)
    requires op.WellFormed() && Inv(op, w) && i < |op.removals|
    ensures
      var n := op.removals[i];
      && (n in w.dest ==> w.dest[n] == op.initial[n] && n !in Held(w.quarantine))
      && (forall m :: m in Held(w.quarantine) ==> m in op.removals)
  {
  }

  /** The disk shows that some process has done part of the operation. */
  ghost predicate Touched(w: World) {
    || !w.quarantine.Absent?
    || (w.journal.Some? && exists i :: 0 <= i < |w.journal.value.states| && !w.journal.value.states[i].Pending?)
  }

  /** Nothing the program does moves the set it promised to keep. */
  lemma KeptIsUntouched(op: Operation, w: World)
    requires op.WellFormed() && Inv(op, w) && op.kept.Some?
    ensures op.kept.value in w.dest && w.dest[op.kept.value] == op.initial[op.kept.value]
  {
  }

  /** The states this program leaves behind are never refused. */
  lemma SweepFindsNothing(op: Operation, w: World)
    requires op.WellFormed() && Inv(op, w) && w.journal.Some? && w.journal.value.phase.Removing?
    requires |w.journal.value.states| == |op.removals|
    ensures forall i :: 0 <= i < |op.removals| ==> RefusalAt(op, w, w.journal.value.states, i).None?
  {
    forall i | 0 <= i < |op.removals| ensures RefusalAt(op, w, w.journal.value.states, i).None? {
      assert EntryHolds(op, w, w.journal.value, i);
    }
  }

  /** The entry needs nothing more from the renaming phase. */
  predicate IsAside(s: EntryState) {
    s.Quarantined? || s.Deleting? || s.Removed?
  }

  ghost predicate ConsumedStates(states: seq<EntryState>, i: nat)
    requires i <= |states|
  {
    && (forall k :: 0 <= k < |states| ==> IsAside(states[k]))
    && (forall k :: 0 <= k < i ==> states[k].Removed?)
  }

  /** Once every entry is aside, nothing planned is left in the destination. */
  lemma AsideIsOutOfDestination(op: Operation, w: World)
    requires op.WellFormed() && Inv(op, w) && w.journal.Some? && w.journal.value.phase.Removing?
    requires forall k :: 0 <= k < |w.journal.value.states| ==> IsAside(w.journal.value.states[k])
    ensures forall k :: 0 <= k < |op.removals| ==> op.removals[k] !in w.dest
  {
    forall k | 0 <= k < |op.removals| ensures op.removals[k] !in w.dest {
      EntryFacts(op, w, k);
    }
  }

  lemma ConsumedNext(states: seq<EntryState>, i: nat)
    requires i < |states| && ConsumedStates(states, i)
    ensures ConsumedStates(states[i := Removed], i + 1)
  {
  }

  /** Consuming set `i` leaves every other set, the destination and the record alone. */
  ghost predicate OnlyTreeChanged(op: Operation, before: World, after: World, i: nat)
    requires i < |op.removals|
  {
    && after.journal == before.journal && after.dest == before.dest && after.quarantine.Marked?
    && Held(after.quarantine) - {op.removals[i]} == Held(before.quarantine) - {op.removals[i]}
  }

  lemma DestroyChangesOnlyThatTree(op: Operation, before: World, w: World, e: Effect)
    requires Destroys(e) && BeingRemoved(op, w, e.i) && OnlyTreeChanged(op, before, w, e.i)
    ensures OnlyTreeChanged(op, before, Apply(op, w, e), e.i)
    ensures e.Unlink? ==>
      && BeingRemoved(op, Apply(op, w, e), e.i)
      && Apply(op, w, e).quarantine.sets[op.removals[e.i]] == w.quarantine.sets[op.removals[e.i]] - {e.child}
    ensures e.RemoveRoot? ==> op.removals[e.i] !in Held(Apply(op, w, e).quarantine)
  {
  }

  lemma OtherFootprintsKept(op: Operation, before: World, after: World, i: nat)
    requires op.WellFormed() && i < |op.removals| && OnlyTreeChanged(op, before, after, i)
    ensures SameFrom(op, before, after, i + 1)
  {
    forall k | i < k < |op.removals| ensures Footprint(op, after, k) == Footprint(op, before, k) {
      var n := op.removals[k];
      assert n in Held(before.quarantine) - {op.removals[i]} <==> n in Held(after.quarantine) - {op.removals[i]};
    }
  }

  lemma NothingHeldWhenAllRemoved(op: Operation, w: World)
    requires op.WellFormed() && Inv(op, w) && w.journal.Some?
    requires forall i :: 0 <= i < |op.removals| ==> w.journal.value.states[i].Removed?
    ensures Held(w.quarantine) == map[]
  {
    forall n | n in op.removals ensures n !in Held(w.quarantine) {
      var i :| 0 <= i < |op.removals| && op.removals[i] == n;
      assert EntryHolds(op, w, w.journal.value, i);
    }
    assert forall n :: n !in Held(w.quarantine);
  }

  /** What the disk holds of an entry an abandon has settled. */
  ghost predicate SettledAs(op: Operation, w: World, i: nat, f: Fate)
    requires i < |op.removals|
  {
    var n := op.removals[i];
    match f
    case PutBackNow | AlreadyInPlace => n in w.dest && n !in Held(w.quarantine)
    case GoneForever => n !in w.dest && n !in Held(w.quarantine)
    case Unresolved => n !in w.dest && n in Held(w.quarantine)
  }

  /** The record and the places of entry `k` are what they were. */
  ghost predicate SameEntry(op: Operation, before: World, after: World, k: nat)
    requires k < |op.removals|
  {
    && (OnRecord(op, before, k) ==>
          OnRecord(op, after, k) && after.journal.value.states[k] == before.journal.value.states[k])
    && (op.removals[k] in after.dest <==> op.removals[k] in before.dest)
    && (op.removals[k] in Held(after.quarantine) <==> op.removals[k] in Held(before.quarantine))
  }

  lemma EffectOnOneEntry(op: Operation, w: World, e: Effect, k: nat)
    requires op.WellFormed() && (e.Mark? || e.PutBack?) && OnRecord(op, w, e.i) && k < |op.removals| && k != e.i
    ensures SameEntry(op, w, Apply(op, w, e), k)
  {
  }

  lemma SameEntrySameFate(op: Operation, before: World, after: World, k: nat)
    requires OnRecord(op, before, k) && SameEntry(op, before, after, k)
    ensures FateOf(op, after, k) == FateOf(op, before, k)
  {
  }

  /** Every planned name has one fate, it is true of the disk, and it is the expected one or "unresolved". */
  ghost predicate AllSettled(op: Operation, opening: World, now: World, fates: seq<Fate>)
    requires forall k :: 0 <= k < |op.removals| ==> OnRecord(op, opening, k)
  {
    && |fates| == |op.removals|
    && forall k :: 0 <= k < |op.removals| ==>
         SettledAs(op, now, k, fates[k]) && fates[k] in {FateOf(op, opening, k), Unresolved}
  }

  ghost predicate BegunAt(op: Operation, w: World, i: nat) {
    OnRecord(op, w, i) && Begun(w.journal.value.states[i])
  }

  /** The destination with every set that never reached `deleting` in it. */
  ghost function Restored(op: Operation, opening: World): map<Name, Tree> {
    op.initial - (set k | 0 <= k < |op.removals| && BegunAt(op, opening, k) :: op.removals[k])
  }

  lemma AllSettledKept(op: Operation, opening: World, before: World, after: World, fates: seq<Fate>)
    requires forall k :: 0 <= k < |op.removals| ==> OnRecord(op, opening, k)
    requires AllSettled(op, opening, before, fates)
    requires after.dest == before.dest && Held(after.quarantine) == Held(before.quarantine)
    ensures AllSettled(op, opening, after, fates)
  {
    forall k | 0 <= k < |op.removals| ensures SettledAs(op, after, k, fates[k]) {
      assert SettledAs(op, before, k, fates[k]);
    }
  }

  /** Deciding to abandon changes no entry. */
  lemma BeginKeepsFates(op: Operation, w: World)
    requires forall k :: 0 <= k < |op.removals| ==> OnRecord(op, w, k)
    ensures forall k :: 0 <= k < |op.removals| ==>
      && OnRecord(op, Apply(op, w, BeginAbandon), k)
      && FateOf(op, Apply(op, w, BeginAbandon), k) == FateOf(op, w, k)
  {
    forall k | 0 <= k < |op.removals|
      ensures SameEntry(op, w, Apply(op, w, BeginAbandon), k) && OnRecord(op, Apply(op, w, BeginAbandon), k)
    {
      assert OnRecord(op, w, k);
    }
  }

  lemma FatesTellWhetherAnythingBegan(op: Operation, w: World, fates: seq<Fate>)
    requires |fates| == |op.removals| && forall k :: 0 <= k < |fates| ==> OnRecord(op, w, k) && fates[k] == FateOf(op, w, k)
    ensures
      (NamesWith(op, fates, GoneForever) == [] && NamesWith(op, fates, Unresolved) == []) <==>
      forall k :: 0 <= k < |op.removals| ==> !BegunAt(op, w, k)
  {
    NoneWith(op, fates, GoneForever);
    NoneWith(op, fates, Unresolved);
    forall k | 0 <= k < |fates|
      ensures BegunAt(op, w, k) <==> fates[k] == GoneForever || fates[k] == Unresolved
    {
      assert OnRecord(op, w, k) && fates[k] == FateOf(op, w, k);
    }
    if k :| 0 <= k < |op.removals| && BegunAt(op, w, k) {
      assert fates[k] == GoneForever || fates[k] == Unresolved;
    } else {
      assert forall k :: 0 <= k < |fates| ==> fates[k] != GoneForever && fates[k] != Unresolved;
    }
  }

  lemma EveryEntryIsOnRecord(op: Operation, w: World)
    requires op.WellFormed() && Inv(op, w) && w.journal.Some?
    ensures |w.journal.value.states| == |op.removals| && forall k :: 0 <= k < |op.removals| ==> OnRecord(op, w, k)
  {
  }

  lemma NothingHeldWhenAllSettled(op: Operation, w: World, fates: seq<Fate>)
    requires op.WellFormed() && Inv(op, w) && |fates| == |op.removals|
    requires forall k :: 0 <= k < |op.removals| ==> SettledAs(op, w, k, fates[k]) && !fates[k].Unresolved?
    ensures Held(w.quarantine) == map[]
  {
    forall n | n in op.removals ensures n !in Held(w.quarantine) {
      var i :| 0 <= i < |op.removals| && op.removals[i] == n;
      assert SettledAs(op, w, i, fates[i]);
    }
    assert forall n :: n !in Held(w.quarantine);
  }

  lemma SettledAsExpectedRestores(op: Operation, opening: World, now: World, fates: seq<Fate>)
    requires op.WellFormed() && Inv(op, now)
    requires forall k :: 0 <= k < |op.removals| ==> OnRecord(op, opening, k)
    requires AllSettled(op, opening, now, fates)
    requires forall k :: 0 <= k < |op.removals| ==> fates[k] == FateOf(op, opening, k)
    ensures now.dest == Restored(op, opening)
  {
    forall n | n in op.removals ensures n in now.dest <==> n in Restored(op, opening) {
      var i :| 0 <= i < |op.removals| && op.removals[i] == n;
      assert SettledAs(op, now, i, fates[i]);
    }
  }

  // ---------------------------------------------------------------------------------------------------
  // The two ways a run is stranded
  // ---------------------------------------------------------------------------------------------------

  /**
   A process that dies between unlinking the marker and removing the directory leaves a directory no recovery
   accepts as its own: every set is gone and recorded gone, and the disk is not recoverable.
   */
  lemma MarkerUnlinkedAloneStrands(n: Name, child: Path, row: Row) returns (run: seq<Effect>)
    ensures
      var op := OneSet(n, child, row);
      var at := After(op, Planned(op), run);
      && op.WellFormed() && Legal(op, Planned(op), run)
      && at == World(map[], Unmarked, Some(Journal([Removed], Removing)), 0)
      && !Recoverable(op, at)
  {
    var op, w := OneSet(n, child, row), Planned(OneSet(n, child, row));
    var at;
    run, at := RunToUnrecorded(n, child, row);
    run, at := ExtendRun(op, w, run, at, Mark(0, Removed));
    assert at.journal.value.states == [Removed];
    run, at := ExtendRun(op, w, run, at, UnlinkMarker);
  }

  class Engine {
    const op: Operation

    // The disk, and what the system will answer to the calls still to come.
    var world: World
    var script: seq<Outcome>

    // What execute and abandon hold in memory.
    var journal: Journal
    var stopped: bool
    var effected: bool
    var failed: seq<Name>
    var removed: seq<Name>
    var bytesRemoved: nat
    var putBack: seq<Name>
    var goneForever: seq<Name>
    var unresolved: seq<Name>

    // The run so far: where it started, every effect since, and how many of them moved a set.
    ghost var start: World
    ghost var log: seq<Effect>
    ghost var moves: nat
    ghost var movesAtStop: nat
    ghost var fates: seq<Fate>
    ghost var abandoned: bool

    // Whether the operation had left its mark when this process opened it, and whether this process has since set
    // about renaming or removing a set, or found one that was.
    ghost var touched: bool
    ghost var attempted: bool

    ghost predicate Valid()
      reads this`world, this`start, this`log, this`abandoned, this`effected, this`touched, this`attempted
    {
      && op.WellFormed() && Inv(op, start) && Legal(op, start, log)
      && world == After(op, start, log) && Inv(op, world)
      && (BeginAbandon in log ==> abandoned)
      && (effected ==> touched || attempted)
    }

    /** The journal in memory is the one on disk. */
    ghost predicate InSync()
      reads this`world, this`journal
    {
      world.journal == Some(journal) && |journal.states| == |op.removals|
    }

    constructor (op: Operation, world: World, script: seq<Outcome>)
      requires op.WellFormed() && Inv(op, world)
      ensures Valid() && this.op == op && this.world == world && start == world && this.script == script
    {
      this.op, this.world, this.script := op, world, script;
      journal, stopped, effected := Journal([], Removing), false, false;
      failed, removed, bytesRemoved, putBack, goneForever, unresolved := [], [], 0, [], [], [];
      start, log, moves, movesAtStop, fates, abandoned, touched, attempted := world, [], 0, 0, [], false, false, false;
    }

    /** A call that changes nothing on disk. It may fail, and the process may die in it. */
    method Ask() returns (o: Outcome)
      modifies this`script
      ensures old(script) == [] ==> o.Done? && script == []
      ensures old(script) != [] ==> o == old(script)[0] && script == old(script)[1..]
    {
      if script == [] { return Done; }
      o, script := script[0], script[1..];
    }

    /** From here on a failure is one after an effect. */
    method SetAbout()
      requires Valid()
      modifies this`effected, this`attempted
      ensures Valid() && effected && attempted
    {
      hide Inv, Legal, After;
      effected, attempted := true, true;
    }

    /** One effect: it happens whole or not at all. */
    method Perform(e: Effect) returns (o: Outcome)
      requires Valid() && Permitted(op, world, e) && (e.BeginAbandon? ==> abandoned)
      modifies this`world, this`script, this`log, this`moves
      ensures Valid()
      ensures o.Done? ==> world == Apply(op, old(world), e)
      ensures o.Done? ==> moves == old(moves) + if MovesASet(e) then 1 else 0
      ensures !o.Done? ==> world == old(world) && moves == old(moves)
      ensures old(script) == [] ==> o.Done? && script == []
    {
      hide Inv, Legal, After, Apply, Permitted;
      o := Ask();
      if o.Done? {
        EffectKeepsInv(op, world, e);
        LegalThen(op, start, log, e);
        world, log := Apply(op, world, e), log + [e];
        moves := moves + if MovesASet(e) then 1 else 0;
      }
    }

    /** Prove that a tree is the set that was planned. It throws when it is not, and it may throw when it is. */
    method Prove(i: nat, tree: Tree) returns (o: Outcome)
      requires op.WellFormed() && i < |op.removals|
      modifies this`script
      ensures o.Done? ==> tree == op.initial[op.removals[i]]
      ensures old(script) == [] && tree == op.initial[op.removals[i]] ==> o.Done?
      ensures old(script) == [] ==> script == [] && !o.Killed?
    {
      o := Ask();
      if o.Done? && tree != op.initial[op.removals[i]] { o := Throws; }
    }

    /** Make sure of this operation's quarantine directory: claim and publish a missing one, check one that exists. */
    method RequireQuarantine() returns (o: Outcome)
      requires Valid() && world.journal.Some?
      modifies this`world, this`script, this`log, this`moves
      ensures Valid() && moves == old(moves)
      ensures world.dest == old(world).dest && world.journal == old(world).journal
      ensures Held(world.quarantine) == Held(old(world).quarantine)
      ensures !old(world).quarantine.Absent? ==> world == old(world)
      ensures o.Done? ==> world.quarantine.Marked?
      ensures world.quarantine.Unmarked? <==> old(world).quarantine.Unmarked?
      ensures old(script) == [] ==> script == [] && !o.Killed?
      ensures old(script) == [] && !old(world).quarantine.Unmarked? ==> o.Done?
    {
      if world.quarantine.Absent? {
        o := Perform(BuildClaim);
        if o.Done? { o := Perform(PublishQuarantine); }
        return;
      }
      o := Ask();
      if o.Done? && world.quarantine.Unmarked? { return Throws; }
      if o.Done? && exists n :: n in world.quarantine.sets && n !in op.removals { assert false; }
    }

    /** Remove the quarantine directory when its marker is the last thing in it. Answers whether it is gone. */
    method TryRemoveOwnedQuarantine() returns (gone: bool, o: Outcome)
      requires Valid()
      modifies this`world, this`script, this`log, this`moves
      ensures Valid() && moves == old(moves) && !o.Throws?
      ensures world.dest == old(world).dest && world.journal == old(world).journal
      ensures Held(world.quarantine) == Held(old(world).quarantine)
      ensures o.Done? ==> gone == world.quarantine.Absent?
      ensures old(world).quarantine.Unmarked? ==> world.quarantine.Unmarked?
      ensures old(world).quarantine.Absent? ==> world == old(world)
      ensures old(script) == [] ==>
        && o.Done? && script == []
        && (gone <==> old(world).quarantine.Absent? || old(world).quarantine == Marked(map[]))
    {
      hide Inv, Legal, After;
      if world.quarantine.Absent? { return true, Done; }
      o := Ask();
      if o.Killed? { return false, o; }
      if o.Throws? || world.quarantine != Marked(map[]) { return false, Done; }
      o := Perform(UnlinkMarker);
      if o.Done? { o := Perform(RemoveQuarantine); }
      gone := o.Done?;
      if o.Throws? { o := Done; }
    }

    /** Rewrite one entry's state, in memory and then on disk. */
    method WriteMark(i: nat, s: EntryState) returns (o: Outcome)
      requires Valid() && InSync() && OnRecord(op, world, i) && MayMark(op, world, i, s)
      modifies this`world, this`script, this`log, this`moves, this`journal
      ensures Valid() && moves == old(moves)
      ensures journal == old(journal).(states := old(journal).states[i := s])
      ensures o.Done? ==> world == old(world).(journal := Some(journal)) && InSync()
      ensures !o.Done? ==> world == old(world)
      ensures old(script) == [] ==> o.Done? && script == []
    {
      journal := journal.(states := journal.states[i := s]);
      o := Perform(Mark(i, s));
    }

    /** Note that entry `i` failed, and stop. What is recorded `deleting` keeps that record. */
    method Stop(i: nat) returns (o: Outcome)
      requires Valid() && i < |op.removals| == |journal.states| && journal.phase.Removing?
      requires !journal.states[i].Deleting? ==> InSync() && !journal.states[i].Removed?
      modifies this`world, this`script, this`log, this`moves, this`journal, this`failed, this`stopped, this`movesAtStop
      ensures Valid() && moves == old(moves)
      ensures world == old(world).(journal := world.journal)
      ensures journal == old(journal) || journal == old(journal).(states := old(journal).states[i := Failed])
      ensures old(journal).states[i].Deleting? ==> journal == old(journal)
      ensures old(world).journal.Some? ==> world.journal.Some?
      ensures o.Done? ==> stopped && movesAtStop == moves && failed == old(failed) + [op.removals[i]]
      ensures !o.Done? ==> stopped == old(stopped) && failed == old(failed)
      ensures old(script) == [] ==> o.Done? && script == []
    {
      if !journal.states[i].Deleting? {
        o := WriteMark(i, Failed);
        if !o.Done? { return; }
      }
      o, stopped, movesAtStop := Done, true, moves;
      failed := failed + [op.removals[i]];
    }

    // -------------------------------------------------------------------------------------------------
    // The sweep
    // -------------------------------------------------------------------------------------------------

    /** Cross-validate every entry against the disk, and name the first one the table refuses. */
    method SweepPreconditions() returns (refused: Option<nat>)
      requires InSync()
      ensures refused.Some? ==>
        refused.value < |op.removals| && RefusalAt(op, world, journal.states, refused.value).Some?
      ensures refused.None? ==>
        forall i :: 0 <= i < |op.removals| ==> RefusalAt(op, world, journal.states, i).None?
    {
      for i := 0 to |op.removals|
        invariant forall k :: 0 <= k < i ==> RefusalAt(op, world, journal.states, k).None?
      {
        if RefusalAt(op, world, journal.states, i).Some? { return Some(i); }
      }
      return None;
    }

    // -------------------------------------------------------------------------------------------------
    // Setting sets aside
    // -------------------------------------------------------------------------------------------------

    /** What the renaming phase keeps: commitments, tree sizes, and a quarantine directory without a marker. */
    twostate predicate KeepsCommitments()
      requires op.WellFormed()
      reads this`world, this`journal, this`removed, this`bytesRemoved
    {
      && |journal.states| == |op.removals| == |old(journal).states| && journal.phase == old(journal).phase
      && (forall k :: 0 <= k < |op.removals| ==>
            && (Begun(journal.states[k]) || Begun(old(journal).states[k]) ==> journal.states[k] == old(journal).states[k])
            && Footprint(op, world, k) == Footprint(op, old(world), k))
      && (old(world).quarantine.Unmarked? ==> world.quarantine.Unmarked?)
      && removed == old(removed) && bytesRemoved == old(bytesRemoved)
    }

    /** Get one set that is still in the destination into the quarantine directory: prove it, then rename it. */
    method RenameAside(i: nat) returns (o: Outcome)
      requires Valid() && InSync() && journal.phase.Removing? && i < |op.removals|
      requires journal.states[i].Pending? || journal.states[i].Failed?
      requires op.removals[i] in world.dest
      modifies this`world, this`script, this`log, this`moves, this`effected, this`attempted
      ensures Valid() && world.journal == old(world).journal
      ensures old(effected) || moves != old(moves) ==> effected
      ensures forall k :: 0 <= k < |op.removals| ==> Footprint(op, world, k) == Footprint(op, old(world), k)
      ensures o.Done? ==> op.removals[i] in Held(world.quarantine)
      ensures !o.Done? ==> moves == old(moves)
      ensures old(world).quarantine.Unmarked? ==> world.quarantine.Unmarked?
      ensures old(script) == [] ==> script == [] && !o.Killed?
      ensures old(script) == [] && !old(world).quarantine.Unmarked? ==> o.Done?
    {
      hide Inv, Legal, After, Footprint;
      PlaceFacts(op, world, i);
      o := Prove(i, world.dest[op.removals[i]]);
      if o.Done? { o := RequireQuarantine(); }
      RecordsHaveNoFootprint(op, old(world), world);
      if !o.Done? { return; }
      SetAbout();
      SetAsideKeepsFootprints(op, world, i);
      o := Perform(Effect.SetAside(i));
    }

    /** Get one set into the quarantine directory: adopt an interrupted rename, or prove the set and rename it. */
    method BringAside(i: nat) returns (o: Outcome)
      requires Valid() && InSync() && journal.phase.Removing? && i < |op.removals|
      requires journal.states[i].Pending? || journal.states[i].Failed?
      modifies this`world, this`script, this`log, this`moves, this`effected, this`attempted
      ensures Valid() && world.journal == old(world).journal
      ensures old(effected) || moves != old(moves) ==> effected
      ensures forall k :: 0 <= k < |op.removals| ==> Footprint(op, world, k) == Footprint(op, old(world), k)
      ensures o.Done? ==> op.removals[i] in Held(world.quarantine)
      ensures !o.Done? ==> moves == old(moves)
      ensures old(world).quarantine.Unmarked? ==> world.quarantine.Unmarked?
      ensures old(script) == [] ==> script == [] && !o.Killed?
      ensures old(script) == [] && !old(world).quarantine.Unmarked? ==> o.Done?
    {
      hide Inv, Legal, After, Footprint;
      EntryFacts(op, world, i);
      PlaceFacts(op, world, i);
      var name := op.removals[i];
      var inDestination := name in world.dest;
      var inQuarantine := name in Held(world.quarantine);
      if inDestination && inQuarantine { assert false; }
      if !inDestination && !inQuarantine { assert false; }
      if !inQuarantine {
        o := RenameAside(i);
        return;
      }
      o := RequireQuarantine();
      if o.Done? { o := Prove(i, Held(world.quarantine)[name]); }
      if o.Done? { SetAbout(); }
      RecordsHaveNoFootprint(op, old(world), world);
    }

    method SetAsideOne(i: nat) returns (o: Outcome)
      requires Valid() && InSync() && journal.phase.Removing? && !stopped && i < |op.removals|
      modifies this`world, this`script, this`log, this`moves, this`journal
      modifies this`failed, this`stopped, this`movesAtStop, this`effected, this`attempted
      ensures Valid() && KeepsCommitments() && world.journal.Some?
      ensures old(effected) || moves != old(moves) ==> effected
      ensures stopped ==> moves == movesAtStop
      ensures stopped ==> o.Done?
      ensures o.Done? && !stopped ==> InSync() && IsAside(journal.states[i])
      ensures o.Done? && !stopped ==>
        forall k :: 0 <= k < |op.removals| && k != i ==> journal.states[k] == old(journal).states[k]
      ensures !stopped ==> failed == old(failed)
      ensures !old(world).quarantine.Unmarked? && old(script) == [] ==> !stopped && !world.quarantine.Unmarked?
      ensures old(script) == [] ==> o.Done? && script == []
    {
      hide Inv, Legal, After, Footprint;
      if IsAside(journal.states[i]) { return Done; }
      o := BringAside(i);
      ghost var aside := world;
      if o.Throws? {
        o := Stop(i);
      } else if o.Done? {
        o := WriteMark(i, Quarantined);
      }
      RecordsHaveNoFootprint(op, aside, world);
    }

    method SetAllAside() returns (o: Outcome)
      requires Valid() && InSync() && journal.phase.Removing? && !stopped
      modifies this`world, this`script, this`log, this`moves, this`journal
      modifies this`failed, this`stopped, this`movesAtStop, this`effected, this`attempted
      ensures Valid() && KeepsCommitments() && world.journal.Some?
      ensures old(effected) || moves != old(moves) ==> effected
      ensures stopped ==> moves == movesAtStop
      ensures o.Done? && !stopped ==> InSync() && failed == old(failed)
      ensures o.Done? && !stopped ==> forall k :: 0 <= k < |op.removals| ==> IsAside(journal.states[k])
      ensures !old(world).quarantine.Unmarked? && old(script) == [] ==> !stopped && !world.quarantine.Unmarked?
      ensures old(script) == [] ==> o.Done? && script == []
    {
      o := Done;
      for i := 0 to |op.removals|
        invariant Valid() && KeepsCommitments() && o.Done? && InSync() && journal.phase.Removing? && !stopped
        invariant failed == old(failed) && (old(effected) || moves != old(moves) ==> effected)
        invariant forall k :: 0 <= k < i ==> IsAside(journal.states[k])
        invariant !old(world).quarantine.Unmarked? && old(script) == [] ==> !world.quarantine.Unmarked?
        invariant old(script) == [] ==> script == []
      {
        o := SetAsideOne(i);
        if !o.Done? || stopped { return; }
      }
    }

    // -------------------------------------------------------------------------------------------------
    // Consuming them
    // -------------------------------------------------------------------------------------------------

    /** Remove one set aside, entry by entry and then its root, unless it holds more than it declared. */
    method RemoveTree(i: nat) returns (o: Outcome)
      requires Valid() && BeingRemoved(op, world, i) && op.removals[i] !in world.dest
      modifies this`world, this`script, this`log, this`moves
      ensures Valid() && OnlyTreeChanged(op, old(world), world, i)
      ensures o.Done? ==> op.removals[i] !in Held(world.quarantine) && FitsAt(op, old(world), i)
      ensures old(script) == [] ==> script == [] && !o.Killed?
      ensures old(script) == [] && FitsAt(op, old(world), i) ==> o.Done?
    {
      hide Inv, Legal, After;
      var name := op.removals[i];
      o := Ask();
      if !o.Done? { return; }
      if |world.quarantine.sets[name]| > RemovalEntryBound(op.rows[name].entries) { return Throws; }
      while world.quarantine.sets[name] != {}
        invariant Valid() && BeingRemoved(op, world, i) && o.Done? && (old(script) == [] ==> script == [])
        invariant OnlyTreeChanged(op, old(world), world, i)
        decreases |world.quarantine.sets[name]|
      {
        var child :| child in world.quarantine.sets[name];
        DestroyChangesOnlyThatTree(op, old(world), world, Unlink(i, child));
        o := Perform(Unlink(i, child));
        if !o.Done? { return; }
      }
      DestroyChangesOnlyThatTree(op, old(world), world, RemoveRoot(i));
      o := Perform(RemoveRoot(i));
    }

    method RecordRemoved(i: nat)
      requires op.WellFormed() && i < |op.removals| && bytesRemoved == Bytes(op, removed)
      modifies this`removed, this`bytesRemoved
      ensures removed == old(removed) + [op.removals[i]] && bytesRemoved == Bytes(op, removed)
    {
      removed := removed + [op.removals[i]];
      bytesRemoved := bytesRemoved + op.rows[op.removals[i]].bytes;
      assert removed[..|removed| - 1] == old(removed);
    }

    /** Everything up to entry `i` is removed and recorded so, and everything planned has left the destination. */
    ghost predicate ConsumedTo(i: nat)
      reads this`world, this`journal
    {
      InSync() && journal.phase.Removing? && i <= |op.removals| && ConsumedStates(journal.states, i)
    }

    /** What the report says is removed is what the journal in memory says is removed. */
    ghost predicate ReportsRemoved(i: nat)
      reads this`journal, this`removed, this`bytesRemoved
    {
      && i <= |op.removals| == |journal.states|
      && removed == RemovedNames(op, journal.states, i) && bytesRemoved == Bytes(op, removed)
    }

    /** Prove one set aside whole, and record that its removal begins. */
    method Commit(i: nat) returns (o: Outcome)
      requires Valid() && i < |op.removals| && ConsumedTo(i) && journal.states[i].Quarantined?
      requires op.removals[i] in Held(world.quarantine)
      modifies this`world, this`script, this`log, this`moves, this`journal
      ensures Valid() && moves == old(moves) && world == old(world).(journal := world.journal) && world.journal.Some?
      ensures journal == old(journal) || journal == old(journal).(states := old(journal).states[i := Deleting])
      ensures !o.Done? && !journal.states[i].Deleting? ==> InSync()
      ensures o.Done? ==> InSync() && journal.states[i].Deleting?
      ensures old(script) == [] ==> script == [] && o.Done?
    {
      hide Inv, Legal, After;
      EntryFacts(op, world, i);
      AsideIsOutOfDestination(op, world);
      o := Prove(i, Held(world.quarantine)[op.removals[i]]);
      if o.Done? { o := WriteMark(i, Deleting); }
    }

    /** What lets a removal start: this operation's own directory, and a record of `deleting`, made now or before. */
    method Authorise(i: nat) returns (o: Outcome)
      requires Valid() && i < |op.removals| && ConsumedTo(i) && !journal.states[i].Removed?
      requires op.removals[i] in Held(world.quarantine)
      modifies this`world, this`script, this`log, this`moves, this`journal
      ensures Valid() && moves == old(moves) && world == old(world).(journal := world.journal) && world.journal.Some?
      ensures journal == old(journal) || journal == old(journal).(states := old(journal).states[i := Deleting])
      ensures !o.Done? && !journal.states[i].Deleting? ==> InSync()
      ensures o.Done? ==> InSync() && journal.states[i].Deleting?
      ensures old(script) == [] ==> script == [] && o.Done?
    {
      hide Inv, Legal, After;
      o := RequireQuarantine();
      if o.Done? && journal.states[i].Quarantined? { o := Commit(i); }
    }

    /** Prove one set whole, record `deleting`, and remove it; or finish one already recorded so. */
    method Destroy(i: nat) returns (o: Outcome)
      requires Valid() && i < |op.removals| && ConsumedTo(i) && !journal.states[i].Removed?
      requires op.removals[i] in Held(world.quarantine)
      modifies this`world, this`script, this`log, this`moves, this`journal, this`effected, this`attempted
      ensures Valid() && world.journal.Some?
      ensures journal == old(journal) || journal == old(journal).(states := old(journal).states[i := Deleting])
      ensures o.Throws? && !journal.states[i].Deleting? ==> InSync()
      ensures o.Done? ==> InSync() && journal.states[i].Deleting? && op.removals[i] !in Held(world.quarantine)
      ensures o.Done? ==> FitsAt(op, old(world), i)
      ensures SameFrom(op, old(world), world, i + 1)
      ensures world.quarantine.Unmarked? <==> old(world).quarantine.Unmarked?
      ensures old(effected) || moves != old(moves) ==> effected
      ensures old(script) == [] ==> script == [] && !o.Killed?
      ensures old(script) == [] && FitsAt(op, old(world), i) ==> o.Done?
    {
      hide Inv, Legal, After, Footprint, FitsAt, SameFrom;
      AsideIsOutOfDestination(op, world);
      o := Authorise(i);
      ghost var before := world;
      RecordsHaveNoSize(op, old(world), before, i);
      if !o.Done? { return; }
      SetAbout();
      o := RemoveTree(i);
      OtherFootprintsKept(op, before, world, i);
      SameFromThen(op, old(world), before, world, i + 1);
    }

    /** The set is gone from the disk: record that, on disk and in the report. */
    method RecordConsumed(i: nat) returns (o: Outcome)
      requires Valid() && i < |op.removals| && ConsumedTo(i) && ReportsRemoved(i)
      requires journal.states[i].Deleting? && op.removals[i] !in Held(world.quarantine)
      modifies this`world, this`script, this`log, this`moves, this`journal, this`removed, this`bytesRemoved
      ensures Valid() && moves == old(moves) && journal.phase.Removing? && world.journal.Some?
      ensures o.Done? ==> ReportsRemoved(i + 1) && ConsumedTo(i + 1)
      ensures world == old(world).(journal := world.journal)
      ensures old(script) == [] ==> script == [] && o.Done?
    {
      hide Inv, Legal, After;
      ghost var before := journal.states;
      ConsumedNext(before, i);
      SameStatesSameNames(op, before, before[i := Removed], i);
      o := WriteMark(i, Removed);
      if o.Done? { RecordRemoved(i); }
    }

    /** Remove the tree of one entry that is still in the quarantine directory, or stop at it. */
    method ConsumeTree(i: nat) returns (o: Outcome)
      requires Valid() && i < |op.removals| && ConsumedTo(i) && ReportsRemoved(i) && !stopped
      requires !journal.states[i].Removed? && op.removals[i] in Held(world.quarantine)
      modifies this`world, this`script, this`log, this`moves, this`journal, this`failed, this`stopped, this`movesAtStop
      modifies this`effected, this`attempted
      ensures Valid() && journal.phase.Removing? && world.journal.Some?
      ensures stopped ==> moves == movesAtStop
      ensures old(effected) || moves != old(moves) ==> effected
      ensures o.Done? ==> ReportsRemoved(i)
      ensures o.Done? && stopped ==> !journal.states[i].Removed?
      ensures o.Done? && !stopped ==> ConsumedTo(i) && journal.states[i].Deleting? && op.removals[i] !in Held(world.quarantine)
      ensures o.Done? && !stopped ==> FitsAt(op, old(world), i) && failed == old(failed)
      ensures SameFrom(op, old(world), world, i + 1)
      ensures old(world).quarantine.Unmarked? <==> world.quarantine.Unmarked?
      ensures old(script) == [] ==> script == [] && o.Done?
      ensures old(script) == [] && FitsAt(op, old(world), i) ==> !stopped
    {
      hide Inv, Legal, After, Footprint, FitsAt, Bytes, SameFrom, RemovedNames;
      ghost var before := journal.states;
      o := Destroy(i);
      ghost var partial := world;
      if o.Throws? { o := Stop(i); }
      RecordsHaveNoSize(op, partial, world, i);
      SameFromThen(op, old(world), partial, world, i + 1);
      SameStatesSameNames(op, before, journal.states, i);
    }

    /** Take one entry that is not yet recorded removed to its end, or stop at it. */
    method FinishOne(i: nat) returns (o: Outcome)
      requires Valid() && i < |op.removals| && ConsumedTo(i) && ReportsRemoved(i) && !stopped
      requires !journal.states[i].Removed?
      modifies this`world, this`script, this`log, this`moves, this`journal, this`failed, this`stopped, this`movesAtStop
      modifies this`removed, this`bytesRemoved, this`effected, this`attempted
      ensures Valid() && journal.phase.Removing? && world.journal.Some?
      ensures stopped ==> moves == movesAtStop
      ensures old(effected) || moves != old(moves) ==> effected
      ensures o.Done? ==> ConsumingFrom(i + 1)
      ensures o.Done? && !stopped ==> FitsAt(op, old(world), i) && failed == old(failed)
      ensures SameFrom(op, old(world), world, i + 1)
      ensures old(world).quarantine.Unmarked? <==> world.quarantine.Unmarked?
      ensures old(script) == [] ==> script == [] && o.Done?
      ensures old(script) == [] && FitsAt(op, old(world), i) ==> !stopped
    {
      hide Inv, Legal, After, Footprint, FitsAt, Bytes, SameFrom;
      EntryFacts(op, world, i);
      if op.removals[i] in Held(world.quarantine) {
        o := ConsumeTree(i);
        if !o.Done? || stopped { return; }
      } else if journal.states[i].Quarantined? {
        assert false;
      } else {
        AbsentFits(op, world, i);
        RecordsHaveNoSize(op, world, world, i);
        SetAbout();
      }
      ghost var consumed := world;
      o := RecordConsumed(i);
      RecordsHaveNoSize(op, consumed, world, i);
      SameFromThen(op, old(world), consumed, world, i + 1);
    }

    /** Where the loop over the entries stands before entry `i`. */
    ghost predicate ConsumingFrom(i: nat)
      reads this`world, this`start, this`log, this`abandoned, this`journal, this`removed, this`bytesRemoved
      reads this`effected, this`touched, this`attempted
      reads this`stopped, this`moves, this`movesAtStop
    {
      && Valid() && (!stopped ==> ConsumedTo(i)) && ReportsRemoved(i)
      && (stopped ==> moves == movesAtStop) && journal.phase.Removing? && world.journal.Some?
    }

    lemma ConsumingMeans(i: nat)
      requires ConsumingFrom(i)
      ensures Valid() && (!stopped ==> ConsumedTo(i)) && ReportsRemoved(i)
      ensures (stopped ==> moves == movesAtStop) && journal.phase.Removing? && world.journal.Some?
    {
    }

    lemma ConsumingStarts()
      requires Valid() && |journal.states| == |op.removals| && (!stopped ==> ConsumedTo(0))
      requires stopped ==> moves == movesAtStop
      requires removed == [] && bytesRemoved == 0 && journal.phase.Removing? && world.journal.Some?
      ensures ConsumingFrom(0)
    {
    }

    method ConsumeOne(i: nat) returns (o: Outcome)
      requires i < |op.removals| && ConsumingFrom(i)
      modifies this`world, this`script, this`log, this`moves, this`journal, this`failed, this`stopped, this`movesAtStop
      modifies this`removed, this`bytesRemoved, this`effected, this`attempted
      ensures Valid() && journal.phase.Removing? && world.journal.Some?
      ensures stopped ==> moves == movesAtStop
      ensures old(stopped) ==> stopped
      ensures old(effected) || moves != old(moves) ==> effected
      ensures o.Done? ==> ConsumingFrom(i + 1)
      ensures o.Done? && !stopped ==> FitsAt(op, old(world), i) && failed == old(failed)
      ensures SameFrom(op, old(world), world, i + 1)
      ensures old(world).quarantine.Unmarked? <==> world.quarantine.Unmarked?
      ensures old(script) == [] ==> script == [] && o.Done?
      ensures old(script) == [] && !old(stopped) && FitsAt(op, old(world), i) ==> !stopped
    {
      hide Inv, Legal, After, Footprint, FitsAt, SameFrom, Bytes;
      RecordsHaveNoSize(op, world, world, i);
      if journal.states[i].Removed? {
        if !stopped {
          EntryFacts(op, world, i);
          AbsentFits(op, world, i);
        }
        RecordRemoved(i);
        return Done;
      }
      if stopped { return Done; }
      o := FinishOne(i);
    }

    method ConsumeAll() returns (o: Outcome)
      requires Valid() && |journal.states| == |op.removals| && (!stopped ==> ConsumedTo(0))
      requires stopped ==> moves == movesAtStop
      requires removed == [] && bytesRemoved == 0 && journal.phase.Removing? && world.journal.Some?
      modifies this`world, this`script, this`log, this`moves, this`journal, this`failed, this`stopped, this`movesAtStop
      modifies this`removed, this`bytesRemoved, this`effected, this`attempted
      ensures Valid() && journal.phase.Removing? && world.journal.Some?
      ensures stopped ==> moves == movesAtStop
      ensures old(stopped) ==> stopped
      ensures old(effected) || moves != old(moves) ==> effected
      ensures o.Done? ==> ReportsRemoved(|op.removals|)
      ensures o.Done? && !stopped ==> ConsumedTo(|op.removals|) && failed == old(failed)
      ensures o.Done? && !stopped ==> FitBelow(op, old(world), |op.removals|)
      ensures old(world).quarantine.Unmarked? <==> world.quarantine.Unmarked?
      ensures old(script) == [] ==> script == [] && o.Done?
      ensures old(script) == [] && !old(stopped) && FitBelow(op, old(world), |op.removals|) ==> !stopped
    {
      hide Inv, Legal, After, Footprint, RemovedNames, Bytes, ReportsRemoved, ConsumedStates, FitsAt, FitBelow, SameFrom, ConsumedTo, InSync, ConsumingFrom;
      ConsumingStarts();
      o := Done;
      ghost var n, opening, untroubled := |op.removals|, world, script == [];
      ghost var stoppedThen, effectedThen, movesThen, failedThen := stopped, effected, moves, failed;
      ghost var fits := script == [] && !stopped && FitBelow(op, world, n);
      FitBelowNone(op, opening);
      for i := 0 to |op.removals|
        invariant o.Done? && ConsumingFrom(i)
        invariant stoppedThen ==> stopped
        invariant effectedThen || moves != movesThen ==> effected
        invariant !stopped ==> failed == failedThen
        invariant !stopped ==> FitBelow(op, opening, i)
        invariant SameFrom(op, opening, world, i)
        invariant opening.quarantine.Unmarked? <==> world.quarantine.Unmarked?
        invariant untroubled ==> script == []
        invariant fits ==> !stopped
      {
        ghost var before := world;
        o := ConsumeOne(i);
        if !o.Done? { return; }
        SameFromStep(op, opening, before, world, i);
        FitBelowStep(op, opening, i);
      }
      ConsumingMeans(n);
    }

    // -------------------------------------------------------------------------------------------------
    // Run and resume
    // -------------------------------------------------------------------------------------------------

    /**
     Verify the protected set again, and clear the journal if nothing planned is left anywhere. `proof` is what
     comes of verifying it: it verifies and is restorable, it does not or the call throws, or the process dies.
     */
    method Conclude(proof: Outcome) returns (complete: bool, protectedVerified: bool, o: Outcome)
      requires Valid() && |journal.states| == |op.removals| && (!stopped && failed == [] ==> ConsumedTo(|op.removals|))
      modifies this`world, this`script, this`log, this`moves
      ensures Valid() && moves == old(moves)
      ensures o.Done? && complete ==> !stopped && failed == [] && Pruned(op, world)
      ensures o.Done? && !complete ==> world.journal == old(world).journal
      ensures old(world).quarantine.Unmarked? ==> world.quarantine.Unmarked? && !complete
      ensures o.Done? ==> (protectedVerified <==> op.kept.Some? && proof.Done?)
      ensures old(script) == [] && !proof.Killed? ==>
        && o.Done? && script == []
        && (complete <==> !stopped && failed == [] && !old(world).quarantine.Unmarked?)
    {
      hide Inv, Legal, After;
      complete, protectedVerified, o := false, false, Done;
      if op.kept.Some? {
        if proof.Killed? { return false, false, Killed; }
        KeptIsUntouched(op, world);
        protectedVerified := op.kept.value in world.dest && proof.Done?;
      }
      if stopped || failed != [] { return; }
      AllRemovedLeavesTheKept(op, world);
      NothingHeldWhenAllRemoved(op, world);
      var gone: bool;
      gone, o := TryRemoveOwnedQuarantine();
      complete := gone && o.Done?;
      if !complete { return; }
      o := Perform(ClearJournal);
    }

    /** What everything removed means for the report: all of it is named, and all of its bytes are counted. */
    ghost predicate ReportsEverything()
      reads this`removed, this`bytesRemoved, this`failed
    {
      removed == op.removals && bytesRemoved == Bytes(op, op.removals) && failed == []
    }

    /** Set everything aside, consume everything, conclude: to the end, or to the first thing that throws. */
    method Attempt(proof: Outcome) returns (complete: bool, protectedVerified: bool, o: Outcome)
      requires Valid() && InSync() && journal.phase.Removing? && !stopped && failed == removed == [] && bytesRemoved == 0
      modifies this`world, this`script, this`log, this`moves, this`journal, this`failed, this`stopped, this`movesAtStop
      modifies this`removed, this`bytesRemoved, this`effected, this`attempted
      ensures Valid()
      ensures stopped ==> moves == movesAtStop
      ensures old(effected) || moves != old(moves) ==> effected
      ensures o.Done? ==> ReportsRemoved(|op.removals|)
      ensures o.Done? && complete ==> Pruned(op, world) && Recoverable(op, old(world)) && ReportsEverything()
      ensures o.Done? && !complete ==> world.journal.Some?
      ensures o.Done? ==> (protectedVerified <==> op.kept.Some? && proof.Done?)
      ensures old(script) == [] && !proof.Killed? ==>
        o.Done? && script == [] && (complete <==> Recoverable(op, old(world)))
      ensures old(world).quarantine.Unmarked? ==> world.quarantine.Unmarked?
    {
      hide Inv, Legal, After, Footprint, RemovedNames, Bytes;
      complete, protectedVerified := false, false;
      SweepFindsNothing(op, world);
      var refused := SweepPreconditions();
      if refused.Some? { assert false; }
      o := SetAllAside();
      if !o.Done? { return; }
      ghost var aside := world;
      assert !stopped ==> ConsumedStates(journal.states, 0);
      forall k | 0 <= k < |op.removals| ensures FitsAt(op, aside, k) == FitsAt(op, old(world), k) {
        assert Footprint(op, aside, k) == Footprint(op, old(world), k);
      }
      o := ConsumeAll();
      if !o.Done? { return; }
      complete, protectedVerified, o := Conclude(proof);
      if o.Done? && complete {
        AllRemoved(op, journal.states, |op.removals|);
        assert op.removals[..|op.removals|] == op.removals;
      }
    }

    /** The report of a run, or of its failure, once a directory left empty is gone. */
    method Report(threw: bool, complete: bool, verified: bool) returns (r: RunResult)
      requires Valid() && (complete && !threw ==> Pruned(op, world))
      modifies this`world, this`script, this`log, this`moves
      ensures Valid() && moves == old(moves) && world.journal == old(world).journal
      ensures r.RunKilled? || (if threw then r.FailedAfterEffect? else r.Reported?)
      ensures r.Reported? ==> r.complete == complete && r.protectedVerified == verified
      ensures r.Reported? ==> (r.state.Incomplete? <==> !complete) && (r.state.FullyRemoved? <==> complete && verified)
      ensures r.Reported? ==> (r.ok <==> complete && verified)
      ensures complete && !threw ==> world == old(world)
      ensures old(world).quarantine.Unmarked? ==> world.quarantine.Unmarked?
      ensures old(script) == [] ==> !r.RunKilled?
    {
      hide Inv, Legal, After;
      var _, o := TryRemoveOwnedQuarantine();
      if o.Killed? { return RunKilled; }
      if threw { return FailedAfterEffect; }
      var state := if !complete then Incomplete else if verified then FullyRemoved else RemovedButUnproven;
      return Reported(complete, verified, state, state.FullyRemoved?);
    }

    /** Whether the operation has left its mark: an entry is no longer pending, or the quarantine path is taken. */
    method HasBegun() returns (begun: bool)
      requires world.journal.Some?
      ensures begun == Touched(world)
    {
      var states := world.journal.value.states;
      begun := (exists i :: 0 <= i < |states| && !states[i].Pending?) || !world.quarantine.Absent?;
    }

    /** Nothing is reported yet, and what other processes did counts as an effect. */
    method Open()
      requires Valid() && InSync()
      modifies this`stopped, this`failed, this`removed, this`bytesRemoved, this`effected, this`attempted, this`touched
      ensures Valid() && InSync() && !stopped && failed == removed == [] && bytesRemoved == 0
      ensures effected == touched == Touched(world) && !attempted
    {
      hide Inv, Legal, After, Touched;
      stopped, failed, removed, bytesRemoved := false, [], [], 0;
      effected := HasBegun();
      touched, attempted := effected, false;
    }

    lemma EffectedMeans()
      requires Valid()
      ensures effected ==> touched || attempted
    {
      hide Inv, Legal, After;
    }

    /** Continue the journal in memory to its end, or to the first failure, and report. */
    method Execute(proof: Outcome) returns (r: RunResult)
      requires Valid() && InSync() && journal.phase.Removing?
      modifies this`world, this`script, this`log, this`moves, this`journal, this`failed, this`stopped, this`movesAtStop
      modifies this`removed, this`bytesRemoved, this`effected, this`attempted, this`touched
      ensures Valid()
      ensures stopped ==> moves == movesAtStop
      ensures r.RefusedBeforeEffect? ==> moves == old(moves) && !Touched(old(world))
      ensures r.FailedAfterEffect? ==> Touched(old(world)) || attempted
      ensures r.Reported? ==> ReportsRemoved(|op.removals|)
      ensures r.Reported? && r.complete ==> Pruned(op, world) && Recoverable(op, old(world)) && ReportsEverything()
      ensures r.Reported? && !r.complete ==> world.journal.Some?
      ensures TellsOfTheKept(op, r, proof)
      ensures old(script) == [] && !proof.Killed? ==> r.Reported? && (r.complete <==> Recoverable(op, old(world)))
      ensures old(world).quarantine.Unmarked? ==> world.quarantine.Unmarked?
    {
      hide Valid, Footprint, RemovedNames, Bytes, Recoverable, Touched, Pruned;
      Open();
      var complete, verified, o := Attempt(proof);
      EffectedMeans();
      if o.Killed? { return RunKilled; }
      if o.Throws? && !effected { return RefusedBeforeEffect; }
      r := Report(o.Throws?, complete, verified);
    }

    /**
     Start the planned operation. The plan was read under the lock, so unless a journal is in the way every
     planned set is in the destination and nothing is at the quarantine path of a fresh suffix.
     */
    method Run(answers: seq<Outcome>, proof: Outcome) returns (r: RunResult)
      requires Valid()
      requires world.journal.None? ==> world.quarantine.Absent? && forall n :: n in op.removals ==> n in world.dest
      modifies this`world, this`script, this`log, this`moves, this`journal, this`failed, this`stopped, this`movesAtStop
      modifies this`removed, this`bytesRemoved, this`effected, this`attempted, this`touched
      ensures Valid()
      ensures old(world).journal.Some? ==> r.RefusedBeforeEffect? && world == old(world)
      ensures r.RefusedBeforeEffect? ==> moves == old(moves)
      ensures r.FailedAfterEffect? ==> attempted
      ensures r.Reported? && r.complete ==> Pruned(op, world) && ReportsEverything()
      ensures r.Reported? && !r.complete ==> world.journal.Some?
      ensures TellsOfTheKept(op, r, proof)
      ensures old(world).journal.None? && answers == [] && !proof.Killed? ==>
        r.Reported? && (r.complete <==> Recoverable(op, old(world)))
    {
      hide Inv, Legal, After, Footprint, FitsAt;
      script, stopped := answers, false;
      if world.journal.Some? { return RefusedBeforeEffect; }
      journal := Journal(seq(|op.removals|, i => Pending), Removing);
      var o := Perform(StartJournal);
      if o.Killed? { return RunKilled; }
      if o.Throws? { return RefusedBeforeEffect; }
      RecordsKeepFit(op, old(world), world);
      r := Execute(proof);
    }

    /**
     Continue an interrupted run from the journal on disk. When nothing fails it finishes exactly when the
     disk is recoverable, and then the disk, the report and the bytes are those of an uninterrupted run.
     */
    method Resume(answers: seq<Outcome>, proof: Outcome) returns (r: RunResult)
      requires Valid()
      modifies this`world, this`script, this`log, this`moves, this`journal, this`failed, this`stopped, this`movesAtStop
      modifies this`removed, this`bytesRemoved, this`effected, this`attempted, this`touched
      ensures Valid()
      ensures old(world).journal.None? || old(world).journal.value.phase.Abandoning? ==>
        r.RefusedBeforeEffect? && world == old(world)
      ensures r.RefusedBeforeEffect? ==> moves == old(moves)
      ensures r.RefusedBeforeEffect? && old(world).journal.Some? && old(world).journal.value.phase.Removing? ==>
        !Touched(old(world))
      ensures r.FailedAfterEffect? ==> Touched(old(world)) || attempted
      ensures r.Reported? && r.complete ==> Pruned(op, world) && ReportsEverything()
      ensures r.Reported? && !r.complete ==> world.journal.Some?
      ensures TellsOfTheKept(op, r, proof)
      ensures old(world).journal.Some? && old(world).journal.value.phase.Removing? && answers == [] && !proof.Killed? ==>
        r.Reported? && (r.complete <==> Recoverable(op, old(world)))
      ensures old(world).quarantine.Unmarked? ==> world.quarantine.Unmarked?
    {
      hide Legal, After, Footprint;
      script, stopped := answers, false;
      if world.journal.None? || world.journal.value.phase.Abandoning? { return RefusedBeforeEffect; }
      journal := world.journal.value;
      r := Execute(proof);
    }

    // -------------------------------------------------------------------------------------------------
    // Abandon
    // -------------------------------------------------------------------------------------------------

    /** The three lists of the report say of each entry settled so far what happened to it, and nothing else. */
    ghost predicate ListsAre(f: seq<Fate>)
      reads this`putBack, this`goneForever, this`unresolved
    {
      && |f| <= |op.removals|
      && putBack == NamesWith(op, f, PutBackNow)
      && goneForever == NamesWith(op, f, GoneForever)
      && unresolved == NamesWith(op, f, Unresolved)
    }

    method Settle(i: nat, f: Fate)
      requires ListsAre(fates) && i == |fates| < |op.removals|
      modifies this`putBack, this`goneForever, this`unresolved, this`fates
      ensures fates == old(fates) + [f] && ListsAre(fates)
    {
      var name := op.removals[i];
      match f {
        case PutBackNow => putBack := putBack + [name];
        case GoneForever => goneForever := goneForever + [name];
        case Unresolved => unresolved := unresolved + [name];
        case AlreadyInPlace =>
      }
      NamesWithSnoc(op, fates, f, PutBackNow);
      NamesWithSnoc(op, fates, f, GoneForever);
      NamesWithSnoc(op, fates, f, Unresolved);
      fates := fates + [f];
    }

    /** Record one entry's state while abandoning; nothing else on record changes. */
    method MarkSettled(i: nat, s: EntryState) returns (o: Outcome)
      requires Valid() && InSync() && journal.phase.Abandoning? && OnRecord(op, world, i) && MayMark(op, world, i, s)
      modifies this`world, this`script, this`log, this`moves, this`journal
      ensures Valid() && moves == old(moves) && world.journal.Some?
      ensures world.dest == old(world).dest && world.quarantine == old(world).quarantine
      ensures o.Done? ==> InSync() && journal.phase.Abandoning?
      ensures o.Done? ==> forall k :: 0 <= k < |op.removals| && k != i ==> SameEntry(op, old(world), world, k)
      ensures o.Done? ==> OnRecord(op, world, i) && world.journal.value.states[i] == s
      ensures old(script) == [] ==> o.Done? && script == []
    {
      hide Inv, Legal, After;
      o := WriteMark(i, s);
    }

    /** Rename one whole set back under its own name, once it and the directory it is in are proved. */
    method RenameBack(i: nat) returns (o: Outcome)
      requires Valid() && InSync() && journal.phase.Abandoning? && i < |op.removals|
      requires !Begun(journal.states[i]) && op.removals[i] in Held(world.quarantine)
      modifies this`world, this`script, this`log, this`moves, this`effected, this`attempted
      ensures Valid() && InSync() && world.quarantine.Marked?
      ensures old(effected) || moves != old(moves) ==> effected
      ensures forall k :: 0 <= k < |op.removals| && k != i ==> SameEntry(op, old(world), world, k)
      ensures o.Done? ==> SettledAs(op, world, i, PutBackNow)
      ensures !o.Done? ==> SettledAs(op, world, i, Unresolved) && world == old(world)
      ensures old(script) == [] ==> o.Done? && script == []
    {
      hide Inv, Legal, After;
      EntryFacts(op, world, i);
      PlaceFacts(op, world, i);
      if op.removals[i] in world.dest { assert false; }
      o := RequireQuarantine();
      if o.Done? { o := Prove(i, world.quarantine.sets[op.removals[i]]); }
      if o.Done? {
        forall k | 0 <= k < |op.removals| && k != i
          ensures SameEntry(op, world, Apply(op, world, Effect.PutBack(i)), k)
        {
          EffectOnOneEntry(op, world, Effect.PutBack(i), k);
        }
        SetAbout();
        o := Perform(Effect.PutBack(i));
      }
    }

    /** Settle one whole set found in the quarantine directory: back under its own name, or left where it is. */
    method AbandonWhole(i: nat) returns (o: Outcome)
      requires Valid() && InSync() && journal.phase.Abandoning? && i == |fates| < |op.removals| && ListsAre(fates)
      requires !Begun(journal.states[i]) && op.removals[i] in Held(world.quarantine)
      modifies this`world, this`script, this`log, this`moves, this`journal
      modifies this`putBack, this`goneForever, this`unresolved, this`fates, this`effected, this`attempted
      ensures Valid() && ListsAre(fates) && world.journal.Some?
      ensures old(effected) || moves != old(moves) ==> effected
      ensures o.Done? ==> InSync() && journal.phase.Abandoning? && |fates| == i + 1 && fates[..i] == old(fates)
      ensures o.Done? ==> SettledAs(op, world, i, fates[i]) && fates[i] in {PutBackNow, Unresolved}
      ensures o.Done? ==> forall k :: 0 <= k < |op.removals| && k != i ==> SameEntry(op, old(world), world, k)
      ensures world.quarantine.Marked?
      ensures old(script) == [] ==> o.Done? && script == [] && fates[i] == PutBackNow
    {
      hide Inv, Legal, After, NamesWith;
      o := RenameBack(i);
      if o.Throws? {
        Settle(i, Unresolved);
        o := Done;
      } else if o.Done? {
        ghost var back := world;
        Settle(i, PutBackNow);
        o := MarkSettled(i, Pending);
        forall k | o.Done? && 0 <= k < |op.removals| && k != i ensures SameEntry(op, old(world), world, k) {
          assert SameEntry(op, old(world), back, k) && SameEntry(op, back, world, k);
        }
      }
    }

    /** Settle one entry that is not in the quarantine directory: in place already, or destroyed unrecorded. */
    method AbandonMissing(i: nat) returns (o: Outcome)
      requires Valid() && InSync() && journal.phase.Abandoning? && i == |fates| < |op.removals| && ListsAre(fates)
      requires !journal.states[i].Removed? && op.removals[i] !in Held(world.quarantine)
      modifies this`world, this`script, this`log, this`moves, this`journal
      modifies this`putBack, this`goneForever, this`unresolved, this`fates
      ensures Valid() && ListsAre(fates) && world.journal.Some? && moves == old(moves)
      ensures o.Done? ==> InSync() && journal.phase.Abandoning? && |fates| == i + 1 && fates[..i] == old(fates)
      ensures o.Done? ==> SettledAs(op, world, i, fates[i]) && fates[i] == FateOf(op, old(world), i)
      ensures o.Done? && fates[i].GoneForever? ==> world.journal.value.states[i].Removed?
      ensures o.Done? ==> forall k :: 0 <= k < |op.removals| && k != i ==> SameEntry(op, old(world), world, k)
      ensures world.quarantine == old(world).quarantine
      ensures old(script) == [] ==> o.Done? && script == []
    {
      hide Inv, Legal, After, NamesWith;
      var name := op.removals[i];
      EntryFacts(op, world, i);
      if name in world.dest {
        Settle(i, AlreadyInPlace);
        o := MarkSettled(i, Pending);
        return;
      }
      if !journal.states[i].Deleting? { assert false; }
      Settle(i, GoneForever);
      o := MarkSettled(i, Removed);
    }

    /** Settle one entry. What is recorded as being removed is never put back. */
    method AbandonOne(i: nat) returns (o: Outcome)
      requires Valid() && InSync() && journal.phase.Abandoning? && i == |fates| < |op.removals| && ListsAre(fates)
      modifies this`world, this`script, this`log, this`moves, this`journal
      modifies this`putBack, this`goneForever, this`unresolved, this`fates, this`effected, this`attempted
      ensures Valid() && ListsAre(fates) && world.journal.Some?
      ensures old(effected) || moves != old(moves) ==> effected
      ensures o.Done? ==> InSync() && journal.phase.Abandoning? && |fates| == i + 1 && fates[..i] == old(fates)
      ensures o.Done? ==> SettledAs(op, world, i, fates[i])
      ensures o.Done? && fates[i].GoneForever? ==> world.journal.value.states[i].Removed?
      ensures o.Done? ==> fates[i] in {FateOf(op, old(world), i), Unresolved}
      ensures o.Done? ==> forall k :: 0 <= k < |op.removals| && k != i ==> SameEntry(op, old(world), world, k)
      ensures world.quarantine.Unmarked? <==> old(world).quarantine.Unmarked?
      ensures old(script) == [] ==> o.Done? && script == [] && fates[i] == FateOf(op, old(world), i)
    {
      hide Inv, Legal, After, NamesWith;
      EntryFacts(op, world, i);
      PlaceFacts(op, world, i);
      if journal.states[i].Removed? {
        Settle(i, GoneForever);
        return Done;
      }
      if op.removals[i] !in Held(world.quarantine) {
        o := AbandonMissing(i);
        return;
      }
      if journal.states[i].Deleting? {
        Settle(i, Unresolved);
        return Done;
      }
      o := AbandonWhole(i);
    }

    method AbandonAll() returns (o: Outcome)
      requires Valid() && InSync() && journal.phase.Abandoning? && fates == [] && ListsAre(fates)
      modifies this`world, this`script, this`log, this`moves, this`journal
      modifies this`putBack, this`goneForever, this`unresolved, this`fates, this`effected, this`attempted
      ensures Valid() && ListsAre(fates) && world.journal.Some?
      ensures old(effected) || moves != old(moves) ==> effected
      ensures o.Done? ==> InSync() && journal.phase.Abandoning? && AllSettled(op, old(world), world, fates)
      ensures o.Done? ==> forall k :: 0 <= k < |fates| && fates[k].GoneForever? ==> journal.states[k].Removed?
      ensures world.quarantine.Unmarked? <==> old(world).quarantine.Unmarked?
      ensures old(script) == [] ==>
        o.Done? && script == [] && forall k :: 0 <= k < |op.removals| ==> fates[k] == FateOf(op, old(world), k)
    {
      hide Inv, Legal, After, NamesWith, FateOf;
      o := Done;
      for i := 0 to |op.removals|
        invariant Valid() && o.Done? && InSync() && journal.phase.Abandoning? && |fates| == i && ListsAre(fates)
        invariant old(effected) || moves != old(moves) ==> effected
        invariant forall k :: 0 <= k < i ==>
          SettledAs(op, world, k, fates[k]) && fates[k] in {FateOf(op, old(world), k), Unresolved}
        invariant forall k :: 0 <= k < i && fates[k].GoneForever? ==> journal.states[k].Removed?
        invariant forall k :: i <= k < |op.removals| ==> SameEntry(op, old(world), world, k)
        invariant world.quarantine.Unmarked? <==> old(world).quarantine.Unmarked?
        invariant old(script) == [] ==> script == [] && forall k :: 0 <= k < i ==> fates[k] == FateOf(op, old(world), k)
      {
        ghost var before, was := world, fates;
        SameEntrySameFate(op, old(world), world, i);
        o := AbandonOne(i);
        if !o.Done? { return; }
        forall k | 0 <= k < i ensures SameEntry(op, before, world, k) && fates[k] == was[k] {
          assert fates[..i][k] == was[k];
        }
        forall k | i < k < |op.removals| ensures SameEntry(op, old(world), world, k) {
          assert SameEntry(op, old(world), before, k) && SameEntry(op, before, world, k);
        }
      }
    }

    /** Remove the emptied directory, and clear the journal when no reversible work remains. */
    method Finish(ghost opening: World) returns (r: AbandonResult, o: Outcome)
      requires Valid() && InSync() && journal.phase.Abandoning? && ListsAre(fates)
      requires forall k :: 0 <= k < |op.removals| ==> OnRecord(op, opening, k)
      requires AllSettled(op, opening, world, fates)
      requires forall k :: 0 <= k < |fates| && fates[k].GoneForever? ==> journal.states[k].Removed?
      modifies this`world, this`script, this`log, this`moves
      ensures Valid() && moves == old(moves) && AllSettled(op, opening, world, fates)
      ensures world.dest == old(world).dest
      ensures o.Done? ==> r.Unwound? && r.cleared == world.journal.None?
      ensures o.Done? ==> (r.cleared <==> unresolved == [] && world.quarantine.Absent?)
      ensures o.Done? ==>
        (r.state == Abandoned <==> goneForever == [] && unresolved == [] && world.quarantine.Absent?)
      ensures o.Done? ==>
        (r.state == AbandonedWithLoss <==> goneForever != [] && unresolved == [] && world.quarantine.Absent?)
      ensures old(script) == [] ==> o.Done? && (unresolved == [] ==> r.cleared == !old(world).quarantine.Unmarked?)
      ensures old(world).quarantine.Unmarked? ==> world.quarantine.Unmarked?
    {
      hide Inv, Legal, After, FateOf, NamesWith;
      r := AbandonKilled;
      NoneWith(op, fates, Unresolved);
      if unresolved == [] { NothingHeldWhenAllSettled(op, world, fates); }
      var gone;
      gone, o := TryRemoveOwnedQuarantine();
      AllSettledKept(op, opening, old(world), world, fates);
      if !o.Done? { return; }
      var cleared := unresolved == [] && gone;
      if cleared {
        forall i | 0 <= i < |op.removals| ensures journal.states[i].Removed? || op.removals[i] in world.dest {
          assert SettledAs(op, world, i, fates[i]);
        }
        o := Perform(ClearJournal);
      }
      r := Unwound(if unresolved != [] || !gone then Partial else if goneForever != [] then AbandonedWithLoss else Abandoned,
                   cleared);
    }

    /** Record the decision, settle every entry, and finish. */
    method Unwind() returns (r: AbandonResult, o: Outcome)
      requires Valid() && world.journal.Some? && fates == [] && ListsAre(fates)
      requires forall k :: 0 <= k < |op.removals| ==> OnRecord(op, world, k)
      requires |world.journal.value.states| == |op.removals|
      modifies this`world, this`script, this`log, this`moves, this`journal
      modifies this`putBack, this`goneForever, this`unresolved, this`fates, this`effected, this`attempted, this`abandoned
      ensures Valid()
      ensures old(effected) || moves != old(moves) ==> effected
      ensures o.Done? ==> r.Unwound? && ListsAre(fates) && AllSettled(op, old(world), world, fates)
      ensures o.Done? ==> (r.cleared <==> unresolved == [] && world.quarantine.Absent?)
      ensures o.Done? ==> r.cleared == world.journal.None?
      ensures o.Done? ==>
        (r.state == Abandoned <==> goneForever == [] && unresolved == [] && world.quarantine.Absent?)
      ensures o.Done? ==>
        (r.state == AbandonedWithLoss <==> goneForever != [] && unresolved == [] && world.quarantine.Absent?)
      ensures old(script) == [] ==>
        && o.Done?
        && (forall k :: 0 <= k < |op.removals| ==> fates[k] == FateOf(op, old(world), k))
        && world.dest == Restored(op, old(world))
        && (unresolved == [] ==> r.cleared == !old(world).quarantine.Unmarked?)
      ensures old(world).quarantine.Unmarked? ==> world.quarantine.Unmarked?
    {
      hide Inv, Legal, After, NamesWith, FateOf;
      r := AbandonKilled;
      BeginKeepsFates(op, world);
      journal := world.journal.value.(phase := Abandoning);
      abandoned := true;
      o := Perform(BeginAbandon);
      if !o.Done? { return; }
      ghost var begun := world;
      o := AbandonAll();
      if !o.Done? { return; }
      assert AllSettled(op, old(world), world, fates);
      if old(script) == [] { SettledAsExpectedRestores(op, old(world), world, fates); }
      r, o := Finish(old(world));
    }

    /** Nothing is settled yet, and what other processes did counts as an effect. */
    method OpenAbandon(answers: seq<Outcome>)
      requires Valid() && world.journal.Some?
      modifies this`script, this`putBack, this`goneForever, this`unresolved, this`fates
      modifies this`effected, this`attempted, this`touched
      ensures Valid() && script == answers && fates == [] && ListsAre(fates)
      ensures effected == touched == Touched(world) && !attempted
      ensures |world.journal.value.states| == |op.removals| && forall k :: 0 <= k < |op.removals| ==> OnRecord(op, world, k)
    {
      hide Inv, Legal, After, Touched;
      script, putBack, goneForever, unresolved, fates := answers, [], [], [], [];
      effected := HasBegun();
      touched, attempted := effected, false;
      EveryEntryIsOnRecord(op, world);
    }

    lemma ListsTellWhetherAnythingBegan(w: World)
      requires ListsAre(fates) && |fates| == |op.removals|
      requires forall k :: 0 <= k < |fates| ==> OnRecord(op, w, k) && fates[k] == FateOf(op, w, k)
      ensures goneForever == [] && unresolved == [] <==> forall k :: 0 <= k < |op.removals| ==> !BegunAt(op, w, k)
    {
      hide NamesWith, FateOf, BegunAt;
      FatesTellWhetherAnythingBegan(op, w, fates);
    }

    /**
     Put back every set that was set aside and never reached `deleting`. Unless something fails on the way,
     the destination afterwards is the planned one without the sets whose removal had begun, each planned
     name has exactly the fate its record implies, and the abandon is clean exactly when no removal had begun
     and the quarantine directory had not lost its marker.
     */
    method Abandon(answers: seq<Outcome>) returns (r: AbandonResult)
      requires Valid()
      modifies this`world, this`script, this`log, this`moves, this`journal
      modifies this`putBack, this`goneForever, this`unresolved, this`fates, this`effected, this`attempted, this`touched, this`abandoned
      ensures Valid()
      ensures old(world).journal.None? ==> r.AbandonRefused? && world == old(world)
      ensures r.AbandonRefused? ==> moves == old(moves) && (old(world).journal.Some? ==> !Touched(old(world)))
      ensures r.AbandonFailedAfterEffect? ==> Touched(old(world)) || attempted
      ensures r.Unwound? ==> old(world).journal.Some? && ListsAre(fates) && AllSettled(op, old(world), world, fates)
      ensures r.Unwound? ==>
        (r.state == Abandoned <==> goneForever == [] && unresolved == [] && world.quarantine.Absent?)
      ensures r.Unwound? ==>
        (r.state == AbandonedWithLoss <==> goneForever != [] && unresolved == [] && world.quarantine.Absent?)
      ensures r.Unwound? ==> (r.cleared <==> unresolved == [] && world.quarantine.Absent?)
      ensures r.Unwound? ==> r.cleared == world.journal.None?
      ensures answers == [] && old(world).journal.Some? ==>
        && r.Unwound?
        && (forall k :: 0 <= k < |op.removals| ==> fates[k] == FateOf(op, old(world), k))
        && world.dest == Restored(op, old(world))
        && (r.state == Abandoned <==>
              && !old(world).quarantine.Unmarked?
              && forall k :: 0 <= k < |op.removals| ==> !BegunAt(op, old(world), k))
      ensures old(world).quarantine.Unmarked? ==> world.quarantine.Unmarked?
    {
      hide Valid, FateOf, BegunAt, Restored, SettledAs, Touched, ListsAre;
      if world.journal.None? { return AbandonRefused; }
      OpenAbandon(answers);
      var o;
      r, o := Unwind();
      EffectedMeans();
      if o.Done? {
        if answers == [] { ListsTellWhetherAnythingBegan(old(world)); }
        return;
      }
      return if o.Killed? then AbandonKilled else if effected then AbandonFailedAfterEffect else AbandonRefused;
    }

    // -------------------------------------------------------------------------------------------------
    // Any history
    // -------------------------------------------------------------------------------------------------

    /** Nobody has abandoned, so where the disk stands is one of three things. */
    lemma NeverAbandonedGoesForward()
      requires Valid() && Ready(op, start) && !abandoned
      ensures Forward(op, start, world)
    {
      ForwardOnly(op, start, log);
    }

    /** A run and any recoveries, each failing or killed wherever its answers say. */
    method Live(first: seq<Outcome>, proof: Outcome, recoveries: seq<Recovery>)
      requires Valid() && Ready(op, world)
      modifies this
      ensures Valid() && start == old(start)
      ensures (forall i :: 0 <= i < |recoveries| ==> recoveries[i].ByResume?) ==> abandoned == old(abandoned)
    {
      hide Inv, Legal, After, Valid;
      var _ := Run(first, proof);
      for i := 0 to |recoveries|
        invariant Valid() && start == old(start)
        invariant (forall k :: 0 <= k < i ==> recoveries[k].ByResume?) ==> abandoned == old(abandoned)
      {
        if recoveries[i].ByResume? {
          var _ := Resume(recoveries[i].answers, recoveries[i].proof);
        } else {
          var _ := Abandon(recoveries[i].answers);
        }
      }
    }

    /**
     A run and any recoveries, each failing or killed wherever its answers say, then a resume that meets no
     failure. Its whole history is one legal run from the disk the plan was made on. Unless a planned set is too
     large for its bound or the marker was lost, that resume has nothing to do or completes; and when no recovery
     was an abandon, either the operation never began or everything planned is gone and nothing else is.
     */
    method Lifetime(first: seq<Outcome>, proof: Outcome, recoveries: seq<Recovery>) returns (r: RunResult)
      requires Valid() && Ready(op, world)
      modifies this
      ensures Valid() && start == old(world)
      ensures r.Reported? || (r.RefusedBeforeEffect? && (world.journal.None? || Unwinding(world)))
      ensures r.Reported? && r.complete ==> Pruned(op, world) && ReportsEverything()
      ensures r.Reported? && PlannedFit(op) ==> r.complete || world.quarantine.Unmarked?
      ensures TellsOfTheKept(op, r, Done)
      ensures (forall i :: 0 <= i < |recoveries| ==> recoveries[i].ByResume?) ==>
        && Forward(op, old(world), world)
        && (PlannedFit(op) ==> world.journal.None? || world.quarantine.Unmarked?)
    {
      hide Inv, Legal, After, Forward, PlannedFit, FitBelow, Footprint, InSync, ReportsRemoved, ReportsEverything;
      LegalSoFar(op, world);
      start, log, abandoned := world, [], false;
      Live(first, proof, recoveries);
      ghost var last := world;
      r := Resume([], Done);
      if PlannedFit(op) { PlannedFitLasts(op, last); }
      if !abandoned { NeverAbandonedGoesForward(); }
    }
  }
}
