/**
 The backup retention protocol: what is on disk, the single effects a run, a resume or an abandon may have
 on it, and what every legal run keeps at every instant.

 A process may be killed between any two effects, so the state after each effect is also a state a later
 process starts from. A legal run is therefore a sequence of effects of any number of processes, each effect
 guarded by nothing but what is on disk when it happens.
 */
module RetentionProtocol {
  import opened Basics

  type Name = string

  /** A place below the root of one backup set, component by component. */
  type Path = seq<string>

  /** The entries below the root of one backup set: one path per file and per directory. */
  type Tree = set<Path>

  datatype EntryState = Pending | Quarantined | Deleting | Removed | Failed

  datatype Phase = Removing | Abandoning

  /** What the journal on disk says that changes over a run: one state per planned removal, and the phase. */
  datatype Journal = Journal(states: seq<EntryState>, phase: Phase)

  /** What the inventory row of a planned removal declares. */
  datatype Row = Row(entries: nat, bytes: nat)

  /**
   The committed operation: the removals oldest first, their rows, the destination as it was planned on, and the
   restorable set it promises to keep.
   */
  datatype Operation =
    Operation(removals: seq<Name>, rows: map<Name, Row>, initial: map<Name, Tree>, kept: Option<Name>) {
    ghost predicate WellFormed() {
      && (forall i, k :: 0 <= i < k < |removals| ==> removals[i] != removals[k])
      && (forall n :: n in removals ==> n in initial && n in rows)
      && (kept.Some? ==> kept.value in initial && kept.value !in removals)
    }
  }

  /** The quarantine path: nothing there, a directory that lost its marker, or an owned directory holding sets. */
  datatype Quarantine = Absent | Unmarked | Marked(sets: map<Name, Tree>)

  datatype World = World(dest: map<Name, Tree>, quarantine: Quarantine, journal: Option<Journal>, claims: nat)

  function Held(q: Quarantine): map<Name, Tree> {
    if q.Marked? then q.sets else map[]
  }

  // ---------------------------------------------------------------------------------------------------
  // The precondition table
  // ---------------------------------------------------------------------------------------------------

  datatype Refusal =
    InBothPlaces | InNeitherPlace | SetAsideButBack | SetAsideButGone | DeletingButBack | RemovedButBack

  /** The answer to each of the twenty (recorded state, in destination, in quarantine) combinations. */
  function PreconditionRefusal(state: EntryState, inDestination: bool, inQuarantine: bool): Option<Refusal> {
    if inDestination && inQuarantine then Some(InBothPlaces)
    else match state
      case Pending | Failed => if !inDestination && !inQuarantine then Some(InNeitherPlace) else None
      case Quarantined =>
        if inDestination then Some(SetAsideButBack) else if !inQuarantine then Some(SetAsideButGone) else None
      case Deleting => if inDestination then Some(DeletingButBack) else None
      case Removed => if inDestination || inQuarantine then Some(RemovedButBack) else None
  }

  /** What the sweep sees of planned entry `i`. */
  function RefusalAt(op: Operation, w: World, states: seq<EntryState>, i: nat): Option<Refusal>
    requires i < |states| == |op.removals|
  {
    var n := op.removals[i];
    PreconditionRefusal(states[i], n in w.dest, n in Held(w.quarantine))
  }

  // ---------------------------------------------------------------------------------------------------
  // Effects
  // ---------------------------------------------------------------------------------------------------

  /** One atomic effect on disk. A number names a planned removal by its place in the removal list. */
  datatype Effect =
    | StartJournal
    | Mark(i: nat, state: EntryState)
    | BeginAbandon
    | BuildClaim
    | PublishQuarantine
    | SetAside(i: nat)
    | PutBack(i: nat)
    | Unlink(i: nat, child: Path)
    | RemoveRoot(i: nat)
    | UnlinkMarker
    | RemoveQuarantine
    | ClearJournal

  /** True of the effects that rename or destroy part of a backup set. */
  predicate MovesASet(e: Effect) {
    e.SetAside? || e.PutBack? || e.Unlink? || e.RemoveRoot?
  }

  /** True of the effects that destroy part of a backup set. */
  predicate Destroys(e: Effect) {
    e.Unlink? || e.RemoveRoot?
  }

  /** What one effect does to the disk. An effect on something that is not there changes nothing. */
  function Apply(op: Operation, w: World, e: Effect): World {
    match e
    case StartJournal => w.(journal := Some(Journal(seq(|op.removals|, i => Pending), Removing)))
    case Mark(i, s) =>
      if w.journal.Some? && i < |w.journal.value.states| then
        w.(journal := Some(w.journal.value.(states := w.journal.value.states[i := s])))
      else w
    case BeginAbandon => if w.journal.Some? then w.(journal := Some(w.journal.value.(phase := Abandoning))) else w
    case BuildClaim => w.(claims := w.claims + 1)
    case PublishQuarantine =>
      if w.quarantine.Absent? && w.claims > 0 then w.(quarantine := Marked(map[]), claims := w.claims - 1) else w
    case SetAside(i) =>
      if i < |op.removals| && op.removals[i] in w.dest && w.quarantine.Marked? then
        var n := op.removals[i];
        w.(dest := w.dest - {n}, quarantine := Marked(w.quarantine.sets[n := w.dest[n]]))
      else w
    case PutBack(i) =>
      if i < |op.removals| && op.removals[i] in Held(w.quarantine) then
        var n := op.removals[i];
        w.(dest := w.dest[n := w.quarantine.sets[n]], quarantine := Marked(w.quarantine.sets - {n}))
      else w
    case Unlink(i, c) =>
      if i < |op.removals| && op.removals[i] in Held(w.quarantine) then
        var n := op.removals[i];
        w.(quarantine := Marked(w.quarantine.sets[n := w.quarantine.sets[n] - {c}]))
      else w
    case RemoveRoot(i) =>
      if i < |op.removals| && op.removals[i] in Held(w.quarantine) then
        w.(quarantine := Marked(w.quarantine.sets - {op.removals[i]}))
      else w
    case UnlinkMarker => if w.quarantine == Marked(map[]) then w.(quarantine := Unmarked) else w
    case RemoveQuarantine => if w.quarantine.Unmarked? then w.(quarantine := Absent) else w
    case ClearJournal => w.(journal := None)
  }

  /** A removal has been committed: the record that precedes the first unlink is on disk. */
  predicate Begun(s: EntryState) {
    s.Deleting? || s.Removed?
  }

  /** What the journal on disk and the tree must be when an entry's state is rewritten. */
  ghost predicate MayMark(op: Operation, w: World, i: nat, s: EntryState)
    requires w.journal.Some? && i < |op.removals| == |w.journal.value.states|
  {
    var n, j, held := op.removals[i], w.journal.value, Held(w.quarantine);
    var was := j.states[i];
    match s
    case Pending => j.phase.Abandoning? && n in w.dest && !Begun(was)
    case Failed => j.phase.Removing? && !Begun(was)
    case Quarantined => j.phase.Removing? && (was.Pending? || was.Failed?) && n in held
    case Deleting =>
      && j.phase.Removing? && was.Quarantined?
      && (forall k :: 0 <= k < |op.removals| ==> op.removals[k] !in w.dest)
      && (forall k :: 0 <= k < i ==> j.states[k].Removed?)
    case Removed => was.Deleting? && n !in held
  }

  /** A journal is on disk and it speaks of planned entry `i`. */
  predicate OnRecord(op: Operation, w: World, i: nat) {
    w.journal.Some? && i < |op.removals| == |w.journal.value.states|
  }

  /** On record as being removed, in phase `removing`, with something left of it in the quarantine directory. */
  predicate BeingRemoved(op: Operation, w: World, i: nat) {
    && OnRecord(op, w, i)
    && w.journal.value.phase.Removing? && w.journal.value.states[i].Deleting?
    && op.removals[i] in Held(w.quarantine)
  }

  /** What is on disk whenever the program issues an effect: the guards of the program, read off the disk alone. */
  ghost predicate Permitted(op: Operation, w: World, e: Effect) {
    match e
    case StartJournal => w.journal.None? && w.quarantine.Absent? && forall n :: n in op.removals ==> n in w.dest
    case Mark(i, s) => OnRecord(op, w, i) && MayMark(op, w, i, s)
    case BeginAbandon => w.journal.Some?
    case BuildClaim => true
    case PublishQuarantine => w.quarantine.Absent? && w.claims > 0 && w.journal.Some?
    case SetAside(i) =>
      && OnRecord(op, w, i)
      && w.journal.value.phase.Removing?
      && (w.journal.value.states[i].Pending? || w.journal.value.states[i].Failed?)
      && op.removals[i] in w.dest && w.quarantine.Marked?
    case PutBack(i) =>
      && OnRecord(op, w, i)
      && w.journal.value.phase.Abandoning? && !Begun(w.journal.value.states[i])
      && op.removals[i] in Held(w.quarantine) && op.removals[i] !in w.dest
    case Unlink(i, c) => BeingRemoved(op, w, i) && c in w.quarantine.sets[op.removals[i]]
    case RemoveRoot(i) => BeingRemoved(op, w, i) && w.quarantine.sets[op.removals[i]] == {}
    case UnlinkMarker => w.quarantine == Marked(map[])
    case RemoveQuarantine => w.quarantine.Unmarked?
    case ClearJournal =>
      && w.quarantine.Absent? && w.journal.Some? && |w.journal.value.states| == |op.removals|
      && forall i :: 0 <= i < |op.removals| ==>
           || w.journal.value.states[i].Removed?
           || (w.journal.value.phase.Abandoning? && op.removals[i] in w.dest)
  }

  // ---------------------------------------------------------------------------------------------------
  // The invariant
  // ---------------------------------------------------------------------------------------------------

  /** What the tree of entry `i` is, given what the journal says of it. */
  ghost predicate EntryHolds(op: Operation, w: World, j: Journal, i: nat)
    requires i < |op.removals| == |j.states|
    requires op.WellFormed()
  {
    var n, held := op.removals[i], Held(w.quarantine);
    var whole := n in held && held[n] == op.initial[n];
    match j.states[i]
    case Pending | Failed => n in w.dest || whole
    case Quarantined => whole || (j.phase.Abandoning? && n in w.dest)
    case Deleting => n !in w.dest
    case Removed => n !in w.dest && n !in held
  }

  /** What every state the program can leave on disk satisfies. */
  ghost predicate Inv(op: Operation, w: World)
    requires op.WellFormed()
  {
    var held := Held(w.quarantine);
    && (forall n :: n in w.dest ==> n in op.initial && w.dest[n] == op.initial[n])
    && (forall n :: n in op.initial && n !in op.removals ==> n in w.dest)
    && (forall n :: n in held ==> n in op.removals && n !in w.dest && held[n] <= op.initial[n])
    && (w.journal.None? ==> held == map[])
    && (w.journal.Some? ==>
          var j := w.journal.value;
          && |j.states| == |op.removals|
          && (forall i :: 0 <= i < |j.states| ==> EntryHolds(op, w, j, i))
          && (forall i, k :: 0 <= k < i < |j.states| && Begun(j.states[i]) ==> j.states[k].Removed?)
          && (forall i, k :: 0 <= i < |j.states| && 0 <= k < |j.states| && j.phase.Removing? && Begun(j.states[i])
                ==> op.removals[k] !in w.dest))
  }

  lemma MarkKeepsEntry(op: Operation, w: World, i: nat, s: EntryState, k: nat)
    requires op.WellFormed() && Inv(op, w) && Permitted(op, w, Mark(i, s)) && k < |op.removals|
    ensures
      var w' := Apply(op, w, Mark(i, s));
      OnRecord(op, w', k) && EntryHolds(op, w', w'.journal.value, k)
  {
    assert EntryHolds(op, w, w.journal.value, k) && EntryHolds(op, w, w.journal.value, i);
    hide Inv;
  }

  lemma MarkKeepsInv(op: Operation, w: World, i: nat, s: EntryState)
    requires op.WellFormed() && Inv(op, w) && Permitted(op, w, Mark(i, s))
    ensures Inv(op, Apply(op, w, Mark(i, s)))
  {
    var j, w' := w.journal.value, Apply(op, w, Mark(i, s));
    assert MayMark(op, w, i, s) && w' == w.(journal := Some(j.(states := j.states[i := s])));
    forall k | 0 <= k < |j.states| ensures EntryHolds(op, w', w'.journal.value, k) {
      MarkKeepsEntry(op, w, i, s, k);
    }
    assert EntryHolds(op, w, j, i);
    hide Apply, Permitted;
  }

  lemma RenameKeepsInv(op: Operation, w: World, e: Effect)
    requires op.WellFormed() && Inv(op, w) && (e.SetAside? || e.PutBack?) && Permitted(op, w, e)
    ensures Inv(op, Apply(op, w, e))
  {
    var j, w' := w.journal.value, Apply(op, w, e);
    assert EntryHolds(op, w, j, e.i);
    forall k | 0 <= k < |j.states| ensures EntryHolds(op, w', j, k) {
      assert EntryHolds(op, w, j, k);
    }
  }

  /** Destroying part of one set shrinks that set in quarantine and touches nothing else. */
  lemma DestructionIsLocal(op: Operation, w: World, e: Effect)
    requires Destroys(e) && BeingRemoved(op, w, e.i)
    ensures
      var w', n := Apply(op, w, e), op.removals[e.i];
      && w'.dest == w.dest && w'.journal == w.journal
      && (forall m :: m in Held(w'.quarantine) ==>
            m in Held(w.quarantine) && Held(w'.quarantine)[m] <= Held(w.quarantine)[m])
      && (forall m :: m in Held(w.quarantine) && m != n ==>
            m in Held(w'.quarantine) && Held(w'.quarantine)[m] == Held(w.quarantine)[m])
  {
  }

  lemma DestructionKeepsEntry(op: Operation, w: World, e: Effect, k: nat)
    requires op.WellFormed() && Inv(op, w) && Destroys(e) && BeingRemoved(op, w, e.i) && k < |op.removals|
    ensures EntryHolds(op, Apply(op, w, e), w.journal.value, k)
  {
    DestructionIsLocal(op, w, e);
    assert EntryHolds(op, w, w.journal.value, k);
    assert k != e.i ==> op.removals[k] != op.removals[e.i];
    hide Inv, Apply, Held;
  }

  lemma DestructionKeepsInv(op: Operation, w: World, e: Effect)
    requires op.WellFormed() && Inv(op, w) && Destroys(e) && Permitted(op, w, e)
    ensures Inv(op, Apply(op, w, e))
  {
    assert BeingRemoved(op, w, e.i);
    DestructionIsLocal(op, w, e);
    hide Apply, Permitted, Held, EntryHolds;
    forall k | 0 <= k < |op.removals| ensures EntryHolds(op, Apply(op, w, e), w.journal.value, k) {
      DestructionKeepsEntry(op, w, e, k);
    }
  }

  /** Starting, turning and clearing the journal. */
  lemma JournalKeepsInv(op: Operation, w: World, e: Effect)
    requires op.WellFormed() && Inv(op, w) && Permitted(op, w, e)
    requires e.StartJournal? || e.BeginAbandon? || e.ClearJournal?
    ensures Inv(op, Apply(op, w, e))
  {
    if e.BeginAbandon? {
      var j, w' := w.journal.value, Apply(op, w, e);
      forall k | 0 <= k < |j.states| ensures EntryHolds(op, w', w'.journal.value, k) {
        assert EntryHolds(op, w, j, k);
      }
    }
  }

  /** What happens to the quarantine directory itself touches no set and no record. */
  lemma DirectoryKeepsInv(op: Operation, w: World, e: Effect)
    requires op.WellFormed() && Inv(op, w) && Permitted(op, w, e)
    requires e.BuildClaim? || e.PublishQuarantine? || e.UnlinkMarker? || e.RemoveQuarantine?
    ensures Inv(op, Apply(op, w, e))
  {
    var w' := Apply(op, w, e);
    assert w'.dest == w.dest && w'.journal == w.journal && Held(w'.quarantine) == Held(w.quarantine);
    hide Apply, Permitted, Held;
    if w.journal.Some? {
      var j := w.journal.value;
      forall k | 0 <= k < |j.states| ensures EntryHolds(op, w', j, k) {
        assert EntryHolds(op, w, j, k);
      }
    }
  }

  /** Every effect the program issues keeps the invariant, so every instant of every run satisfies it. */
  lemma EffectKeepsInv(op: Operation, w: World, e: Effect)
    requires op.WellFormed() && Inv(op, w) && Permitted(op, w, e)
    ensures Inv(op, Apply(op, w, e))
  {
    hide Inv, Apply, Permitted;
    if e.Mark? {
      MarkKeepsInv(op, w, e.i, e.state);
    } else if Destroys(e) {
      DestructionKeepsInv(op, w, e);
    } else if MovesASet(e) {
      RenameKeepsInv(op, w, e);
    } else if e.StartJournal? || e.BeginAbandon? || e.ClearJournal? {
      JournalKeepsInv(op, w, e);
    } else {
      DirectoryKeepsInv(op, w, e);
    }
  }

  // ---------------------------------------------------------------------------------------------------
  // Runs
  // ---------------------------------------------------------------------------------------------------

  function After(op: Operation, w: World, run: seq<Effect>): World {
    if run == [] then w else Apply(op, After(op, w, run[..|run| - 1]), run[|run| - 1])
  }

  ghost predicate Legal(op: Operation, w: World, run: seq<Effect>) {
    run != [] ==>
      && Legal(op, w, run[..|run| - 1])
      && Permitted(op, After(op, w, run[..|run| - 1]), run[|run| - 1])
  }

  lemma LegalSoFar(op: Operation, w: World)
    ensures Legal(op, w, []) && After(op, w, []) == w
  {
  }

  lemma LegalThen(op: Operation, w: World, run: seq<Effect>, e: Effect)
    requires Legal(op, w, run) && Permitted(op, After(op, w, run), e)
    ensures Legal(op, w, run + [e]) && After(op, w, run + [e]) == Apply(op, After(op, w, run), e)
  {
    assert (run + [e])[..|run|] == run;
  }

  lemma {:induction false} InvAfter(op: Operation, w: World, run: seq<Effect>)
    requires op.WellFormed() && Inv(op, w) && Legal(op, w, run)
    ensures Inv(op, After(op, w, run))
  {
    if run != [] {
      InvAfter(op, w, run[..|run| - 1]);
      EffectKeepsInv(op, After(op, w, run[..|run| - 1]), run[|run| - 1]);
    }
  }

  lemma {:induction false} LegalPrefix(op: Operation, w: World, run: seq<Effect>, k: nat)
    requires Legal(op, w, run) && k <= |run|
    ensures Legal(op, w, run[..k])
    ensures k < |run| ==> Permitted(op, After(op, w, run[..k]), run[k])
  {
    if k < |run| {
      var shorter := run[..|run| - 1];
      assert shorter[..k] == run[..k];
      if k < |shorter| {
        assert shorter[k] == run[k];
      }
      LegalPrefix(op, w, shorter, k);
    } else {
      assert run[..k] == run;
    }
  }

  /** At every instant of every run a set name in the destination holds its original whole tree, or nothing. */
  lemma WholeOrNothing(op: Operation, w: World, run: seq<Effect>, k: nat, n: Name)
    requires op.WellFormed() && Inv(op, w) && Legal(op, w, run) && k <= |run|
    ensures
      var at := After(op, w, run[..k]);
      && (n in at.dest ==> n in op.initial && at.dest[n] == op.initial[n])
      && (n in op.initial && n !in op.removals ==> n in at.dest)
  {
    LegalPrefix(op, w, run, k);
    InvAfter(op, w, run[..k]);
  }

  /**
   A tree missing any of its entries exists only inside the quarantine directory, and only while the journal
   on disk records `deleting` for it.
   */
  lemma PartialOnlyWhileDeleting(op: Operation, w: World, run: seq<Effect>, k: nat, n: Name)
    requires op.WellFormed() && Inv(op, w) && Legal(op, w, run) && k <= |run|
    ensures
      var at := After(op, w, run[..k]);
      n in Held(at.quarantine) && n in op.initial && Held(at.quarantine)[n] != op.initial[n] ==>
        && n !in at.dest
        && at.journal.Some? && |at.journal.value.states| == |op.removals|
        && exists i :: 0 <= i < |op.removals| && op.removals[i] == n && at.journal.value.states[i].Deleting?
  {
    LegalPrefix(op, w, run, k);
    InvAfter(op, w, run[..k]);
    var at := After(op, w, run[..k]);
    if n in Held(at.quarantine) && Held(at.quarantine)[n] != op.initial[n] {
      var i :| 0 <= i < |op.removals| && op.removals[i] == n;
      assert EntryHolds(op, at, at.journal.value, i);
    }
  }

  /** Committed to destruction: recorded begun while a journal exists, and never in the destination. */
  ghost predicate Committed(op: Operation, w: World, i: nat)
    requires i < |op.removals|
  {
    && op.removals[i] !in w.dest
    && (w.journal.Some? ==> |w.journal.value.states| == |op.removals| && Begun(w.journal.value.states[i]))
  }

  /** Gone for good: in neither place, and recorded removed while a journal exists. */
  ghost predicate Destroyed(op: Operation, w: World, i: nat)
    requires i < |op.removals|
  {
    && Committed(op, w, i)
    && op.removals[i] !in Held(w.quarantine)
    && (w.journal.Some? ==> w.journal.value.states[i].Removed?)
  }

  lemma EffectKeepsCommitted(op: Operation, w: World, e: Effect, i: nat)
    requires op.WellFormed() && Inv(op, w) && Permitted(op, w, e) && i < |op.removals| && Committed(op, w, i)
    ensures Committed(op, Apply(op, w, e), i)
    ensures Destroyed(op, w, i) ==> Destroyed(op, Apply(op, w, e), i)
  {
    assert op.removals[i] in op.removals;
    if MovesASet(e) && e.i != i {
      assert op.removals[e.i] != op.removals[i];
    }
  }

  lemma {:induction false} CommittedIsForever(op: Operation, w: World, run: seq<Effect>, k: nat, m: nat, i: nat)
    requires op.WellFormed() && Inv(op, w) && Legal(op, w, run) && k <= m <= |run| && i < |op.removals|
    requires Committed(op, After(op, w, run[..k]), i)
    ensures Committed(op, After(op, w, run[..m]), i)
    ensures Destroyed(op, After(op, w, run[..k]), i) ==> Destroyed(op, After(op, w, run[..m]), i)
    decreases m
  {
    hide Inv, Legal, Permitted, Apply, Committed, Destroyed;
    if k < m {
      CommittedIsForever(op, w, run, k, m - 1, i);
      LegalPrefix(op, w, run, m - 1);
      InvAfter(op, w, run[..m - 1]);
      assert run[..m][..m - 1] == run[..m - 1] && run[..m][m - 1] == run[m - 1];
      EffectKeepsCommitted(op, After(op, w, run[..m - 1]), run[m - 1], i);
    }
  }

  /**
   No failure, resume or abandon moves an entry out of `deleting` except to `removed`, nothing leaves
   `removed`, and a set that reached either is never again under its own name.
   */
  lemma DeletingIsForever(op: Operation, w: World, run: seq<Effect>, k: nat, m: nat, i: nat)
    requires op.WellFormed() && Inv(op, w) && Legal(op, w, run) && k <= m <= |run| && i < |op.removals|
    requires
      var before := After(op, w, run[..k]);
      before.journal.Some? && |before.journal.value.states| == |op.removals| && Begun(before.journal.value.states[i])
    ensures
      var before, after := After(op, w, run[..k]), After(op, w, run[..m]);
      && op.removals[i] !in after.dest
      && (after.journal.Some? ==>
            && |after.journal.value.states| == |op.removals|
            && Begun(after.journal.value.states[i])
            && (before.journal.value.states[i].Removed? ==> after.journal.value.states[i].Removed?))
      && (before.journal.value.states[i].Removed? ==> op.removals[i] !in Held(after.quarantine))
  {
    LegalPrefix(op, w, run, k);
    InvAfter(op, w, run[..k]);
    var before := After(op, w, run[..k]);
    assert EntryHolds(op, before, before.journal.value, i);
    CommittedIsForever(op, w, run, k, m, i);
  }

  /** Where every planned set is when part of set `i` is destroyed. */
  ghost predicate AtDestruction(op: Operation, at: World, i: nat)
    requires op.WellFormed()
  {
    && at.journal.Some? && |at.journal.value.states| == |op.removals| && i < |op.removals|
    && at.journal.value.phase.Removing?
    && at.journal.value.states[i].Deleting?
    && (forall m :: 0 <= m < |op.removals| ==> op.removals[m] !in at.dest)
    && (forall m :: 0 <= m < i ==> op.removals[m] !in Held(at.quarantine))
    && (forall m :: i < m < |op.removals| ==>
          op.removals[m] in Held(at.quarantine) && Held(at.quarantine)[op.removals[m]] == op.initial[op.removals[m]])
  }

  lemma DestructionIsOrdered(op: Operation, at: World, e: Effect)
    requires op.WellFormed() && Inv(op, at) && Destroys(e) && Permitted(op, at, e)
    ensures AtDestruction(op, at, e.i)
  {
    var states := at.journal.value.states;
    forall m | 0 <= m < |op.removals|
      ensures m > e.i ==> op.removals[m] in Held(at.quarantine)
      ensures m > e.i ==> Held(at.quarantine)[op.removals[m]] == op.initial[op.removals[m]]
      ensures m < e.i ==> op.removals[m] !in Held(at.quarantine)
    {
      assert EntryHolds(op, at, at.journal.value, m);
      assert Begun(states[e.i]);
      assert m > e.i ==> !Begun(states[m]);
    }
  }

  /**
   Two-phase destruction. When any part of a set is destroyed, every planned set has already left the
   destination, the sets before it in the oldest-first list are all gone, those after it are untouched,
   and its own record says `deleting`.
   */
  lemma NothingDestroyedWhileAnythingPlannedRemains(op: Operation, w: World, run: seq<Effect>, k: nat)
    requires op.WellFormed() && Inv(op, w) && Legal(op, w, run) && k < |run| && Destroys(run[k])
    ensures AtDestruction(op, After(op, w, run[..k]), run[k].i)
  {
    hide Inv, Legal, After, Permitted, AtDestruction;
    LegalPrefix(op, w, run, k);
    InvAfter(op, w, run[..k]);
    DestructionIsOrdered(op, After(op, w, run[..k]), run[k]);
  }

  /** A planned set is gone from the disk, or part of it is. */
  ghost predicate Harmed(op: Operation, w: World, i: nat)
    requires op.WellFormed() && i < |op.removals|
  {
    var n := op.removals[i];
    n !in w.dest && (n in Held(w.quarantine) ==> Held(w.quarantine)[n] != op.initial[n])
  }

  /** While an operation is on record, what it has destroyed is always a prefix of the oldest-first removal list. */
  lemma DestroyedIsAPrefix(op: Operation, w: World, run: seq<Effect>, m: nat, i: nat, k: nat)
    requires op.WellFormed() && Inv(op, w) && Legal(op, w, run) && m <= |run| && k < i < |op.removals|
    requires After(op, w, run[..m]).journal.Some?
    requires Harmed(op, After(op, w, run[..m]), i)
    ensures op.removals[k] !in After(op, w, run[..m]).dest
    ensures op.removals[k] !in Held(After(op, w, run[..m]).quarantine)
  {
    LegalPrefix(op, w, run, m);
    InvAfter(op, w, run[..m]);
    var at := After(op, w, run[..m]);
    assert EntryHolds(op, at, at.journal.value, i);
    assert EntryHolds(op, at, at.journal.value, k);
  }

  /**
   While the journal on disk is in phase `removing`, the sweep refuses nothing: every triple a run, a
   resume or an abandon left behind is one the table allows.
   */
  lemma SweepAcceptsOwnStates(op: Operation, w: World, run: seq<Effect>, k: nat, i: nat)
    requires op.WellFormed() && Inv(op, w) && Legal(op, w, run) && k <= |run| && i < |op.removals|
    requires
      var at := After(op, w, run[..k]);
      at.journal.Some? && at.journal.value.phase.Removing? && |at.journal.value.states| == |op.removals|
    ensures RefusalAt(op, After(op, w, run[..k]), After(op, w, run[..k]).journal.value.states, i).None?
  {
    LegalPrefix(op, w, run, k);
    InvAfter(op, w, run[..k]);
    var at := After(op, w, run[..k]);
    assert EntryHolds(op, at, at.journal.value, i);
  }

  ghost predicate Unwinding(w: World) {
    w.journal.Some? && w.journal.value.phase.Abandoning?
  }

  lemma EffectKeepsUnwinding(op: Operation, w: World, e: Effect)
    requires Unwinding(w) && Permitted(op, w, e)
    ensures !e.ClearJournal? ==> Unwinding(Apply(op, w, e))
    ensures !e.SetAside? && !Destroys(e)
  {
  }

  /**
   The decision to abandon is on disk before the first put-back and, until the journal is cleared, it never
   reverts: from then on nothing is set aside and nothing is destroyed.
   */
  lemma {:induction false} AbandoningNeverReverts(op: Operation, w: World, run: seq<Effect>, k: nat, m: nat)
    requires Legal(op, w, run) && k <= m <= |run|
    requires forall t :: k <= t < m ==> !run[t].ClearJournal?
    requires Unwinding(After(op, w, run[..k]))
    ensures Unwinding(After(op, w, run[..m]))
    ensures m < |run| ==> !run[m].SetAside? && !Destroys(run[m])
    decreases m
  {
    LegalPrefix(op, w, run, m);
    if k < m {
      AbandoningNeverReverts(op, w, run, k, m - 1);
      LegalPrefix(op, w, run, m - 1);
      assert run[..m][..m - 1] == run[..m - 1];
      EffectKeepsUnwinding(op, After(op, w, run[..m - 1]), run[m - 1]);
    }
    if m < |run| {
      EffectKeepsUnwinding(op, After(op, w, run[..m]), run[m]);
    }
  }

  /** A set recorded `quarantined` that is back in the destination exists only in phase `abandoning`. */
  lemma BackInDestinationMeansAbandoning(op: Operation, w: World, run: seq<Effect>, k: nat, i: nat)
    requires op.WellFormed() && Inv(op, w) && Legal(op, w, run) && k <= |run| && i < |op.removals|
    requires
      var at := After(op, w, run[..k]);
      && at.journal.Some? && |at.journal.value.states| == |op.removals|
      && at.journal.value.states[i].Quarantined? && op.removals[i] in at.dest
    ensures After(op, w, run[..k]).journal.value.phase.Abandoning?
    ensures op.removals[i] !in Held(After(op, w, run[..k]).quarantine)
  {
    LegalPrefix(op, w, run, k);
    InvAfter(op, w, run[..k]);
    var at := After(op, w, run[..k]);
    assert EntryHolds(op, at, at.journal.value, i);
  }

  /** The disk once every planned set is gone: exactly what the plan kept, no quarantine directory, no journal. */
  ghost predicate Pruned(op: Operation, w: World) {
    && w.dest == op.initial - (set n | n in op.removals)
    && w.quarantine.Absent? && w.journal.None?
  }

  lemma AllRemovedLeavesTheKept(op: Operation, w: World)
    requires op.WellFormed() && Inv(op, w) && w.journal.Some?
    requires forall i :: 0 <= i < |op.removals| ==> w.journal.value.states[i].Removed?
    ensures w.dest == op.initial - (set n | n in op.removals)
  {
    forall n | n in op.removals ensures n !in w.dest {
      var i :| 0 <= i < |op.removals| && op.removals[i] == n;
      assert EntryHolds(op, w, w.journal.value, i);
    }
  }

  /** The plan may start: no journal, a fresh quarantine path, and every planned set in the destination. */
  predicate Ready(op: Operation, w: World) {
    w.journal.None? && w.quarantine.Absent? && forall n :: n in op.removals ==> n in w.dest
  }

  /** Where a run nobody abandons can stand: not begun, under way, or over. */
  ghost predicate Forward(op: Operation, opening: World, w: World) {
    if w.journal.Some? then w.journal.value.phase.Removing?
    else w.quarantine.Absent? && (w.dest == opening.dest || Pruned(op, w))
  }

  lemma EffectKeepsForward(op: Operation, opening: World, w: World, e: Effect)
    requires op.WellFormed() && Inv(op, w) && Permitted(op, w, e) && Forward(op, opening, w) && !e.BeginAbandon?
    ensures Forward(op, opening, Apply(op, w, e))
  {
    if e.ClearJournal? {
      AllRemovedLeavesTheKept(op, w);
    }
  }

  /**
   Without an abandon an operation only goes forward. Whenever there is no journal, either nothing has been
   set aside yet or everything planned is gone, and nothing in between.
   */
  lemma {:induction false} ForwardOnly(op: Operation, opening: World, run: seq<Effect>)
    requires op.WellFormed() && Inv(op, opening) && Ready(op, opening) && Legal(op, opening, run)
    requires BeginAbandon !in run
    ensures Forward(op, opening, After(op, opening, run))
  {
    if run != [] {
      var shorter := run[..|run| - 1];
      ForwardOnly(op, opening, shorter);
      InvAfter(op, opening, shorter);
      assert run[|run| - 1] in run;
      EffectKeepsForward(op, opening, After(op, opening, shorter), run[|run| - 1]);
    }
  }

  // ---------------------------------------------------------------------------------------------------
  // The table is exact: eight triples, and a run reaches each of them
  // ---------------------------------------------------------------------------------------------------

  datatype Triple = Triple(state: EntryState, inDestination: bool, inQuarantine: bool)

  ghost const ALL_TRIPLES: set<Triple> :=
    set s, d, q | s in {Pending, Quarantined, Deleting, Removed, Failed} && d in {true, false} && q in {true, false}
      :: Triple(s, d, q)

  const ALLOWED_TRIPLES: set<Triple> := {
    Triple(Pending, true, false), Triple(Pending, false, true),
    Triple(Failed, true, false), Triple(Failed, false, true),
    Triple(Quarantined, false, true),
    Triple(Deleting, false, true), Triple(Deleting, false, false),
    Triple(Removed, false, false)
  }

  /** The table allows exactly eight of the combinations. */
  lemma TableAllowsEight()
    ensures
      (set t | t in ALL_TRIPLES && PreconditionRefusal(t.state, t.inDestination, t.inQuarantine).None?)
        == ALLOWED_TRIPLES
    ensures |ALLOWED_TRIPLES| == 8
  {
    forall t ensures
      (t in ALL_TRIPLES && PreconditionRefusal(t.state, t.inDestination, t.inQuarantine).None?) <==> t in ALLOWED_TRIPLES
    {
      match t
      case Triple(s, d, q) =>
        match s {
          case Pending => case Quarantined => case Deleting => case Removed => case Failed =>
        }
    }
  }

  /** A refusal names what is out of place: the combination it answers to is the one it describes. */
  lemma EachRefusalHasItsCause(s: EntryState, d: bool, q: bool)
    ensures
      var r := PreconditionRefusal(s, d, q);
      && (r == Some(InBothPlaces) <==> d && q)
      && (r == Some(InNeitherPlace) <==> (s.Pending? || s.Failed?) && !d && !q)
      && (r == Some(SetAsideButBack) <==> s.Quarantined? && d && !q)
      && (r == Some(SetAsideButGone) <==> s.Quarantined? && !d && !q)
      && (r == Some(DeletingButBack) <==> s.Deleting? && d && !q)
      && (r == Some(RemovedButBack) <==> s.Removed? && d != q)
  {
    match s {
      case Pending => case Quarantined => case Deleting => case Removed => case Failed =>
    }
  }

  lemma ExtendRun(op: Operation, w: World, run: seq<Effect>, at: World, e: Effect)
    returns (longer: seq<Effect>, next: World)
    requires Legal(op, w, run) && at == After(op, w, run) && Permitted(op, at, e)
    ensures Legal(op, w, longer) && next == After(op, w, longer) == Apply(op, at, e)
  {
    longer, next := run + [e], Apply(op, at, e);
    LegalThen(op, w, run, e);
  }

  ghost predicate Reaches(op: Operation, w: World, t: Triple) {
    exists run :: Legal(op, w, run) && Shows(op, After(op, w, run), t)
  }

  ghost predicate Shows(op: Operation, w: World, t: Triple) {
    && op.removals != [] && OnRecord(op, w, 0) && w.journal.value.phase.Removing?
    && t == Triple(w.journal.value.states[0], op.removals[0] in w.dest, op.removals[0] in Held(w.quarantine))
  }

  lemma ReachesVia(op: Operation, w: World, run: seq<Effect>, at: World, t: Triple)
    requires Legal(op, w, run) && at == After(op, w, run) && Shows(op, at, t)
    ensures Reaches(op, w, t)
  {
  }

  ghost function OneSet(n: Name, child: Path, row: Row): Operation {
    Operation([n], map[n := row], map[n := {child}], None)
  }

  ghost function Planned(op: Operation): World {
    World(op.initial, Absent, None, 0)
  }

  lemma RunToPending(n: Name, child: Path, row: Row) returns (run: seq<Effect>, at: World)
    ensures
      var op := OneSet(n, child, row);
      && Legal(op, Planned(op), run) && at == After(op, Planned(op), run)
      && at == World(op.initial, Absent, Some(Journal([Pending], Removing)), 0)
  {
    var op, w := OneSet(n, child, row), Planned(OneSet(n, child, row));
    run, at := ExtendRun(op, w, [], w, StartJournal);
    assert seq(|op.removals|, i => Pending) == [Pending];
  }

  lemma RunToSetAside(n: Name, child: Path, row: Row) returns (run: seq<Effect>, at: World)
    ensures
      var op := OneSet(n, child, row);
      && Legal(op, Planned(op), run) && at == After(op, Planned(op), run)
      && at == World(map[], Marked(map[n := {child}]), Some(Journal([Pending], Removing)), 0)
  {
    var op, w := OneSet(n, child, row), Planned(OneSet(n, child, row));
    run, at := RunToPending(n, child, row);
    run, at := ExtendRun(op, w, run, at, BuildClaim);
    run, at := ExtendRun(op, w, run, at, PublishQuarantine);
    run, at := ExtendRun(op, w, run, at, Effect.SetAside(0));
    assert op.initial - {n} == map[];
  }

  lemma RunToQuarantined(n: Name, child: Path, row: Row) returns (run: seq<Effect>, at: World)
    ensures
      var op := OneSet(n, child, row);
      && Legal(op, Planned(op), run) && at == After(op, Planned(op), run)
      && at == World(map[], Marked(map[n := {child}]), Some(Journal([Quarantined], Removing)), 0)
  {
    var op, w := OneSet(n, child, row), Planned(OneSet(n, child, row));
    run, at := RunToSetAside(n, child, row);
    run, at := ExtendRun(op, w, run, at, Mark(0, Quarantined));
    assert [Pending][0 := Quarantined] == [Quarantined];
  }

  lemma RunToDeleting(n: Name, child: Path, row: Row) returns (run: seq<Effect>, at: World)
    ensures
      var op := OneSet(n, child, row);
      && Legal(op, Planned(op), run) && at == After(op, Planned(op), run)
      && at == World(map[], Marked(map[n := {child}]), Some(Journal([Deleting], Removing)), 0)
  {
    var op, w := OneSet(n, child, row), Planned(OneSet(n, child, row));
    run, at := RunToQuarantined(n, child, row);
    run, at := ExtendRun(op, w, run, at, Mark(0, Deleting));
    assert [Quarantined][0 := Deleting] == [Deleting];
  }

  lemma RunToUnrecorded(n: Name, child: Path, row: Row) returns (run: seq<Effect>, at: World)
    ensures
      var op := OneSet(n, child, row);
      && Legal(op, Planned(op), run) && at == After(op, Planned(op), run)
      && at == World(map[], Marked(map[]), Some(Journal([Deleting], Removing)), 0)
  {
    var op, w := OneSet(n, child, row), Planned(OneSet(n, child, row));
    run, at := RunToDeleting(n, child, row);
    run, at := ExtendRun(op, w, run, at, Unlink(0, child));
    var nothing: Tree := {};
    assert {child} - {child} == nothing;
    assert at.quarantine.sets == map[n := nothing];
    run, at := ExtendRun(op, w, run, at, RemoveRoot(0));
    assert map[n := nothing] - {n} == map[];
  }

  /** No allowed triple is superfluous: a run of a one-set operation passes through each of the eight. */
  lemma EveryAllowedTripleIsReached(n: Name, child: Path, row: Row, t: Triple)
    requires t in ALLOWED_TRIPLES
    ensures OneSet(n, child, row).WellFormed()
    ensures Reaches(OneSet(n, child, row), Planned(OneSet(n, child, row)), t)
  {
    hide Legal, After, Inv, EntryHolds, Reaches;
    var op, w := OneSet(n, child, row), Planned(OneSet(n, child, row));
    var run, at;
    if t.inDestination {
      run, at := RunToPending(n, child, row);
      if t.state.Failed? {
        run, at := ExtendRun(op, w, run, at, Mark(0, Failed));
      }
    } else if !Begun(t.state) {
      run, at := RunToSetAside(n, child, row);
      if !t.state.Pending? {
        run, at := ExtendRun(op, w, run, at, Mark(0, t.state));
      }
    } else if t.inQuarantine {
      run, at := RunToDeleting(n, child, row);
    } else {
      run, at := RunToUnrecorded(n, child, row);
      if t.state.Removed? {
        run, at := ExtendRun(op, w, run, at, Mark(0, Removed));
      }
    }
    ReachesVia(op, w, run, at, t);
  }
}
