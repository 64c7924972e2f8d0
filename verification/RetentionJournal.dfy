/**
 The retention journal as a document. Reading one back checks every member and then runs the evaluator again;
 what is accepted can only be an operation the evaluator itself would order.
 */
module RetentionJournal {
  import opened Basics
  import CanonicalJson
  import Chars = Text
  import opened RetentionModel
  import P = RetentionProtocol

  const MAX_DESTINATION_ENTRIES: int := 2000
  const MAX_NAME: int := 128
  const MAX_REASON: int := 2000
  const MAX_SCHEMA_VERSION: int := 100_000
  const MAX_SAFE_INTEGER: int := 9_007_199_254_740_991
  const VERSION: int := 2

  // ---------------------------------------------------------------------------------------------------
  // The document, as it is meant and as it is found
  // ---------------------------------------------------------------------------------------------------

  datatype EntryRow = EntryRow(name: string, state: P.EntryState, reason: Option<string>)

  datatype Document = Document(
    planDigest: string,
    destination: string,
    suffix: string,
    policy: Policy,
    evaluated: Instant,
    inventory: seq<Row>,
    decisions: seq<Decision>,
    removals: seq<string>,
    protectedRestorable: Option<string>,
    restorableRemaining: int,
    entries: seq<EntryRow>,
    phase: P.Phase)

  /** What parsed text may hold where a plain value is expected. */
  datatype Scalar = Undefined | Null | Bool(b: bool) | Number(n: int) | Text(s: string) | Compound

  datatype RawList<T> = NotAList | List(items: seq<T>)

  datatype RawPolicy =
    | NotAPolicy
    | RawPolicy(keepLast: Scalar, minAgeDays: Scalar, includeUnverified: Scalar, keepMinimumRestorable: Scalar)

  datatype RawRow =
    | NotARow
    | RawRow(name: Scalar, setClass: Scalar, takenAt: Scalar, takenAtMs: Scalar, schemaVersion: Scalar,
             setDigest: Scalar, restorable: Scalar, bytes: Scalar, entries: Scalar, findings: RawList<Scalar>)

  datatype RawDecision = NotADecision | RawDecision(name: Scalar, decision: Scalar, reason: Scalar)

  datatype RawEntry = NotAnEntry | RawEntry(name: Scalar, state: Scalar, reason: Scalar)

  datatype RawJournal =
    | NotARecord
    | RawJournal(
        journal: Scalar, version: Scalar, planDigest: Scalar, destination: Scalar, suffix: Scalar, phase: Scalar,
        policy: RawPolicy, evaluatedAt: Scalar, restorableRemaining: Scalar, protectedRestorable: Scalar,
        inventory: RawList<RawRow>, decisions: RawList<RawDecision>, removals: RawList<Scalar>, entries: RawList<RawEntry>)

  /** What a digest is taken over. */
  datatype Operation = Operation(
    destination: string, policy: Policy, inventory: seq<Row>, decisions: seq<Decision>, removals: seq<string>,
    protectedRestorable: Option<string>, restorableRemaining: int)

  /** The surroundings: reading an instant, the operation digest, and which destinations are inside the project. */
  datatype Context = Context(instantOf: string -> Option<int>, digest: Operation -> string, resolves: string -> bool)

  function OperationOf(d: Document): Operation {
    Operation(d.destination, d.policy, d.inventory, d.decisions, d.removals, d.protectedRestorable, d.restorableRemaining)
  }

  // ---------------------------------------------------------------------------------------------------
  // Words
  // ---------------------------------------------------------------------------------------------------

  function ClassWord(c: SetClass): string {
    match c
    case VERIFIED => "VERIFIED"
    case UNVERIFIED => "UNVERIFIED"
    case UNREADABLE => "UNREADABLE"
    case FOREIGN => "FOREIGN"
    case RESERVED => "RESERVED"
    case NOT_A_DIRECTORY => "NOT_A_DIRECTORY"
  }

  function ReadClass(s: string): Option<SetClass> {
    if s == ClassWord(VERIFIED) then Some(VERIFIED)
    else if s == ClassWord(UNVERIFIED) then Some(UNVERIFIED)
    else if s == ClassWord(UNREADABLE) then Some(UNREADABLE)
    else if s == ClassWord(FOREIGN) then Some(FOREIGN)
    else if s == ClassWord(RESERVED) then Some(RESERVED)
    else if s == ClassWord(NOT_A_DIRECTORY) then Some(NOT_A_DIRECTORY)
    else None
  }

  lemma ClassReadsBack(c: SetClass)
    ensures ReadClass(ClassWord(c)) == Some(c)
  {
    assert ClassWord(VERIFIED)[0] == 'V' && |ClassWord(VERIFIED)| == 8;
    assert ClassWord(UNVERIFIED)[2] == 'V' && |ClassWord(UNVERIFIED)| == 10;
    assert ClassWord(UNREADABLE)[2] == 'R' && |ClassWord(UNREADABLE)| == 10;
    assert |ClassWord(FOREIGN)| == 7 && |ClassWord(NOT_A_DIRECTORY)| == 15;
    assert ClassWord(RESERVED)[0] == 'R' && |ClassWord(RESERVED)| == 8;
  }

  function ReasonWord(r: Reason): string {
    match r
    case PROTECTED_NEWEST_RESTORABLE => "PROTECTED_NEWEST_RESTORABLE"
    case PROTECTED_NEWEST_ROLLBACK_POINT => "PROTECTED_NEWEST_ROLLBACK_POINT"
    case PROTECTED_NOT_OURS => "PROTECTED_NOT_OURS"
    case PROTECTED_UNVERIFIED => "PROTECTED_UNVERIFIED"
    case PROTECTED_UNDATED => "PROTECTED_UNDATED"
    case PROTECTED_MIN_AGE => "PROTECTED_MIN_AGE"
    case PROTECTED_KEEP_WINDOW => "PROTECTED_KEEP_WINDOW"
    case BEYOND_KEEP_WINDOW => "BEYOND_KEEP_WINDOW"
    case UNVERIFIED_SET => "UNVERIFIED_SET"
  }

  function ReadReason(s: string): Option<Reason> {
    if s == ReasonWord(PROTECTED_NEWEST_RESTORABLE) then Some(PROTECTED_NEWEST_RESTORABLE)
    else if s == ReasonWord(PROTECTED_NEWEST_ROLLBACK_POINT) then Some(PROTECTED_NEWEST_ROLLBACK_POINT)
    else if s == ReasonWord(PROTECTED_NOT_OURS) then Some(PROTECTED_NOT_OURS)
    else if s == ReasonWord(PROTECTED_UNVERIFIED) then Some(PROTECTED_UNVERIFIED)
    else if s == ReasonWord(PROTECTED_UNDATED) then Some(PROTECTED_UNDATED)
    else if s == ReasonWord(PROTECTED_MIN_AGE) then Some(PROTECTED_MIN_AGE)
    else if s == ReasonWord(PROTECTED_KEEP_WINDOW) then Some(PROTECTED_KEEP_WINDOW)
    else if s == ReasonWord(BEYOND_KEEP_WINDOW) then Some(BEYOND_KEEP_WINDOW)
    else if s == ReasonWord(UNVERIFIED_SET) then Some(UNVERIFIED_SET)
    else None
  }

  lemma ReasonReadsBack(r: Reason)
    ensures ReadReason(ReasonWord(r)) == Some(r)
  {
    assert |ReasonWord(PROTECTED_NEWEST_RESTORABLE)| == 27 && |ReasonWord(PROTECTED_NEWEST_ROLLBACK_POINT)| == 31;
    assert |ReasonWord(PROTECTED_NOT_OURS)| == 18 && ReasonWord(PROTECTED_NOT_OURS)[0] == 'P';
    assert |ReasonWord(PROTECTED_UNVERIFIED)| == 20 && |ReasonWord(PROTECTED_UNDATED)| == 17;
    assert ReasonWord(PROTECTED_UNDATED)[10] == 'U' && ReasonWord(PROTECTED_MIN_AGE)[10] == 'M';
    assert |ReasonWord(PROTECTED_MIN_AGE)| == 17 && |ReasonWord(PROTECTED_KEEP_WINDOW)| == 21;
    assert |ReasonWord(BEYOND_KEEP_WINDOW)| == 18 && ReasonWord(BEYOND_KEEP_WINDOW)[0] == 'B';
    assert |ReasonWord(UNVERIFIED_SET)| == 14;
  }

  function StateWord(s: P.EntryState): string {
    match s
    case Pending => "pending"
    case Quarantined => "quarantined"
    case Deleting => "deleting"
    case Removed => "removed"
    case Failed => "failed"
  }

  function ReadState(s: string): Option<P.EntryState> {
    if s == StateWord(P.Pending) then Some(P.Pending)
    else if s == StateWord(P.Quarantined) then Some(P.Quarantined)
    else if s == StateWord(P.Deleting) then Some(P.Deleting)
    else if s == StateWord(P.Removed) then Some(P.Removed)
    else if s == StateWord(P.Failed) then Some(P.Failed)
    else None
  }

  lemma StateReadsBack(s: P.EntryState)
    ensures ReadState(StateWord(s)) == Some(s)
  {
    assert |StateWord(P.Pending)| == 7 && StateWord(P.Pending)[0] == 'p';
    assert |StateWord(P.Removed)| == 7 && StateWord(P.Removed)[0] == 'r';
    assert |StateWord(P.Quarantined)| == 11 && |StateWord(P.Deleting)| == 8 && |StateWord(P.Failed)| == 6;
  }

  predicate NameChar(c: char) {
    'A' <= c <= 'Z' || 'a' <= c <= 'z' || '0' <= c <= '9' || c == '.' || c == '_' || c == '-'
  }

  /** A name this program creates: 1 to 96 plain characters, the first a letter or digit. */
  predicate UsableName(s: string) {
    1 <= |s| <= 96 && s[0] != '.' && s[0] != '_' && s[0] != '-' && forall i :: 0 <= i < |s| ==> NameChar(s[i])
  }

  // ---------------------------------------------------------------------------------------------------
  // Reading members
  // ---------------------------------------------------------------------------------------------------

  predicate IsCount(v: Scalar, max: int) {
    v.Number? && 0 <= v.n <= max
  }

  predicate IsName(v: Scalar) {
    v.Text? && 1 <= |v.s| <= MAX_NAME
  }

  function ReadPolicy(v: RawPolicy): Option<Policy> {
    if v.NotAPolicy? || !IsCount(v.keepLast, MAX_KEEP_LAST) || !IsCount(v.minAgeDays, MAX_MIN_AGE_DAYS)
      || !IsCount(v.keepMinimumRestorable, MAX_KEEP_MINIMUM) || !v.includeUnverified.Bool? then None
    else
      var p := Policy(v.keepLast.n, v.minAgeDays.n, v.includeUnverified.b, v.keepMinimumRestorable.n);
      if Usable(p) then Some(p) else None
  }

  predicate DateAgrees(ctx: Context, takenAt: Scalar, takenAtMs: Scalar) {
    || (takenAt.Null? && takenAtMs.Null?)
    || (takenAt.Text? && ctx.instantOf(takenAt.s).Some? && takenAtMs == Number(ctx.instantOf(takenAt.s).value))
  }

  predicate AreFindings(v: RawList<Scalar>) {
    v.List? && |v.items| <= 64 && forall i :: 0 <= i < |v.items| ==> v.items[i].Text? && |v.items[i].s| <= 64
  }

  function ReadRow(ctx: Context, v: RawRow): Option<Row> {
    if v.NotARow? || !IsName(v.name) || !v.setClass.Text? || ReadClass(v.setClass.s).None? then None
    else if !DateAgrees(ctx, v.takenAt, v.takenAtMs) then None
    else if !v.schemaVersion.Null? && !IsCount(v.schemaVersion, MAX_SCHEMA_VERSION) then None
    else if !v.setDigest.Text? || !(v.setDigest.s == "" || Chars.IsHexOf(v.setDigest.s, 64)) then None
    else if !v.restorable.Bool? || !IsCount(v.bytes, MAX_SAFE_INTEGER) || !IsCount(v.entries, MAX_SAFE_INTEGER) then None
    else if !AreFindings(v.findings) then None
    else
      var setClass := ReadClass(v.setClass.s).value;
      if !Removable(setClass) && (v.setDigest.s != "" || v.restorable.b) then None
      else
        Some(Row(
          v.name.s, setClass, if v.takenAt.Null? then None else Some(Instant(v.takenAt.s, v.takenAtMs.n)),
          if v.schemaVersion.Null? then None else Some(v.schemaVersion.n), v.setDigest.s, v.restorable.b,
          v.bytes.n, v.entries.n, seq(|v.findings.items|, i requires 0 <= i < |v.findings.items| => v.findings.items[i].s)))
  }

  function ReadDecision(v: RawDecision): Option<Decision> {
    if v.NotADecision? || !IsName(v.name) || !(v.decision == Text("keep") || v.decision == Text("remove")) then None
    else if !v.reason.Text? || ReadReason(v.reason.s).None? then None
    else Some(Decision(v.name.s, v.decision == Text("remove"), ReadReason(v.reason.s).value))
  }

  function ReadEntry(v: RawEntry, name: string): Option<EntryRow> {
    if v.NotAnEntry? || v.name != Text(name) || !v.state.Text? || ReadState(v.state.s).None? then None
    else
      var state := ReadState(v.state.s).value;
      if state.Failed? then
        if v.reason.Text? && 1 <= |v.reason.s| <= MAX_REASON then Some(EntryRow(name, state, Some(v.reason.s))) else None
      else if v.reason.Null? then Some(EntryRow(name, state, None))
      else None
  }

  function ReadRows(ctx: Context, v: RawList<RawRow>): Option<seq<Row>> {
    if v.List? && |v.items| <= MAX_DESTINATION_ENTRIES && forall i :: 0 <= i < |v.items| ==> ReadRow(ctx, v.items[i]).Some? then
      Some(seq(|v.items|, i requires 0 <= i < |v.items| => ReadRow(ctx, v.items[i]).value))
    else None
  }

  function ReadDecisions(v: RawList<RawDecision>): Option<seq<Decision>> {
    if v.List? && forall i :: 0 <= i < |v.items| ==> ReadDecision(v.items[i]).Some? then
      Some(seq(|v.items|, i requires 0 <= i < |v.items| => ReadDecision(v.items[i]).value))
    else None
  }

  function ReadEntries(v: RawList<RawEntry>, removals: seq<string>): Option<seq<EntryRow>> {
    if v.List? && |v.items| == |removals| && forall i :: 0 <= i < |removals| ==> ReadEntry(v.items[i], removals[i]).Some? then
      Some(seq(|removals|, i requires 0 <= i < |removals| => ReadEntry(v.items[i], removals[i]).value))
    else None
  }

  /** One name of the removal list: usable, in the inventory, and a set this policy may consider at all. */
  predicate MayBeRemoved(inventory: seq<Row>, p: Policy, v: Scalar) {
    && v.Text? && UsableName(v.s)
    && exists i :: 0 <= i < |inventory| && inventory[i].name == v.s && Removable(inventory[i].setClass)
         && (inventory[i].setClass.UNVERIFIED? ==> p.includeUnverified)
  }

  function ReadRemovals(inventory: seq<Row>, p: Policy, v: RawList<Scalar>): Option<seq<string>> {
    if v.List? && (forall i :: 0 <= i < |v.items| ==> MayBeRemoved(inventory, p, v.items[i])) then
      var names := seq(|v.items|, i requires 0 <= i < |v.items| => v.items[i].s);
      if forall i, k :: 0 <= i < k < |names| ==> names[i] != names[k] then Some(names) else None
    else None
  }

  /** Every name once and in the order a destination is listed in. */
  predicate Listed(rows: seq<Row>) {
    forall i, k :: 0 <= i < k < |rows| ==> CanonicalJson.Less(rows[i].name, rows[k].name)
  }

  predicate Covers(decisions: seq<Decision>, inventory: seq<Row>) {
    |decisions| == |inventory| && forall i :: 0 <= i < |inventory| ==> decisions[i].name == inventory[i].name
  }

  /** The members before the lists. */
  predicate HeaderReads(ctx: Context, v: RawJournal) {
    && v.RawJournal?
    && v.journal == Text("catalog-authority.retention") && v.version == Number(VERSION)
    && v.planDigest.Text? && Chars.IsHexOf(v.planDigest.s, 64)
    && v.destination.Text? && v.destination.s != "" && ctx.resolves(v.destination.s)
    && v.suffix.Text? && Chars.IsHexOf(v.suffix.s, 12)
    && (v.phase == Text("removing") || v.phase == Text("abandoning"))
    && v.evaluatedAt.Text? && ctx.instantOf(v.evaluatedAt.s).Some?
    && IsCount(v.restorableRemaining, MAX_DESTINATION_ENTRIES)
    && (v.protectedRestorable.Null? || (v.protectedRestorable.Text? && UsableName(v.protectedRestorable.s)))
  }

  /** The evaluator, run again on what the document records, orders exactly what it records. */
  predicate EvaluatorAgrees(d: Document) {
    var e := Evaluate(d.inventory, d.policy, d.evaluated.ms);
    && e.Some? && e.value.refusals == [] && e.value.decisions == d.decisions && e.value.removals == d.removals
    && e.value.protectedRestorable == d.protectedRestorable && e.value.restorableRemaining == d.restorableRemaining
  }

  function Read(ctx: Context, v: RawJournal): Option<Document> {
    if !HeaderReads(ctx, v) then None
    else
      var policy :- ReadPolicy(v.policy);
      var inventory :- ReadRows(ctx, v.inventory);
      if !Listed(inventory) then None
      else
        var decisions :- ReadDecisions(v.decisions);
        if !Covers(decisions, inventory) then None
        else
          var removals :- ReadRemovals(inventory, policy, v.removals);
          var entries :- ReadEntries(v.entries, removals);
          var d := Document(
            v.planDigest.s, v.destination.s, v.suffix.s, policy,
            Instant(v.evaluatedAt.s, ctx.instantOf(v.evaluatedAt.s).value), inventory, decisions, removals,
            if v.protectedRestorable.Null? then None else Some(v.protectedRestorable.s), v.restorableRemaining.n,
            entries, if v.phase == Text("removing") then P.Removing else P.Abandoning);
          if ctx.digest(OperationOf(d)) != d.planDigest || !EvaluatorAgrees(d) then None else Some(d)
  }

  // ---------------------------------------------------------------------------------------------------
  // Writing
  // ---------------------------------------------------------------------------------------------------

  function WriteRow(r: Row): RawRow {
    RawRow(
      Text(r.name), Text(ClassWord(r.setClass)), if r.taken.None? then Null else Text(r.taken.value.text),
      if r.taken.None? then Null else Number(r.taken.value.ms),
      if r.schemaVersion.None? then Null else Number(r.schemaVersion.value), Text(r.setDigest), Bool(r.restorable),
      Number(r.bytes), Number(r.entries), List(seq(|r.findings|, i requires 0 <= i < |r.findings| => Text(r.findings[i]))))
  }

  function WriteDecision(d: Decision): RawDecision {
    RawDecision(Text(d.name), Text(if d.remove then "remove" else "keep"), Text(ReasonWord(d.reason)))
  }

  function WriteEntry(e: EntryRow): RawEntry {
    RawEntry(Text(e.name), Text(StateWord(e.state)), if e.reason.None? then Null else Text(e.reason.value))
  }

  function WriteRows(rows: seq<Row>): RawList<RawRow> {
    List(seq(|rows|, i requires 0 <= i < |rows| => WriteRow(rows[i])))
  }

  function WriteDecisions(ds: seq<Decision>): RawList<RawDecision> {
    List(seq(|ds|, i requires 0 <= i < |ds| => WriteDecision(ds[i])))
  }

  function WriteNames(names: seq<string>): RawList<Scalar> {
    List(seq(|names|, i requires 0 <= i < |names| => Text(names[i])))
  }

  function WriteEntries(entries: seq<EntryRow>): RawList<RawEntry> {
    List(seq(|entries|, i requires 0 <= i < |entries| => WriteEntry(entries[i])))
  }

  function Write(d: Document): RawJournal {
    RawJournal(
      Text("catalog-authority.retention"), Number(VERSION), Text(d.planDigest), Text(d.destination), Text(d.suffix),
      Text(if d.phase.Removing? then "removing" else "abandoning"),
      RawPolicy(Number(d.policy.keepLast), Number(d.policy.minAgeDays), Bool(d.policy.includeUnverified),
                Number(d.policy.keepMinimumRestorable)),
      Text(d.evaluated.text), Number(d.restorableRemaining),
      if d.protectedRestorable.None? then Null else Text(d.protectedRestorable.value),
      WriteRows(d.inventory),
      WriteDecisions(d.decisions),
      WriteNames(d.removals),
      WriteEntries(d.entries))
  }

  /** What a reader accepts as an inventory row. */
  predicate RowAccepted(ctx: Context, r: Row) {
    && 1 <= |r.name| <= 128
    && (r.taken.Some? ==> ctx.instantOf(r.taken.value.text) == Some(r.taken.value.ms))
    && (r.schemaVersion.Some? ==> 0 <= r.schemaVersion.value <= 100_000)
    && (r.setDigest == "" || Chars.IsHexOf(r.setDigest, 64))
    && 0 <= r.bytes <= 9_007_199_254_740_991 && 0 <= r.entries <= 9_007_199_254_740_991
    && |r.findings| <= 64 && (forall i :: 0 <= i < |r.findings| ==> |r.findings[i]| <= 64)
    && (!Removable(r.setClass) ==> r.setDigest == "" && !r.restorable)
  }

  lemma RowReadsBack(ctx: Context, r: Row)
    ensures ReadRow(ctx, WriteRow(r)) == if RowAccepted(ctx, r) then Some(r) else None
  {
    ClassReadsBack(r.setClass);
    hide ReadClass, ClassWord, Chars.IsHexOf;
    var v := WriteRow(r);
    assert forall i :: 0 <= i < |r.findings| ==> v.findings.items[i] == Text(r.findings[i]);
    if RowAccepted(ctx, r) {
      assert seq(|v.findings.items|, i requires 0 <= i < |v.findings.items| => v.findings.items[i].s) == r.findings;
    }
  }

  lemma RowsReadBack(ctx: Context, rows: seq<Row>)
    requires |rows| <= MAX_DESTINATION_ENTRIES
    ensures ReadRows(ctx, WriteRows(rows))
      == if forall i :: 0 <= i < |rows| ==> RowAccepted(ctx, rows[i]) then Some(rows) else None
  {
    var v := WriteRows(rows);
    hide ReadRow, WriteRow, RowAccepted;
    forall i | 0 <= i < |rows| ensures ReadRow(ctx, v.items[i]) == if RowAccepted(ctx, rows[i]) then Some(rows[i]) else None {
      RowReadsBack(ctx, rows[i]);
    }
    if forall i :: 0 <= i < |rows| ==> RowAccepted(ctx, rows[i]) {
      assert seq(|v.items|, i requires 0 <= i < |v.items| => ReadRow(ctx, v.items[i]).value) == rows;
    }
  }

  lemma DecisionReadsBack(d: Decision)
    requires 1 <= |d.name| <= MAX_NAME
    ensures ReadDecision(WriteDecision(d)) == Some(d)
  {
    ReasonReadsBack(d.reason);
    hide ReadReason, ReasonWord;
    assert "keep"[0] == 'k' && "remove"[0] == 'r';
  }

  lemma DecisionsReadBack(ds: seq<Decision>)
    requires forall i :: 0 <= i < |ds| ==> 1 <= |ds[i].name| <= MAX_NAME
    ensures ReadDecisions(WriteDecisions(ds)) == Some(ds)
  {
    var v := WriteDecisions(ds);
    hide ReadDecision, WriteDecision;
    forall i | 0 <= i < |ds| ensures ReadDecision(v.items[i]) == Some(ds[i]) {
      DecisionReadsBack(ds[i]);
    }
    assert seq(|v.items|, i requires 0 <= i < |v.items| => ReadDecision(v.items[i]).value) == ds;
  }

  /** A failed entry says why, briefly; no other entry says anything. */
  predicate EntryIsWritten(e: EntryRow) {
    if e.state.Failed? then e.reason.Some? && 1 <= |e.reason.value| <= MAX_REASON else e.reason.None?
  }

  predicate EntriesCover(entries: seq<EntryRow>, removals: seq<string>) {
    && |entries| == |removals|
    && forall i :: 0 <= i < |removals| ==> entries[i].name == removals[i] && EntryIsWritten(entries[i])
  }

  lemma EntryReadsBack(e: EntryRow)
    requires EntryIsWritten(e)
    ensures ReadEntry(WriteEntry(e), e.name) == Some(e)
  {
    StateReadsBack(e.state);
    hide ReadState, StateWord;
  }

  lemma EntriesReadBack(entries: seq<EntryRow>, removals: seq<string>)
    requires EntriesCover(entries, removals)
    ensures ReadEntries(WriteEntries(entries), removals) == Some(entries)
  {
    var v := WriteEntries(entries);
    hide ReadEntry, WriteEntry, EntryIsWritten;
    forall i | 0 <= i < |entries| ensures ReadEntry(v.items[i], removals[i]) == Some(entries[i]) {
      EntryReadsBack(entries[i]);
    }
    assert seq(|removals|, i requires 0 <= i < |removals| => ReadEntry(v.items[i], removals[i]).value) == entries;
  }

  // ---------------------------------------------------------------------------------------------------
  // Authority
  // ---------------------------------------------------------------------------------------------------

  lemma ListedIsDistinct(rows: seq<Row>)
    requires Listed(rows)
    ensures DistinctNames(rows)
  {
    forall i, k | 0 <= i < k < |rows| ensures rows[i].name != rows[k].name {
      CanonicalJson.LessIsTotal(rows[i].name, rows[k].name);
    }
  }

  lemma WhatIsReadAgrees(ctx: Context, v: RawJournal)
    requires Read(ctx, v).Some?
    ensures
      var d := Read(ctx, v).value;
      Listed(d.inventory) && EvaluatorAgrees(d) && EntriesCover(d.entries, d.removals)
      && ctx.digest(OperationOf(d)) == d.planDigest
  {
    hide HeaderReads, ReadPolicy, ReadRows, ReadDecisions, ReadRemovals, Listed, Covers, EvaluatorAgrees, Chars.IsHexOf;
  }

  /**
   Whatever the text of a journal, if it is accepted then its entries are, in order, exactly the sets the rule
   removes from the inventory it records: no kept set, no protected set and nothing foreign is ever an entry.
   */
  lemma AcceptedIsWhatTheRuleOrders(ctx: Context, v: RawJournal)
    requires Read(ctx, v).Some?
    ensures
      var d := Read(ctx, v).value;
      var removed := Removed(d.inventory, d.policy, d.evaluated.ms);
      && |d.entries| == |removed|
      && (forall i :: 0 <= i < |removed| ==> d.entries[i].name == removed[i].name)
      && SortedBy(removed, OldestFirst)
      && (forall r :: r in removed <==> r in d.inventory && ShouldRemove(d.inventory, d.policy, d.evaluated.ms, r))
      && d.protectedRestorable.Some?
      && (forall i :: 0 <= i < |d.entries| ==> d.entries[i].name != d.protectedRestorable.value)
  {
    hide Read, Listed, Evaluate, ShouldRemove, Removed, OldestFirst, IsNewest, DistinctNames, SortedBy, IsRestorable;
    var d := Read(ctx, v).value;
    WhatIsReadAgrees(ctx, v);
    ListedIsDistinct(d.inventory);
    ProtectedIsNoRemoval(d);
    RemovalsAreTheRule(d.inventory, d.policy, d.evaluated.ms);
    assert d.removals == Names(Removed(d.inventory, d.policy, d.evaluated.ms));
  }

  function RowNamed(rows: seq<Row>, name: string): Option<Row> {
    if rows == [] then None else if rows[0].name == name then Some(rows[0]) else RowNamed(rows[1..], name)
  }

  /** What a run commits to for each removal: the declared size of the set its inventory row records. */
  function Commitments(d: Document): map<P.Name, P.Row> {
    map n | n in d.removals ::
      var r := RowNamed(d.inventory, n);
      if r.Some? && r.value.entries >= 0 && r.value.bytes >= 0 then P.Row(r.value.entries, r.value.bytes) else P.Row(0, 0)
  }

  /** An accepted journal is an operation the crash-safe protocol is proved for, whatever set trees it finds. */
  lemma AcceptedIsWellFormed(ctx: Context, v: RawJournal, initial: map<P.Name, P.Tree>)
    requires Read(ctx, v).Some?
    requires forall n :: n in Read(ctx, v).value.removals ==> n in initial
    requires Read(ctx, v).value.protectedRestorable.Some? ==> Read(ctx, v).value.protectedRestorable.value in initial
    ensures
      var d := Read(ctx, v).value;
      d.protectedRestorable.Some? && P.Operation(d.removals, Commitments(d), initial, d.protectedRestorable).WellFormed()
  {
    hide Read, Removed, ShouldRemove, EvaluatorAgrees, Listed, RowNamed, EntriesCover;
    var d := Read(ctx, v).value;
    WhatIsReadAgrees(ctx, v);
    RemovalsAreNames(d);
    var removed := Removed(d.inventory, d.policy, d.evaluated.ms);
    assert forall i, k :: 0 <= i < k < |removed| ==> removed[i].name != removed[k].name;
    ListedIsDistinct(d.inventory);
    ProtectedIsNoRemoval(d);
  }

  lemma ProtectedIsNoRemoval(d: Document)
    requires DistinctNames(d.inventory) && EvaluatorAgrees(d)
    ensures Usable(d.policy) && d.protectedRestorable.Some? && d.protectedRestorable.value !in d.removals
    ensures exists r :: r in d.inventory && IsRestorable(r) && r.name == d.protectedRestorable.value
  {
    FloorIsKept(d.inventory, d.policy, d.evaluated.ms);
    var r :| IsNewest(d.inventory, IsRestorable, r) && r.name == d.protectedRestorable.value
      && r in d.inventory && IsRestorable(r) && !ShouldRemove(d.inventory, d.policy, d.evaluated.ms, r);
    NamedForRemoval(d.inventory, d.policy, d.evaluated.ms, r);
  }

  // ---------------------------------------------------------------------------------------------------
  // Every journal a run writes
  // ---------------------------------------------------------------------------------------------------

  /** What listing the destination gives for any name: only a plain, usable name is ever one of ours. */
  predicate Produced(r: Row) {
    && r.name != ""
    && (Removable(r.setClass) ==> UsableName(r.name))
    && (!Removable(r.setClass) ==> r.setDigest == "" && !r.restorable)
  }

  /** What is found at one name of the destination. */
  datatype Found =
    | NoStat
    | NotPlainDirectory
    | NoManifest
    | BadManifest
    | NotExamined(shape: Row)
    | Examined(shape: Row, ok: bool, setDigest: string, restorable: bool, findings: seq<string>)

  function Bare(name: string, c: SetClass): Row {
    Row(name, c, None, None, "", false, 0, 0, [])
  }

  function Classify(name: string, found: Found): Row {
    if name != "" && name[0] == '.' then Bare(name, RESERVED)
    else if !UsableName(name) then Bare(name, FOREIGN)
    else
      match found
      case NoStat => Bare(name, NOT_A_DIRECTORY)
      case NotPlainDirectory => Bare(name, NOT_A_DIRECTORY)
      case NoManifest => Bare(name, FOREIGN)
      case BadManifest => Bare(name, UNREADABLE)
      case NotExamined(shape) => shape.(name := name, setClass := UNREADABLE, setDigest := "", restorable := false, findings := [])
      case Examined(shape, ok, setDigest, restorable, findings) =>
        shape.(name := name, setClass := if ok then VERIFIED else UNVERIFIED, setDigest := setDigest,
               restorable := restorable, findings := findings)
  }

  lemma ClassifiedIsProduced(name: string, found: Found)
    requires name != ""
    ensures Produced(Classify(name, found)) && Classify(name, found).name == name
  {
  }

  predicate LetterOrDigit(c: char) {
    'A' <= c <= 'Z' || 'a' <= c <= 'z' || '0' <= c <= '9'
  }

  /**
   The class of every entry: a set counts as verified or unverified by its examination alone, and a leading dot, an
   unusable name, what is no plain directory, a missing and an unreadable manifest each come before that.
   */
  lemma ClassifiedExactlyWhen(name: string, found: Found)
    requires name != ""
    ensures
      var c := Classify(name, found).setClass;
      var ours := |name| <= 96 && LetterOrDigit(name[0])
        && forall i :: 0 <= i < |name| ==> LetterOrDigit(name[i]) || name[i] in {'.', '_', '-'};
      && (c.RESERVED? <==> name[0] == '.')
      && (c.FOREIGN? <==> name[0] != '.' && (!ours || found.NoManifest?))
      && (c.NOT_A_DIRECTORY? <==> ours && (found.NoStat? || found.NotPlainDirectory?))
      && (c.UNREADABLE? <==> ours && (found.BadManifest? || found.NotExamined?))
      && (c.VERIFIED? <==> ours && found.Examined? && found.ok)
      && (c.UNVERIFIED? <==> ours && found.Examined? && !found.ok)
      && (Classify(name, found).restorable <==> ours && found.Examined? && found.restorable)
      && (ours && found.Examined? ==>
            Classify(name, found).taken == found.shape.taken && Classify(name, found).setDigest == found.setDigest)
  {
  }

  /** What a run has written: an operation the evaluator ordered, with any states its entries can be in. */
  ghost predicate Written(ctx: Context, d: Document) {
    && |d.inventory| <= MAX_DESTINATION_ENTRIES && Listed(d.inventory)
    && (forall i :: 0 <= i < |d.inventory| ==> Produced(d.inventory[i]))
    && EvaluatorAgrees(d)
    && d.planDigest == ctx.digest(OperationOf(d)) && Chars.IsHexOf(d.planDigest, 64)
    && d.destination != "" && ctx.resolves(d.destination) && Chars.IsHexOf(d.suffix, 12)
    && ctx.instantOf(d.evaluated.text) == Some(d.evaluated.ms)
    && EntriesCover(d.entries, d.removals)
  }

  /** A confirmed plan becomes a journal with every entry pending, unless the evaluation is refused. */
  function Begin(ctx: Context, destination: string, suffix: string, p: Policy, evaluated: Instant, inventory: seq<Row>): Option<Document> {
    var e := Evaluate(inventory, p, evaluated.ms);
    if e.None? || e.value.refusals != [] || !Chars.IsHexOf(suffix, 12) then None
    else
      var op := Operation(destination, p, inventory, e.value.decisions, e.value.removals,
                          e.value.protectedRestorable, e.value.restorableRemaining);
      Some(Document(
        ctx.digest(op), destination, suffix, p, evaluated, inventory, e.value.decisions, e.value.removals,
        e.value.protectedRestorable, e.value.restorableRemaining,
        seq(|e.value.removals|, i requires 0 <= i < |e.value.removals| => EntryRow(e.value.removals[i], P.Pending, None)),
        P.Removing))
  }

  /** Rewrite one entry. */
  function MarkEntry(d: Document, name: string, state: P.EntryState, reason: Option<string>): Document {
    d.(entries := seq(|d.entries|, i requires 0 <= i < |d.entries| =>
      if d.entries[i].name == name then EntryRow(name, state, reason) else d.entries[i]))
  }

  lemma BeginIsWritten(ctx: Context, destination: string, suffix: string, p: Policy, evaluated: Instant, inventory: seq<Row>)
    requires Begin(ctx, destination, suffix, p, evaluated, inventory).Some?
    requires forall op :: Chars.IsHexOf(ctx.digest(op), 64)
    requires destination != "" && ctx.resolves(destination) && ctx.instantOf(evaluated.text) == Some(evaluated.ms)
    requires |inventory| <= MAX_DESTINATION_ENTRIES && Listed(inventory)
    requires forall i :: 0 <= i < |inventory| ==> Produced(inventory[i])
    ensures Written(ctx, Begin(ctx, destination, suffix, p, evaluated, inventory).value)
  {
    hide Evaluate, Listed, Produced, Chars.IsHexOf;
  }

  lemma StepsKeepWritten(ctx: Context, d: Document, name: string, state: P.EntryState, reason: Option<string>)
    requires Written(ctx, d) && EntryIsWritten(EntryRow(name, state, reason))
    ensures Written(ctx, MarkEntry(d, name, state, reason)) && Written(ctx, d.(phase := P.Abandoning))
  {
    hide Evaluate, Listed, Produced, Chars.IsHexOf, EvaluatorAgrees, EntryIsWritten, MarkEntry, EntriesCover;
    MarkCovers(d, name, state, reason);
    SameOrder(d, MarkEntry(d, name, state, reason));
    SameOrder(d, d.(phase := P.Abandoning));
  }

  lemma MarkCovers(d: Document, name: string, state: P.EntryState, reason: Option<string>)
    requires EntriesCover(d.entries, d.removals) && EntryIsWritten(EntryRow(name, state, reason))
    ensures EntriesCover(MarkEntry(d, name, state, reason).entries, d.removals)
    ensures MarkEntry(d, name, state, reason) == d.(entries := MarkEntry(d, name, state, reason).entries)
  {
    hide EntryIsWritten;
  }

  /** The operation is in every field but the states and the phase. */
  lemma SameOrder(d: Document, e: Document)
    requires e == d.(entries := e.entries, phase := e.phase) && EvaluatorAgrees(d)
    ensures EvaluatorAgrees(e) && OperationOf(e) == OperationOf(d)
  {
    hide Evaluate;
  }

  lemma RemovalsAreNames(d: Document)
    requires Listed(d.inventory) && EvaluatorAgrees(d)
    ensures
      var removed := Removed(d.inventory, d.policy, d.evaluated.ms);
      && d.removals == Names(removed) && DistinctNames(removed)
      && forall r :: r in removed <==> r in d.inventory && ShouldRemove(d.inventory, d.policy, d.evaluated.ms, r)
  {
    ListedIsDistinct(d.inventory);
    AgreesIsUsable(d);
    RemovalsAreTheRule(d.inventory, d.policy, d.evaluated.ms);
    hide Evaluate, Removed, ShouldRemove, DistinctNames;
  }

  lemma AgreesIsUsable(d: Document)
    requires EvaluatorAgrees(d)
    ensures Usable(d.policy)
  {
  }

  lemma RemovalsReadBack(d: Document)
    requires Listed(d.inventory) && EvaluatorAgrees(d) && forall i :: 0 <= i < |d.inventory| ==> Produced(d.inventory[i])
    ensures ReadRemovals(d.inventory, d.policy, WriteNames(d.removals))
      == Some(d.removals)
  {
    hide Evaluate, EvaluatorAgrees, Listed, Removed, SortedBy, UsableName, ShouldRemove, Produced, MayBeRemoved;
    var removed := Removed(d.inventory, d.policy, d.evaluated.ms);
    var v := WriteNames(d.removals);
    RemovalsAreNames(d);
    forall i | 0 <= i < |removed| ensures MayBeRemoved(d.inventory, d.policy, v.items[i]) {
      assert removed[i] in removed;
      RemovedMayBeRemoved(d.inventory, d.policy, d.evaluated.ms, removed[i]);
    }
    assert forall i, k :: 0 <= i < k < |removed| ==> removed[i].name != removed[k].name;
    assert seq(|v.items|, i requires 0 <= i < |v.items| => v.items[i].s) == d.removals;
  }

  lemma RemovedMayBeRemoved(inventory: seq<Row>, p: Policy, nowMs: int, r: Row)
    requires r in inventory && Produced(r) && ShouldRemove(inventory, p, nowMs, r)
    ensures MayBeRemoved(inventory, p, Text(r.name))
  {
    var k :| 0 <= k < |inventory| && inventory[k] == r;
    assert inventory[k].name == r.name && Removable(inventory[k].setClass);
  }

  lemma RemainingIsSmall(d: Document)
    requires EvaluatorAgrees(d) && |d.inventory| <= MAX_DESTINATION_ENTRIES
    ensures 0 <= d.restorableRemaining <= MAX_DESTINATION_ENTRIES
    ensures d.decisions == Decisions(d.inventory, d.policy, d.evaluated.ms) && Usable(d.policy)
  {
  }

  lemma DecisionsCover(rows: seq<Row>, p: Policy, nowMs: int)
    ensures Covers(Decisions(rows, p, nowMs), rows)
  {
    forall i | 0 <= i < |rows| ensures Decisions(rows, p, nowMs)[i].name == rows[i].name {
      DecisionNames(rows, p, nowMs, rows[i]);
    }
  }

  lemma DecisionNames(rows: seq<Row>, p: Policy, nowMs: int, r: Row)
    ensures Decide(rows, p, nowMs, r).name == r.name
  {
    hide NewestOf, SortBy, Filter, PositionOf;
  }

  lemma HeaderReadsBack(ctx: Context, d: Document)
    requires Written(ctx, d)
    ensures HeaderReads(ctx, Write(d)) && ReadPolicy(Write(d).policy) == Some(d.policy)
  {
    hide Evaluate, EvaluatorAgrees, Listed, Produced, UsableName, Chars.IsHexOf, EntriesCover, Write, Usable;
    RemainingIsSmall(d);
    ProtectedIsUsable(d);
    WrittenHeader(d);
    PolicyReadsBack(d.policy);
  }

  lemma PolicyReadsBack(p: Policy)
    requires Usable(p)
    ensures ReadPolicy(RawPolicy(Number(p.keepLast), Number(p.minAgeDays), Scalar.Bool(p.includeUnverified), Number(p.keepMinimumRestorable)))
      == Some(p)
  {
  }

  lemma ProtectedIsUsable(d: Document)
    requires Listed(d.inventory) && EvaluatorAgrees(d)
    requires forall i :: 0 <= i < |d.inventory| ==> Produced(d.inventory[i])
    ensures d.protectedRestorable.Some? && UsableName(d.protectedRestorable.value)
  {
    hide EvaluatorAgrees, Listed, UsableName;
    ListedIsDistinct(d.inventory);
    ProtectedIsNoRemoval(d);
    var r :| r in d.inventory && IsRestorable(r) && r.name == d.protectedRestorable.value;
    var k :| 0 <= k < |d.inventory| && d.inventory[k] == r;
    assert Produced(d.inventory[k]);
  }

  /**
   A journal a run writes, at any step, is read back as exactly what was written, if and only if every row of
   its inventory is one a reader accepts. Nothing checks that before the first one is written.
   */
  lemma ReadsBackExactlyWhenRowsAreAccepted(ctx: Context, d: Document)
    requires Written(ctx, d)
    ensures Read(ctx, Write(d))
      == if forall i :: 0 <= i < |d.inventory| ==> RowAccepted(ctx, d.inventory[i]) then Some(d) else None
  {
    hide HeaderReads, ReadPolicy, ReadRows, ReadDecisions, ReadRemovals, ReadEntries, Evaluate, EvaluatorAgrees,
      Write, WriteRows, WriteDecisions, WriteNames, WriteEntries, RowAccepted, Decisions, Listed, Produced, Chars.IsHexOf, Covers;
    HeaderReadsBack(ctx, d);
    RowsReadBack(ctx, d.inventory);
    WrittenHeader(d);
    if forall i :: 0 <= i < |d.inventory| ==> RowAccepted(ctx, d.inventory[i]) {
      RemainingIsSmall(d);
      DecisionsCover(d.inventory, d.policy, d.evaluated.ms);
      RowNamesFit(ctx, d.inventory);
      assert forall i :: 0 <= i < |d.decisions| ==> 1 <= |d.decisions[i].name| <= MAX_NAME by {
        NamesCovered(d.decisions, d.inventory);
      }
      DecisionsReadBack(d.decisions);
      RemovalsReadBack(d);
      EntriesReadBack(d.entries, d.removals);
    }
  }

  lemma NamesCovered(decisions: seq<Decision>, inventory: seq<Row>)
    requires Covers(decisions, inventory)
    ensures |decisions| == |inventory| && forall i :: 0 <= i < |inventory| ==> decisions[i].name == inventory[i].name
  {
  }

  lemma RowNamesFit(ctx: Context, rows: seq<Row>)
    requires forall i :: 0 <= i < |rows| ==> RowAccepted(ctx, rows[i])
    ensures forall i :: 0 <= i < |rows| ==> 1 <= |rows[i].name| <= MAX_NAME
  {
  }

  lemma WrittenHeader(d: Document)
    ensures
      var v := Write(d);
      && v.planDigest == Text(d.planDigest) && v.destination == Text(d.destination) && v.suffix == Text(d.suffix)
      && v.evaluatedAt == Text(d.evaluated.text) && v.restorableRemaining == Number(d.restorableRemaining)
      && v.protectedRestorable == (if d.protectedRestorable.None? then Null else Text(d.protectedRestorable.value))
      && (v.phase == Text("removing") <==> d.phase.Removing?)
      && (v.phase == Text("removing") || v.phase == Text("abandoning"))
      && v.RawJournal? && v.journal == Text("catalog-authority.retention") && v.version == Number(VERSION)
      && v.policy == RawPolicy(Number(d.policy.keepLast), Number(d.policy.minAgeDays),
                               Scalar.Bool(d.policy.includeUnverified), Number(d.policy.keepMinimumRestorable))
      && v.inventory == WriteRows(d.inventory)
      && v.decisions == WriteDecisions(d.decisions)
      && v.removals == WriteNames(d.removals)
      && v.entries == WriteEntries(d.entries)
  {
    assert "removing"[0] == 'r' && "abandoning"[0] == 'a';
  }

  /**
   One foreign name longer than 128 characters anywhere in the destination is enough: the run starts, and no
   resume or abandon can ever read what it wrote.
   */
  lemma ALongForeignNameLocksOut(ctx: Context, d: Document, i: nat)
    requires Written(ctx, d) && i < |d.inventory| && |d.inventory[i].name| > 128
    ensures d.inventory[i].setClass != VERIFIED && d.inventory[i].setClass != UNVERIFIED
    ensures Read(ctx, Write(d)) == None
  {
    assert Produced(d.inventory[i]);
    assert !RowAccepted(ctx, d.inventory[i]);
    ReadsBackExactlyWhenRowsAreAccepted(ctx, d);
    hide Read, Write, Written;
  }

  /** With a floor of one, any destination with a restorable set gives a plan, so a run starts. */
  lemma AnyRestorableSetGivesAPlan(rows: seq<Row>, p: Policy, nowMs: int, r: Row)
    requires DistinctNames(rows) && Usable(p) && p.keepMinimumRestorable == 1 && r in rows && IsRestorable(r)
    ensures Evaluate(rows, p, nowMs).value.refusals == []
  {
    hide NewestOf, IsNewest, ShouldRemove, Decisions, DistinctNames;
    NewestOfIsNewest(rows, IsRestorable);
    var newest := NewestOf(Filter(rows, IsRestorable));
    assert newest.Some?;
    NewestIsARow(rows, IsRestorable, newest.value);
    NewestIsKept(rows, p, nowMs, newest.value);
    RemainingIsLeft(rows, p, nowMs);
    var left := set x | x in rows && IsRestorable(x) && !ShouldRemove(rows, p, nowMs, x);
    assert newest.value in left;
    SubsetIsNoLarger({newest.value}, left);
    assert r in Filter(rows, IsRestorable);
  }

  /** So it does happen: in every such destination a run begins whose own journal no recovery can read. */
  lemma ARunCanLockItselfOut(
      ctx: Context, destination: string, suffix: string, p: Policy, evaluated: Instant, inventory: seq<Row>, i: nat, r: Row)
    requires forall op :: Chars.IsHexOf(ctx.digest(op), 64)
    requires destination != "" && ctx.resolves(destination) && ctx.instantOf(evaluated.text) == Some(evaluated.ms)
    requires Chars.IsHexOf(suffix, 12) && Usable(p) && p.keepMinimumRestorable == 1
    requires |inventory| <= MAX_DESTINATION_ENTRIES && Listed(inventory)
    requires forall k :: 0 <= k < |inventory| ==> Produced(inventory[k])
    requires r in inventory && IsRestorable(r)
    requires i < |inventory| && |inventory[i].name| > 128
    ensures
      var begun := Begin(ctx, destination, suffix, p, evaluated, inventory);
      begun.Some? && Read(ctx, Write(begun.value)) == None
  {
    hide Listed, Produced, Read, Write, Evaluate, Chars.IsHexOf, Written;
    ListedIsDistinct(inventory);
    AnyRestorableSetGivesAPlan(inventory, p, evaluated.ms, r);
    EvaluatesWhenUsable(inventory, p, evaluated.ms);
    BeginIsWritten(ctx, destination, suffix, p, evaluated, inventory);
    ALongForeignNameLocksOut(ctx, Begin(ctx, destination, suffix, p, evaluated, inventory).value, i);
  }

  lemma EvaluatesWhenUsable(rows: seq<Row>, p: Policy, nowMs: int)
    requires Usable(p)
    ensures Evaluate(rows, p, nowMs).Some?
  {
  }
}
