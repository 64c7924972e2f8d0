/**
 Which backup sets a policy may remove. The decision is a function of an inventory, a policy and an instant;
 what is proved about it is stated without its sorts and ranks.
 */
module RetentionModel {
  import opened Basics
  import opened CanonicalJson

  datatype SetClass = VERIFIED | UNVERIFIED | UNREADABLE | FOREIGN | RESERVED | NOT_A_DIRECTORY

  predicate Removable(c: SetClass) {
    c.VERIFIED? || c.UNVERIFIED?
  }

  /** An instant as a manifest writes it, and the milliseconds it stands for. */
  datatype Instant = Instant(text: string, ms: int)

  datatype Row = Row(
    name: string,
    setClass: SetClass,
    taken: Option<Instant>,
    schemaVersion: Option<int>,
    setDigest: string,
    restorable: bool,
    bytes: int,
    entries: int,
    findings: seq<string>)

  datatype Policy = Policy(keepLast: int, minAgeDays: int, includeUnverified: bool, keepMinimumRestorable: int)

  const MAX_KEEP_LAST: int := 1000
  const MAX_MIN_AGE_DAYS: int := 3650
  const MAX_KEEP_MINIMUM: int := 100
  const MS_PER_DAY: int := 86_400_000

  predicate Usable(p: Policy) {
    && 1 <= p.keepLast <= MAX_KEEP_LAST
    && 0 <= p.minAgeDays <= MAX_MIN_AGE_DAYS
    && 1 <= p.keepMinimumRestorable <= MAX_KEEP_MINIMUM
  }

  datatype Reason =
    | PROTECTED_NEWEST_RESTORABLE
    | PROTECTED_NEWEST_ROLLBACK_POINT
    | PROTECTED_NOT_OURS
    | PROTECTED_UNVERIFIED
    | PROTECTED_UNDATED
    | PROTECTED_MIN_AGE
    | PROTECTED_KEEP_WINDOW
    | BEYOND_KEEP_WINDOW
    | UNVERIFIED_SET

  datatype Decision = Decision(name: string, remove: bool, reason: Reason)

  datatype Refusal = NO_RESTORABLE_SET | FLOOR_NOT_MET

  datatype Evaluation = Evaluation(
    decisions: seq<Decision>,
    removals: seq<string>,
    protectedRestorable: Option<string>,
    restorableRemaining: nat,
    refusals: seq<Refusal>)

  // ---------------------------------------------------------------------------------------------------
  // Sorting and choosing
  // ---------------------------------------------------------------------------------------------------

  predicate IsRestorable(r: Row) {
    r.setClass.VERIFIED? && r.restorable
  }

  predicate IsRollbackPoint(r: Row) {
    r.setClass.VERIFIED? && !r.restorable
  }

  /** The keep window ranks verified, dated sets and nothing else. */
  predicate InWindow(r: Row) {
    r.setClass.VERIFIED? && r.taken.Some?
  }

  predicate NameBefore(a: Row, b: Row) {
    Less(a.name, b.name)
  }

  /** Later instant first, an undated row last, ties by name descending. */
  predicate NewestFirst(a: Row, b: Row) {
    if a.taken.Some? && b.taken.Some? && a.taken.value.ms != b.taken.value.ms then a.taken.value.ms > b.taken.value.ms
    else if a.taken.Some? != b.taken.Some? then a.taken.Some?
    else Less(b.name, a.name)
  }

  /** Earlier instant first, an undated row last, ties by name ascending. */
  predicate OldestFirst(a: Row, b: Row) {
    if a.taken.Some? && b.taken.Some? && a.taken.value.ms != b.taken.value.ms then a.taken.value.ms < b.taken.value.ms
    else if a.taken.Some? != b.taken.Some? then a.taken.Some?
    else Less(a.name, b.name)
  }

  function Filter(s: seq<Row>, p: Row -> bool): (r: seq<Row>)
    ensures forall x :: x in r <==> x in s && p(x)
    ensures |r| <= |s|
  {
    if s == [] then [] else (if p(s[0]) then [s[0]] else []) + Filter(s[1..], p)
  }

  function Place(x: Row, sorted: seq<Row>, before: (Row, Row) -> bool): (r: seq<Row>)
    ensures multiset(r) == multiset(sorted) + multiset{x}
  {
    if sorted == [] || before(x, sorted[0]) then [x] + sorted
    else
      var r := [sorted[0]] + Place(x, sorted[1..], before);
      assert sorted == [sorted[0]] + sorted[1..];
      r
  }

  function SortBy(rows: seq<Row>, before: (Row, Row) -> bool): (r: seq<Row>)
    ensures multiset(r) == multiset(rows)
  {
    if rows == [] then []
    else
      assert rows == [rows[0]] + rows[1..];
      Place(rows[0], SortBy(rows[1..], before), before)
  }

  function NewestOf(group: seq<Row>): Option<Row>
  {
    var dated := Filter(group, (r: Row) => r.taken.Some?);
    if dated != [] then Some(First(dated, NewestFirst))
    else if group != [] then Some(First(group, NameBefore))
    else None
  }

  function First(rows: seq<Row>, before: (Row, Row) -> bool): (r: Row)
    requires rows != []
    ensures r in rows
  {
    assert multiset(SortBy(rows, before)) == multiset(rows);
    var sorted := SortBy(rows, before);
    assert |sorted| == |multiset(sorted)| == |multiset(rows)| == |rows|;
    assert sorted[0] in multiset(sorted);
    sorted[0]
  }

  /** Where a name stands in a list, if it does. */
  function PositionOf(rows: seq<Row>, name: string): Option<nat> {
    if rows == [] then None
    else if rows[0].name == name then Some(0)
    else
      var k :- PositionOf(rows[1..], name);
      Some(k + 1)
  }

  // ---------------------------------------------------------------------------------------------------
  // The decision
  // ---------------------------------------------------------------------------------------------------

  function Max(a: int, b: int): int {
    if a < b then b else a
  }

  function Decide(rows: seq<Row>, p: Policy, nowMs: int, r: Row): Decision {
    var newestRestorable := NewestOf(Filter(rows, IsRestorable));
    var newestRollbackPoint := NewestOf(Filter(rows, IsRollbackPoint));
    var position := PositionOf(SortBy(Filter(rows, InWindow), NewestFirst), r.name);
    if !Removable(r.setClass) then Decision(r.name, false, PROTECTED_NOT_OURS)
    else if newestRestorable.Some? && r.name == newestRestorable.value.name then Decision(r.name, false, PROTECTED_NEWEST_RESTORABLE)
    else if newestRollbackPoint.Some? && r.name == newestRollbackPoint.value.name then Decision(r.name, false, PROTECTED_NEWEST_ROLLBACK_POINT)
    else if r.setClass.UNVERIFIED? && !p.includeUnverified then Decision(r.name, false, PROTECTED_UNVERIFIED)
    else if r.taken.None? then Decision(r.name, false, PROTECTED_UNDATED)
    else if nowMs - r.taken.value.ms < Max(p.minAgeDays * MS_PER_DAY, 1) then Decision(r.name, false, PROTECTED_MIN_AGE)
    else if position.Some? && position.value < p.keepLast then Decision(r.name, false, PROTECTED_KEEP_WINDOW)
    else Decision(r.name, true, if r.setClass.VERIFIED? then BEYOND_KEEP_WINDOW else UNVERIFIED_SET)
  }

  function Decisions(rows: seq<Row>, p: Policy, nowMs: int): seq<Decision> {
    seq(|rows|, i requires 0 <= i < |rows| => Decide(rows, p, nowMs, rows[i]))
  }

  function Names(rows: seq<Row>): seq<string> {
    seq(|rows|, i requires 0 <= i < |rows| => rows[i].name)
  }

  predicate MarkedRemove(decisions: seq<Decision>, name: string) {
    exists i :: 0 <= i < |decisions| && decisions[i].remove && decisions[i].name == name
  }

  /** The evaluation, or nothing when the policy is not one. */
  function Evaluate(rows: seq<Row>, p: Policy, nowMs: int): Option<Evaluation> {
    if !Usable(p) then None
    else
      var decisions := Decisions(rows, p, nowMs);
      var removing := Filter(rows, (r: Row) => MarkedRemove(decisions, r.name));
      var restorable := Filter(rows, IsRestorable);
      var newest := NewestOf(restorable);
      var remaining := |Filter(restorable, (r: Row) => !MarkedRemove(decisions, r.name))|;
      Some(Evaluation(
        decisions,
        Names(SortBy(removing, OldestFirst)),
        if newest.Some? then Some(newest.value.name) else None,
        remaining,
        if restorable == [] then [NO_RESTORABLE_SET]
        else if remaining < p.keepMinimumRestorable then [FLOOR_NOT_MET]
        else []))
  }

  // ---------------------------------------------------------------------------------------------------
  // Orders
  // ---------------------------------------------------------------------------------------------------

  /** What a directory listing gives: every name once. */
  ghost predicate DistinctNames(rows: seq<Row>) {
    forall i, k :: 0 <= i < |rows| && 0 <= k < |rows| && rows[i].name == rows[k].name ==> i == k
  }

  /** A strict order, total on rows with different names. */
  ghost predicate Orders(before: (Row, Row) -> bool) {
    && (forall a: Row, b: Row :: a.name != b.name ==> before(a, b) || before(b, a))
    && (forall a: Row, b: Row, c: Row :: before(a, b) && before(b, c) ==> before(a, c))
    && (forall a: Row :: !before(a, a))
  }

  lemma TheOrdersAreOrders()
    ensures Orders(NewestFirst) && Orders(OldestFirst) && Orders(NameBefore)
  {
    forall a: string, b: string ensures (Less(a, b) || Less(b, a) || a == b) && !(Less(a, b) && Less(b, a)) && !Less(a, a) {
      LessIsTotal(a, b);
    }
    forall a: string, b: string, c: string | Less(a, b) && Less(b, c) ensures Less(a, c) {
      LessIsTransitive(a, b, c);
    }
    hide Less;
  }

  ghost predicate SortedBy(rows: seq<Row>, before: (Row, Row) -> bool) {
    forall i, k :: 0 <= i < k < |rows| ==> before(rows[i], rows[k])
  }

  lemma SameElements(a: seq<Row>, b: seq<Row>)
    requires multiset(a) == multiset(b)
    ensures |a| == |b| && forall x :: x in a <==> x in b
  {
    assert |multiset(a)| == |a| && |multiset(b)| == |b|;
    forall x ensures x in a <==> x in b {
      assert x in a <==> x in multiset(a);
      assert x in b <==> x in multiset(b);
    }
  }

  lemma {:induction false} PlaceKeepsSorted(x: Row, sorted: seq<Row>, before: (Row, Row) -> bool)
    requires Orders(before) && SortedBy(sorted, before) && forall y :: y in sorted ==> y.name != x.name
    ensures SortedBy(Place(x, sorted, before), before)
  {
    if sorted != [] && !before(x, sorted[0]) {
      var rest := sorted[1..];
      PlaceKeepsSorted(x, rest, before);
      SameElements(Place(x, rest, before), rest + [x]);
      assert before(sorted[0], x);
      assert forall y :: y in Place(x, rest, before) ==> before(sorted[0], y);
    }
  }

  lemma {:induction false} SortSorts(rows: seq<Row>, before: (Row, Row) -> bool)
    requires Orders(before) && DistinctNames(rows)
    ensures SortedBy(SortBy(rows, before), before)
    ensures |SortBy(rows, before)| == |rows| && forall x :: x in SortBy(rows, before) <==> x in rows
  {
    SameElements(SortBy(rows, before), rows);
    if rows != [] {
      var rest := rows[1..];
      SortSorts(rest, before);
      forall y | y in SortBy(rest, before) ensures y.name != rows[0].name {
        assert y in rest;
        var k :| 0 <= k < |rest| && rest[k] == y;
        assert rows[k + 1] == y;
      }
      PlaceKeepsSorted(rows[0], SortBy(rest, before), before);
    }
  }

  lemma {:induction false} FilterKeepsDistinct(rows: seq<Row>, p: Row -> bool)
    requires DistinctNames(rows)
    ensures DistinctNames(Filter(rows, p))
  {
    if rows != [] {
      var rest := Filter(rows[1..], p);
      FilterKeepsDistinct(rows[1..], p);
      forall k | 0 <= k < |rest| ensures rest[k].name != rows[0].name {
        assert rest[k] in rows[1..];
        var j :| 0 <= j < |rows[1..]| && rows[1..][j] == rest[k];
        assert rows[j + 1] == rest[k];
      }
    }
  }

  lemma DistinctRows(rows: seq<Row>, a: Row, b: Row)
    requires DistinctNames(rows) && a in rows && b in rows && a.name == b.name
    ensures a == b
  {
    var i :| 0 <= i < |rows| && rows[i] == a;
    var k :| 0 <= k < |rows| && rows[k] == b;
    assert i == k;
  }

  /** The chosen row of a sorted group comes before every other. */
  lemma FirstIsFirst(rows: seq<Row>, before: (Row, Row) -> bool, r: Row)
    requires Orders(before) && DistinctNames(rows) && rows != [] && r in rows
    ensures r == First(rows, before) || before(First(rows, before), r)
  {
    SortSorts(rows, before);
    var sorted := SortBy(rows, before);
    assert r in sorted;
    var k :| 0 <= k < |sorted| && sorted[k] == r;
    assert First(rows, before) == sorted[0];
  }

  // ---------------------------------------------------------------------------------------------------
  // What the decision comes to
  // ---------------------------------------------------------------------------------------------------

  /** The rows of the window newer than one row. */
  function NewerInWindow(rows: seq<Row>, r: Row): set<Row> {
    set x | x in rows && InWindow(x) && NewestFirst(x, r)
  }

  /** The newest of a group, said without sorting: nothing in it is newer. */
  ghost predicate IsNewest(rows: seq<Row>, group: Row -> bool, r: Row) {
    && r in rows && group(r)
    && if exists x :: x in rows && group(x) && x.taken.Some? then
         r.taken.Some? && forall x :: x in rows && group(x) && x.taken.Some? && x != r ==> NewestFirst(r, x)
       else forall x :: x in rows && group(x) && x != r ==> Less(r.name, x.name)
  }

  lemma NewestOfIsNewest(rows: seq<Row>, group: Row -> bool)
    requires DistinctNames(rows)
    ensures
      var newest := NewestOf(Filter(rows, group));
      if newest.Some? then IsNewest(rows, group, newest.value) else forall x :: x in rows ==> !group(x)
  {
    hide NewestFirst, NameBefore;
    var g := Filter(rows, group);
    var dated := Filter(g, (r: Row) => r.taken.Some?);
    FilterKeepsDistinct(rows, group);
    FilterKeepsDistinct(g, (r: Row) => r.taken.Some?);
    TheOrdersAreOrders();
    if dated != [] {
      forall x | x in dated ensures x == First(dated, NewestFirst) || NewestFirst(First(dated, NewestFirst), x) {
        FirstIsFirst(dated, NewestFirst, x);
      }
      assert First(dated, NewestFirst) in dated;
    } else if g != [] {
      forall x | x in g ensures x == First(g, NameBefore) || NameBefore(First(g, NameBefore), x) {
        FirstIsFirst(g, NameBefore, x);
      }
      NameBeforeIsLess();
      assert forall x :: x in g ==> x.taken.None?;
    } else {
      assert forall x :: x in rows && group(x) ==> x in g;
    }
  }

  lemma NameBeforeIsLess()
    ensures forall a, b :: NameBefore(a, b) <==> Less(a.name, b.name)
  {
  }

  lemma HeadIsApart(s: seq<Row>)
    requires s != [] && DistinctNames(s)
    ensures s[0] !in s[1..] && DistinctNames(s[1..])
  {
    assert forall k :: 0 <= k < |s| - 1 ==> s[1..][k] == s[k + 1];
  }

  lemma SetOfHeadAndRest<T>(s: seq<T>)
    requires s != []
    ensures (set x | x in s) == (set x | x in s[1..]) + {s[0]}
  {
  }

  lemma {:induction false} DistinctCount(s: seq<Row>)
    requires DistinctNames(s)
    ensures |set x | x in s| == |s|
  {
    if s != [] {
      var rest := s[1..];
      DistinctCount(rest);
      HeadIsApart(s);
      SetOfHeadAndRest(s);
    }
  }

  lemma {:induction false} PositionIs(rows: seq<Row>, name: string, k: nat)
    requires k < |rows| && rows[k].name == name && forall i :: 0 <= i < k ==> rows[i].name != name
    ensures PositionOf(rows, name) == Some(k)
  {
    if k > 0 {
      PositionIs(rows[1..], name, k - 1);
    }
  }

  lemma {:induction false} NoPosition(rows: seq<Row>, name: string)
    requires forall r :: r in rows ==> r.name != name
    ensures PositionOf(rows, name) == None
  {
    if rows != [] {
      NoPosition(rows[1..], name);
    }
  }

  /** The window as the code ranks it: verified, dated, newest first. */
  function Ranked(rows: seq<Row>): seq<Row> {
    SortBy(Filter(rows, InWindow), NewestFirst)
  }

  lemma RankedFacts(rows: seq<Row>)
    requires DistinctNames(rows)
    ensures SortedBy(Ranked(rows), NewestFirst) && DistinctNames(Ranked(rows))
    ensures forall x :: x in Ranked(rows) <==> x in rows && InWindow(x)
  {
    var window := Filter(rows, InWindow);
    FilterKeepsDistinct(rows, InWindow);
    TheOrdersAreOrders();
    SortSorts(window, NewestFirst);
    var s := Ranked(rows);
    hide NewestFirst, InWindow;
    forall i, k | 0 <= i < k < |s| ensures s[i].name != s[k].name {
      assert NewestFirst(s[i], s[k]);
      assert s[i] in window && s[k] in window;
      if s[i].name == s[k].name {
        DistinctRows(window, s[i], s[k]);
      }
    }
  }

  lemma NewerAreBefore(s: seq<Row>, k: nat, x: Row)
    requires Orders(NewestFirst) && SortedBy(s, NewestFirst) && k < |s|
    ensures x in s[..k] <==> x in s && NewestFirst(x, s[k])
  {
    hide NewestFirst;
    if x in s[..k] {
      var i :| 0 <= i < k && s[i] == x;
    }
    assert forall j :: k < j < |s| ==> NewestFirst(s[k], s[j]);
    if x in s && NewestFirst(x, s[k]) {
      var i :| 0 <= i < |s| && s[i] == x;
      assert i < k;
    }
  }

  /** The rank of a set is how many of the window are newer, however the list was sorted. */
  lemma RankIsCount(rows: seq<Row>, r: Row)
    requires DistinctNames(rows) && r in rows
    ensures PositionOf(Ranked(rows), r.name) == if InWindow(r) then Some(|NewerInWindow(rows, r)|) else None
  {
    hide NewestFirst, Ranked, PositionOf, Orders;
    var s := Ranked(rows);
    RankedFacts(rows);
    TheOrdersAreOrders();
    if InWindow(r) {
      var k :| 0 <= k < |s| && s[k] == r;
      PositionIs(s, r.name, k);
      assert DistinctNames(s[..k]);
      DistinctCount(s[..k]);
      forall x ensures x in s[..k] <==> x in NewerInWindow(rows, r) {
        NewerAreBefore(s, k, x);
      }
      assert (set x | x in s[..k]) == NewerInWindow(rows, r);
    } else {
      forall x | x in s ensures x.name != r.name {
        if x.name == r.name {
          DistinctRows(rows, x, r);
        }
      }
      NoPosition(s, r.name);
    }
  }

  lemma NewestIsUnique(rows: seq<Row>, group: Row -> bool, a: Row, b: Row)
    requires IsNewest(rows, group, a) && IsNewest(rows, group, b)
    ensures a == b
  {
    TheOrdersAreOrders();
    LessIsTotal(a.name, b.name);
    hide Less, NewestFirst;
    assert a != b && a.taken.Some? ==> NewestFirst(a, b) && NewestFirst(b, a);
    assert a != b && a.taken.None? ==> Less(a.name, b.name) && Less(b.name, a.name);
  }

  /** The rule in one sentence: what a policy removes, with no sort, no rank and no order of branches. */
  ghost predicate ShouldRemove(rows: seq<Row>, p: Policy, nowMs: int, r: Row) {
    && Removable(r.setClass)
    && !IsNewest(rows, IsRestorable, r)
    && !IsNewest(rows, IsRollbackPoint, r)
    && (r.setClass.UNVERIFIED? ==> p.includeUnverified)
    && r.taken.Some?
    && nowMs - r.taken.value.ms >= Max(p.minAgeDays * MS_PER_DAY, 1)
    && (r.setClass.VERIFIED? ==> |NewerInWindow(rows, r)| >= p.keepLast)
  }

  lemma NamedNewest(rows: seq<Row>, group: Row -> bool, r: Row)
    requires DistinctNames(rows) && r in rows
    ensures
      var newest := NewestOf(Filter(rows, group));
      newest.Some? && r.name == newest.value.name <==> IsNewest(rows, group, r)
  {
    var newest := NewestOf(Filter(rows, group));
    NewestOfIsNewest(rows, group);
    hide IsNewest, NewestOf;
    if newest.Some? {
      if r.name == newest.value.name {
        NewestIsARow(rows, group, newest.value);
        DistinctRows(rows, r, newest.value);
      }
      if IsNewest(rows, group, r) {
        NewestIsUnique(rows, group, r, newest.value);
      }
    } else if IsNewest(rows, group, r) {
      NewestIsARow(rows, group, r);
    }
  }

  lemma NewestIsARow(rows: seq<Row>, group: Row -> bool, r: Row)
    requires IsNewest(rows, group, r)
    ensures r in rows && group(r)
  {
  }

  /** The branches of the decision come to exactly that rule, for every row of every inventory. */
  lemma DecidesTheRule(rows: seq<Row>, p: Policy, nowMs: int, r: Row)
    requires DistinctNames(rows) && r in rows && p.keepLast >= 1
    ensures Decide(rows, p, nowMs, r).remove <==> ShouldRemove(rows, p, nowMs, r)
    ensures Decide(rows, p, nowMs, r).name == r.name
  {
    hide NewestOf, IsNewest, NewerInWindow, Ranked, SortBy, Filter, PositionOf;
    NamedNewest(rows, IsRestorable, r);
    NamedNewest(rows, IsRollbackPoint, r);
    RankIsCount(rows, r);
    RankedIs(rows);
  }

  lemma RankedIs(rows: seq<Row>)
    ensures Ranked(rows) == SortBy(Filter(rows, InWindow), NewestFirst)
  {
  }

  /** The rows a policy removes, in the order it removes them. */
  function Removed(rows: seq<Row>, p: Policy, nowMs: int): seq<Row> {
    SortBy(Filter(rows, (r: Row) => MarkedRemove(Decisions(rows, p, nowMs), r.name)), OldestFirst)
  }

  lemma MarkedIsDecided(rows: seq<Row>, p: Policy, nowMs: int, r: Row)
    requires DistinctNames(rows) && r in rows && p.keepLast >= 1
    ensures MarkedRemove(Decisions(rows, p, nowMs), r.name) <==> ShouldRemove(rows, p, nowMs, r)
  {
    var d := Decisions(rows, p, nowMs);
    var i :| 0 <= i < |rows| && rows[i] == r;
    DecidesTheRule(rows, p, nowMs, r);
    forall k | 0 <= k < |rows| ensures d[k].name == rows[k].name {
      DecidesTheRule(rows, p, nowMs, rows[k]);
    }
    assert d[i] == Decide(rows, p, nowMs, r);
    hide Decide, ShouldRemove, Decisions;
    assert MarkedRemove(d, r.name) ==> exists k :: 0 <= k < |d| && d[k].remove && d[k].name == rows[k].name == r.name;
  }

  /** The removal list: exactly the rows the rule removes, each once, oldest first. */
  lemma RemovalsAreTheRule(rows: seq<Row>, p: Policy, nowMs: int)
    requires DistinctNames(rows) && Usable(p)
    ensures
      var removed := Removed(rows, p, nowMs);
      && Evaluate(rows, p, nowMs).value.removals == Names(removed)
      && SortedBy(removed, OldestFirst) && DistinctNames(removed)
      && forall r :: r in removed <==> r in rows && ShouldRemove(rows, p, nowMs, r)
  {
    var mark := (r: Row) => MarkedRemove(Decisions(rows, p, nowMs), r.name);
    var removing := Filter(rows, mark);
    FilterKeepsDistinct(rows, mark);
    TheOrdersAreOrders();
    SortSorts(removing, OldestFirst);
    forall r | r in rows ensures MarkedRemove(Decisions(rows, p, nowMs), r.name) <==> ShouldRemove(rows, p, nowMs, r) {
      MarkedIsDecided(rows, p, nowMs, r);
    }
    var removed := Removed(rows, p, nowMs);
    hide OldestFirst, ShouldRemove, Decisions, MarkedRemove;
    forall i, k | 0 <= i < k < |removed| ensures removed[i].name != removed[k].name {
      assert OldestFirst(removed[i], removed[k]);
      assert removed[i] in removing && removed[k] in removing;
      if removed[i].name == removed[k].name {
        DistinctRows(removing, removed[i], removed[k]);
      }
    }
  }

  /** A row is on the removal list by name exactly when the rule removes that row. */
  lemma NamedForRemoval(rows: seq<Row>, p: Policy, nowMs: int, r: Row)
    requires DistinctNames(rows) && Usable(p) && r in rows
    ensures r.name in Evaluate(rows, p, nowMs).value.removals <==> ShouldRemove(rows, p, nowMs, r)
  {
    var removed := Removed(rows, p, nowMs);
    RemovalsAreTheRule(rows, p, nowMs);
    hide Evaluate, ShouldRemove, Removed;
    if r in removed {
      var k :| 0 <= k < |removed| && removed[k] == r;
      assert Names(removed)[k] == r.name;
    }
    if r.name in Names(removed) {
      var k :| 0 <= k < |removed| && Names(removed)[k] == r.name;
      assert removed[k] in removed;
      DistinctRows(rows, r, removed[k]);
    }
  }

  // ---------------------------------------------------------------------------------------------------
  // The same in instants and names
  // ---------------------------------------------------------------------------------------------------

  /** `a` was taken at a later instant than `b`, or at the same one with the greater name. */
  predicate TakenAfter(a: Row, b: Row)
    requires a.taken.Some? && b.taken.Some?
  {
    a.taken.value.ms > b.taken.value.ms || (a.taken.value.ms == b.taken.value.ms && Less(b.name, a.name))
  }

  /** Of a group, the dated row taken last; of a group without dates, the row with the smallest name. */
  ghost predicate TakenLast(rows: seq<Row>, group: Row -> bool, r: Row) {
    && r in rows && group(r)
    && (r.taken.Some? ==> forall x :: x in rows && group(x) && x.taken.Some? && x != r ==> TakenAfter(r, x))
    && (r.taken.None? ==> forall x :: x in rows && group(x) && x != r ==> x.taken.None? && Less(r.name, x.name))
  }

  lemma NewestIsTakenLast(rows: seq<Row>, group: Row -> bool, r: Row)
    ensures IsNewest(rows, group, r) <==> TakenLast(rows, group, r)
  {
    hide Less;
  }

  /** The verified, dated sets taken after one. */
  function VerifiedAfter(rows: seq<Row>, r: Row): set<Row>
    requires r.taken.Some?
  {
    set x | x in rows && x.setClass.VERIFIED? && x.taken.Some? && TakenAfter(x, r)
  }

  /** A dated row is not the newest of its group exactly when another of the group was taken after it. */
  lemma NotTakenLast(rows: seq<Row>, group: Row -> bool, r: Row)
    requires DistinctNames(rows) && r in rows && group(r) && r.taken.Some?
    ensures !IsNewest(rows, group, r) <==> exists x :: x in rows && group(x) && x.taken.Some? && TakenAfter(x, r)
  {
    NewestIsTakenLast(rows, group, r);
    hide IsNewest, Less;
    forall x | x in rows && x.taken.Some? && x != r ensures TakenAfter(r, x) <==> !TakenAfter(x, r) {
      if x.name == r.name { DistinctRows(rows, x, r); }
      LessIsTotal(r.name, x.name);
    }
    LessIsTotal(r.name, r.name);
  }

  lemma NewerAreTakenAfter(rows: seq<Row>, r: Row)
    requires r.taken.Some?
    ensures NewerInWindow(rows, r) == VerifiedAfter(rows, r)
  {
    hide Less;
  }

  /**
   What is removed, in instants and names alone. A set goes exactly when it is dated, at least the minimum of days
   and one millisecond old, and either is a verified set with a later one of its own kind and `keepLast` later
   verified ones, or is one that does not verify and such sets were asked for.
   */
  lemma RemovedExactlyWhen(rows: seq<Row>, p: Policy, nowMs: int, r: Row)
    requires DistinctNames(rows) && Usable(p) && r in rows
    ensures r.name in Evaluate(rows, p, nowMs).value.removals <==>
      && r.taken.Some? && nowMs > r.taken.value.ms && nowMs - r.taken.value.ms >= p.minAgeDays * 86_400_000
      && if r.setClass.VERIFIED? then
           && (exists x :: x in rows && x.setClass.VERIFIED? && x.restorable == r.restorable && x.taken.Some? && TakenAfter(x, r))
           && |VerifiedAfter(rows, r)| >= p.keepLast
         else r.setClass.UNVERIFIED? && p.includeUnverified
  {
    hide Evaluate, IsNewest, NewestFirst, TakenAfter, NewerInWindow, VerifiedAfter;
    NamedForRemoval(rows, p, nowMs, r);
    if r.taken.Some? && r.setClass.VERIFIED? {
      NewerAreTakenAfter(rows, r);
      var group := if r.restorable then IsRestorable else IsRollbackPoint;
      NotTakenLast(rows, group, r);
      NewestIsInItsGroup(rows, r);
      assert forall x :: group(x) <==> x.setClass.VERIFIED? && x.restorable == r.restorable;
    } else if r.taken.Some? {
      NewestIsInItsGroup(rows, r);
    }
  }

  lemma NewestIsInItsGroup(rows: seq<Row>, r: Row)
    ensures IsNewest(rows, IsRestorable, r) ==> r.setClass.VERIFIED? && r.restorable
    ensures IsNewest(rows, IsRollbackPoint, r) ==> r.setClass.VERIFIED? && !r.restorable
  {
  }

  /** The protected set is the restorable one taken last, and there is one exactly when something is restorable. */
  lemma ProtectedIsTakenLast(rows: seq<Row>, p: Policy, nowMs: int)
    requires DistinctNames(rows) && Usable(p)
    ensures
      var protected := Evaluate(rows, p, nowMs).value.protectedRestorable;
      && (protected.None? <==> forall r :: r in rows ==> !(r.setClass.VERIFIED? && r.restorable))
      && (protected.Some? ==> exists r :: r in rows && r.name == protected.value && TakenLast(rows, IsRestorable, r))
  {
    hide IsNewest, TakenLast, NewestOf, Decisions, SortBy;
    NewestOfIsNewest(rows, IsRestorable);
    var newest := NewestOf(Filter(rows, IsRestorable));
    if newest.Some? {
      NewestIsTakenLast(rows, IsRestorable, newest.value);
      NewestIsARow(rows, IsRestorable, newest.value);
    }
  }

  /** The removal list names rows of the inventory, and runs from the set taken first to the one taken last. */
  lemma RemovalsRunForward(rows: seq<Row>, p: Policy, nowMs: int, i: nat, k: nat) returns (a: Row, b: Row)
    requires DistinctNames(rows) && Usable(p) && i < k < |Evaluate(rows, p, nowMs).value.removals|
    ensures
      var removals := Evaluate(rows, p, nowMs).value.removals;
      && a in rows && b in rows && a.name == removals[i] && b.name == removals[k]
      && a.taken.Some? && b.taken.Some? && TakenAfter(b, a)
  {
    hide Evaluate, IsNewest, Less, Removed, Usable, DistinctNames, NewerInWindow;
    RemovalsAreTheRule(rows, p, nowMs);
    var removed := Removed(rows, p, nowMs);
    a, b := removed[i], removed[k];
    assert a in removed && b in removed && OldestFirst(a, b);
  }

  function RestorableSets(rows: seq<Row>): set<Row> {
    set r | r in rows && r.setClass.VERIFIED? && r.restorable
  }

  function LeftOff(sets: set<Row>, removals: seq<string>): set<Row> {
    set r | r in sets && r.name !in removals
  }

  lemma RestorableIsFiltered(rows: seq<Row>)
    ensures RestorableSets(rows) == {} <==> Filter(rows, IsRestorable) == []
  {
    SomeMember(Filter(rows, IsRestorable));
    if r :| r in Filter(rows, IsRestorable) {
      assert r in RestorableSets(rows);
    } else {
      assert forall r :: r in RestorableSets(rows) ==> r in Filter(rows, IsRestorable);
    }
  }

  lemma LeftIsCounted(rows: seq<Row>, p: Policy, nowMs: int)
    requires DistinctNames(rows) && Usable(p)
    ensures
      var e := Evaluate(rows, p, nowMs).value;
      e.restorableRemaining == |LeftOff(RestorableSets(rows), e.removals)|
  {
    hide ShouldRemove, DistinctNames, Decisions, MarkedRemove, SortBy, NewestOf, Filter;
    RemainingIsLeft(rows, p, nowMs);
    forall r | r in rows ensures r.name in Evaluate(rows, p, nowMs).value.removals <==> ShouldRemove(rows, p, nowMs, r) {
      NamedForRemoval(rows, p, nowMs, r);
    }
    assert LeftOff(RestorableSets(rows), Evaluate(rows, p, nowMs).value.removals)
      == set r | r in rows && IsRestorable(r) && !ShouldRemove(rows, p, nowMs, r);
  }

  /**
   The policy is refused outright exactly outside its bounds, and its plan exactly when there is no restorable set
   or when fewer of them than the floor are left off the removal list.
   */
  lemma RefusedExactlyWhen(rows: seq<Row>, p: Policy, nowMs: int)
    requires DistinctNames(rows)
    ensures Evaluate(rows, p, nowMs).None? <==>
      !(1 <= p.keepLast <= 1000 && 0 <= p.minAgeDays <= 3650 && 1 <= p.keepMinimumRestorable <= 100)
    ensures Evaluate(rows, p, nowMs).Some? ==>
      var e := Evaluate(rows, p, nowMs).value;
      && e.restorableRemaining == |LeftOff(RestorableSets(rows), e.removals)|
      && e.refusals ==
         if RestorableSets(rows) == {} then [NO_RESTORABLE_SET]
         else if |LeftOff(RestorableSets(rows), e.removals)| < p.keepMinimumRestorable then [FLOOR_NOT_MET]
         else []
  {
    hide DistinctNames, RestorableSets, LeftOff, Decisions, MarkedRemove, SortBy, NewestOf;
    RestorableIsFiltered(rows);
    if Usable(p) { LeftIsCounted(rows, p, nowMs); }
  }

  /** Each decision gives the one reason that holds, and removes for none of the protecting ones. */
  lemma EachReasonHolds(rows: seq<Row>, p: Policy, nowMs: int, r: Row)
    requires DistinctNames(rows) && Usable(p) && r in rows
    ensures
      var d := Decide(rows, p, nowMs, r);
      var newest := TakenLast(rows, IsRestorable, r) || TakenLast(rows, IsRollbackPoint, r);
      var asked := r.setClass.VERIFIED? || (r.setClass.UNVERIFIED? && p.includeUnverified);
      var young := r.taken.Some? && (nowMs <= r.taken.value.ms || nowMs - r.taken.value.ms < p.minAgeDays * 86_400_000);
      && (d.reason == PROTECTED_NOT_OURS <==> !r.setClass.VERIFIED? && !r.setClass.UNVERIFIED?)
      && (d.reason == PROTECTED_NEWEST_RESTORABLE <==> TakenLast(rows, IsRestorable, r))
      && (d.reason == PROTECTED_NEWEST_ROLLBACK_POINT <==> TakenLast(rows, IsRollbackPoint, r))
      && (d.reason == PROTECTED_UNVERIFIED <==> r.setClass.UNVERIFIED? && !p.includeUnverified)
      && (d.reason == PROTECTED_UNDATED <==> asked && !newest && r.taken.None?)
      && (d.reason == PROTECTED_MIN_AGE <==> asked && !newest && young)
      && (d.reason == PROTECTED_KEEP_WINDOW <==>
            r.setClass.VERIFIED? && !newest && !young && r.taken.Some? && |VerifiedAfter(rows, r)| < p.keepLast)
      && (d.reason == BEYOND_KEEP_WINDOW <==>
            r.setClass.VERIFIED? && !newest && !young && r.taken.Some? && |VerifiedAfter(rows, r)| >= p.keepLast)
      && (d.reason == UNVERIFIED_SET <==> r.setClass.UNVERIFIED? && asked && !young && r.taken.Some?)
      && (d.remove <==> d.reason == BEYOND_KEEP_WINDOW || d.reason == UNVERIFIED_SET)
  {
    hide NewestOf, IsNewest, TakenLast, NewerInWindow, VerifiedAfter, Ranked, SortBy, Filter, PositionOf;
    NamedNewest(rows, IsRestorable, r);
    NamedNewest(rows, IsRollbackPoint, r);
    NewestIsTakenLast(rows, IsRestorable, r);
    NewestIsTakenLast(rows, IsRollbackPoint, r);
    NewestIsInItsGroup(rows, r);
    RankIsCount(rows, r);
    RankedIs(rows);
    if r.taken.Some? { NewerAreTakenAfter(rows, r); }
  }

  // ---------------------------------------------------------------------------------------------------
  // What an operator is promised
  // ---------------------------------------------------------------------------------------------------

  lemma HighRankIsKept(rows: seq<Row>, p: Policy, nowMs: int, r: Row)
    requires InWindow(r) && |NewerInWindow(rows, r)| < p.keepLast
    ensures !ShouldRemove(rows, p, nowMs, r)
  {
  }

  /** The keep window: of verified, dated sets, the newest `keepLast` are kept, or all of them if there are fewer. */
  lemma WindowIsKept(rows: seq<Row>, p: Policy, nowMs: int)
    requires DistinctNames(rows) && Usable(p)
    ensures
      var window := set r | r in rows && InWindow(r);
      var kept := set r | r in rows && InWindow(r) && !ShouldRemove(rows, p, nowMs, r);
      |kept| >= if |window| < p.keepLast then |window| else p.keepLast
  {
    hide Ranked, ShouldRemove, NewestFirst, PositionOf, InWindow;
    var s := Ranked(rows);
    RankedFacts(rows);
    DistinctCount(s);
    var window := set r | r in rows && InWindow(r);
    var kept := set r | r in rows && InWindow(r) && !ShouldRemove(rows, p, nowMs, r);
    assert window == set x | x in s;
    var m := if |s| < p.keepLast then |s| else p.keepLast;
    var top := s[..m];
    assert DistinctNames(top);
    DistinctCount(top);
    forall x | x in top ensures x in kept {
      var k :| 0 <= k < m && top[k] == x;
      assert x in s && s[k] == x;
      RankIsCount(rows, x);
      PositionIs(s, x.name, k);
      HighRankIsKept(rows, p, nowMs, x);
    }
    SubsetIsNoLarger((set x | x in top), kept);
  }

  lemma {:induction false} FilterCount(s: seq<Row>, p: Row -> bool)
    requires DistinctNames(s)
    ensures |Filter(s, p)| == |set x | x in s && p(x)|
  {
    FilterKeepsDistinct(s, p);
    DistinctCount(Filter(s, p));
    assert (set x | x in Filter(s, p)) == set x | x in s && p(x);
  }

  lemma RemainingIsLeft(rows: seq<Row>, p: Policy, nowMs: int)
    requires DistinctNames(rows) && Usable(p)
    ensures Evaluate(rows, p, nowMs).value.restorableRemaining
      == |set r | r in rows && IsRestorable(r) && !ShouldRemove(rows, p, nowMs, r)|
  {
    var restorable := Filter(rows, IsRestorable);
    var unmarked := (r: Row) => !MarkedRemove(Decisions(rows, p, nowMs), r.name);
    FilterKeepsDistinct(rows, IsRestorable);
    FilterCount(restorable, unmarked);
    forall r | r in rows ensures unmarked(r) <==> !ShouldRemove(rows, p, nowMs, r) {
      MarkedIsDecided(rows, p, nowMs, r);
    }
    hide ShouldRemove, MarkedRemove, Decisions;
    assert (set r | r in rows && IsRestorable(r) && !ShouldRemove(rows, p, nowMs, r))
      == set x | x in restorable && unmarked(x);
  }

  /**
   An evaluation that is not refused leaves at least the floor, counts it exactly, and keeps the newest
   restorable set; and it is refused for having none exactly when there is none.
   */
  lemma FloorIsKept(rows: seq<Row>, p: Policy, nowMs: int)
    requires DistinctNames(rows) && Usable(p)
    ensures
      var e := Evaluate(rows, p, nowMs).value;
      var left := set r | r in rows && IsRestorable(r) && !ShouldRemove(rows, p, nowMs, r);
      && e.restorableRemaining == |left|
      && (e.refusals == [NO_RESTORABLE_SET] <==> forall r :: r in rows ==> !IsRestorable(r))
      && (e.refusals == [] ==>
            && |left| >= p.keepMinimumRestorable >= 1
            && e.protectedRestorable.Some?
            && exists r :: IsNewest(rows, IsRestorable, r) && r.name == e.protectedRestorable.value && r in left)
  {
    hide ShouldRemove, MarkedRemove, Decisions, NewestOf, IsNewest, DistinctNames;
    RemainingIsLeft(rows, p, nowMs);
    NewestOfIsNewest(rows, IsRestorable);
    var newest := NewestOf(Filter(rows, IsRestorable));
    if newest.Some? {
      NewestIsARow(rows, IsRestorable, newest.value);
      NewestIsKept(rows, p, nowMs, newest.value);
    }
    assert newest.None? ==> Filter(rows, IsRestorable) == [] by {
      SomeMember(Filter(rows, IsRestorable));
    }
  }

  lemma NewestIsKept(rows: seq<Row>, p: Policy, nowMs: int, r: Row)
    requires IsNewest(rows, IsRestorable, r)
    ensures !ShouldRemove(rows, p, nowMs, r)
  {
  }

  /** A set that does not verify takes no slot: adding one changes no decision about the others. */
  lemma UnverifiedTakesNoSlot(rows: seq<Row>, extra: Row, p: Policy, nowMs: int, r: Row)
    requires DistinctNames(rows + [extra]) && Usable(p) && r in rows && !extra.setClass.VERIFIED?
    ensures ShouldRemove(rows + [extra], p, nowMs, r) <==> ShouldRemove(rows, p, nowMs, r)
  {
    assert forall x :: x in rows + [extra] && (IsRestorable(x) || IsRollbackPoint(x) || InWindow(x)) <==>
        x in rows && (IsRestorable(x) || IsRollbackPoint(x) || InWindow(x));
    assert NewerInWindow(rows + [extra], r) == NewerInWindow(rows, r);
    assert IsNewest(rows + [extra], IsRestorable, r) <==> IsNewest(rows, IsRestorable, r);
    assert IsNewest(rows + [extra], IsRollbackPoint, r) <==> IsNewest(rows, IsRollbackPoint, r);
  }

  /** Time only adds removals. */
  lemma LaterRemovesMore(rows: seq<Row>, p: Policy, nowMs: int, laterMs: int, r: Row)
    requires nowMs <= laterMs && ShouldRemove(rows, p, nowMs, r)
    ensures ShouldRemove(rows, p, laterMs, r)
  {
  }

  /** A finished run leaves nothing of the same policy and instant to remove. */
  lemma RunAgainRemovesNothing(rows: seq<Row>, p: Policy, nowMs: int, left: seq<Row>)
    requires DistinctNames(rows) && DistinctNames(left) && Usable(p)
    requires forall r :: r in left <==> r in rows && !ShouldRemove(rows, p, nowMs, r)
    ensures Evaluate(left, p, nowMs).value.removals == []
  {
    forall r | r in left ensures !ShouldRemove(left, p, nowMs, r) {
      SubsetIsNoLarger(NewerInWindow(left, r), NewerInWindow(rows, r));
      StaysNewest(rows, IsRestorable, left, r);
      StaysNewest(rows, IsRollbackPoint, left, r);
    }
    RemovalsAreTheRule(left, p, nowMs);
    SomeMember(Removed(left, p, nowMs));
  }

  lemma SomeMember(s: seq<Row>)
    ensures s == [] || exists r :: r in s
  {
    if s != [] {
      assert s[0] in s;
    }
  }

  lemma StaysNewest(rows: seq<Row>, group: Row -> bool, left: seq<Row>, r: Row)
    requires (forall x :: x in left ==> x in rows) && r in left
    ensures IsNewest(rows, group, r) ==> IsNewest(left, group, r)
  {
  }
}
