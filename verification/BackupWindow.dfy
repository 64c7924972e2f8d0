/**
 The consistent window of a complete backup: services are stopped, everything is taken, and whatever was
 stopped is started again on every way out. Every command may fail or throw.
 */
module BackupWindow {
  import opened Basics
  import opened BackupInspector

  datatype Custodian = Inline | Sidecar

  datatype Request = Request(custodian: Custodian, hasPromotionRecords: bool)

  function Quiesced(r: Request): (services: seq<string>)
    ensures forall i, k :: 0 <= i < k < |services| ==> services[i] != services[k]
  {
    match r.custodian
    case Inline => ["app"]
    case Sidecar =>
      assert "app"[0] != "sidecar"[0];
      ["app", "sidecar"]
  }

  /** What a run does, in order. The first three kinds and `Start` are commands; the others are file operations. */
  datatype Step =
    | Stop(service: string)
    | DumpDatabase
    | CopyKeystoreOut
    | CopyTreeIn(component: Component)
    | Start(service: string)
    | Publish

  datatype Answer = Exit(status: int) | Threw

  predicate Ok(a: Answer) {
    a == Exit(0)
  }

  /** Everything a run is answered. */
  datatype World = World(
    finalNameFree: bool,
    stagingMade: bool,
    stop: string -> Answer,
    dump: Answer,
    dumpedBytes: Option<nat>,
    copyOut: Answer,
    keystoreArrived: bool,
    copyTree: Component -> bool,
    start: string -> Answer,
    described: bool,
    secretsComplete: bool,
    manifestWritten: bool,
    publish: bool)

  datatype Refusal =
    | NameTaken
    | NoStaging
    | StopFailed(service: string)
    | DumpFailed
    | DumpUnreadable
    | DumpEmpty
    | KeystoreCopyFailed
    | TreeCopyFailed(component: Component)
    | CannotDescribe
    | SecretsIncomplete
    | ComponentNotStaged(component: Component)
    | ManifestUnwritable
    | PublishFailed

  datatype Result =
    | Taken(restarted: bool, stillStopped: seq<string>)
    | Refused(why: Refusal)
    | RefusedWithOutage(why: Refusal, stillStopped: seq<string>)

  /** A failure keeps its own reason; what is still down is added to it, never put in its place. */
  function WithOutage(why: Refusal, stillStopped: seq<string>): Result {
    if stillStopped == [] then Refused(why) else RefusedWithOutage(why, stillStopped)
  }

  // ---------------------------------------------------------------------------------------------------
  // The plan, and what a run does, as values
  // ---------------------------------------------------------------------------------------------------

  function Stops(services: seq<string>): seq<Step> {
    seq(|services|, i requires 0 <= i < |services| => Stop(services[i]))
  }

  function Starts(services: seq<string>): seq<Step> {
    seq(|services|, i requires 0 <= i < |services| => Start(services[i]))
  }

  function Reversed<T>(s: seq<T>): (r: seq<T>)
    ensures |r| == |s| && forall i :: 0 <= i < |s| ==> r[i] == s[|s| - 1 - i]
  {
    seq(|s|, i requires 0 <= i < |s| => s[|s| - 1 - i])
  }

  function Copies(r: Request): seq<Step> {
    [DumpDatabase, KeystoreStep(r), CopyTreeIn(Secrets)]
    + if r.hasPromotionRecords then [CopyTreeIn(PromotionRecords)] else []
  }

  function Window(r: Request): seq<Step> {
    Stops(Quiesced(r)) + Copies(r)
  }

  /** Why a step fails, if it does. */
  function Failure(w: World, step: Step): Option<Refusal> {
    match step
    case Stop(s) => if Ok(w.stop(s)) then None else Some(StopFailed(s))
    case DumpDatabase =>
      if !Ok(w.dump) then Some(DumpFailed)
      else if w.dumpedBytes == None then Some(DumpUnreadable)
      else if w.dumpedBytes == Some(0) then Some(DumpEmpty)
      else None
    case CopyKeystoreOut => if Ok(w.copyOut) then None else Some(KeystoreCopyFailed)
    case CopyTreeIn(c) => if w.copyTree(c) then None else Some(TreeCopyFailed(c))
    case Start(_) => None
    case Publish => if w.publish then None else Some(PublishFailed)
  }

  /** The steps up to and including the first that fails. */
  function UpToFailure(steps: seq<Step>, w: World): seq<Step> {
    if steps == [] then []
    else if Failure(w, steps[0]).Some? then [steps[0]]
    else [steps[0]] + UpToFailure(steps[1..], w)
  }

  /** The services that answered their stop with success, in the order they were stopped. */
  function StoppedBy(steps: seq<Step>, w: World): seq<string> {
    if steps == [] then []
    else
      var last := steps[|steps| - 1];
      StoppedBy(steps[..|steps| - 1], w) + if last.Stop? && Ok(w.stop(last.service)) then [last.service] else []
  }

  function NotStarted(services: seq<string>, w: World): seq<string> {
    if services == [] then []
    else
      var last := services[|services| - 1];
      NotStarted(services[..|services| - 1], w) + if Ok(w.start(last)) then [] else [last]
  }

  predicate IsCommand(step: Step) {
    !step.CopyTreeIn? && !step.Publish?
  }

  function Commands(steps: seq<Step>): seq<Step> {
    if steps == [] then []
    else (if IsCommand(steps[0]) then [steps[0]] else []) + Commands(steps[1..])
  }

  function Plan(r: Request): seq<Step> {
    Stops(Quiesced(r)) + [DumpDatabase] + (if r.custodian.Inline? then [CopyKeystoreOut] else []) + Starts(Reversed(Quiesced(r)))
  }

  /** What `--plan` prints. */
  method PlanCompleteBackup(r: Request) returns (commands: seq<Step>)
    ensures commands == Plan(r)
    ensures r.custodian.Inline? ==> commands == [Stop("app"), DumpDatabase, CopyKeystoreOut, Start("app")]
    ensures r.custodian.Sidecar? ==> commands == [Stop("app"), Stop("sidecar"), DumpDatabase, Start("sidecar"), Start("app")]
  {
    ThePlanIs(r);
    commands := [];
    var services := Quiesced(r);
    for i := 0 to |services|
      invariant commands == Stops(services[..i])
    {
      commands := commands + [Stop(services[i])];
    }
    assert services[..|services|] == services;
    commands := commands + [DumpDatabase];
    if r.custodian.Inline? {
      commands := commands + [CopyKeystoreOut];
    }
    ghost var before := commands;
    var back := Reversed(services);
    for i := 0 to |back|
      invariant commands == before + Starts(back[..i])
    {
      commands := commands + [Start(back[i])];
      assert Starts(back[..i + 1]) == Starts(back[..i]) + [Start(back[i])];
    }
    assert back[..|back|] == back;
  }

  // ---------------------------------------------------------------------------------------------------
  // Taking
  // ---------------------------------------------------------------------------------------------------

  /** The first `i` steps have succeeded and these are the services stopped by them. */
  ghost predicate Reached(steps: seq<Step>, i: nat, w: World, quiesced: seq<string>) {
    && i <= |steps| && (forall k :: 0 <= k < i ==> Failure(w, steps[k]).None?)
    && quiesced == StoppedBy(steps[..i], w)
  }

  lemma Advance(steps: seq<Step>, i: nat, w: World, quiesced: seq<string>)
    requires Reached(steps, i, w, quiesced) && i < |steps|
    ensures steps[..i + 1] == steps[..i] + [steps[i]]
    ensures Failure(w, steps[i]).Some? ==> UpToFailure(steps, w) == steps[..i + 1] && quiesced == StoppedBy(steps[..i + 1], w)
    ensures Failure(w, steps[i]).None? ==>
      Reached(steps, i + 1, w, quiesced + if steps[i].Stop? then [steps[i].service] else [])
  {
    EndsAtFailure(steps, i, w);
    assert steps[..i + 1][..i] == steps[..i];
    assert quiesced + [] == quiesced;
  }

  lemma Begins(steps: seq<Step>, w: World)
    ensures Reached(steps, 0, w, [])
  {
  }

  lemma EndsIn(steps: seq<Step>, w: World)
    requires steps != []
    ensures Fault(steps, w) == Failure(w, steps[|steps| - 1])
  {
  }

  lemma Through(steps: seq<Step>, w: World, quiesced: seq<string>)
    requires Reached(steps, |steps|, w, quiesced)
    ensures UpToFailure(steps, w) == steps && quiesced == StoppedBy(steps, w)
    ensures Fault(steps, w).None?
  {
    assert steps[..|steps|] == steps;
    AllSucceed(steps, w);
  }

  lemma WindowShape(r: Request)
    ensures
      var services, window := Quiesced(r), Window(r);
      var n := |services|;
      && |window| == n + (if r.hasPromotionRecords then 4 else 3)
      && (forall i :: 0 <= i < n ==> window[i] == Stop(services[i]))
      && window[n] == DumpDatabase
      && window[n + 1] == KeystoreStep(r) && !window[n + 1].Stop?
      && window[n + 2] == CopyTreeIn(Secrets)
      && (r.hasPromotionRecords ==> window[n + 3] == CopyTreeIn(PromotionRecords))
  {
  }

  /** The body of the window, up to its first failure. */
  method TakeInWindow(r: Request, w: World) returns (failure: Option<Refusal>, quiesced: seq<string>, steps: seq<Step>)
    ensures steps == UpToFailure(Window(r), w) && quiesced == StoppedBy(steps, w)
    ensures failure == Fault(steps, w)
    ensures failure.None? ==> steps == Window(r) && quiesced == Quiesced(r)
  {
    hide Window, Quiesced, UpToFailure, StoppedBy, Reached, Fault;
    quiesced, steps := [], [];
    var services := Quiesced(r);
    ghost var window := Window(r);
    WindowShape(r);
    Begins(window, w);
    for i := 0 to |services|
      invariant steps == window[..i] && quiesced == services[..i] && Reached(window, i, w, quiesced)
    {
      steps := steps + [Stop(services[i])];
      Advance(window, i, w, quiesced);
      if !Ok(w.stop(services[i])) {
        EndsIn(steps, w);
        return Some(StopFailed(services[i])), quiesced, steps;
      }
      quiesced := quiesced + [services[i]];
    }
    assert quiesced == services;
    failure, steps := TakeCopies(r, w, steps);
  }

  function KeystoreStep(r: Request): Step {
    if r.custodian.Inline? then CopyKeystoreOut else CopyTreeIn(Keystore)
  }

  /** The keystore comes out of the app container, or out of the sidecar's own directory. */
  method TakeKeystore(r: Request, w: World) returns (step: Step, failure: Option<Refusal>)
    ensures step == KeystoreStep(r) && failure == Failure(w, step)
  {
    if r.custodian.Inline? {
      step := CopyKeystoreOut;
      if !Ok(w.copyOut) {
        return step, Some(KeystoreCopyFailed);
      }
      return step, None;
    }
    step := CopyTreeIn(Keystore);
    if !w.copyTree(Keystore) {
      return step, Some(TreeCopyFailed(Keystore));
    }
    return step, None;
  }

  /** The rest of the window, with everything stopped. */
  method TakeCopies(r: Request, w: World, before: seq<Step>) returns (failure: Option<Refusal>, steps: seq<Step>)
    requires before == Window(r)[..|Quiesced(r)|] && Reached(Window(r), |Quiesced(r)|, w, Quiesced(r))
    ensures steps == UpToFailure(Window(r), w) && StoppedBy(steps, w) == Quiesced(r)
    ensures failure == Fault(steps, w)
    ensures failure.None? ==> steps == Window(r)
  {
    hide Window, Quiesced, UpToFailure, StoppedBy, Reached, Fault, KeystoreStep;
    ghost var window, quiesced := Window(r), Quiesced(r);
    ghost var n := |quiesced|;
    WindowShape(r);
    assert quiesced + [] == quiesced;
    steps := before + [DumpDatabase];
    Advance(window, n, w, quiesced);
    EndsIn(steps, w);
    if !Ok(w.dump) {
      return Some(DumpFailed), steps;
    }
    if w.dumpedBytes == None {
      return Some(DumpUnreadable), steps;
    }
    if w.dumpedBytes == Some(0) {
      return Some(DumpEmpty), steps;
    }
    Advance(window, n + 1, w, quiesced);
    var step, fault := TakeKeystore(r, w);
    steps := steps + [step];
    EndsIn(steps, w);
    if fault.Some? {
      return fault, steps;
    }
    steps := steps + [CopyTreeIn(Secrets)];
    Advance(window, n + 2, w, quiesced);
    EndsIn(steps, w);
    if !w.copyTree(Secrets) {
      return Some(TreeCopyFailed(Secrets)), steps;
    }
    if r.hasPromotionRecords {
      steps := steps + [CopyTreeIn(PromotionRecords)];
      Advance(window, n + 3, w, quiesced);
      EndsIn(steps, w);
      if !w.copyTree(PromotionRecords) {
        return Some(TreeCopyFailed(PromotionRecords)), steps;
      }
    }
    failure := None;
    assert window[..|window|] == window;
    Through(window, w, quiesced);
  }

  lemma {:induction false} EndsAtFailure(steps: seq<Step>, i: nat, w: World)
    requires i < |steps| && forall k :: 0 <= k < i ==> Failure(w, steps[k]).None?
    ensures Failure(w, steps[i]).Some? ==> UpToFailure(steps, w) == steps[..i + 1]
  {
    if i > 0 {
      EndsAtFailure(steps[1..], i - 1, w);
      assert steps[..i + 1] == [steps[0]] + steps[1..][..i];
    }
  }

  lemma {:induction false} AllSucceed(steps: seq<Step>, w: World)
    requires forall k :: 0 <= k < |steps| ==> Failure(w, steps[k]).None?
    ensures UpToFailure(steps, w) == steps
  {
    if steps != [] {
      AllSucceed(steps[1..], w);
      assert steps == [steps[0]] + steps[1..];
    }
  }

  /** The way out of the window. It starts what was stopped, newest first, and never gives up or throws. */
  method StartAgain(quiesced: seq<string>, w: World) returns (restarted: bool, stillStopped: seq<string>, steps: seq<Step>)
    ensures steps == Starts(Reversed(quiesced))
    ensures stillStopped == NotStarted(Reversed(quiesced), w) && (restarted <==> stillStopped == [])
  {
    restarted, stillStopped, steps := true, [], [];
    var back := Reversed(quiesced);
    for i := 0 to |back|
      invariant steps == Starts(back[..i])
      invariant stillStopped == NotStarted(back[..i], w) && (restarted <==> stillStopped == [])
    {
      steps := steps + [Start(back[i])];
      assert back[..i + 1][..i] == back[..i];
      assert Starts(back[..i + 1]) == Starts(back[..i]) + [Start(back[i])];
      if !Ok(w.start(back[i])) {
        restarted := false;
        stillStopped := stillStopped + [back[i]];
      }
    }
    assert back[..|back|] == back;
  }

  /** Why a staged set is not published, if it is not. */
  function NotPublishable(w: World, staged: set<Component>): Option<Refusal> {
    if !w.described then Some(CannotDescribe)
    else if !w.secretsComplete then Some(SecretsIncomplete)
    else if Database !in staged then Some(ComponentNotStaged(Database))
    else if Keystore !in staged then Some(ComponentNotStaged(Keystore))
    else if Secrets !in staged then Some(ComponentNotStaged(Secrets))
    else if !w.manifestWritten then Some(ManifestUnwritable)
    else None
  }

  /** The components lying in the staging directory after some steps. A copy out may succeed and bring nothing. */
  function StagedBy(steps: seq<Step>, w: World): set<Component> {
    if steps == [] then {}
    else
      var last := steps[|steps| - 1];
      StagedBy(steps[..|steps| - 1], w)
      + match last
        case DumpDatabase => if Failure(w, last).None? then {Database} else {}
        case CopyKeystoreOut => if Failure(w, last).None? && w.keystoreArrived then {Keystore} else {}
        case CopyTreeIn(c) => if Failure(w, last).None? then {c} else {}
        case _ => {}
  }

  /** Every step of a run. */
  function Steps(r: Request, w: World): seq<Step> {
    if !w.finalNameFree || !w.stagingMade then []
    else
      var taken := UpToFailure(Window(r), w);
      taken + Starts(Reversed(StoppedBy(taken, w)))
      + if Fault(taken, w).None? && NotPublishable(w, StagedBy(taken, w)).None? then [Publish] else []
  }

  function Fault(taken: seq<Step>, w: World): Option<Refusal> {
    if taken == [] then None else Failure(w, taken[|taken| - 1])
  }

  /** Why a run fails, if it does: the first thing that went wrong. */
  function FirstFailure(r: Request, w: World): Option<Refusal> {
    var taken := UpToFailure(Window(r), w);
    if !w.finalNameFree then Some(NameTaken)
    else if !w.stagingMade then Some(NoStaging)
    else if Fault(taken, w).Some? then Fault(taken, w)
    else if NotPublishable(w, StagedBy(taken, w)).Some? then NotPublishable(w, StagedBy(taken, w))
    else if !w.publish then Some(PublishFailed)
    else None
  }

  method PerformBackup(r: Request, w: World) returns (result: Result, steps: seq<Step>)
    ensures steps == Steps(r, w)
    ensures result == match FirstFailure(r, w)
      case None => Taken(Outage(r, w) == [], Outage(r, w))
      case Some(why) => WithOutage(why, Outage(r, w))
    ensures result.Taken? <==> Publish in steps && w.publish
    ensures result.Taken? ==> result.restarted == (result.stillStopped == [])
    ensures result.Refused? ==> Outage(r, w) == []
    ensures !result.Refused? ==> result.stillStopped == Outage(r, w)
    ensures result.RefusedWithOutage? ==> Outage(r, w) != []
  {
    hide Window, UpToFailure, StoppedBy, StagedBy, NotStarted, Starts, Reversed, Quiesced, Failure;
    if !w.finalNameFree {
      return WithOutage(NameTaken, []), [];
    }
    if !w.stagingMade {
      return WithOutage(NoStaging, []), [];
    }
    var failure, quiesced, taken := TakeInWindow(r, w);
    var restarted, stillStopped, starts := StartAgain(quiesced, w);
    steps := taken + starts;
    NoPublishYet(r, w);
    if failure.Some? {
      assert steps == steps + [];
      return WithOutage(failure.value, stillStopped), steps;
    }
    var reason := NotPublishable(w, StagedBy(taken, w));
    if reason.Some? {
      assert steps == steps + [];
      return WithOutage(reason.value, stillStopped), steps;
    }
    steps := steps + [Publish];
    assert steps[|steps| - 1] == Publish;
    if !w.publish {
      return WithOutage(PublishFailed, stillStopped), steps;
    }
    result := Taken(restarted, stillStopped);
  }

  /** The services a run stopped and could not start again, in the order it tried. */
  function Outage(r: Request, w: World): seq<string> {
    if !w.finalNameFree || !w.stagingMade then []
    else NotStarted(Reversed(StoppedBy(UpToFailure(Window(r), w), w)), w)
  }

  lemma {:induction false} PrefixOfWindow(steps: seq<Step>, w: World)
    ensures UpToFailure(steps, w) <= steps
    ensures Fault(UpToFailure(steps, w), w).None? ==> UpToFailure(steps, w) == steps
  {
    if steps != [] {
      PrefixOfWindow(steps[1..], w);
      assert steps == [steps[0]] + steps[1..];
    }
  }

  lemma NoPublishYet(r: Request, w: World)
    ensures
      var taken := UpToFailure(Window(r), w);
      Publish !in taken + Starts(Reversed(StoppedBy(taken, w)))
  {
    PrefixOfWindow(Window(r), w);
  }

  // ---------------------------------------------------------------------------------------------------
  // What every run keeps, read off its trace
  // ---------------------------------------------------------------------------------------------------

  /** The services down after some steps: stopped by them, and not started again since. */
  function Down(steps: seq<Step>, w: World): set<string> {
    if steps == [] then {}
    else
      var before := Down(steps[..|steps| - 1], w);
      match steps[|steps| - 1]
      case Stop(s) => if Ok(w.stop(s)) then before + {s} else before
      case Start(s) => if Ok(w.start(s)) then before - {s} else before
      case _ => before
  }

  lemma {:induction false} DownIsStopped(steps: seq<Step>, w: World)
    requires forall step :: step in steps ==> !step.Start?
    ensures forall s :: s in Down(steps, w) <==> s in StoppedBy(steps, w)
  {
    if steps != [] {
      var last := |steps| - 1;
      assert steps == steps[..last] + [steps[last]];
      DownIsStopped(steps[..last], w);
    }
  }

  lemma LastStep(steps: seq<Step>, step: Step, w: World)
    ensures Down(steps + [step], w) ==
      if step.Stop? && Ok(w.stop(step.service)) then Down(steps, w) + {step.service}
      else if step.Start? && Ok(w.start(step.service)) then Down(steps, w) - {step.service}
      else Down(steps, w)
  {
    assert (steps + [step])[..|steps|] == steps;
  }

  lemma {:induction false} DownAfterStarts(taken: seq<Step>, services: seq<string>, n: nat, w: World)
    requires n <= |services| && forall s :: s in Down(taken, w) <==> s in services
    ensures forall s :: s in Down(taken + Starts(services[..n]), w) <==> s in services && !(s in services[..n] && Ok(w.start(s)))
  {
    hide Down, Ok;
    if n == 0 {
      assert taken + Starts(services[..0]) == taken;
    } else {
      DownAfterStarts(taken, services, n - 1, w);
      var last := services[n - 1];
      assert taken + Starts(services[..n]) == taken + Starts(services[..n - 1]) + [Start(last)];
      LastStep(taken + Starts(services[..n - 1]), Start(last), w);
      assert services[..n] == services[..n - 1] + [last];
    }
  }

  lemma {:induction false} NotStartedMeans(services: seq<string>, w: World)
    ensures forall s :: s in NotStarted(services, w) <==> s in services && !Ok(w.start(s))
  {
    if services != [] {
      NotStartedMeans(services[..|services| - 1], w);
      assert services == services[..|services| - 1] + [services[|services| - 1]];
    }
  }

  lemma WindowStartsNothing(r: Request)
    ensures forall step :: step in Window(r) ==> !step.Start?
  {
  }

  /** What a failure or report says is still stopped is exactly what replaying the run leaves down. */
  lemma OutageIsWhatIsDown(r: Request, w: World)
    ensures forall s :: s in Outage(r, w) <==> s in Down(Steps(r, w), w)
  {
    if w.finalNameFree && w.stagingMade {
      var taken := UpToFailure(Window(r), w);
      var back := Reversed(StoppedBy(taken, w));
      PrefixOfWindow(Window(r), w);
      WindowStartsNothing(r);
      assert forall step :: step in taken ==> step in Window(r);
      DownIsStopped(taken, w);
      ReversedHolds(StoppedBy(taken, w));
      hide Window, UpToFailure, StoppedBy, Down, Starts, NotStarted, Reversed;
      DownAfterStarts(taken, back, |back|, w);
      assert back[..|back|] == back;
      NotStartedMeans(back, w);
      LastStep(taken + Starts(back), Publish, w);
      assert taken + Starts(back) + [] == taken + Starts(back);
    }
  }

  lemma ReversedHolds<T>(s: seq<T>)
    ensures forall x :: x in Reversed(s) <==> x in s
  {
    forall x | x in s ensures x in Reversed(s) {
      var i :| 0 <= i < |s| && s[i] == x;
      assert Reversed(s)[|s| - 1 - i] == x;
    }
  }

  lemma NoPublishCommand()
    ensures Commands([Publish]) == [] && Commands([]) == []
  {
  }

  lemma {:induction false} CommandsConcat(a: seq<Step>, b: seq<Step>)
    ensures Commands(a + b) == Commands(a) + Commands(b)
  {
    hide Commands, IsCommand;
    NoPublishCommand();
    if a == [] {
      assert a + b == b && Commands(a) == [];
    } else {
      CommandsConcat(a[1..], b);
      assert (a + b)[1..] == a[1..] + b;
      FirstCommand(a);
      FirstCommand(a + b);
    }
  }

  lemma FirstCommand(steps: seq<Step>)
    requires steps != []
    ensures Commands(steps) == (if IsCommand(steps[0]) then [steps[0]] else []) + Commands(steps[1..])
  {
  }

  lemma OneCommand(step: Step)
    ensures Commands([step]) == if IsCommand(step) then [step] else []
  {
    assert [step][1..] == [];
  }

  lemma {:induction false} AllCommands(steps: seq<Step>)
    requires forall step :: step in steps ==> IsCommand(step)
    ensures Commands(steps) == steps
  {
    if steps != [] {
      AllCommands(steps[1..]);
      assert steps == [steps[0]] + steps[1..];
    }
  }

  lemma {:induction false} StoppedByStops(services: seq<string>, more: seq<Step>, w: World)
    requires forall s :: s in services ==> Ok(w.stop(s))
    requires forall step :: step in more ==> !step.Stop?
    ensures StoppedBy(Stops(services) + more, w) == services
    decreases |services| + |more|
  {
    var steps := Stops(services) + more;
    if more != [] {
      assert steps[..|steps| - 1] == Stops(services) + more[..|more| - 1];
      StoppedByStops(services, more[..|more| - 1], w);
      assert steps[|steps| - 1] == more[|more| - 1];
    } else if services != [] {
      var last := |services| - 1;
      assert steps[..|steps| - 1] == Stops(services[..last]) + [];
      StoppedByStops(services[..last], [], w);
      assert steps[|steps| - 1] == Stop(services[last]);
      assert services == services[..last] + [services[last]];
    }
  }

  /** A run in which nothing fails issues exactly the commands the plan prints. */
  lemma NothingFailsIsThePlan(r: Request, w: World)
    requires w.finalNameFree && w.stagingMade
    requires forall k :: 0 <= k < |Window(r)| ==> Failure(w, Window(r)[k]).None?
    ensures Commands(Steps(r, w)) == Plan(r)
  {
    hide Window, Copies, UpToFailure, StoppedBy, Starts, Stops, Reversed, Quiesced, Commands, Failure;
    var services := Quiesced(r);
    var starts := Starts(Reversed(services));
    AllSucceed(Window(r), w);
    WindowIs(r);
    AllStopsSucceed(r, Window(r), w);
    AllCommands(Stops(services)) by { StopsAreCommands(services); }
    AllCommands(starts) by { StopsAreCommands(Reversed(services)); }
    CommandsConcat(Stops(services), Copies(r));
    CommandsConcat(Window(r), starts);
    CommandsConcat(Window(r) + starts, [Publish]);
    CommandsOfCopies(r);
    NoPublishCommand();
    assert Window(r) + starts + [] == Window(r) + starts;
  }

  lemma StopsAreCommands(services: seq<string>)
    ensures forall step :: step in Stops(services) ==> IsCommand(step)
    ensures forall step :: step in Starts(services) ==> IsCommand(step)
  {
  }

  /** When the window is through its stops, every service it names is stopped, by them alone. */
  lemma AllStopsSucceed(r: Request, part: seq<Step>, w: World)
    requires Stops(Quiesced(r)) <= part <= Window(r)
    requires forall k :: 0 <= k < |Quiesced(r)| ==> Failure(w, part[k]).None?
    ensures StoppedBy(part, w) == Quiesced(r)
  {
    var services := Quiesced(r);
    var n := |services|;
    forall s | s in services ensures Ok(w.stop(s)) {
      var i :| 0 <= i < n && services[i] == s;
      assert part[i] == Stops(services)[i] == Stop(s);
      assert Failure(w, part[i]).None?;
    }
    assert part == Stops(services) + part[n..];
    assert forall k :: n <= k < |part| ==> part[k] == Window(r)[k];
    StoppedByStops(services, part[n..], w);
  }

  lemma WindowIs(r: Request)
    ensures Window(r) == Stops(Quiesced(r)) + Copies(r)
    ensures |Stops(Quiesced(r))| == |Quiesced(r)|
  {
  }

  lemma CommandsOfCopies(r: Request)
    ensures Commands(Copies(r)) == [DumpDatabase] + if r.custodian.Inline? then [CopyKeystoreOut] else []
  {
    hide Commands;
    var tail := if r.hasPromotionRecords then [CopyTreeIn(PromotionRecords)] else [];
    OneCommand(DumpDatabase);
    OneCommand(KeystoreStep(r));
    OneCommand(CopyTreeIn(Secrets));
    OneCommand(CopyTreeIn(PromotionRecords));
    NoPublishCommand();
    assert Copies(r) == [DumpDatabase] + ([KeystoreStep(r)] + ([CopyTreeIn(Secrets)] + tail));
    CommandsConcat([DumpDatabase], [KeystoreStep(r)] + ([CopyTreeIn(Secrets)] + tail));
    CommandsConcat([KeystoreStep(r)], [CopyTreeIn(Secrets)] + tail);
    CommandsConcat([CopyTreeIn(Secrets)], tail);
  }

  /**
   The shape of every run: the commands are a prefix of the window followed by one start for each service whose
   stop succeeded, newest first.
   */
  lemma EveryTraceIsAPrefixThenStarts(r: Request, w: World)
    requires w.finalNameFree && w.stagingMade
    ensures UpToFailure(Window(r), w) <= Window(r)
    ensures
      var taken := UpToFailure(Window(r), w);
      Commands(Steps(r, w)) == Commands(taken) + Starts(Reversed(StoppedBy(taken, w)))
  {
    var taken := UpToFailure(Window(r), w);
    PrefixOfWindow(Window(r), w);
    var starts := Starts(Reversed(StoppedBy(taken, w)));
    AllCommands(starts);
    hide Window, UpToFailure, StoppedBy, Reversed, Starts, Commands;
    CommandsConcat(taken, starts);
    CommandsConcat(taken + starts, [Publish]);
    NoPublishCommand();
    assert taken + starts + [] == taken + starts;
    assert Commands(taken + starts) + [] == Commands(taken + starts);
  }

  /** One moment: whenever something is dumped or copied, every service of the window is down. */
  lemma {:induction false} TakenFromOneMoment(r: Request, w: World, i: nat)
    requires i < |Steps(r, w)|
    requires Steps(r, w)[i].DumpDatabase? || Steps(r, w)[i].CopyKeystoreOut? || Steps(r, w)[i].CopyTreeIn?
    ensures forall s :: s in Quiesced(r) ==> s in Down(Steps(r, w)[..i], w)
  {
    TakingIsInTheWindow(r, w, i);
    var before := Window(r)[..i];
    StopsComeFirst(r, i);
    hide Window, Steps, Quiesced, Failure, Down, StoppedBy, Stops;
    AllStopsSucceed(r, before, w);
    WindowStartsNothing(r);
    assert forall step :: step in before ==> step in Window(r);
    DownIsStopped(before, w);
  }

  lemma StopsComeFirst(r: Request, i: nat)
    requires i < |Window(r)| && !Window(r)[i].Stop?
    ensures |Quiesced(r)| <= i && Stops(Quiesced(r)) <= Window(r)[..i]
  {
  }

  /** A taking step of a run is the step of the window with its index, and everything before it succeeded. */
  lemma TakingIsInTheWindow(r: Request, w: World, i: nat)
    requires i < |Steps(r, w)|
    requires Steps(r, w)[i].DumpDatabase? || Steps(r, w)[i].CopyKeystoreOut? || Steps(r, w)[i].CopyTreeIn?
    ensures i < |Window(r)| && Steps(r, w)[..i] == Window(r)[..i] && Steps(r, w)[i] == Window(r)[i]
    ensures forall k :: 0 <= k < i ==> Failure(w, Window(r)[k]).None?
  {
    var taken := UpToFailure(Window(r), w);
    PrefixOfWindow(Window(r), w);
    AllButLast(Window(r), w);
    hide Window, UpToFailure, Failure;
    assert i < |taken|;
  }

  /** Every step before the last one taken succeeded. */
  lemma {:induction false} AllButLast(steps: seq<Step>, w: World)
    ensures forall k :: 0 <= k < |UpToFailure(steps, w)| - 1 ==> Failure(w, UpToFailure(steps, w)[k]).None?
  {
    if steps != [] {
      AllButLast(steps[1..], w);
    }
  }

  /** Nothing is published before the required components lie in the staging directory and the starts were tried. */
  lemma PublishedOnlyWhenComplete(r: Request, w: World)
    requires Publish in Steps(r, w)
    ensures
      var steps := Steps(r, w);
      && w.finalNameFree && w.described && w.secretsComplete && w.manifestWritten
      && steps[|steps| - 1] == Publish && Publish !in steps[..|steps| - 1]
      && steps[..|steps| - 1] == Window(r) + Starts(Reversed(StoppedBy(Window(r), w)))
      && {Database, Keystore, Secrets} <= StagedBy(Window(r), w)
  {
    var taken := UpToFailure(Window(r), w);
    NoPublishYet(r, w);
    PrefixOfWindow(Window(r), w);
    hide Window, UpToFailure, StoppedBy, StagedBy, Starts, Reversed;
    var body := taken + Starts(Reversed(StoppedBy(taken, w)));
    assert Steps(r, w) == body + [] || Steps(r, w) == body + [Publish];
    assert body + [] == body && (body + [Publish])[..|body|] == body;
  }

  // ---------------------------------------------------------------------------------------------------
  // The same, service by service and answer by answer
  // ---------------------------------------------------------------------------------------------------

  /** The commands `--plan` prints, for each custodian. */
  lemma ThePlanIs(r: Request)
    ensures Plan(r) ==
      if r.custodian.Inline? then [Stop("app"), DumpDatabase, CopyKeystoreOut, Start("app")]
      else [Stop("app"), Stop("sidecar"), DumpDatabase, Start("sidecar"), Start("app")]
  {
  }

  /** What the window takes, and in which order. */
  lemma TheWindowIs(r: Request)
    ensures Window(r) ==
      (if r.custodian.Inline? then [Stop("app"), DumpDatabase, CopyKeystoreOut, CopyTreeIn(Secrets)]
       else [Stop("app"), Stop("sidecar"), DumpDatabase, CopyTreeIn(Keystore), CopyTreeIn(Secrets)])
      + if r.hasPromotionRecords then [CopyTreeIn(PromotionRecords)] else []
  {
    var services := Quiesced(r);
    if r.custodian.Inline? {
      assert Stops(services) == [Stop("app")];
    } else {
      assert Stops(services) == [Stop("app"), Stop("sidecar")];
    }
  }

  /** Whenever something is dumped or copied the app is down, and so is the sidecar where there is one. */
  lemma WritersAreDown(r: Request, w: World, i: nat)
    requires i < |Steps(r, w)|
    requires Steps(r, w)[i].DumpDatabase? || Steps(r, w)[i].CopyKeystoreOut? || Steps(r, w)[i].CopyTreeIn?
    ensures "app" in Down(Steps(r, w)[..i], w)
    ensures r.custodian.Sidecar? ==> "sidecar" in Down(Steps(r, w)[..i], w)
  {
    hide Steps, Down;
    TakenFromOneMoment(r, w, i);
    assert Quiesced(r)[0] == "app";
    assert r.custodian.Sidecar? ==> Quiesced(r)[1] == "sidecar";
  }

  /** Every answer inside the window is the good one. */
  predicate AllIsTaken(r: Request, w: World) {
    && w.stop("app") == Exit(0) && (r.custodian.Sidecar? ==> w.stop("sidecar") == Exit(0))
    && w.dump == Exit(0) && w.dumpedBytes.Some? && w.dumpedBytes.value > 0
    && (if r.custodian.Inline? then w.copyOut == Exit(0) else w.copyTree(Keystore))
    && w.copyTree(Secrets) && (r.hasPromotionRecords ==> w.copyTree(PromotionRecords))
  }

  lemma NoFaultMeansAllIsTaken(r: Request, w: World)
    ensures Fault(UpToFailure(Window(r), w), w).None? <==> AllIsTaken(r, w)
    ensures AllIsTaken(r, w) ==> UpToFailure(Window(r), w) == Window(r)
  {
    hide Window, UpToFailure;
    var window, taken := Window(r), UpToFailure(Window(r), w);
    TheWindowIs(r);
    PrefixOfWindow(window, w);
    if AllIsTaken(r, w) {
      AllSucceed(window, w);
    } else if Fault(taken, w).None? {
      AllButLast(window, w);
      assert forall k :: 0 <= k < |window| ==> Failure(w, window[k]).None?;
      EachStepSucceeds(r, w);
    }
  }

  lemma EachStepSucceeds(r: Request, w: World)
    requires forall k :: 0 <= k < |Window(r)| ==> Failure(w, Window(r)[k]).None?
    ensures AllIsTaken(r, w)
  {
    hide Window, Failure, AllIsTaken;
    TheWindowIs(r);
    var n := if r.custodian.Inline? then 1 else 2;
    assert AllIsTaken(r, w) by {
      assert Failure(w, Window(r)[0]).None? && Failure(w, Window(r)[n - 1]).None? && Failure(w, Window(r)[n]).None?;
      assert Failure(w, Window(r)[n + 1]).None? && Failure(w, Window(r)[n + 2]).None?;
      assert r.hasPromotionRecords ==> Failure(w, Window(r)[n + 3]).None?;
      StepsMean(r, w);
    }
  }

  lemma StepsMean(r: Request, w: World)
    ensures AllIsTaken(r, w) <==>
      && Failure(w, Stop("app")).None? && (r.custodian.Sidecar? ==> Failure(w, Stop("sidecar")).None?)
      && Failure(w, DumpDatabase).None?
      && Failure(w, if r.custodian.Inline? then CopyKeystoreOut else CopyTreeIn(Keystore)).None?
      && Failure(w, CopyTreeIn(Secrets)).None?
      && (r.hasPromotionRecords ==> Failure(w, CopyTreeIn(PromotionRecords)).None?)
  {
  }

  lemma StagedSnoc(steps: seq<Step>, step: Step, w: World)
    ensures StagedBy(steps + [step], w) == StagedBy(steps, w) +
      if Failure(w, step).Some? then {}
      else match step
        case DumpDatabase => {Database}
        case CopyKeystoreOut => if w.keystoreArrived then {Keystore} else {}
        case CopyTreeIn(c) => {c}
        case _ => {}
  {
    assert (steps + [step])[..|steps|] == steps;
  }

  /** What a window without a failure leaves in the staging directory. */
  lemma StagedWhenAllIsTaken(r: Request, w: World)
    requires AllIsTaken(r, w)
    ensures
      var staged := StagedBy(Window(r), w);
      && {Database, Secrets} <= staged
      && (Keystore in staged <==> (r.custodian.Inline? ==> w.keystoreArrived))
  {
    hide Window, StagedBy, Failure, AllIsTaken;
    StepsMean(r, w);
    TheWindowIs(r);
    var keystore := if r.custodian.Inline? then CopyKeystoreOut else CopyTreeIn(Keystore);
    var stops := if r.custodian.Inline? then [Stop("app")] else [Stop("app"), Stop("sidecar")];
    var records := if r.hasPromotionRecords then [CopyTreeIn(PromotionRecords)] else [];
    StopsStageNothing(stops, w);
    StagedSnoc(stops, DumpDatabase, w);
    StagedSnoc(stops + [DumpDatabase], keystore, w);
    StagedSnoc(stops + [DumpDatabase] + [keystore], CopyTreeIn(Secrets), w);
    StagedSnoc(stops + [DumpDatabase] + [keystore] + [CopyTreeIn(Secrets)], CopyTreeIn(PromotionRecords), w);
    assert Window(r) == stops + [DumpDatabase] + [keystore] + [CopyTreeIn(Secrets)] + records;
    if !r.hasPromotionRecords {
      assert Window(r) == stops + [DumpDatabase] + [keystore] + [CopyTreeIn(Secrets)];
    }
  }

  lemma {:induction false} StopsStageNothing(stops: seq<Step>, w: World)
    requires forall step :: step in stops ==> step.Stop?
    ensures StagedBy(stops, w) == {}
  {
    if stops != [] {
      StopsStageNothing(stops[..|stops| - 1], w);
    }
  }

  /**
   A set is published exactly when the name was free, everything was taken, the keystore arrived, every secret was
   there, and the set could be described and its manifest written.
   */
  lemma PublishedExactlyWhen(r: Request, w: World)
    ensures Publish in Steps(r, w) <==>
      && w.finalNameFree && w.stagingMade && AllIsTaken(r, w) && (r.custodian.Inline? ==> w.keystoreArrived)
      && w.described && w.secretsComplete && w.manifestWritten
  {
    NoPublishYet(r, w);
    NoFaultMeansAllIsTaken(r, w);
    hide Window, UpToFailure, StoppedBy, Starts, Reversed, StagedBy, AllIsTaken, Fault;
    if AllIsTaken(r, w) {
      StagedWhenAllIsTaken(r, w);
    }
    var taken := UpToFailure(Window(r), w);
    var body := taken + Starts(Reversed(StoppedBy(taken, w)));
    assert (body + [Publish])[|body|] == Publish;
    assert body + [] == body;
  }

  lemma FaultFrom(steps: seq<Step>, i: nat, w: World)
    requires i < |steps|
    ensures Fault(UpToFailure(steps[i..], w), w) ==
      if Failure(w, steps[i]).Some? then Failure(w, steps[i]) else Fault(UpToFailure(steps[i + 1..], w), w)
  {
    assert steps[i..][1..] == steps[i + 1..];
  }

  /** Why the window fails: of the stops, the dump and the copies, the first that was not answered well. */
  lemma WindowFaultIs(r: Request, w: World)
    ensures Fault(UpToFailure(Window(r), w), w) ==
      if w.stop("app") != Exit(0) then Some(StopFailed("app"))
      else if r.custodian.Sidecar? && w.stop("sidecar") != Exit(0) then Some(StopFailed("sidecar"))
      else if w.dump != Exit(0) then Some(DumpFailed)
      else if w.dumpedBytes.None? then Some(DumpUnreadable)
      else if w.dumpedBytes.value == 0 then Some(DumpEmpty)
      else if r.custodian.Inline? && w.copyOut != Exit(0) then Some(KeystoreCopyFailed)
      else if r.custodian.Sidecar? && !w.copyTree(Keystore) then Some(TreeCopyFailed(Keystore))
      else if !w.copyTree(Secrets) then Some(TreeCopyFailed(Secrets))
      else if r.hasPromotionRecords && !w.copyTree(PromotionRecords) then Some(TreeCopyFailed(PromotionRecords))
      else None
  {
    hide Window, UpToFailure, Fault;
    TheWindowIs(r);
    var window := Window(r);
    assert Fault(UpToFailure([], w), w).None? by { NothingFaults(w); }
    FaultFrom(window, 0, w);
    FaultFrom(window, 1, w);
    FaultFrom(window, 2, w);
    FaultFrom(window, 3, w);
    if |window| > 4 { FaultFrom(window, 4, w); }
    if |window| > 5 { FaultFrom(window, 5, w); }
    assert window[0..] == window && window[|window|..] == [];
  }

  lemma NothingFaults(w: World)
    ensures Fault(UpToFailure([], w), w).None?
  {
  }

  /** The reason a failed run gives is the first thing that went wrong, in this order; and none when nothing did. */
  lemma TheReasonIsTheFirst(r: Request, w: World)
    ensures
      var fault := Fault(UpToFailure(Window(r), w), w);
      FirstFailure(r, w) ==
        if !w.finalNameFree then Some(NameTaken)
        else if !w.stagingMade then Some(NoStaging)
        else if fault.Some? then fault
        else if !w.described then Some(CannotDescribe)
        else if !w.secretsComplete then Some(SecretsIncomplete)
        else if r.custodian.Inline? && !w.keystoreArrived then Some(ComponentNotStaged(Keystore))
        else if !w.manifestWritten then Some(ManifestUnwritable)
        else if !w.publish then Some(PublishFailed)
        else None
  {
    NoFaultMeansAllIsTaken(r, w);
    hide Window, UpToFailure, StagedBy, AllIsTaken, Fault;
    if AllIsTaken(r, w) {
      StagedWhenAllIsTaken(r, w);
    }
  }

  /** The one `ok`: published, everything running again, and the set read back and verified. */
  method RunVerified(r: Request, w: World, verifies: bool) returns (ok: bool, result: Result)
    ensures ok <==> Publish in Steps(r, w) && w.publish && Down(Steps(r, w), w) == {} && verifies
    ensures result.RefusedWithOutage? ==> Down(Steps(r, w), w) != {}
  {
    var steps;
    result, steps := PerformBackup(r, w);
    OutageIsWhatIsDown(r, w);
    assert Outage(r, w) == [] <==> Down(steps, w) == {} by {
      assert Outage(r, w) != [] ==> Outage(r, w)[0] in Outage(r, w);
    }
    ok := result.Taken? && result.restarted && verifies;
  }
}
