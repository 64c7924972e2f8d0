/**
 Publishing a snapshot atomically. Any number of producers of one output name run interleaved, system call by
 system call, and each may fail or die at any of them.
 */
module SnapshotPublication {
  type Inode = nat

  datatype Node = Regular(content: string) | Directory | Symlink

  /** The names of the output folder that matter: the output itself, and temporaries by their random suffix. */
  datatype Name = Output | Temp(suffix: nat)

  datatype Pc =
    | Starting
    | Opening
    | Writing(written: nat)
    | Publishing(attempt: nat)
    | CleaningUp(success: bool)
    | Succeeded
    | Refused
    | Crashed

  /** One producer: what it writes, how it was asked to publish, and how far it is. */
  datatype Producer = Producer(
    text: string, overwrite: bool, windows: bool, pc: Pc, suffix: nat, inode: Inode, existed: bool, published: bool)

  datatype System = System(names: map<Name, Inode>, nodes: map<Inode, Node>, producers: seq<Producer>)

  const REPLACE_ATTEMPTS: nat := 150

  datatype RenameResult = Renamed | TransientCode | OtherCode

  /** One system call and what it is answered. */
  datatype Call =
    | Lstat(ok: bool)
    | OpenExclusive(suffix: nat, inode: Inode, ok: bool)
    | WriteSome(count: nat, ok: bool)
    | FlushAndChmod(ok: bool)
    | Link(ok: bool)
    | Rename(result: RenameResult)
    | UnlinkTemp(ok: bool)
    | Die

  /** Which call a producer makes next, and which answers the system can give to it. */
  predicate Enabled(s: System, i: nat, c: Call) {
    && i < |s.producers|
    && var p := s.producers[i];
    match p.pc
    case Starting => c.Lstat? || c.Die?
    case Opening => (c.OpenExclusive? && c.inode !in s.nodes) || c.Die?
    case Writing(w) =>
      (c.WriteSome? && w < |p.text| && 0 < c.count <= |p.text| - w) || (c.FlushAndChmod? && w == |p.text|) || c.Die?
    case Publishing(_) =>
      || c.Die?
      || (c.Link? && !p.overwrite)
      || (c.Rename? && p.overwrite
          && (c.result.Renamed? ==> !(Output in s.names && s.names[Output] in s.nodes && s.nodes[s.names[Output]].Directory?)))
    case CleaningUp(_) => c.UnlinkTemp? || c.Die?
    case _ => false
  }

  /** What becomes of the calling producer. */
  function NextProducer(s: System, p: Producer, c: Call): Producer {
    match c
    case Die => p.(pc := Crashed)
    case Lstat(ok) =>
      if Output !in s.names then if ok then p.(pc := Opening, existed := false) else p.(pc := Refused)
      else if !ok || s.names[Output] !in s.nodes || !s.nodes[s.names[Output]].Regular? || !p.overwrite then p.(pc := Refused)
      else p.(pc := Opening, existed := true)
    case OpenExclusive(suffix, inode, ok) =>
      if !ok || Temp(suffix) in s.names then p.(pc := Refused)
      else p.(pc := Writing(0), suffix := suffix, inode := inode)
    case WriteSome(count, ok) =>
      if !ok || !p.pc.Writing? then p.(pc := CleaningUp(false)) else p.(pc := Writing(p.pc.written + count))
    case FlushAndChmod(ok) => if ok then p.(pc := Publishing(1)) else p.(pc := CleaningUp(false))
    case Link(ok) =>
      if !ok || Output in s.names then p.(pc := CleaningUp(false)) else p.(pc := CleaningUp(true), published := true)
    case Rename(result) =>
      if result.Renamed? then p.(pc := Succeeded, published := true)
      else if result.TransientCode? && p.windows && p.pc.Publishing? && p.pc.attempt < REPLACE_ATTEMPTS
        then p.(pc := Publishing(p.pc.attempt + 1))
      else p.(pc := CleaningUp(false))
    case UnlinkTemp(_) => p.(pc := if p.pc == CleaningUp(true) then Succeeded else Refused)
  }

  function NextNames(s: System, p: Producer, c: Call): map<Name, Inode> {
    match c
    case OpenExclusive(suffix, inode, ok) =>
      if !ok || Temp(suffix) in s.names then s.names else s.names[Temp(suffix) := inode]
    case Link(ok) => if !ok || Output in s.names then s.names else s.names[Output := p.inode]
    case Rename(result) => if result.Renamed? then (s.names - {Temp(p.suffix)})[Output := p.inode] else s.names
    case UnlinkTemp(ok) => if ok then s.names - {Temp(p.suffix)} else s.names
    case _ => s.names
  }

  function NextNodes(s: System, p: Producer, c: Call): map<Inode, Node> {
    match c
    case OpenExclusive(suffix, inode, ok) =>
      if !ok || Temp(suffix) in s.names then s.nodes else s.nodes[inode := Regular("")]
    case WriteSome(count, ok) =>
      if ok && p.inode in s.nodes && s.nodes[p.inode].Regular? && p.pc.Writing? && p.pc.written + count <= |p.text| then
        s.nodes[p.inode := Regular(s.nodes[p.inode].content + p.text[p.pc.written..p.pc.written + count])]
      else s.nodes
    case _ => s.nodes
  }

  function Apply(s: System, i: nat, c: Call): System {
    if i < |s.producers| then
      var p := s.producers[i];
      System(NextNames(s, p, c), NextNodes(s, p, c), s.producers[i := NextProducer(s, p, c)])
    else s
  }

  // ---------------------------------------------------------------------------------------------------
  // The invariant
  // ---------------------------------------------------------------------------------------------------

  /** The producer holds a temporary of its own under its own name. */
  predicate HoldsTemp(p: Producer) {
    p.pc.Writing? || p.pc.Publishing? || p.pc.CleaningUp?
  }

  /** What the temporary holds at each point, and what a published inode holds for ever. */
  ghost predicate ProducerHolds(s: System, p: Producer) {
    && (HoldsTemp(p) ==> Temp(p.suffix) in s.names && s.names[Temp(p.suffix)] == p.inode && p.inode in s.nodes)
    && (p.pc.Writing? ==> p.pc.written <= |p.text| && s.nodes[p.inode] == Regular(p.text[..p.pc.written]))
    && (p.pc.Publishing? ==> s.nodes[p.inode] == Regular(p.text))
    && (p.published ==>
          && (p.pc == CleaningUp(true) || p.pc.Succeeded? || p.pc.Crashed?)
          && p.inode in s.nodes && s.nodes[p.inode] == Regular(p.text)
          && Output in s.names)
    && (p.pc == CleaningUp(true) || p.pc.Succeeded? ==> p.published)
    && (p.pc == CleaningUp(true) ==> !p.overwrite)
  }

  /** Producers that hold temporaries or have published have inodes of their own. */
  ghost predicate OwnInodes(s: System) {
    forall i, k :: 0 <= i < |s.producers| && 0 <= k < |s.producers| && i != k ==>
      HoldsTemp(s.producers[i]) && (HoldsTemp(s.producers[k]) || s.producers[k].published) ==>
      s.producers[i].inode != s.producers[k].inode
  }

  /** What the output name may refer to: what it first did, or a producer's complete text. */
  ghost predicate OutputHolds(first: System, s: System) {
    Output in s.names ==>
      || (Output in first.names && s.names[Output] == first.names[Output])
      || exists k :: 0 <= k < |s.producers| && s.producers[k].published && s.producers[k].inode == s.names[Output]
  }

  /** A producer that was not asked to replace has published. */
  predicate Won(p: Producer) {
    p.published && !p.overwrite
  }

  ghost predicate AtMostOneWinner(first: System, s: System) {
    && (forall i, k :: 0 <= i < |s.producers| && 0 <= k < |s.producers| ==>
          Won(s.producers[i]) && Won(s.producers[k]) ==> i == k)
    && (forall i :: 0 <= i < |s.producers| && Won(s.producers[i]) ==> Output !in first.names)
  }

  ghost predicate Inv(first: System, s: System) {
    && |s.producers| == |first.producers|
    && (forall n :: n in s.names ==> s.names[n] in s.nodes)
    && (forall x :: x in first.nodes ==> x in s.nodes && s.nodes[x] == first.nodes[x])
    && (Output in first.names ==> Output in s.names)
    && (forall i :: 0 <= i < |s.producers| ==> ProducerHolds(s, s.producers[i]))
    && (forall i :: 0 <= i < |s.producers| && HoldsTemp(s.producers[i]) ==> s.producers[i].inode !in first.nodes)
    && OwnInodes(s) && OutputHolds(first, s) && AtMostOneWinner(first, s)
  }

  /** Where every run begins: no producer has done anything, whatever the folder holds. */
  ghost predicate Fresh(s: System) {
    && (forall n :: n in s.names ==> s.names[n] in s.nodes)
    && forall i :: 0 <= i < |s.producers| ==> s.producers[i].pc.Starting? && !s.producers[i].published
  }

  lemma FreshSatisfies(s: System)
    requires Fresh(s)
    ensures Inv(s, s)
  {
  }

  lemma CallKeepsNames(first: System, s: System, i: nat, c: Call)
    requires Inv(first, s) && Enabled(s, i, c)
    ensures
      var t := Apply(s, i, c);
      && (forall n :: n in t.names ==> t.names[n] in t.nodes)
      && (forall x :: x in first.nodes ==> x in t.nodes && t.nodes[x] == first.nodes[x])
      && (Output in s.names ==> Output in t.names)
  {
    var p := s.producers[i];
    assert ProducerHolds(s, p);
  }

  /** A producer gets an inode only by creating it, and holds or publishes only one it held before. */
  lemma WhatACallerHolds(s: System, i: nat, c: Call)
    requires Enabled(s, i, c) && ProducerHolds(s, s.producers[i])
    ensures
      var p, q := s.producers[i], NextProducer(s, s.producers[i], c);
      || (q.inode !in s.nodes && HoldsTemp(q) && !q.published)
      || (q.inode == p.inode && (HoldsTemp(q) ==> HoldsTemp(p)) && (q.published ==> p.published || HoldsTemp(p)))
  {
  }

  lemma CallKeepsOwnInodes(first: System, s: System, i: nat, c: Call)
    requires Inv(first, s) && Enabled(s, i, c)
    ensures OwnInodes(Apply(s, i, c))
    ensures forall k :: 0 <= k < |s.producers| && HoldsTemp(Apply(s, i, c).producers[k]) ==>
      Apply(s, i, c).producers[k].inode !in first.nodes
  {
    WhatACallerHolds(s, i, c);
    assert forall k :: 0 <= k < |s.producers| ==> ProducerHolds(s, s.producers[k]);
    assert forall k :: 0 <= k < |s.producers| ==>
      (HoldsTemp(s.producers[k]) || s.producers[k].published ==> s.producers[k].inode in s.nodes);
    hide NextProducer, NextNames, NextNodes, Enabled, ProducerHolds, OutputHolds, AtMostOneWinner, HoldsTemp;
    var t := Apply(s, i, c);
    assert t.producers == s.producers[i := NextProducer(s, s.producers[i], c)];
  }

  /** A call of one producer leaves what every other producer relies on. */
  lemma CallKeepsOthers(first: System, s: System, i: nat, c: Call, k: nat)
    requires Inv(first, s) && Enabled(s, i, c) && k < |s.producers| && k != i
    ensures ProducerHolds(Apply(s, i, c), s.producers[k])
  {
    var p, q := s.producers[i], s.producers[k];
    assert ProducerHolds(s, p) && ProducerHolds(s, q);
    if HoldsTemp(p) && HoldsTemp(q) {
      assert p.inode != q.inode;
      assert p.suffix != q.suffix;
    }
    if HoldsTemp(p) && q.published {
      assert p.inode != q.inode;
    }
  }

  lemma CallKeepsCaller(first: System, s: System, i: nat, c: Call)
    requires Inv(first, s) && Enabled(s, i, c)
    ensures ProducerHolds(Apply(s, i, c), Apply(s, i, c).producers[i])
  {
    hide Inv, OutputHolds, AtMostOneWinner;
    PublishedMeans(first, s, i, c);
    var p := s.producers[i];
    if c.WriteSome? && c.ok {
      assert p.text[..p.pc.written] + p.text[p.pc.written..p.pc.written + c.count] == p.text[..p.pc.written + c.count];
    }
    if c.FlushAndChmod? {
      assert p.text[..|p.text|] == p.text;
    }
  }

  /** A published producer stays published with the same inode and the same manner of publishing. */
  lemma PublishedStays(s: System, i: nat, c: Call)
    requires Enabled(s, i, c) && ProducerHolds(s, s.producers[i])
    ensures
      var p, q := s.producers[i], NextProducer(s, s.producers[i], c);
      && q.overwrite == p.overwrite
      && (p.published ==> q.published && q.inode == p.inode)
      && (q.published && !p.published ==> NextNames(s, p, c) == NextNames(s, p, c)[Output := q.inode])
      && (q.published && !p.published && !q.overwrite ==> Output !in s.names)
      && (!(q.published && !p.published) ==>
            (Output in NextNames(s, p, c) <==> Output in s.names)
            && (Output in s.names ==> NextNames(s, p, c)[Output] == s.names[Output]))
  {
  }

  lemma ProducersHold(first: System, s: System, i: nat)
    requires Inv(first, s) && i < |s.producers|
    ensures ProducerHolds(s, s.producers[i])
  {
  }

  /** What the invariant says of the caller and of every producer that has published. */
  lemma PublishedMeans(first: System, s: System, i: nat, c: Call)
    requires Inv(first, s) && Enabled(s, i, c)
    ensures i < |s.producers| && ProducerHolds(s, s.producers[i])
    ensures forall k :: 0 <= k < |s.producers| && s.producers[k].published ==> Output in s.names
    ensures OutputHolds(first, s) && AtMostOneWinner(first, s) && (Output in first.names ==> Output in s.names)
  {
    assert forall k :: 0 <= k < |s.producers| && s.producers[k].published ==> ProducerHolds(s, s.producers[k]);
  }

  lemma CallKeepsWinner(first: System, s: System, i: nat, c: Call)
    requires Inv(first, s) && Enabled(s, i, c)
    ensures AtMostOneWinner(first, Apply(s, i, c))
  {
    hide Inv, NextProducer, NextNames, NextNodes, Enabled, ProducerHolds, OutputHolds, HoldsTemp;
    PublishedMeans(first, s, i, c);
    PublishedStays(s, i, c);
  }

  lemma CallKeepsOutput(first: System, s: System, i: nat, c: Call)
    requires Inv(first, s) && Enabled(s, i, c)
    ensures OutputHolds(first, Apply(s, i, c))
  {
    hide Inv, NextProducer, NextNames, NextNodes, Enabled, ProducerHolds, AtMostOneWinner, HoldsTemp;
    PublishedMeans(first, s, i, c);
    PublishedStays(s, i, c);
    var t := Apply(s, i, c);
    var p, q := s.producers[i], t.producers[i];
    if q.published && !p.published {
      assert t.names[Output] == q.inode;
    } else if Output in s.names && !(Output in first.names && s.names[Output] == first.names[Output]) {
      var k :| 0 <= k < |s.producers| && s.producers[k].published && s.producers[k].inode == s.names[Output];
      assert t.producers[k].published && t.producers[k].inode == t.names[Output];
    }
  }

  lemma CallKeepsInv(first: System, s: System, i: nat, c: Call)
    requires Inv(first, s) && Enabled(s, i, c)
    ensures Inv(first, Apply(s, i, c))
  {
    CallKeepsNames(first, s, i, c);
    CallKeepsOwnInodes(first, s, i, c);
    CallKeepsCaller(first, s, i, c);
    CallKeepsOutput(first, s, i, c);
    CallKeepsWinner(first, s, i, c);
    forall k | 0 <= k < |s.producers| ensures ProducerHolds(Apply(s, i, c), Apply(s, i, c).producers[k]) {
      if k != i { CallKeepsOthers(first, s, i, c, k); }
    }
  }

  // ---------------------------------------------------------------------------------------------------
  // Interleavings
  // ---------------------------------------------------------------------------------------------------

  datatype Event = Event(producer: nat, call: Call)

  function After(s: System, run: seq<Event>): System {
    if run == [] then s
    else
      var e := run[|run| - 1];
      Apply(After(s, run[..|run| - 1]), e.producer, e.call)
  }

  ghost predicate Possible(s: System, run: seq<Event>) {
    run != [] ==>
      var e := run[|run| - 1];
      Possible(s, run[..|run| - 1]) && Enabled(After(s, run[..|run| - 1]), e.producer, e.call)
  }

  lemma {:induction false} InvAfter(s: System, run: seq<Event>)
    requires Fresh(s) && Possible(s, run)
    ensures Inv(s, After(s, run))
  {
    if run == [] {
      FreshSatisfies(s);
    } else {
      InvAfter(s, run[..|run| - 1]);
      var e := run[|run| - 1];
      CallKeepsInv(s, After(s, run[..|run| - 1]), e.producer, e.call);
    }
  }

  /** At every instant of every interleaving the output is absent as at first, is what it first was, or is whole. */
  lemma OutputIsNeverPartial(s: System, run: seq<Event>)
    requires Fresh(s) && Possible(s, run)
    ensures
      var t := After(s, run);
      if Output !in t.names then Output !in s.names
      else
        && t.names[Output] in t.nodes
        && (|| (Output in s.names && t.names[Output] == s.names[Output] && t.nodes[t.names[Output]] == s.nodes[s.names[Output]])
            || exists k :: 0 <= k < |t.producers| && t.producers[k].published
                 && t.nodes[t.names[Output]] == Regular(t.producers[k].text))
  {
    InvAfter(s, run);
    var t := After(s, run);
    if Output in t.names && !(Output in s.names && t.names[Output] == s.names[Output]) {
      var k :| 0 <= k < |t.producers| && t.producers[k].published && t.producers[k].inode == t.names[Output];
      assert ProducerHolds(t, t.producers[k]);
    }
  }

  /** What a producer is still writing is never what the output name refers to. */
  lemma WriterIsNotTheOutput(first: System, s: System, i: nat)
    requires Fresh(first) && Inv(first, s) && i < |s.producers|
    requires HoldsTemp(s.producers[i]) && !s.producers[i].published && Output in s.names
    ensures s.names[Output] != s.producers[i].inode
  {
    forall k | 0 <= k < |s.producers| && s.producers[k].published ensures s.producers[k].inode != s.producers[i].inode {
      assert k != i;
    }
  }

  /**
   A producer that was not asked to replace never changes what an existing name refers to (its own temporary
   aside), nor what is behind the output.
   */
  lemma NoOverwriteNoChange(s: System, run: seq<Event>, i: nat, c: Call, n: Name)
    requires Fresh(s) && Possible(s, run) && Enabled(After(s, run), i, c)
    requires !After(s, run).producers[i].overwrite
    requires n in After(s, run).names
    requires HoldsTemp(After(s, run).producers[i]) ==> n != Temp(After(s, run).producers[i].suffix)
    ensures
      var t, u := After(s, run), Apply(After(s, run), i, c);
      && n in u.names && u.names[n] == t.names[n] && t.names[n] in t.nodes
      && (n.Output? ==> t.names[n] in u.nodes && u.nodes[t.names[n]] == t.nodes[t.names[n]])
  {
    hide Inv, After, Possible, Fresh;
    InvAfter(s, run);
    var t := After(s, run);
    PublishedMeans(s, t, i, c);
    var p := t.producers[i];
    if n.Output? && c.WriteSome? {
      WriterIsNotTheOutput(s, t, i);
    }
  }

  /** Of producers that may not replace, at most one ever publishes, and none does over an existing output. */
  lemma AtMostOneNonOverwritingWinner(s: System, run: seq<Event>, i: nat, k: nat)
    requires Fresh(s) && Possible(s, run)
    requires i < |After(s, run).producers| && k < |After(s, run).producers|
    requires
      var t := After(s, run);
      t.producers[i].pc.Succeeded? && !t.producers[i].overwrite && t.producers[k].pc.Succeeded? && !t.producers[k].overwrite
    ensures i == k && Output !in s.names
  {
    InvAfter(s, run);
    var t := After(s, run);
    assert ProducerHolds(t, t.producers[i]) && ProducerHolds(t, t.producers[k]);
  }

  /** The call that publishes puts the whole of the caller's own text at the output name. */
  lemma PublishingInstallsOwnText(s: System, run: seq<Event>, i: nat, c: Call)
    requires Fresh(s) && Possible(s, run) && Enabled(After(s, run), i, c)
    requires !After(s, run).producers[i].published && Apply(After(s, run), i, c).producers[i].published
    ensures
      var t := Apply(After(s, run), i, c);
      Output in t.names && t.names[Output] in t.nodes && t.nodes[t.names[Output]] == Regular(t.producers[i].text)
  {
    hide Inv, After, Possible, Fresh, Enabled;
    InvAfter(s, run);
    PublishedMeans(s, After(s, run), i, c);
    PublishedStays(After(s, run), i, c);
    CallKeepsInv(s, After(s, run), i, c);
    ProducersHold(s, Apply(After(s, run), i, c), i);
  }

  // ---------------------------------------------------------------------------------------------------
  // A run in which nothing fails
  // ---------------------------------------------------------------------------------------------------

  /** Nothing stands in the way of publishing: the output is free, or a regular file that may be replaced. */
  predicate CanPublish(s: System, overwrite: bool) {
    Output !in s.names || (overwrite && s.names[Output] in s.nodes && s.nodes[s.names[Output]].Regular?)
  }

  /** The system answers the call with a failure. A temporary that cannot be unlinked fails nothing. */
  predicate Fails(c: Call) {
    match c
    case Lstat(ok) => !ok
    case OpenExclusive(_, _, ok) => !ok
    case WriteSome(_, ok) => !ok
    case FlushAndChmod(ok) => !ok
    case Link(ok) => !ok
    case Rename(result) => !result.Renamed?
    case UnlinkTemp(_) => false
    case Die => true
  }

  /** Any call that may be made may fail, and the process may die instead of making it. */
  lemma AnyCallMayFail(s: System, i: nat, c: Call)
    requires Enabled(s, i, c)
    ensures Enabled(s, i, Die)
    ensures c.UnlinkTemp? || c.Die? || exists d :: Enabled(s, i, d) && Fails(d) && !d.Die?
  {
    var d := match c
      case Lstat(_) => Lstat(false)
      case OpenExclusive(suffix, inode, _) => OpenExclusive(suffix, inode, false)
      case WriteSome(count, _) => WriteSome(count, false)
      case FlushAndChmod(_) => FlushAndChmod(false)
      case Link(_) => Link(false)
      case Rename(_) => Rename(OtherCode)
      case _ => c;
    assert c.UnlinkTemp? || c.Die? || (Enabled(s, i, d) && Fails(d) && !d.Die?);
  }

  /** The call does what it was made for: no failure, no leftover, and no file under the name it creates. */
  predicate GoesWell(s: System, c: Call) {
    && !Fails(c)
    && (c.UnlinkTemp? ==> c.ok)
    && (c.OpenExclusive? ==> Temp(c.suffix) !in s.names)
  }

  ghost predicate AllGoWell(s: System, run: seq<Event>) {
    forall k :: 0 <= k < |run| ==> GoesWell(After(s, run[..k]), run[k].call)
  }

  /** The temporary of the only producer is there beside what was there at first, holding `content`. */
  ghost predicate WithTemp(first: System, s: System, p: Producer, content: string) {
    && Temp(p.suffix) !in first.names && p.inode !in first.nodes
    && s.names == first.names[Temp(p.suffix) := p.inode]
    && s.nodes == first.nodes[p.inode := Regular(content)]
  }

  /** Where the only producer of a folder is, and what the folder is, while nothing fails. */
  ghost predicate GoingWell(first: System, s: System) {
    && |s.producers| == |first.producers| == 1
    && var p, q := s.producers[0], first.producers[0];
    && p.text == q.text && p.overwrite == q.overwrite
    && (p.pc.Starting? || p.pc.Refused? || p.pc.Opening? ==> s.names == first.names && s.nodes == first.nodes)
    && (!p.pc.Starting? ==> (p.pc.Refused? <==> !CanPublish(first, q.overwrite)))
    && (!p.pc.Starting? && !p.pc.Refused? ==> (p.existed <==> Output in first.names))
    && match p.pc
       case Writing(w) => w <= |p.text| && WithTemp(first, s, p, p.text[..w])
       case Publishing(_) => WithTemp(first, s, p, p.text)
       case CleaningUp(success) =>
         && success && !p.overwrite
         && WithTemp(first, s.(names := s.names - {Output}), p, p.text) && s.names[Output := p.inode] == s.names
       case Succeeded => s.names == first.names[Output := p.inode] && s.nodes == first.nodes[p.inode := Regular(p.text)]
       case Crashed => false
       case _ => true
  }

  lemma WritingGoesWell(first: System, s: System, c: Call)
    requires GoingWell(first, s) && Enabled(s, 0, c) && GoesWell(s, c) && s.producers[0].pc.Writing?
    ensures GoingWell(first, Apply(s, 0, c))
  {
    var p := s.producers[0];
    var w := p.pc.written;
    if c.WriteSome? {
      assert p.text[..w] + p.text[w..w + c.count] == p.text[..w + c.count];
    } else {
      assert p.text[..w] == p.text;
    }
  }

  lemma PublishingGoesWell(first: System, s: System, c: Call)
    requires GoingWell(first, s) && Enabled(s, 0, c) && GoesWell(s, c) && s.producers[0].pc.Publishing?
    ensures GoingWell(first, Apply(s, 0, c))
  {
    var p, t := s.producers[0], Apply(s, 0, c);
    if c.Link? {
      assert t.names - {Output} == s.names;
    } else {
      assert s.names - {Temp(p.suffix)} == first.names;
    }
  }

  lemma CleaningGoesWell(first: System, s: System, c: Call)
    requires GoingWell(first, s) && Enabled(s, 0, c) && GoesWell(s, c) && s.producers[0].pc.CleaningUp?
    ensures GoingWell(first, Apply(s, 0, c))
  {
    var p, t := s.producers[0], Apply(s, 0, c);
    assert t.names == (s.names - {Output} - {Temp(p.suffix)})[Output := p.inode];
    assert s.names - {Output} - {Temp(p.suffix)} == first.names;
  }

  lemma StartingGoesWell(first: System, s: System, c: Call)
    requires GoingWell(first, s) && Enabled(s, 0, c) && GoesWell(s, c)
    requires s.producers[0].pc.Starting? || s.producers[0].pc.Opening?
    ensures GoingWell(first, Apply(s, 0, c))
  {
  }

  lemma StepGoesWell(first: System, s: System, c: Call)
    requires GoingWell(first, s) && Enabled(s, 0, c) && GoesWell(s, c)
    ensures GoingWell(first, Apply(s, 0, c))
  {
    hide GoingWell, Apply, GoesWell;
    match s.producers[0].pc
    case Writing(_) => WritingGoesWell(first, s, c);
    case Publishing(_) => PublishingGoesWell(first, s, c);
    case CleaningUp(_) => CleaningGoesWell(first, s, c);
    case Starting | Opening => StartingGoesWell(first, s, c);
    case _ =>
  }

  lemma {:induction false} RunGoesWell(s: System, run: seq<Event>)
    requires Fresh(s) && |s.producers| == 1 && Possible(s, run) && AllGoWell(s, run)
    ensures GoingWell(s, After(s, run))
  {
    if run != [] {
      hide GoingWell, GoesWell, Enabled;
      var before := run[..|run| - 1];
      assert forall k :: 0 <= k < |before| ==> before[..k] == run[..k];
      RunGoesWell(s, before);
      StepGoesWell(s, After(s, before), run[|run| - 1].call);
    }
  }

  /**
   When no call fails, whether a producer publishes is decided by the folder it starts in: it ends with the whole
   of its text at the output name and nothing else changed exactly when the name was free, or was a regular file
   it was asked to replace; otherwise it refuses and the folder is as it was.
   */
  lemma PublishesExactlyWhenItCan(s: System, run: seq<Event>)
    requires Fresh(s) && |s.producers| == 1 && Possible(s, run) && AllGoWell(s, run)
    requires After(s, run).producers[0].pc.Succeeded? || After(s, run).producers[0].pc.Refused?
    ensures
      var t := After(s, run);
      var p := t.producers[0];
      if CanPublish(s, s.producers[0].overwrite) then
        && p.pc.Succeeded? && (p.existed <==> Output in s.names)
        && t.names == s.names[Output := p.inode] && t.nodes == s.nodes[p.inode := Regular(s.producers[0].text)]
      else
        p.pc.Refused? && t.names == s.names && t.nodes == s.nodes
  {
    hide After, Possible;
    RunGoesWell(s, run);
  }

  /** One more call of the only producer, which goes well. */
  lemma OneMore(s: System, run: seq<Event>, at: System, c: Call) returns (longer: seq<Event>, next: System)
    requires Possible(s, run) && AllGoWell(s, run) && at == After(s, run) && Enabled(at, 0, c) && GoesWell(at, c)
    ensures Possible(s, longer) && AllGoWell(s, longer) && next == After(s, longer) == Apply(at, 0, c)
  {
    hide Enabled, GoesWell, Apply;
    longer, next := run + [Event(0, c)], Apply(at, 0, c);
    assert longer[..|run|] == run;
    forall k | 0 <= k < |longer| ensures GoesWell(After(s, longer[..k]), longer[k].call) {
      assert longer[..k] == run[..k];
    }
  }

  lemma {:induction false} Unused(used: set<nat>) returns (bound: nat)
    ensures forall n :: n in used ==> n < bound
  {
    bound := 0;
    if used != {} {
      var n :| n in used;
      bound := Unused(used - {n});
      assert forall m :: m in used ==> m == n || m in used - {n};
      if bound <= n { bound := n + 1; }
    }
  }

  /** A random suffix nobody uses, and an inode the file system has not given out. */
  lemma SomethingIsUnused(s: System) returns (suffix: nat, inode: Inode)
    ensures Temp(suffix) !in s.names && inode !in s.nodes
  {
    var suffixes := set n | n in s.names && n.Temp? :: n.suffix;
    suffix := Unused(suffixes);
    inode := Unused(s.nodes.Keys);
    assert suffix !in suffixes && inode !in s.nodes.Keys;
  }

  /** With its text written and flushed, two calls more are enough. */
  lemma PublishingEnds(s: System, before: seq<Event>, was: System) returns (run: seq<Event>)
    requires Possible(s, before) && AllGoWell(s, before) && was == After(s, before)
    requires |was.producers| == 1 && was.producers[0].pc.Publishing?
    requires was.producers[0].overwrite ==> CanPublish(was, true)
    ensures Possible(s, run) && AllGoWell(s, run) && |After(s, run).producers| == 1
    ensures After(s, run).producers[0].pc.Succeeded? || After(s, run).producers[0].pc.Refused?
  {
    hide After, Possible, AllGoWell;
    var at := was;
    if was.producers[0].overwrite {
      run, at := OneMore(s, before, at, Rename(Renamed));
    } else {
      run, at := OneMore(s, before, at, Link(true));
      run, at := OneMore(s, run, at, UnlinkTemp(true));
    }
  }

  /** And some run in which no call fails does end, whatever the folder holds and whatever there is to write. */
  lemma SomeRunEnds(s: System) returns (run: seq<Event>)
    requires Fresh(s) && |s.producers| == 1
    ensures Possible(s, run) && AllGoWell(s, run) && |After(s, run).producers| == 1
    ensures After(s, run).producers[0].pc.Succeeded? || After(s, run).producers[0].pc.Refused?
  {
    hide After, Possible, AllGoWell, GoingWell;
    assert Possible(s, []) && AllGoWell(s, []) && After(s, []) == s by { NothingYet(s); }
    var at;
    run, at := OneMore(s, [], s, Lstat(true));
    if at.producers[0].pc.Refused? { return; }
    var suffix, inode := SomethingIsUnused(at);
    run, at := OneMore(s, run, at, OpenExclusive(suffix, inode, true));
    var length := |s.producers[0].text|;
    if length > 0 { run, at := OneMore(s, run, at, WriteSome(length, true)); }
    run, at := OneMore(s, run, at, FlushAndChmod(true));
    run := PublishingEnds(s, run, at);
  }

  lemma NothingYet(s: System)
    ensures Possible(s, []) && AllGoWell(s, []) && After(s, []) == s
  {
  }

  // ---------------------------------------------------------------------------------------------------
  // Why a producer refuses
  // ---------------------------------------------------------------------------------------------------

  /**
   Call `k` of a run turned producer `i` away: the system failed it, the name of its temporary was taken, another
   producer published first, or what was at the output when it looked may not be replaced.
   */
  ghost predicate TurnedAway(s: System, run: seq<Event>, i: nat, k: nat) {
    && k < |run| && run[k].producer == i < |s.producers|
    && var t, c := After(s, run[..k]), run[k].call;
    && |t.producers| == |s.producers|
    && (|| Fails(c)
        || (c.OpenExclusive? && Temp(c.suffix) in t.names)
        || (c.Link? && exists j :: 0 <= j < |t.producers| && j != i && t.producers[j].published)
        || (c.Lstat? && !CanPublish(t, s.producers[i].overwrite)))
  }

  /** On the way to publishing without replacing, a producer has seen the name free. */
  ghost predicate SawItFree(first: System, s: System) {
    && |s.producers| == |first.producers|
    && forall i :: 0 <= i < |s.producers| ==>
         && s.producers[i].overwrite == first.producers[i].overwrite
         && (Output in first.names && !s.producers[i].overwrite ==>
               s.producers[i].pc in {Starting, Refused, Crashed})
  }

  lemma StepSeesItFree(first: System, s: System, i: nat, c: Call)
    requires Inv(first, s) && SawItFree(first, s) && Enabled(s, i, c)
    ensures SawItFree(first, Apply(s, i, c))
  {
  }

  lemma {:induction false} AllSeeItFree(s: System, run: seq<Event>)
    requires Fresh(s) && Possible(s, run)
    ensures SawItFree(s, After(s, run))
  {
    if run != [] {
      hide Inv, SawItFree, Enabled, Apply;
      var before, e := run[..|run| - 1], run[|run| - 1];
      AllSeeItFree(s, before);
      InvAfter(s, before);
      StepSeesItFree(s, After(s, before), e.producer, e.call);
    } else {
      assert forall i :: 0 <= i < |s.producers| ==> s.producers[i].pc == Starting;
    }
  }

  /** The call after which a producer is on its way out is the one that turned it away. */
  lemma LastCallTurnsAway(s: System, run: seq<Event>, i: nat)
    requires Fresh(s) && run != [] && Possible(s, run) && i < |s.producers|
    requires
      var before, e := After(s, run[..|run| - 1]), run[|run| - 1];
      && e.producer == i
      && !GivenUp(before, i) && GivenUp(After(s, run), i)
    ensures TurnedAway(s, run, i, |run| - 1)
  {
    hide After, Possible, Fresh;
    var before, e := After(s, run[..|run| - 1]), run[|run| - 1];
    assert Possible(s, run[..|run| - 1]) && Enabled(before, i, e.call) && After(s, run) == Apply(before, i, e.call) by {
      LastCall(s, run);
    }
    InvAfter(s, run[..|run| - 1]);
    AllSeeItFree(s, run[..|run| - 1]);
    ProducersHold(s, before, i);
    PublishedMeans(s, before, i, e.call);
    if e.call.Link? && e.call.ok {
      assert Output !in s.names;
    }
  }

  lemma LastCall(s: System, run: seq<Event>)
    requires run != [] && Possible(s, run)
    ensures
      var before, e := run[..|run| - 1], run[|run| - 1];
      && Possible(s, before) && Enabled(After(s, before), e.producer, e.call)
      && e.producer < |After(s, before).producers|
      && After(s, run) == Apply(After(s, before), e.producer, e.call)
  {
  }

  /** The producer has refused, or is only cleaning up before it does. */
  ghost predicate GivenUp(s: System, i: nat) {
    i < |s.producers| && (s.producers[i].pc.Refused? || s.producers[i].pc == CleaningUp(false))
  }

  /** However many producers there are, none refuses without a cause. */
  lemma {:induction false} RefusedHasACause(s: System, run: seq<Event>, i: nat)
    requires Fresh(s) && Possible(s, run) && i < |s.producers| && GivenUp(After(s, run), i)
    ensures exists k :: 0 <= k < |run| && TurnedAway(s, run, i, k)
  {
    if run == [] {
      assert false;
    } else {
      hide Fresh, TurnedAway, Enabled, Inv;
      var before, last := run[..|run| - 1], |run| - 1;
      LastCall(s, run);
      if GivenUp(After(s, before), i) {
        RefusedHasACause(s, before, i);
        var k :| 0 <= k < |before| && TurnedAway(s, before, i, k);
        assert TurnedAway(s, run, i, k) by { SameStart(s, run, i, k); }
      } else {
        InvAfter(s, before);
        if run[last].producer != i { assert false; }
        LastCallTurnsAway(s, run, i);
      }
    }
  }

  lemma SameStart(s: System, run: seq<Event>, i: nat, k: nat)
    requires k < |run| - 1
    ensures TurnedAway(s, run, i, k) <==> TurnedAway(s, run[..|run| - 1], i, k)
  {
    assert run[..|run| - 1][..k] == run[..k];
  }

  // ---------------------------------------------------------------------------------------------------
  // The loops of one producer
  // ---------------------------------------------------------------------------------------------------

  /** Write a buffer however little each call takes of it. */
  method WriteAll(buffer: string, taken: nat -> nat) returns (content: string, calls: nat)
    requires forall k :: 0 < taken(k)
    ensures content == buffer && calls <= |buffer|
  {
    content, calls := "", 0;
    var written := 0;
    while written < |buffer|
      invariant written <= |buffer| && content == buffer[..written] && calls <= written
    {
      var n := if taken(calls) < |buffer| - written then taken(calls) else |buffer| - written;
      content := content + buffer[written..written + n];
      written, calls := written + n, calls + 1;
    }
  }

  /** The attempt is repeated: a transient code, on the one platform that has them, within the budget. */
  predicate Repeats(windows: bool, answers: nat -> RenameResult, attempt: nat) {
    windows && answers(attempt).TransientCode? && attempt < REPLACE_ATTEMPTS
  }

  /**
   A replacing rename. Off Windows it is tried exactly once; there it is tried again after each transient
   code, and it succeeds exactly when the first answer that is not repeated is a success.
   */
  method ReplaceWithRetry(windows: bool, answers: nat -> RenameResult) returns (ok: bool, attempts: nat)
    ensures 1 <= attempts <= 150 && (!windows ==> attempts == 1)
    ensures windows && (forall k :: answers(k).TransientCode?) ==> attempts == 150
    ensures ok == answers(attempts).Renamed? && !Repeats(windows, answers, attempts)
    ensures forall k :: 1 <= k < attempts ==> Repeats(windows, answers, k)
  {
    attempts := 1;
    while Repeats(windows, answers, attempts)
      invariant 1 <= attempts <= REPLACE_ATTEMPTS && (!windows ==> attempts == 1)
      invariant forall k :: 1 <= k < attempts ==> Repeats(windows, answers, k)
      decreases REPLACE_ATTEMPTS - attempts
    {
      attempts := attempts + 1;
    }
    ok := answers(attempts).Renamed?;
  }

  /** One call of that loop is one rename of the producer: it tries again exactly when the loop does. */
  lemma RetriesAsTheLoopDoes(s: System, p: Producer, answers: nat -> RenameResult, attempt: nat)
    requires p.overwrite && p.pc == Publishing(attempt)
    ensures
      var q := NextProducer(s, p, Rename(answers(attempt)));
      && (q.pc == Publishing(attempt + 1) <==> Repeats(p.windows, answers, attempt))
      && (q.pc == Succeeded <==> answers(attempt).Renamed?)
      && (q.pc == CleaningUp(false) <==> !answers(attempt).Renamed? && !Repeats(p.windows, answers, attempt))
  {
  }
}
