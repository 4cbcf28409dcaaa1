/**
 The hot-reload protocol: publishers, one bounded channel and the consumer loop, as a step system.

 The consumer's program counter names the points between its atomic actions, so publishers may act
 between any two of them: before and after the comparison with the center, between that comparison
 and the second read of the active pair, while a reload runs, and before its outcome is recorded.
 A publication is two steps, as in the program: the store hands out the next revision (Append), and
 later the active pair is swapped and the event offered to the channel (Swap).
 */
module HotReload {
  import opened ApplyRegistry
  import opened Center
  import opened Options
  import opened Sequences
  import opened Sets

  /** Which receive path asked for a reload. */
  datatype Origin = FromCatchUp | FromSelect | FromDrain

  datatype Pc =
    | CheckMissed                                     // head of the catch-up loop
    | ReadCurrent                                     // found to be behind, about to read the active pair
    | Reloading(origin: Origin, ev: RevEvent)
    | Reporting(origin: Origin, ev: RevEvent, ok: bool)
    | Select                                          // the main select, waiting for an event
    | Draining

  /** One call of the data plane's Reload. */
  datatype ReloadCall = ReloadCall(ev: RevEvent, ok: bool)

  datatype State = State(
    history: map<int, Config>,     // the revision store
    pending: set<int>,             // appended, not yet swapped in
    current: Option<RevEvent>,     // the center's active pair
    queue: seq<RevEvent>,          // the subscribe channel
    running: int,                  // the revision the data plane reports
    results: Registry,             // apply outcomes per revision
    calls: seq<ReloadCall>,        // every reload so far
    pc: Pc)

  datatype Step =
    | Append(rev: int, config: Config)
    | Swap(rev: int)
    | Compare
    | Read
    | Receive
    | DrainReceive
    | DrainEmpty
    | ReloadReturns(ok: bool)
    | RecordOutcome

  predicate Missed(s: State) {
    s.current.Some? && s.running < s.current.value.rev
  }

  ghost predicate Enabled(s: State, step: Step) {
    match step
    case Append(rev, _) => 0 < rev && forall r :: r in s.history ==> r < rev
    case Swap(rev) => rev in s.pending && rev in s.history
    case Compare => s.pc.CheckMissed?
    case Read => s.pc.ReadCurrent?
    case Receive => s.pc.Select? && s.queue != []
    case DrainReceive => s.pc.Draining? && s.queue != []
    case DrainEmpty => s.pc.Draining? && s.queue == []
    case ReloadReturns(_) => s.pc.Reloading?
    case RecordOutcome => s.pc.Reporting?
  }

  /** Success sets the running revision to the applied one; failure leaves it. */
  ghost function Do(s: State, step: Step): State
    requires Enabled(s, step)
  {
    match step
    case Append(rev, config) =>
      s.(history := s.history[rev := config], pending := s.pending + {rev})
    case Swap(rev) =>
      var ev := RevEvent(rev, s.history[rev]);
      s.(pending := s.pending - {rev}, current := Some(ev), queue := Offer(s.queue, ev))
    case Compare =>
      s.(pc := if Missed(s) then ReadCurrent else Select)
    case Read =>
      s.(pc := if s.current.Some? then Reloading(FromCatchUp, s.current.value) else Select)
    case Receive =>
      var ev := s.queue[0];
      s.(queue := s.queue[1..], pc := if ev.rev <= s.running then CheckMissed else Reloading(FromSelect, ev))
    case DrainReceive =>
      var ev := s.queue[0];
      s.(queue := s.queue[1..], pc := if ev.rev <= s.running then Draining else Reloading(FromDrain, ev))
    case DrainEmpty =>
      s.(pc := CheckMissed)
    case ReloadReturns(ok) =>
      s.(running := if ok then s.pc.ev.rev else s.running,
         calls := s.calls + [ReloadCall(s.pc.ev, ok)],
         pc := Reporting(s.pc.origin, s.pc.ev, ok))
    case RecordOutcome =>
      s.(results := Record(s.results, ReportOf(ReloadCall(s.pc.ev, s.pc.ok))), pc := AfterReport(s.pc))
  }

  function ReportOf(call: ReloadCall): Report {
    Report(call.ev.rev, if call.ok then Applied else Failed("reload"))
  }

  function AfterReport(pc: Pc): Pc
    requires pc.Reporting?
  {
    match pc.origin
    case FromCatchUp => if pc.ok then CheckMissed else Select
    case FromSelect => if pc.ok then Draining else CheckMissed
    case FromDrain => if pc.ok then Draining else CheckMissed
  }

  /** steps lead from s to t. */
  ghost predicate Run(s: State, steps: seq<Step>, t: State)
    decreases |steps|
  {
    if steps == [] then s == t
    else Enabled(s, steps[0]) && Run(Do(s, steps[0]), steps[1..], t)
  }

  /** The consumer has just subscribed; the data plane runs some revision of its own. */
  ghost predicate Init(s: State) {
    && s.pc == CheckMissed && s.queue == [] && s.results == map[] && s.calls == []
    && s.pending <= s.history.Keys
    && (forall r :: r in s.history ==> 0 < r)
    && (s.current.Some? ==> Stored(s, s.current.value) && s.current.value.rev !in s.pending)
    && (s.current.None? ==> s.history.Keys == s.pending)
  }

  /** The event is the stored snapshot of its revision. */
  ghost predicate Stored(s: State, ev: RevEvent) {
    ev.rev in s.history && s.history[ev.rev] == ev.config
  }

  function Reported(s: State): seq<ReloadCall> {
    if s.pc.Reporting? && s.calls != [] then s.calls[..|s.calls| - 1] else s.calls
  }

  function Reports(calls: seq<ReloadCall>): seq<Report> {
    seq(|calls|, i requires 0 <= i < |calls| => ReportOf(calls[i]))
  }

  // --- Pairing: holds however publishers interleave -------------------------------------------

  /** Snapshots travel with their revision. */
  ghost predicate Snapshots(s: State) {
    && (forall r :: r in s.history ==> 0 < r)
    && s.pending <= s.history.Keys
    && (s.current.Some? ==> Stored(s, s.current.value))
    && |s.queue| <= SUBSCRIBE_BUFFER
    && (forall i :: 0 <= i < |s.queue| ==> Stored(s, s.queue[i]))
    && (forall i :: 0 <= i < |s.calls| ==> Stored(s, s.calls[i].ev))
    && (s.pc.Reloading? || s.pc.Reporting? ==> Stored(s, s.pc.ev))
  }

  /** The registry is exactly what the reloads call for. */
  ghost predicate Outcomes(s: State) {
    && (s.pc.Reporting? ==> s.calls != [] && s.calls[|s.calls| - 1] == ReloadCall(s.pc.ev, s.pc.ok))
    && RegistryOf(Reports(Reported(s)), s.results)
  }

  ghost predicate Paired(s: State) {
    Snapshots(s) && Outcomes(s)
  }

  lemma InitPaired(s: State)
    requires Init(s)
    ensures Paired(s)
  {
  }

  lemma StepKeepsPaired(s: State, step: Step)
    requires Paired(s) && Enabled(s, step)
    ensures Paired(Do(s, step))
  {
    StepKeepsSnapshots(s, step);
    StepKeepsOutcomes(s, step);
  }

  lemma StepKeepsSnapshots(s: State, step: Step)
    requires Snapshots(s) && Enabled(s, step)
    ensures Snapshots(Do(s, step))
  {
  }

  lemma StepKeepsOutcomes(s: State, step: Step)
    requires Outcomes(s) && Enabled(s, step)
    ensures Outcomes(Do(s, step))
  {
    if step.RecordOutcome? {
      RecordingKeepsRegistry(s);
      assert Reported(Do(s, step)) == s.calls;
    } else {
      OthersReportNothing(s, step);
    }
  }

  lemma RecordingKeepsRegistry(s: State)
    requires Outcomes(s) && s.pc.Reporting?
    ensures RegistryOf(Reports(s.calls), Record(s.results, ReportOf(ReloadCall(s.pc.ev, s.pc.ok))))
  {
    var call := ReloadCall(s.pc.ev, s.pc.ok);
    assert s.calls == Reported(s) + [call];
    assert Reports(s.calls) == Reports(Reported(s)) + [ReportOf(call)];
    RecordKeepsRegistry(Reports(Reported(s)), s.results, ReportOf(call));
  }

  lemma OthersReportNothing(s: State, step: Step)
    requires Enabled(s, step) && !step.RecordOutcome? && (s.pc.Reporting? ==> s.calls != [])
    ensures Reported(Do(s, step)) == Reported(s) && Do(s, step).results == s.results
  {
  }

  lemma {:induction false} RunKeepsPaired(s: State, steps: seq<Step>, t: State)
    requires Paired(s) && Run(s, steps, t)
    ensures Paired(t)
    ensures s.history.Keys <= t.history.Keys && forall r :: r in s.history ==> t.history[r] == s.history[r]
    decreases |steps|
  {
    if steps != [] {
      StepKeepsPaired(s, steps[0]);
      RunKeepsPaired(Do(s, steps[0]), steps[1..], t);
    }
  }

  /**
   Main result on pairing: over every run, however publishers race, every reload used exactly the
   configuration stored for its revision, and a recorded outcome is that of the last reload
   reported for that same revision.
   */
  lemma ReloadsArePaired(s: State, steps: seq<Step>, t: State)
    requires Init(s) && Run(s, steps, t)
    ensures forall i :: 0 <= i < |t.calls| ==> Stored(t, t.calls[i].ev)
    ensures forall rev :: rev in t.results ==> exists i ::
      && 0 <= i < |Reported(t)| && t.calls[i].ev.rev == rev
      && (t.calls[i].ok <==> t.results[rev] == Applied)
      && forall j :: i < j < |Reported(t)| ==> t.calls[j].ev.rev != rev
  {
    InitPaired(s);
    RunKeepsPaired(s, steps, t);
    var reports := Reports(Reported(t));
    forall rev | rev in t.results
      ensures exists i ::
        && 0 <= i < |Reported(t)| && t.calls[i].ev.rev == rev
        && (t.calls[i].ok <==> t.results[rev] == Applied)
        && forall j :: i < j < |Reported(t)| ==> t.calls[j].ev.rev != rev
    {
      PollReadsOwnOutcome(reports, t.results, rev);
      var i :| IsLatestReport(reports, i, rev, t.results[rev]);
      assert reports[i] == ReportOf(t.calls[i]) && Stored(t, t.calls[i].ev);
      assert forall j :: i < j < |Reported(t)| ==> reports[j] == ReportOf(t.calls[j]);
    }
  }

  // --- Convergence: holds however publishers interleave ----------------------------------------

  /** The data plane has caught up, or the last reload was one of the center's revision, and failed. */
  ghost predicate AtRest(s: State) {
    s.current.Some? ==>
      || s.running >= s.current.value.rev
      || (s.calls != [] && s.calls[|s.calls| - 1] == ReloadCall(s.current.value, false))
  }

  /** What the consumer still has to do before it may rest. */
  ghost predicate Convergent(s: State) {
    match s.pc
    case Select => s.queue != [] || AtRest(s)
    case Reloading(origin, ev) => origin.FromCatchUp? ==> s.queue != [] || s.current == Some(ev)
    case Reporting(origin, ev, ok) => origin.FromCatchUp? && !ok ==> s.queue != [] || s.current == Some(ev)
    case _ => true
  }

  lemma StepKeepsConvergent(s: State, step: Step)
    requires Outcomes(s) && Convergent(s) && Enabled(s, step)
    ensures Convergent(Do(s, step))
  {
  }

  lemma {:induction false} RunKeepsConvergent(s: State, steps: seq<Step>, t: State)
    requires Paired(s) && Convergent(s) && Run(s, steps, t)
    ensures Convergent(t)
    decreases |steps|
  {
    if steps != [] {
      StepKeepsPaired(s, steps[0]);
      StepKeepsConvergent(s, steps[0]);
      RunKeepsConvergent(Do(s, steps[0]), steps[1..], t);
    }
  }

  /** The registry holds the failure of a revision, or 64 greater revisions have pushed it out. */
  ghost predicate FailureOnRecord(results: Registry, rev: int) {
    || (rev in results && results[rev].Failed?)
    || Outranked(results, rev)
  }

  /**
   Main result on convergence: over every run, however publishers race and whatever was dropped,
   skipped or failed, a consumer resting at its select with an empty channel has caught up with the
   center, or its last reload was of the center's revision itself and failed; and that failure is on
   record.
   */
  lemma RestsConverged(s: State, steps: seq<Step>, t: State)
    requires Init(s) && Run(s, steps, t)
    requires t.pc == Select && t.queue == []
    ensures AtRest(t)
    ensures t.current.Some? && t.running < t.current.value.rev ==> FailureOnRecord(t.results, t.current.value.rev)
  {
    InitPaired(s);
    RunKeepsConvergent(s, steps, t);
    RunKeepsPaired(s, steps, t);
    if t.current.Some? && t.running < t.current.value.rev {
      LastReportOnRecord(t.calls, t.results);
    }
  }

  /** The outcome reported last is on record, or outranked. */
  lemma LastReportOnRecord(calls: seq<ReloadCall>, results: Registry)
    requires calls != [] && RegistryOf(Reports(calls), results) && !calls[|calls| - 1].ok
    ensures FailureOnRecord(results, calls[|calls| - 1].ev.rev)
  {
    var n := |calls| - 1;
    assert Reports(calls)[n] == ReportOf(calls[n]);
    assert Unbounded(Reports(calls))[calls[n].ev.rev] == Failed("reload");
    KeptOrOutranked(Reports(calls), results, calls[n].ev.rev);
  }

  // --- Liveness: the consumer comes to rest when publishers pause -------------------------------

  predicate IsConsumerStep(step: Step) {
    !step.Append? && !step.Swap?
  }

  ghost predicate ConsumerRun(s: State, steps: seq<Step>, t: State)
    decreases |steps|
  {
    if steps == [] then s == t
    else Enabled(s, steps[0]) && IsConsumerStep(steps[0]) && ConsumerRun(Do(s, steps[0]), steps[1..], t)
  }

  /** What is left to do, at most; ten steps for each queued event. */
  function Work(s: State): nat {
    10 * |s.queue| +
    match s.pc
    case Select => 0
    case CheckMissed => if Missed(s) then 5 else 1
    case ReadCurrent => 4
    case Draining => 6
    case Reloading(origin, ev) =>
      if !origin.FromCatchUp? then 8
      else if s.current.Some? && ev.rev < s.current.value.rev then 7
      else 3
    case Reporting(origin, ev, ok) =>
      if !origin.FromCatchUp? then 7
      else if !ok then 1
      else if Missed(s) then 6
      else 2
  }

  lemma StepDoesWork(s: State, step: Step)
    requires Enabled(s, step) && IsConsumerStep(step)
    ensures Work(Do(s, step)) < Work(s)
  {
  }

  /**
   Main result on liveness: from any state whatever, however the reloads end, the consumer alone can
   take at most ten steps for each queued event and ten more, and it can go on unless it waits at its
   select with an empty channel. So without publishers it always comes to rest there.
   */
  lemma {:induction false} ComesToRest(s: State, steps: seq<Step>, t: State)
    requires ConsumerRun(s, steps, t)
    ensures |steps| <= 10 * (|s.queue| + 1)
    ensures (forall step :: IsConsumerStep(step) ==> !Enabled(t, step)) <==> t.pc == Select && t.queue == []
  {
    RunDoesWork(s, steps, t);
    assert Enabled(t, Compare) || Enabled(t, Read) || Enabled(t, Receive) || Enabled(t, DrainReceive) ||
      Enabled(t, DrainEmpty) || Enabled(t, ReloadReturns(true)) || Enabled(t, RecordOutcome) ||
      (t.pc == Select && t.queue == []);
  }

  lemma {:induction false} RunDoesWork(s: State, steps: seq<Step>, t: State)
    requires ConsumerRun(s, steps, t)
    ensures |steps| + Work(t) <= Work(s)
    decreases |steps|
  {
    if steps != [] {
      StepDoesWork(s, steps[0]);
      RunDoesWork(Do(s, steps[0]), steps[1..], t);
    }
  }

  // --- Queued revisions are applied before a catch-up jumps ahead --------------------------------

  /** The queued revisions ascend, and all are newer than the running one. */
  ghost predicate AllFresh(s: State) {
    && (forall i :: 0 <= i < |s.queue| ==> s.running < s.queue[i].rev)
    && (forall i, j :: 0 <= i < j < |s.queue| ==> s.queue[i].rev < s.queue[j].rev)
  }

  function Successes(queue: seq<RevEvent>): seq<ReloadCall> {
    seq(|queue|, i requires 0 <= i < |queue| => ReloadCall(queue[i], true))
  }

  lemma {:induction false} CallsGrow(s: State, steps: seq<Step>, t: State)
    requires ConsumerRun(s, steps, t)
    ensures s.calls <= t.calls
    decreases |steps|
  {
    if steps != [] {
      CallsGrow(Do(s, steps[0]), steps[1..], t);
    }
  }

  /**
   Every queued revision gets its own reload, in order and before any catch-up: a consumer that finds
   only newer revisions in its channel, and whose reloads succeed, applies each of them on the way to
   its rest.
   */
  lemma {:induction false} QueuedAreApplied(s: State, steps: seq<Step>, t: State)
    requires ConsumerRun(s, steps, t) && t.pc == Select && t.queue == []
    requires s.pc == Select || s.pc == Draining
    requires AllFresh(s) && forall i :: |s.calls| <= i < |t.calls| ==> t.calls[i].ok
    ensures s.calls + Successes(s.queue) <= t.calls
    decreases |steps|
  {
    if s.queue == [] {
      CallsGrow(s, steps, t);
      assert s.calls + Successes(s.queue) == s.calls;
    } else {
      var u, rest := HeadIsApplied(s, steps, t);
      QueuedAreApplied(u, rest, t);
      assert Successes(s.queue) == [ReloadCall(s.queue[0], true)] + Successes(u.queue);
      Assoc(s.calls, [ReloadCall(s.queue[0], true)], Successes(u.queue));
    }
  }

  /** Receiving a newer event, reloading it and recording the outcome. */
  lemma HeadIsApplied(s: State, steps: seq<Step>, t: State) returns (u: State, rest: seq<Step>)
    requires ConsumerRun(s, steps, t) && t.pc == Select && t.queue == []
    requires s.pc == Select || s.pc == Draining
    requires s.queue != [] && s.running < s.queue[0].rev
    requires forall i :: |s.calls| <= i < |t.calls| ==> t.calls[i].ok
    ensures ConsumerRun(u, rest, t) && |rest| < |steps|
    ensures u.pc == Draining && u.queue == s.queue[1..] && u.running == s.queue[0].rev
    ensures u.calls == s.calls + [ReloadCall(s.queue[0], true)]
  {
    var s1 := Do(s, steps[0]);
    var s2, rest2 := ReloadIsReported(s1, steps[1..], t);
    u, rest := Do(s2, rest2[0]), rest2[1..];
  }

  lemma ReloadIsReported(s: State, steps: seq<Step>, t: State) returns (u: State, rest: seq<Step>)
    requires ConsumerRun(s, steps, t) && !t.pc.Reloading? && s.pc.Reloading?
    requires forall i :: |s.calls| <= i < |t.calls| ==> t.calls[i].ok
    ensures ConsumerRun(u, rest, t) && |rest| < |steps|
    ensures u == Do(s, ReloadReturns(true))
  {
    u, rest := Do(s, steps[0]), steps[1..];
    CallsGrow(u, rest, t);
    assert u.calls[|s.calls|] == t.calls[|s.calls|];
  }

  /** A failed reload of an event, and an event that is out of date, make the consumer look at the center at once. */
  lemma TurnsToCatchUp(s: State, steps: seq<Step>, t: State)
    requires ConsumerRun(s, steps, t) && |steps| == 3 && Missed(s)
    requires
      || (s.pc.Reporting? && !s.pc.ok && !s.pc.origin.FromCatchUp?)
      || (s.pc.Select? && s.queue != [] && s.queue[0].rev <= s.running)
    ensures t.pc == Reloading(FromCatchUp, s.current.value)
  {
    CatchUpAsks(Do(s, steps[0]), steps[1..], t);
  }

  lemma CatchUpAsks(s: State, steps: seq<Step>, t: State)
    requires ConsumerRun(s, steps, t) && |steps| == 2 && Missed(s) && s.pc.CheckMissed?
    ensures t.pc == Reloading(FromCatchUp, s.current.value)
  {
    AsksCenter(Do(s, steps[0]), steps[1..], t);
  }

  lemma AsksCenter(s: State, steps: seq<Step>, t: State)
    requires ConsumerRun(s, steps, t) && |steps| == 1 && s.current.Some? && s.pc.ReadCurrent?
    ensures t.pc == Reloading(FromCatchUp, s.current.value)
  {
    assert t == Do(s, steps[0]);
  }

  // --- No rollback: the swaps that are harmless ------------------------------------------------

  /**
   Swapping in this revision comes between a catch-up's comparison and its read, and the data plane
   already runs a newer one.
   */
  predicate Harmful(s: State, rev: int) {
    s.pc.ReadCurrent? && rev < s.running
  }

  predicate Harmless(s: State, step: Step) {
    step.Swap? ==> !Harmful(s, step.rev)
  }

  /** A run in which publishers do no harmful swap, in whatever order they swap. */
  ghost predicate HarmlessRun(s: State, steps: seq<Step>, t: State)
    decreases |steps|
  {
    if steps == [] then s == t
    else Enabled(s, steps[0]) && Harmless(s, steps[0]) && HarmlessRun(Do(s, steps[0]), steps[1..], t)
  }

  /** What is about to be reloaded is not older than what runs. */
  ghost predicate Guarded(s: State) {
    && (s.pc.ReadCurrent? ==> s.current.Some? && s.running <= s.current.value.rev)
    && (s.pc.Reloading? ==> s.running <= s.pc.ev.rev)
  }

  lemma StepKeepsGuarded(s: State, step: Step)
    requires Guarded(s) && Enabled(s, step) && Harmless(s, step)
    ensures Guarded(Do(s, step)) && s.running <= Do(s, step).running
  {
  }

  /** No rollback: along every run of harmless swaps the running revision never decreases. */
  lemma {:induction false} NeverRollsBack(s: State, steps: seq<Step>, t: State)
    requires Guarded(s) && HarmlessRun(s, steps, t)
    ensures Guarded(t) && s.running <= t.running
    decreases |steps|
  {
    if steps != [] {
      StepKeepsGuarded(s, steps[0]);
      NeverRollsBack(Do(s, steps[0]), steps[1..], t);
    }
  }

  lemma HarmlessCons(s: State, step: Step, rest: seq<Step>, t: State)
    requires Enabled(s, step) && Harmless(s, step) && HarmlessRun(Do(s, step), rest, t)
    ensures HarmlessRun(s, [step] + rest, t)
  {
    assert ([step] + rest)[1..] == rest;
  }

  /** After a harmful swap the read and a successful reload are enough to roll the data plane back. */
  lemma HarmfulSwapRollsBack(t: State, rev: int) returns (more: seq<Step>, u: State)
    requires Enabled(t, Swap(rev)) && Harmful(t, rev)
    ensures HarmlessRun(Do(t, Swap(rev)), more, u) && u.running == rev < t.running
    ensures more == [Read, ReloadReturns(true)]
  {
    var swapped := Do(t, Swap(rev));
    var asked := Do(swapped, Read);
    u := Do(asked, ReloadReturns(true));
    HarmlessCons(asked, ReloadReturns(true), [], u);
    HarmlessCons(swapped, Read, [ReloadReturns(true)], u);
    more := [Read] + [ReloadReturns(true)];
  }

  /** Some continuation without a further harmful swap ends below the running revision. */
  ghost predicate CanRollBack(t: State, swapped: State) {
    exists more, u :: HarmlessRun(swapped, more, u) && u.running < t.running
  }

  /**
   Exactly when a swap can roll the data plane back, after any run without a harmful swap: when it is
   harmful, which the publisher could tell from the consumer's position and the running revision.
   */
  lemma RollbackExactly(s: State, steps: seq<Step>, t: State, rev: int)
    requires Init(s) && HarmlessRun(s, steps, t) && Enabled(t, Swap(rev))
    ensures CanRollBack(t, Do(t, Swap(rev))) <==> Harmful(t, rev)
  {
    if Harmful(t, rev) {
      var more, u := HarmfulSwapRollsBack(t, rev);
    } else {
      NeverRollsBack(s, steps, t);
      StepKeepsGuarded(t, Swap(rev));
      forall more, u | HarmlessRun(Do(t, Swap(rev)), more, u)
        ensures t.running <= u.running
      {
        NeverRollsBack(Do(t, Swap(rev)), more, u);
      }
    }
  }

  // --- Publications swapped in revision order --------------------------------------------------

  /** A publisher swaps its revision in only over an older one; an atomic Publish always does. */
  predicate InOrder(s: State, step: Step) {
    step.Swap? && s.current.Some? ==> s.current.value.rev < step.rev
  }

  ghost predicate OrderedRun(s: State, steps: seq<Step>, t: State)
    decreases |steps|
  {
    if steps == [] then s == t
    else Enabled(s, steps[0]) && InOrder(s, steps[0]) && OrderedRun(Do(s, steps[0]), steps[1..], t)
  }

  lemma {:induction false} OrderedRunIsRun(s: State, steps: seq<Step>, t: State)
    requires OrderedRun(s, steps, t)
    ensures Run(s, steps, t)
    decreases |steps|
  {
    if steps != [] {
      OrderedRunIsRun(Do(s, steps[0]), steps[1..], t);
    }
  }

  /** Nothing the consumer holds is newer than the active revision. */
  ghost predicate NothingNewer(s: State) {
    var limit := if s.current.Some? then s.current.value.rev else 0;
    && (forall i :: 0 <= i < |s.queue| ==> s.queue[i].rev <= limit)
    && (forall i :: 0 <= i < |s.calls| ==> s.calls[i].ev.rev <= limit)
    && (s.pc.Reloading? || s.pc.Reporting? ==> s.pc.ev.rev <= limit)
  }

  /** A reload is only ever asked for a newer revision, and applied revisions increase strictly. */
  ghost predicate Ascending(s: State) {
    && (s.pc.ReadCurrent? ==> Missed(s))
    && (s.pc.Reloading? ==> s.running < s.pc.ev.rev)
    && (s.pc.Reporting? ==> if s.pc.ok then s.running == s.pc.ev.rev else s.running < s.pc.ev.rev)
    && (forall i :: 0 <= i < |s.calls| && s.calls[i].ok ==> s.calls[i].ev.rev <= s.running)
    && (forall i, j :: 0 <= i < j < |s.calls| && s.calls[i].ok && s.calls[j].ok ==>
          s.calls[i].ev.rev < s.calls[j].ev.rev)
  }

  ghost predicate Sound(s: State) {
    Paired(s) && NothingNewer(s) && Ascending(s)
  }

  lemma StepKeepsSound(s: State, step: Step)
    requires Sound(s) && Enabled(s, step) && InOrder(s, step)
    ensures Sound(Do(s, step)) && Harmless(s, step)
    ensures s.running <= Do(s, step).running
  {
    StepKeepsPaired(s, step);
    StepKeepsAscending(s, step);
    StepKeepsNothingNewer(s, step);
  }

  lemma StepKeepsNothingNewer(s: State, step: Step)
    requires Snapshots(s) && NothingNewer(s) && Enabled(s, step) && InOrder(s, step)
    ensures NothingNewer(Do(s, step))
  {
  }

  lemma StepKeepsAscending(s: State, step: Step)
    requires Ascending(s) && Enabled(s, step) && InOrder(s, step)
    ensures Ascending(Do(s, step))
    ensures s.running <= Do(s, step).running
  {
  }

  lemma InitSound(s: State)
    requires Init(s)
    ensures Sound(s)
  {
  }

  /** Swaps in revision order are harmless, and keep the stronger invariant. */
  lemma {:induction false} OrderedRunIsHarmless(s: State, steps: seq<Step>, t: State)
    requires Sound(s) && OrderedRun(s, steps, t)
    ensures Sound(t) && HarmlessRun(s, steps, t)
    decreases |steps|
  {
    if steps != [] {
      StepKeepsSound(s, steps[0]);
      OrderedRunIsHarmless(Do(s, steps[0]), steps[1..], t);
    }
  }

  /** The data plane has caught up, or the newest revision itself is recorded as failed. */
  ghost predicate Settled(s: State) {
    s.current.Some? ==>
      var rev := s.current.value.rev;
      s.running >= rev || (rev in s.results && s.results[rev].Failed?)
  }

  /**
   With ordered publications the failure cannot have been pushed out of the registry, and the
   revisions the consumer applied on the way increase strictly.
   */
  lemma OrderedRestsSettled(s: State, steps: seq<Step>, t: State)
    requires Init(s) && OrderedRun(s, steps, t)
    requires t.pc == Select && t.queue == []
    ensures Settled(t)
    ensures forall i, j :: 0 <= i < j < |t.calls| && t.calls[i].ok && t.calls[j].ok ==>
      t.calls[i].ev.rev < t.calls[j].ev.rev
  {
    InitSound(s);
    OrderedRunIsHarmless(s, steps, t);
    OrderedRunIsRun(s, steps, t);
    RestsConverged(s, steps, t);
    if t.current.Some? && Outranked(t.results, t.current.value.rev) {
      ReloadsArePaired(s, steps, t);
      assert |t.results.Keys| == |t.results|;
      var r := Pick(t.results.Keys);
      assert false;
    }
  }

  /** The data plane does not claim a revision the center has never had. */
  predicate NotAhead(s: State) {
    s.running <= if s.current.Some? then s.current.value.rev else 0
  }

  lemma {:induction false} RunKeepsNotAhead(s: State, steps: seq<Step>, t: State)
    requires Sound(s) && NotAhead(s) && OrderedRun(s, steps, t)
    ensures NotAhead(t)
    decreases |steps|
  {
    if steps != [] {
      StepKeepsSound(s, steps[0]);
      RunKeepsNotAhead(Do(s, steps[0]), steps[1..], t);
    }
  }

  /** When no reload failed, the resting data plane runs the center's revision. */
  lemma RestsEqual(s: State, steps: seq<Step>, t: State)
    requires Init(s) && NotAhead(s) && OrderedRun(s, steps, t)
    requires t.pc == Select && t.queue == []
    requires forall i :: 0 <= i < |t.calls| ==> t.calls[i].ok
    ensures t.current.Some? ==> t.running == t.current.value.rev
  {
    InitSound(s);
    RunKeepsNotAhead(s, steps, t);
    OrderedRunIsRun(s, steps, t);
    RestsConverged(s, steps, t);
  }

  // --- Racing publishers ----------------------------------------------------------------------

  lemma RunCons(s: State, step: Step, rest: seq<Step>, t: State)
    requires Enabled(s, step) && Run(Do(s, step), rest, t)
    ensures Run(s, [step] + rest, t)
  {
  }

  lemma {:induction false} RunConcat(s: State, a: seq<Step>, t: State, b: seq<Step>, u: State)
    requires Run(s, a, t) && Run(t, b, u)
    ensures Run(s, a + b, u)
    decreases |a|
  {
    if a == [] {
      assert a + b == b;
    } else {
      RunConcat(Do(s, a[0]), a[1..], t, b, u);
      RunCons(s, a[0], a[1..] + b, u);
      assert a == [a[0]] + a[1..];
      Assoc([a[0]], a[1..], b);
    }
  }

  lemma RunOfThree(s: State, a: Step, b: Step, c: Step)
    requires Enabled(s, a) && Enabled(Do(s, a), b) && Enabled(Do(Do(s, a), b), c)
    ensures Run(s, [a, b, c], Do(Do(Do(s, a), b), c))
  {
    var t := Do(Do(Do(s, a), b), c);
    RunCons(Do(Do(s, a), b), c, [], t);
    RunCons(Do(s, a), b, [c], t);
    RunCons(s, a, [b] + [c], t);
    assert [a] + ([b] + [c]) == [a, b, c];
  }

  /** Revision 1 runs and is active; nothing else is stored. */
  ghost function Race0(c: Config): State {
    State(map[1 := c], {}, Some(RevEvent(1, c)), [], 1, map[], [], CheckMissed)
  }

  /** Revisions 2 and 3 are stored, and 3 is swapped in first. */
  ghost function Race1(c: Config): State {
    var ev := RevEvent(3, c);
    State(map[1 := c][2 := c][3 := c], {2}, Some(ev), [ev], 1, map[], [], CheckMissed)
  }

  /** The catch-up has reloaded revision 3. */
  ghost function Race2(c: Config): State {
    var ev := RevEvent(3, c);
    Race1(c).(running := 3, calls := [ReloadCall(ev, true)], pc := Reporting(FromCatchUp, ev, true))
  }

  /** Its outcome is recorded, and revision 4 is published. */
  ghost function Race3(c: Config): State {
    var ev := RevEvent(4, c);
    Race2(c).(history := map[1 := c][2 := c][3 := c][4 := c], current := Some(ev), queue := [RevEvent(3, c), ev],
      results := Record(map[], ReportOf(ReloadCall(RevEvent(3, c), true))), pc := CheckMissed)
  }

  /** After the comparison that saw revision 4, revision 2 is swapped in and read. */
  ghost function Race4(c: Config): State {
    var ev := RevEvent(2, c);
    Race3(c).(pending := {}, current := Some(ev), queue := [RevEvent(3, c), RevEvent(4, c), ev],
      pc := Reloading(FromCatchUp, ev))
  }

  lemma RaceTo1(c: Config)
    ensures Run(Race0(c), [Append(2, c), Append(3, c), Swap(3)], Race1(c))
  {
    RunOfThree(Race0(c), Append(2, c), Append(3, c), Swap(3));
    var t := Do(Do(Do(Race0(c), Append(2, c)), Append(3, c)), Swap(3));
    assert t.pending == {2} && t.queue == [RevEvent(3, c)];
  }

  lemma RaceTo2(c: Config)
    ensures Run(Race1(c), [Compare, Read, ReloadReturns(true)], Race2(c))
  {
    RunOfThree(Race1(c), Compare, Read, ReloadReturns(true));
  }

  lemma RaceTo3(c: Config)
    ensures Run(Race2(c), [RecordOutcome, Append(4, c), Swap(4)], Race3(c))
  {
    RunOfThree(Race2(c), RecordOutcome, Append(4, c), Swap(4));
    var t := Do(Do(Do(Race2(c), RecordOutcome), Append(4, c)), Swap(4));
    assert t.pending == {2} && t.queue == [RevEvent(3, c), RevEvent(4, c)];
  }

  lemma RaceTo4(c: Config)
    ensures Run(Race3(c), [Compare, Swap(2), Read], Race4(c))
  {
    RunOfThree(Race3(c), Compare, Swap(2), Read);
    assert {2} - {2} == {};
  }

  /**
   Two publishers that swap out of revision order can make a catch-up roll the data plane back:
   revision 2 is stored first, but its swap lands between the comparison that saw revision 4 and
   the read that follows it, when revision 3 already runs.
   */
  lemma RacingPublishersRollBack(c: Config) returns (s: State, steps: seq<Step>, t: State, step: Step)
    ensures Init(s) && NotAhead(s) && Run(s, steps, t) && Enabled(t, step)
    ensures t.running == 3 && Do(t, step).running == 2
  {
    s, t, step := Race0(c), Race4(c), ReloadReturns(true);
    RaceTo1(c);
    RaceTo2(c);
    RaceTo3(c);
    RaceTo4(c);
    steps := [Append(2, c), Append(3, c), Swap(3)];
    var second := [Compare, Read, ReloadReturns(true)];
    RunConcat(s, steps, Race1(c), second, Race2(c));
    var third := [RecordOutcome, Append(4, c), Swap(4)];
    RunConcat(s, steps + second, Race2(c), third, Race3(c));
    var fourth := [Compare, Swap(2), Read];
    RunConcat(s, steps + second + third, Race3(c), fourth, t);
    steps := steps + second + third + fourth;
  }
}
