/**
 The consumer loop in the program's own shape: a catch-up loop, a main loop around the select, and
 a drain loop inside it. Every atomic action is preceded by arbitrary publisher activity, taken
 from an oracle together with the outcome of each reload. The loop is proved to take only steps of
 the hot-reload protocol, so what HotReload proves over all runs holds of it.
 */
module Consume {
  import opened ApplyRegistry
  import opened Center
  import opened HotReload
  import opened Options

  /** What other goroutines do before one action of the consumer, and whether a reload succeeds. */
  datatype Tick = Tick(env: seq<EnvAction>, ok: bool)

  datatype EnvAction = Store(config: Config) | Activate(rev: int)

  lemma {:induction false} RunSnoc(s: State, steps: seq<Step>, t: State, step: Step)
    requires Run(s, steps, t) && Enabled(t, step)
    ensures Run(s, steps + [step], Do(t, step))
    decreases |steps|
  {
    if steps == [] {
      assert Run(Do(s, step), [], Do(t, step));
      RunCons(s, step, [], Do(t, step));
    } else {
      RunSnoc(Do(s, steps[0]), steps[1..], t, step);
      assert (steps + [step])[1..] == steps[1..] + [step];
    }
  }

  /** The calls made since were all successful. */
  ghost predicate AllSucceed(before: seq<ReloadCall>, calls: seq<ReloadCall>) {
    before <= calls && forall i :: |before| <= i < |calls| ==> calls[i].ok
  }

  /** Of the calls made since, none but the last failed. */
  ghost predicate OnlyLastFails(before: seq<ReloadCall>, calls: seq<ReloadCall>) {
    before <= calls && forall i :: |before| <= i < |calls| - 1 ==> calls[i].ok
  }

  lemma OneMoreCall(before: seq<ReloadCall>, calls: seq<ReloadCall>, after: seq<ReloadCall>)
    requires AllSucceed(before, calls)
    requires after == calls || (calls < after && |after| == |calls| + 1)
    ensures OnlyLastFails(before, after)
    ensures after == calls || after[|calls|].ok ==> AllSucceed(before, after)
  {
  }

  class Consumer {
    const oracle: nat -> Tick
    var clock: nat

    var history: map<int, Config>
    var lastId: int
    var pending: set<int>
    var current: Option<RevEvent>
    var queue: seq<RevEvent>
    var running: int

    ghost const start: State
    ghost var results: Registry
    ghost var calls: seq<ReloadCall>
    ghost var trace: seq<Step>

    /** The fields and the given program counter are where the recorded run of the protocol led. */
    ghost predicate At(pc: Pc)
      reads this
    {
      && (forall r :: r in history ==> r <= lastId) && 0 <= lastId
      && pending <= history.Keys
      && Init(start)
      && Run(start, trace, State(history, pending, current, queue, running, results, calls, pc))
    }

    constructor (s: State, lastId: int, oracle: nat -> Tick)
      requires Init(s) && 0 <= lastId && forall r :: r in s.history ==> r <= lastId
      ensures start == s && this.oracle == oracle && trace == [] && At(CheckMissed)
    {
      this.oracle, this.clock := oracle, 0;
      this.history, this.lastId, this.pending := s.history, lastId, s.pending;
      this.current, this.queue, this.running := s.current, s.queue, s.running;
      start, results, calls, trace := s, s.results, s.calls, [];
    }

    ghost method Log(step: Step, s: State)
      requires Run(start, trace, s) && Enabled(s, step)
      modifies this`trace
      ensures trace == old(trace) + [step] && Run(start, trace, Do(s, step))
    {
      RunSnoc(start, trace, s, step);
      trace := trace + [step];
    }

    ghost function Now(pc: Pc): State
      reads this
    {
      State(history, pending, current, queue, running, results, calls, pc)
    }

    /** A publisher acts: it stores a revision, or swaps a stored one in. */
    method Publish(ghost pc: Pc, action: EnvAction)
      requires At(pc)
      modifies this
      ensures At(pc) && running == old(running) && calls == old(calls) && old(trace) <= trace
      ensures |queue| >= |old(queue)| && queue[..|old(queue)|] == old(queue)
    {
      match action
      case Store(config) =>
        Log(Append(lastId + 1, config), Now(pc));
        lastId := lastId + 1;
        history, pending := history[lastId := config], pending + {lastId};
      case Activate(rev) =>
        if rev in pending {
          Log(Swap(rev), Now(pc));
          var ev := RevEvent(rev, history[rev]);
          pending, current, queue := pending - {rev}, Some(ev), Offer(queue, ev);
        }
    }

    /** Publishers act, in any order and number. */
    method Interleave(ghost pc: Pc) returns (ok: bool)
      requires At(pc)
      modifies this
      ensures At(pc) && running == old(running) && calls == old(calls) && old(trace) <= trace
      ensures |queue| >= |old(queue)| && queue[..|old(queue)|] == old(queue)
    {
      var tick := oracle(clock);
      clock := clock + 1;
      for i := 0 to |tick.env|
        invariant At(pc) && running == old(running) && calls == old(calls) && old(trace) <= trace
        invariant |queue| >= |old(queue)| && queue[..|old(queue)|] == old(queue)
      {
        Publish(pc, tick.env[i]);
      }
      return tick.ok;
    }

    /** Reloads one snapshot and records its outcome. */
    method ApplyOne(ghost origin: Origin, ev: RevEvent) returns (ok: bool)
      requires At(Reloading(origin, ev))
      modifies this
      ensures At(AfterReport(Reporting(origin, ev, ok))) && old(trace) <= trace
      ensures running == if ok then ev.rev else old(running)
      ensures calls == old(calls) + [ReloadCall(ev, ok)]
    {
      ok := Reload(origin, ev);
      ReportBack(origin, ev, ok);
    }

    method Reload(ghost origin: Origin, ev: RevEvent) returns (ok: bool)
      requires At(Reloading(origin, ev))
      modifies this
      ensures At(Reporting(origin, ev, ok)) && old(trace) <= trace
      ensures running == if ok then ev.rev else old(running)
      ensures calls == old(calls) + [ReloadCall(ev, ok)]
    {
      ok := Interleave(Reloading(origin, ev));
      Log(ReloadReturns(ok), Now(Reloading(origin, ev)));
      calls := calls + [ReloadCall(ev, ok)];
      if ok {
        running := ev.rev;
      }
    }

    method ReportBack(ghost origin: Origin, ev: RevEvent, ok: bool)
      requires At(Reporting(origin, ev, ok))
      modifies this
      ensures At(AfterReport(Reporting(origin, ev, ok))) && old(trace) <= trace
      ensures running == old(running) && calls == old(calls)
    {
      var other := Interleave(Reporting(origin, ev, ok));
      Log(RecordOutcome, Now(Reporting(origin, ev, ok)));
      results := Record(results, ReportOf(ReloadCall(ev, ok)));
    }

    /** One round of the catch-up: again says that a reload succeeded and the center is to be asked once more. */
    method CatchUpOnce() returns (again: bool, ghost pc: Pc)
      requires At(CheckMissed)
      modifies this
      ensures At(pc) && pc == (if again then CheckMissed else Select) && old(trace) <= trace
      ensures (calls == old(calls) && !again) || (old(calls) < calls && |calls| == |old(calls)| + 1)
      ensures old(calls) < calls ==> calls[|old(calls)|].ok == again
    {
      var other := Interleave(CheckMissed);
      Log(Compare, Now(CheckMissed));
      if !(current.Some? && running < current.value.rev) {
        return false, Select;
      }
      other := Interleave(ReadCurrent);
      Log(Read, Now(ReadCurrent));
      if current.None? {
        return false, Select;
      }
      again := ApplyOne(FromCatchUp, current.value);
      pc := if again then CheckMissed else Select;
    }

    /** budget cuts a catch-up that publishers keep alive forever. A failed reload is its last one. */
    method CatchUp(budget: nat) returns (left: nat, ghost pc: Pc)
      requires At(CheckMissed)
      modifies this
      ensures left <= budget && old(trace) <= trace
      ensures At(pc) && (pc == Select || (left == 0 && pc == CheckMissed))
      ensures OnlyLastFails(old(calls), calls)
      ensures old(calls) < calls && !calls[|calls| - 1].ok ==> pc == Select
    {
      left, pc := budget, CheckMissed;
      while left > 0
        invariant left <= budget && old(trace) <= trace
        invariant At(pc) && pc == CheckMissed
        invariant AllSucceed(old(calls), calls)
      {
        left := left - 1;
        ghost var before := calls;
        var again;
        again, pc := CatchUpOnce();
        OneMoreCall(old(calls), before, calls);
        if !again {
          return;
        }
      }
    }

    /** Applies what is already queued, until the channel is empty or a reload fails; a failed one is its last. */
    method Drain(budget: nat) returns (left: nat, ghost pc: Pc)
      requires At(Draining)
      modifies this
      ensures left <= budget && old(trace) <= trace
      ensures At(pc) && (pc == CheckMissed || (left == 0 && pc == Draining))
      ensures OnlyLastFails(old(calls), calls)
      ensures old(calls) < calls && !calls[|calls| - 1].ok ==> pc == CheckMissed
    {
      left, pc := budget, Draining;
      while left > 0
        invariant left <= budget && old(trace) <= trace
        invariant At(pc) && pc == Draining
        invariant AllSucceed(old(calls), calls)
      {
        left := left - 1;
        var other := Interleave(Draining);
        if queue == [] {
          Log(DrainEmpty, Now(Draining));
          return left, CheckMissed;
        }
        var ev := queue[0];
        Log(DrainReceive, Now(Draining));
        queue := queue[1..];
        if ev.rev <= running {
          continue;
        }
        ghost var before := calls;
        var ok := ApplyOne(FromDrain, ev);
        OneMoreCall(old(calls), before, calls);
        if !ok {
          return left, CheckMissed;
        }
      }
    }

    /** The consumer loop, cut after budget iterations of its loops; pc is where it stands. */
    method Loop(budget: nat) returns (ghost pc: Pc)
      requires At(CheckMissed)
      modifies this
      ensures At(pc) && old(trace) <= trace
      ensures forall i :: 0 <= i < |calls| ==>
        calls[i].ev.rev in history && history[calls[i].ev.rev] == calls[i].ev.config
      ensures pc == Select && queue == [] ==> AtRest(Now(pc))
      ensures pc == Select && queue == [] && current.Some? && running < current.value.rev ==>
        FailureOnRecord(results, current.value.rev)
    {
      var left;
      left, pc := CatchUp(budget);
      while left > 0
        invariant At(pc) && (left == 0 || pc == Select) && old(trace) <= trace
      {
        left := left - 1;
        var other := Interleave(Select);
        if queue == [] {
          continue;
        }
        left, pc := HandleEvent(left);
      }
      ReloadsArePaired(start, trace, Now(pc));
      if pc == Select && queue == [] {
        RestsConverged(start, trace, Now(pc));
      }
    }

    /** One event received in the main select, up to the next wait there. */
    method HandleEvent(budget: nat) returns (left: nat, ghost pc: Pc)
      requires At(Select) && queue != []
      modifies this
      ensures At(pc) && (left == 0 || pc == Select) && left <= budget && old(trace) <= trace
    {
      var ev := queue[0];
      Log(Receive, Now(Select));
      queue := queue[1..];
      if ev.rev <= running {
        left, pc := CatchUp(budget);
        return;
      }
      var ok := ApplyOne(FromSelect, ev);
      if !ok {
        left, pc := CatchUp(budget);
        return;
      }
      left, pc := Drain(budget);
      if left == 0 {
        return;
      }
      left, pc := CatchUp(left);
    }

    /** At rest after ordered publications, the fields themselves are settled. */
    lemma RestsSettled()
      requires At(Select) && queue == []
      requires OrderedRun(start, trace, Now(Select))
      ensures current.Some? ==>
        || running >= current.value.rev
        || (current.value.rev in results && results[current.value.rev].Failed?)
    {
      OrderedRestsSettled(start, trace, Now(Select));
    }
  }
}
