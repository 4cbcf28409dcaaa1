/**
 The versioned configuration center: an append-only revision store, the active (revision,
 configuration) pair, bounded subscriber channels and the registry of apply outcomes.

 Configurations are immutable JSON documents here. Every method is one critical section.
 */
module Center {
  import opened NormalForm
  import opened Options
  import opened ApplyRegistry
  import opened Sets

  type Config = Json

  const SUBSCRIBE_BUFFER := 8

  /** One published revision with the configuration that belongs to it. */
  datatype RevEvent = RevEvent(rev: int, config: Config)

  datatype PublishResult = Published(rev: int) | NoChanges(rev: int) | Refused(why: Refusal)

  datatype Refusal = NilConfig | Invalid | StoreFailed | NotFound

  /** A send that drops the event when the bounded channel is full. */
  function Offer(queue: seq<RevEvent>, ev: RevEvent): (queue': seq<RevEvent>)
    ensures |queue| < 8 ==> queue' == queue + [ev]
    ensures |queue| >= 8 ==> queue' == queue
  {
    if |queue| < SUBSCRIBE_BUFFER then queue + [ev] else queue
  }

  /** What change detection makes of a document with one more entry. */
  lemma AddedSections(v: Config, w: Config)
    ensures Adds(v, w, Arr([])) || Adds(v, w, Obj(map[])) ==> Normalize(v) == Normalize(w)
    ensures (exists text :: Adds(v, w, Atom(text))) ==> Normalize(v) != Normalize(w)
  {
    if Adds(v, w, Arr([])) {
      EmptySectionIsNoChange(v, w, Arr([]));
    }
    if Adds(v, w, Obj(map[])) {
      EmptySectionIsNoChange(v, w, Obj(map[]));
    }
    if text :| Adds(v, w, Atom(text)) {
      ValueIsChange(v, w, text);
    }
  }

  class Channel {
    var queue: seq<RevEvent>

    constructor ()
      ensures queue == []
    {
      queue := [];
    }
  }

  class Center {
    /** The validation of the configuration package. */
    const accepts: Config -> bool

    var history: map<int, Config>
    var lastId: int
    var rev: int
    var cfg: Option<Config>
    var subs: set<Channel>
    var lastApply: Option<Report>
    var applyResults: Registry

    ghost predicate Valid()
      reads this
    {
      && 0 <= lastId
      && (forall r :: r in history ==> 0 < r <= lastId)
      && (if cfg.Some? then rev == lastId && rev in history && history[rev] == cfg.value
          else rev == 0 && lastId == 0)
    }

    /** Every queued event carries the stored configuration of its revision, in publish order. */
    ghost predicate Paired(queue: seq<RevEvent>)
      reads this
    {
      && |queue| <= SUBSCRIBE_BUFFER
      && (forall i :: 0 <= i < |queue| ==> queue[i].rev in history && queue[i].config == history[queue[i].rev])
      && (forall i, j :: 0 <= i < j < |queue| ==> queue[i].rev < queue[j].rev)
    }

    constructor (accepts: Config -> bool)
      ensures Valid() && this.accepts == accepts
      ensures history == map[] && cfg == None && subs == {} && applyResults == map[] && lastApply == None
    {
      this.accepts := accepts;
      history, lastId, rev, cfg := map[], 0, 0, None;
      subs, lastApply, applyResults := {}, None, map[];
    }

    /** The submitted document and the active one differ at most in empty sections. */
    predicate Unchanged(next: Config)
      reads this
    {
      rev > 0 && rev in history && Normalize(history[rev]) == Normalize(next)
    }

    /** storeOk is the outcome of the write to the revision database. */
    method PublishInternal(next: Option<Config>, allowNoChanges: bool, storeOk: bool) returns (result: PublishResult)
      requires Valid()
      modifies this`history, this`lastId, this`rev, this`cfg, subs
      ensures Valid()
      ensures result ==
        if next == None then Refused(NilConfig)
        else if !accepts(next.value) then Refused(Invalid)
        else if !allowNoChanges && old(Unchanged(next.value)) then NoChanges(old(rev))
        else if !storeOk then Refused(StoreFailed)
        else Published(old(lastId) + 1)
      ensures result.Published? ==>
        && rev == lastId == result.rev && cfg == next
        && history == old(history)[rev := next.value] && rev !in old(history)
        && forall ch :: ch in subs ==> ch.queue == Offer(old(ch.queue), RevEvent(rev, next.value))
      ensures !result.Published? ==>
        && history == old(history) && lastId == old(lastId) && rev == old(rev) && cfg == old(cfg)
        && forall ch :: ch in subs ==> ch.queue == old(ch.queue)
      ensures forall ch :: ch in subs && old(Paired(ch.queue)) ==> Paired(ch.queue)
    {
      if next == None {
        return Refused(NilConfig);
      }
      if !accepts(next.value) {
        return Refused(Invalid);
      }
      if !allowNoChanges && Unchanged(next.value) {
        return NoChanges(rev);
      }
      if !storeOk {
        return Refused(StoreFailed);
      }
      lastId := lastId + 1;
      history := history[lastId := next.value];
      rev, cfg := lastId, next;
      var todo := subs;
      while todo != {}
        invariant todo <= subs
        invariant forall ch :: ch in subs - todo ==> ch.queue == Offer(old(ch.queue), RevEvent(rev, next.value))
        invariant forall ch :: ch in todo ==> ch.queue == old(ch.queue)
        modifies subs
        decreases todo
      {
        var ch :| ch in todo;
        ch.queue := Offer(ch.queue, RevEvent(rev, next.value));
        todo := todo - {ch};
      }
      return Published(rev);
    }

    /** Publishing is refused as unchanged exactly when deletions of empty sections can make both documents equal. */
    method Publish(next: Option<Config>, storeOk: bool) returns (result: PublishResult)
      requires Valid()
      modifies this`history, this`lastId, this`rev, this`cfg, subs
      ensures Valid()
      ensures result.NoChanges? <==>
        && next.Some? && accepts(next.value) && old(cfg).Some?
        && exists c :: ReducesTo(old(cfg).value, c) && ReducesTo(next.value, c)
      ensures result.NoChanges? ==> result.rev == old(rev)
      ensures result.Published? ==>
        && rev == lastId == result.rev == old(lastId) + 1 && cfg == next
        && history == old(history)[rev := next.value] && rev !in old(history)
        && forall ch :: ch in subs ==> ch.queue == Offer(old(ch.queue), RevEvent(rev, next.value))
      ensures !result.Published? ==>
        && history == old(history) && lastId == old(lastId) && rev == old(rev) && cfg == old(cfg)
        && forall ch :: ch in subs ==> ch.queue == old(ch.queue)
      ensures next.Some? && accepts(next.value) && storeOk ==> result.NoChanges? || result.Published?
      ensures forall ch :: ch in subs && old(Paired(ch.queue)) ==> Paired(ch.queue)
      ensures next.Some? && accepts(next.value) && old(cfg).Some? ==>
        && (Adds(old(cfg).value, next.value, Arr([])) || Adds(old(cfg).value, next.value, Obj(map[])) ==>
              result == NoChanges(old(rev)))
        && (storeOk && (exists text :: Adds(old(cfg).value, next.value, Atom(text))) ==> result.Published?)
    {
      if next.Some? && cfg.Some? {
        SameNormalFormIffJoinable(cfg.value, next.value);
        AddedSections(cfg.value, next.value);
      }
      result := PublishInternal(next, false, storeOk);
    }

    /** Re-publishes a stored document as a new revision, even when it equals the active one. */
    method Rollback(id: int, storeOk: bool) returns (result: PublishResult)
      requires Valid()
      modifies this`history, this`lastId, this`rev, this`cfg, subs
      ensures Valid()
      ensures result.Published? <==> id in old(history) && accepts(old(history)[id]) && storeOk
      ensures !result.NoChanges?
      ensures result.Published? ==>
        && rev == lastId == result.rev == old(lastId) + 1 && rev !in old(history)
        && history == old(history)[rev := old(history)[id]] && cfg == Some(history[id])
        && forall ch :: ch in subs ==> ch.queue == Offer(old(ch.queue), RevEvent(rev, history[id]))
      ensures !result.Published? ==>
        && history == old(history) && lastId == old(lastId) && rev == old(rev) && cfg == old(cfg)
        && forall ch :: ch in subs ==> ch.queue == old(ch.queue)
      ensures forall ch :: ch in subs && old(Paired(ch.queue)) ==> Paired(ch.queue)
    {
      if id !in history {
        return Refused(NotFound);
      }
      result := PublishInternal(Some(history[id]), true, storeOk);
    }

    method Subscribe() returns (ch: Channel)
      requires Valid()
      modifies this`subs
      ensures Valid()
      ensures fresh(ch) && ch.queue == [] && Paired(ch.queue)
      ensures subs == old(subs) + {ch}
    {
      ch := new Channel();
      subs := subs + {ch};
    }

    method Cancel(ch: Channel)
      requires Valid()
      modifies this`subs
      ensures Valid()
      ensures subs == old(subs) - {ch}
    {
      subs := subs - {ch};
    }

    /** The search for the least revision starts from 0 as "none yet", so revisions must be positive. */
    static method LeastRecorded(results: Registry) returns (minRev: int)
      requires results != map[] && forall r :: r in results ==> 0 < r
      ensures IsLeast(results.Keys, minRev) && minRev == Least(results.Keys)
    {
      minRev := 0;
      var todo := results.Keys;
      while todo != {}
        invariant todo <= results.Keys
        invariant minRev == 0 ==> todo == results.Keys
        invariant minRev != 0 ==> IsLeast(results.Keys - todo, minRev)
        decreases todo
      {
        ghost var before := todo;
        ghost var some := Pick(todo);
        var r :| r in todo;
        if minRev == 0 || r < minRev {
          minRev := r;
        }
        todo := todo - {r};
        forall k | k in results.Keys - todo
          ensures minRev <= k
        {
          assert k == r || k in results.Keys - before;
        }
      }
      assert results.Keys - todo == results.Keys;
    }

    /** Records the outcome of one reload. */
    method SetApplyStatus(rev: int, outcome: Outcome)
      requires 0 < rev && forall r :: r in applyResults ==> 0 < r
      modifies this`lastApply, this`applyResults
      ensures lastApply == Some(Report(rev, outcome))
      ensures applyResults == Record(old(applyResults), Report(rev, outcome))
      ensures forall r :: r in applyResults ==> 0 < r
      ensures forall reports :: RegistryOf(reports, old(applyResults)) ==>
        RegistryOf(reports + [Report(rev, outcome)], applyResults)
    {
      forall reports | RegistryOf(reports, applyResults) {
        RecordKeepsRegistry(reports, applyResults, Report(rev, outcome));
      }
      lastApply := Some(Report(rev, outcome));
      applyResults := applyResults[rev := outcome];
      while |applyResults| > APPLY_HISTORY_LIMIT
        invariant forall r :: r in applyResults ==> 0 < r
        invariant Prune(applyResults) == Record(old(applyResults), Report(rev, outcome))
        modifies this`applyResults
        decreases |applyResults|
      {
        var minRev := LeastRecorded(applyResults);
        assert |applyResults.Keys| == |applyResults|;
        assert (applyResults - {minRev}).Keys == applyResults.Keys - {minRev};
        assert |applyResults - {minRev}| < |applyResults|;
        applyResults := applyResults - {minRev};
      }
    }

    function ApplyStatusFor(rev: int): (status: ApplyStatus)
      reads this
      ensures status == Pending <==> rev !in applyResults
      ensures status.Settled? ==> status.outcome == applyResults[rev]
    {
      if rev in applyResults then Settled(applyResults[rev]) else Pending
    }
  }
}
