/**
 The certificate issuance queue: single flight per domain and mode, a cooldown after failures, a
 bounded history and a bounded number of running issuances.

 Each method is one critical section; the goroutine of a task is its Start and its Finish. The clock,
 the random task id, the cached certificate and the outcome of the ACME order are parameters.
 */
module IssueQueue {
  import AcmeHolder
  import opened Options
  import opened Text

  const MAX_CONCURRENT_ISSUES := 2
  const MAX_RECENT_TASKS := 50
  const FAILURE_COOLDOWN := AcmeHolder.FAILURE_COOLDOWN
  const RENEW_BEFORE := 30 * 24 * 3600

  datatype Status = Pending | Running | Success | Failed

  /** Bookkeeping is per domain and mode. */
  datatype Key = Key(staging: bool, domain: string)

  class RequestTask {
    const id: string
    const key: Key
    const requestedAt: int
    var status: Status
    var reused: bool
    var finishedAt: Option<int>
    var notAfter: Option<int>

    constructor (id: string, key: Key, requestedAt: int)
      ensures this.id == id && this.key == key && this.requestedAt == requestedAt
      ensures status == Pending && !reused && finishedAt == None && notAfter == None
    {
      this.id, this.key, this.requestedAt := id, key, requestedAt;
      status, reused, finishedAt, notAfter := Pending, false, None, None;
    }

    /** Answered from the certificate cache. */
    constructor FromCache(id: string, key: Key, now: int, notAfter: Option<int>)
      ensures this.id == id && this.key == key && requestedAt == now
      ensures status == Success && reused && finishedAt == Some(now) && this.notAfter == notAfter
    {
      this.id, this.key, requestedAt := id, key, now;
      status, reused, finishedAt, this.notAfter := Success, true, Some(now), notAfter;
    }

    predicate Unfinished()
      reads this
    {
      status == Pending || status == Running
    }
  }

  datatype Answer = Accepted(task: RequestTask) | InvalidDomain | CoolingDown

  // --- Domain names ---------------------------------------------------------------------------

  predicate ValidLabel(lbl: string) {
    && lbl != "" && |lbl| <= 63
    && (forall i :: 0 <= i < |lbl| ==> 'a' <= lbl[i] <= 'z' || '0' <= lbl[i] <= '9' || lbl[i] == '-')
    && lbl[0] != '-' && lbl[|lbl| - 1] != '-'
  }

  predicate ValidDomain(d: string) {
    && d != "" && |d| <= 253 && '*' !in d
    && forall lbl :: lbl in Split(d, '.') ==> ValidLabel(lbl)
  }

  /** A label as the protocol wants it: letters, digits and inner hyphens, 1 to 63 of them. */
  predicate PlainLabel(lbl: string) {
    && 1 <= |lbl| <= 63
    && (forall c :: c in lbl ==> c == '-' || '0' <= c <= '9' || 'a' <= c <= 'z')
    && lbl[0] != '-' && lbl[|lbl| - 1] != '-'
  }

  predicate AllPlain(labels: seq<string>) {
    forall lbl :: lbl in labels ==> PlainLabel(lbl)
  }

  /** Exactly which names are accepted: up to 253 characters of plain labels joined by dots. */
  lemma ValidDomainExactly(d: string)
    ensures ValidDomain(d) <==>
      |d| <= 253 && exists labels :: labels != [] && d == Join(labels, '.') && AllPlain(labels)
  {
    if ValidDomain(d) {
      var labels := Split(d, '.');
      JoinOfSplit(d, '.');
      forall lbl | lbl in labels
        ensures PlainLabel(lbl)
      {
        LabelIsPlain(lbl);
      }
    }
    forall labels | |d| <= 253 && labels != [] && d == Join(labels, '.') && AllPlain(labels)
      ensures ValidDomain(d)
    {
      PlainLabelsAreValid(labels);
    }
  }

  lemma LabelIsPlain(lbl: string)
    ensures ValidLabel(lbl) <==> PlainLabel(lbl)
  {
    if PlainLabel(lbl) {
      assert forall i :: 0 <= i < |lbl| ==> lbl[i] in lbl;
    }
  }

  lemma PlainLabelsAreValid(labels: seq<string>)
    requires labels != [] && |Join(labels, '.')| <= 253 && AllPlain(labels)
    ensures ValidDomain(Join(labels, '.'))
  {
    var d := Join(labels, '.');
    SplitOfJoin(labels, '.');
    forall lbl | lbl in labels
      ensures ValidLabel(lbl)
    {
      LabelIsPlain(lbl);
    }
    if '*' in d {
      var i :| 0 <= i < |d| && d[i] == '*';
      JoinChars(labels, '.', i);
    }
    assert labels[0] in labels;
  }

  lemma {:induction false} JoinChars(parts: seq<string>, sep: char, i: nat)
    requires i < |Join(parts, sep)|
    ensures Join(parts, sep)[i] == sep || exists part :: part in parts && Join(parts, sep)[i] in part
  {
    if |parts| == 1 {
      assert parts[0] in parts;
    } else if i < |parts[0]| {
      assert Join(parts, sep)[i] in parts[0];
    } else if i > |parts[0]| {
      JoinChars(parts[1..], sep, i - |parts[0]| - 1);
    }
  }

  lemma TrailingDot(front: string)
    ensures "" in Split(front + ['.'] + "", '.')
  {
    SplitOfConcat(front, "", '.');
    assert Split("", '.') == [""];
  }

  /** Accepted domains are names that host normalization leaves alone, so registrations always match. */
  lemma ValidDomainsAreNormal(d: string)
    requires ValidDomain(d)
    ensures AcmeHolder.Normal(d)
  {
    forall i | 0 <= i < |d|
      ensures 'a' <= d[i] <= 'z' || '0' <= d[i] <= '9' || d[i] == '-' || d[i] == '.'
    {
      DomainChar(d, i);
    }
    NoTrailingDot(d);
    AcmeHolder.DomainsAreNormal(d);
  }

  lemma DomainChar(d: string, i: nat)
    requires ValidDomain(d) && i < |d|
    ensures 'a' <= d[i] <= 'z' || '0' <= d[i] <= '9' || d[i] == '-' || d[i] == '.'
  {
    JoinOfSplit(d, '.');
    JoinChars(Split(d, '.'), '.', i);
    if d[i] != '.' {
      var lbl :| lbl in Split(d, '.') && d[i] in lbl;
      assert ValidLabel(lbl);
    }
  }

  lemma NoTrailingDot(d: string)
    requires ValidDomain(d)
    ensures d[|d| - 1] != '.'
  {
    if d[|d| - 1] == '.' {
      assert d == d[..|d| - 1] + ['.'] + "";
      TrailingDot(d[..|d| - 1]);
    }
  }

  // --- The queue ------------------------------------------------------------------------------

  // The records behind the queue's invariant.

  /** The history shows the newest tasks. */
  function Newest(created: seq<RequestTask>): seq<RequestTask> {
    created[..if |created| <= MAX_RECENT_TASKS then |created| else MAX_RECENT_TASKS]
  }

  ghost predicate DistinctIds(ts: seq<RequestTask>) {
    ts == [] || ((forall s :: s in ts[1..] ==> s.id != ts[0].id) && DistinctIds(ts[1..]))
  }

  /** The index from id to task. */
  ghost function Index(ts: seq<RequestTask>): map<string, RequestTask> {
    if ts == [] then map[] else Index(ts[1..])[ts[0].id := ts[0]]
  }

  lemma {:induction false} IndexMembers(ts: seq<RequestTask>, id: string)
    ensures id in Index(ts) <==> exists s :: s in ts && s.id == id
    ensures id in Index(ts) ==> Index(ts)[id] in ts && Index(ts)[id].id == id
  {
    if ts != [] {
      IndexMembers(ts[1..], id);
      assert forall s :: s in ts <==> s == ts[0] || s in ts[1..];
    }
  }

  /** Forgetting the last of distinct tasks removes just its id. */
  lemma {:induction false} IndexFront(ts: seq<RequestTask>)
    requires ts != [] && DistinctIds(ts)
    ensures Index(ts[..|ts| - 1]) == Index(ts) - {ts[|ts| - 1].id}
  {
    if |ts| > 1 {
      var n := |ts| - 1;
      IndexFront(ts[1..]);
      assert ts[..n][1..] == ts[1..][..n - 1] && ts[1..][n - 1] == ts[n];
      assert ts[n] in ts[1..];
    }
  }

  lemma {:induction false} DistinctPrefix(ts: seq<RequestTask>, n: nat)
    requires DistinctIds(ts) && n <= |ts|
    ensures DistinctIds(ts[..n])
  {
    if n > 0 {
      DistinctPrefix(ts[1..], n - 1);
      assert ts[..n][1..] == ts[1..][..n - 1];
      assert forall s :: s in ts[1..][..n - 1] ==> s in ts[1..];
    }
  }

  /** inflight holds exactly the active tasks, so there is at most one per key. */
  ghost predicate SingleFlight(active: set<RequestTask>, inflight: map<Key, RequestTask>) {
    && (forall k :: k in inflight ==> inflight[k] in active && inflight[k].key == k)
    && (forall t :: t in active ==> t.key in inflight && inflight[t.key] == t)
  }

  /** The cooldown table remembers every failure, and active tasks were requested after it ran out. */
  ghost predicate Cooldowns(active: set<RequestTask>, cooldown: map<Key, int>, failedAt: map<Key, int>) {
    && cooldown.Keys == failedAt.Keys
    && (forall k :: k in failedAt ==> cooldown[k] == failedAt[k] + FAILURE_COOLDOWN)
    && (forall t :: t in active ==> Rested(t, failedAt))
  }

  /** The issuance was requested after the cooldown of its key. */
  ghost predicate Rested(t: RequestTask, failedAt: map<Key, int>) {
    t.key in failedAt ==> t.requestedAt >= failedAt[t.key] + FAILURE_COOLDOWN
  }

  lemma FlightBegins(active: set<RequestTask>, inflight: map<Key, RequestTask>, cooldown: map<Key, int>,
                     failedAt: map<Key, int>, t: RequestTask)
    requires SingleFlight(active, inflight) && Cooldowns(active, cooldown, failedAt)
    requires t.key !in inflight && (t.key in failedAt ==> t.requestedAt >= failedAt[t.key] + FAILURE_COOLDOWN)
    ensures SingleFlight(active + {t}, inflight[t.key := t]) && Cooldowns(active + {t}, cooldown, failedAt)
  {
  }

  lemma FlightEnds(active: set<RequestTask>, inflight: map<Key, RequestTask>, t: RequestTask)
    requires SingleFlight(active, inflight) && t in active
    ensures SingleFlight(active - {t}, inflight - {t.key})
    ensures forall u :: u in active - {t} ==> u.key != t.key
  {
  }

  lemma CooldownRuns(active: set<RequestTask>, cooldown: map<Key, int>, failedAt: map<Key, int>, t: RequestTask, now: int)
    requires Cooldowns(active, cooldown, failedAt)
    requires forall u :: u in active - {t} ==> u.key != t.key
    ensures Cooldowns(active - {t}, cooldown, failedAt)
    ensures Cooldowns(active - {t}, cooldown[t.key := now + FAILURE_COOLDOWN], failedAt[t.key := now])
  {
  }

  /** The records say which issuances are unfinished and which run. */
  ghost predicate Statuses(created: seq<RequestTask>, active: set<RequestTask>, running: set<RequestTask>)
    reads set t | t in created
  {
    forall t :: t in created ==> Tracked(t, active, running)
  }

  ghost predicate Tracked(t: RequestTask, active: set<RequestTask>, running: set<RequestTask>)
    reads t
  {
    (t.Unfinished() <==> t in active) && (t.status == Running <==> t in running)
  }

  /** The same for all tasks but one. */
  ghost predicate OtherStatuses(created: seq<RequestTask>, active: set<RequestTask>, running: set<RequestTask>,
                                but: RequestTask)
    reads set t | t in created && t != but
  {
    forall t :: t in created && t != but ==> Tracked(t, active, running)
  }

  lemma BornFinished(created: seq<RequestTask>, active: set<RequestTask>, running: set<RequestTask>, t: RequestTask)
    requires Statuses(created, active, running) && !t.Unfinished() && t !in active && running <= active
    ensures Statuses([t] + created, active, running)
  {
  }

  lemma BornPending(created: seq<RequestTask>, active: set<RequestTask>, running: set<RequestTask>, t: RequestTask)
    requires Statuses(created, active, running) && t.status == Pending && t !in created && t !in running
    ensures Statuses([t] + created, active + {t}, running)
  {
  }

  lemma Ended(created: seq<RequestTask>, active: set<RequestTask>, running: set<RequestTask>, t: RequestTask)
    requires OtherStatuses(created, active, running, t) && !t.Unfinished()
    ensures Statuses(created, active - {t}, running - {t})
  {
  }

  class Service {
    var tasks: seq<RequestTask>
    var byID: map<string, RequestTask>
    var inflight: map<Key, RequestTask>
    var cooldown: map<Key, int>
    /** Tokens of the shared semaphore in use, by issuances and by renewal checks. */
    var sem: nat

    /** Every task ever made, newest first. */
    ghost var created: seq<RequestTask>
    /** The tasks that wait or run, and those that run. */
    ghost var active: set<RequestTask>
    ghost var running: set<RequestTask>
    /** When the last issuance of a key failed. */
    ghost var failedAt: map<Key, int>

    ghost function All(): set<RequestTask>
      reads this
    {
      set t | t in created
    }

    ghost predicate Valid()
      reads this, All()
    {
      && tasks == Newest(created) && DistinctIds(created) && byID == Index(tasks)
      && SingleFlight(active, inflight)
      && Cooldowns(active, cooldown, failedAt)
      && active <= All() && running <= active
      && Statuses(created, active, running)
      && |running| <= sem <= MAX_CONCURRENT_ISSUES
    }

    constructor ()
      ensures Valid() && created == []
    {
      tasks, byID, inflight, cooldown, sem := [], map[], map[], map[], 0;
      created, active, running, failedAt := [], {}, {}, map[];
    }

    /** Puts a task at the head of the history, evicting the oldest beyond the bound. */
    method AddTask(t: RequestTask)
      requires tasks == Newest(created) && DistinctIds(created) && byID == Index(tasks)
      requires forall s :: s in created ==> s.id != t.id
      modifies this`tasks, this`byID, this`created
      ensures created == [t] + old(created)
      ensures tasks == Newest(created) && DistinctIds(created) && byID == Index(tasks)
    {
      var longer := [t] + tasks;
      assert longer[1..] == tasks && ([t] + created)[1..] == created;
      byID := byID[t.id := t];
      created := [t] + created;
      tasks := longer;
      if |tasks| > MAX_RECENT_TASKS {
        assert tasks == created[..MAX_RECENT_TASKS + 1];
        DistinctPrefix(created, MAX_RECENT_TASKS + 1);
        IndexFront(tasks);
        byID := byID - {tasks[MAX_RECENT_TASKS].id};
        tasks := tasks[..MAX_RECENT_TASKS];
      }
    }

    /** Submits a request for one domain. */
    method Request(domain0: string, staging: bool, id: string, now: int, cachedNotAfter: Option<int>)
        returns (answer: Answer)
      requires Valid() && forall t :: t in created ==> t.id != id
      modifies this
      ensures Valid()
      ensures answer == InvalidDomain <==> !ValidDomain(ToLower(TrimSpace(domain0)))
      ensures answer == InvalidDomain ==> created == old(created) && inflight == old(inflight)
      ensures answer != InvalidDomain ==>
        Answers(Key(staging, ToLower(TrimSpace(domain0))), id, now, cachedNotAfter, answer)
      ensures failedAt == old(failedAt) && running == old(running) && sem == old(sem)
    {
      var domain := ToLower(TrimSpace(domain0));
      if !ValidDomain(domain) {
        return InvalidDomain;
      }
      answer := Submit(Key(staging, domain), id, now, cachedNotAfter);
    }

    /** What a request for a key does, in the program's order of tests. */
    twostate predicate Answers(key: Key, id: string, now: int, cachedNotAfter: Option<int>, new answer: Answer)
      reads this, if answer.Accepted? then {answer.task} else {}
    {
      if key in old(inflight) then
        answer == Accepted(old(inflight)[key]) && created == old(created) && inflight == old(inflight)
      else if key in old(failedAt) && now < old(failedAt)[key] + FAILURE_COOLDOWN then
        answer == CoolingDown && created == old(created) && inflight == old(inflight)
      else
        && answer.Accepted? && created == [answer.task] + old(created)
        && answer.task.key == key && answer.task.id == id && answer.task.requestedAt == now
        && if cachedNotAfter.Some? && cachedNotAfter.value > now + RENEW_BEFORE
           then answer.task.status == Success && answer.task.reused && inflight == old(inflight)
           else answer.task.status == Pending && inflight == old(inflight)[key := answer.task]
    }

    method Submit(key: Key, id: string, now: int, cachedNotAfter: Option<int>) returns (answer: Answer)
      requires Valid() && forall t :: t in created ==> t.id != id
      modifies this`tasks, this`byID, this`created, this`inflight, this`active
      ensures Valid() && answer != InvalidDomain
      ensures Answers(key, id, now, cachedNotAfter, answer)
    {
      if key in inflight {
        return Accepted(inflight[key]);
      }
      if key in cooldown && now < cooldown[key] {
        return CoolingDown;
      }
      if cachedNotAfter.Some? && cachedNotAfter.value > now + RENEW_BEFORE {
        var done := AnswerFromCache(key, id, now, cachedNotAfter);
        return Accepted(done);
      }
      var t := Enqueue(key, id, now);
      return Accepted(t);
    }

    /** A task that is born finished: the cached certificate answers it. */
    method AnswerFromCache(key: Key, id: string, now: int, notAfter: Option<int>) returns (t: RequestTask)
      requires Valid() && forall s :: s in created ==> s.id != id
      modifies this`tasks, this`byID, this`created
      ensures Valid() && created == [t] + old(created)
      ensures t.key == key && t.id == id && t.requestedAt == now && t.status == Success && t.reused
    {
      t := new RequestTask.FromCache(id, key, now, notAfter);
      BornFinished(created, active, running, t);
      AddTask(t);
    }

    method Enqueue(key: Key, id: string, now: int) returns (t: RequestTask)
      requires Valid() && forall s :: s in created ==> s.id != id
      requires key !in inflight && (key in cooldown ==> now >= cooldown[key])
      modifies this`tasks, this`byID, this`created, this`inflight, this`active
      ensures Valid() && created == [t] + old(created)
      ensures t.key == key && t.id == id && t.requestedAt == now && t.status == Pending
      ensures inflight == old(inflight)[key := t]
    {
      ghost var runningNow, semNow := running, sem;
      t := new RequestTask(id, key, now);
      BornPending(created, active, running, t);
      AddTask(t);
      Enlist(t);
      assert running == runningNow && sem == semNow;
    }

    /** The bookkeeping for a new unfinished task. */
    method Enlist(t: RequestTask)
      requires SingleFlight(active, inflight) && Cooldowns(active, cooldown, failedAt)
      requires t.key !in inflight && (t.key in failedAt ==> t.requestedAt >= failedAt[t.key] + FAILURE_COOLDOWN)
      modifies this`active, this`inflight
      ensures SingleFlight(active, inflight) && Cooldowns(active, cooldown, failedAt)
      ensures active == old(active) + {t} && inflight == old(inflight)[t.key := t]
    {
      FlightBegins(active, inflight, cooldown, failedAt, t);
      inflight := inflight[t.key := t];
      active := active + {t};
    }

    /**
     An issuance goroutine gets a semaphore token and begins. Whatever happened before,
     the cooldown after the last failure of its key is over.
     */
    method Start(t: RequestTask, now: int)
      requires Valid() && t in created && t.status == Pending && sem < MAX_CONCURRENT_ISSUES
      requires t.requestedAt <= now
      modifies this`sem, this`running, t`status
      ensures Valid()
      ensures t.status == Running && running == old(running) + {t} && sem == old(sem) + 1
      ensures t.key in failedAt ==> now >= failedAt[t.key] + FAILURE_COOLDOWN
      ensures |running| <= MAX_CONCURRENT_ISSUES
    {
      sem := sem + 1;
      t.status := Running;
      running := running + {t};
    }

    /** The issuance ends; a failure starts the cooldown of its key. */
    method Finish(t: RequestTask, ok: bool, notAfter: Option<int>, now: int)
      requires Valid() && t in created && t.status == Running
      modifies this`sem, this`active, this`running, this`inflight, this`cooldown, this`failedAt, t
      ensures Valid()
      ensures t.status == if ok then Success else Failed
      ensures t.finishedAt == Some(now)
      ensures running == old(running) - {t} && sem == old(sem) - 1
      ensures inflight == old(inflight) - {t.key}
      ensures failedAt == if ok then old(failedAt) else old(failedAt)[t.key := now]
    {
      assert OtherStatuses(created, active, running, t);
      Settle(t, ok, notAfter, now);
      Ended(created, active, running, t);
      Retire(t, ok, now);
    }

    static method Settle(t: RequestTask, ok: bool, notAfter: Option<int>, now: int)
      modifies t
      ensures t.status == (if ok then Success else Failed) && t.finishedAt == Some(now)
    {
      t.finishedAt := Some(now);
      if !ok {
        t.status := Failed;
      } else {
        t.status := Success;
        if notAfter.Some? {
          t.notAfter := notAfter;
        }
      }
    }

    /** The bookkeeping at the end of an issuance. */
    method Retire(t: RequestTask, ok: bool, now: int)
      requires SingleFlight(active, inflight) && Cooldowns(active, cooldown, failedAt)
      requires running <= active && |running| <= sem && t in running
      modifies this`sem, this`active, this`running, this`inflight, this`cooldown, this`failedAt
      ensures SingleFlight(active, inflight) && Cooldowns(active, cooldown, failedAt)
      ensures active == old(active) - {t} && running == old(running) - {t}
      ensures sem == old(sem) - 1 && |running| == |old(running)| - 1
      ensures inflight == old(inflight) - {t.key}
      ensures failedAt == if ok then old(failedAt) else old(failedAt)[t.key := now]
    {
      FlightEnds(active, inflight, t);
      CooldownRuns(active, cooldown, failedAt, t, now);
      sem := sem - 1;
      inflight := inflight - {t.key};
      if !ok {
        cooldown := cooldown[t.key := now + FAILURE_COOLDOWN];
        failedAt := failedAt[t.key := now];
      }
      active, running := active - {t}, running - {t};
    }

    /** A renewal check takes and returns a token of the same semaphore. */
    method RenewalStart()
      requires Valid() && sem < MAX_CONCURRENT_ISSUES
      modifies this`sem
      ensures Valid() && sem == old(sem) + 1
    {
      sem := sem + 1;
    }

    method RenewalEnd()
      requires Valid() && |running| < sem
      modifies this`sem
      ensures Valid() && sem == old(sem) - 1
    {
      sem := sem - 1;
    }

    /** A task can be looked up exactly while it is among the newest ones. */
    method Task(id: string) returns (t: Option<RequestTask>)
      requires Valid()
      ensures t.Some? ==> t.value in Newest(created) && t.value.id == id
      ensures t.None? ==> forall s :: s in Newest(created) ==> s.id != id
    {
      IndexMembers(tasks, id);
      if id in byID {
        return Some(byID[id]);
      }
      return None;
    }

    /** Single flight: two unfinished tasks of the same key are the same task. */
    lemma OneUnfinishedPerKey(t: RequestTask, u: RequestTask)
      requires Valid() && t in created && u in created
      requires t.Unfinished() && u.Unfinished() && t.key == u.key
      ensures t == u
    {
    }
  }
}
