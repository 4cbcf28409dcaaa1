/**
 Daily request counters: live counters and a persisted baseline for the current day, a history of
 past days, rollover at midnight and restarts.

 Days are the program's YYYYMMDD numbers. Each operation reads the clock once; today and the pruning
 cutoff are parameters.
 */
module DailyCounters {
  import opened Decimal
  import opened Options
  import opened Sets
  import opened Text

  type Counts = map<string, int>

  // --- Day keys -------------------------------------------------------------------------------

  /** n in w digits, zero-padded. */
  function Pad(n: nat, w: nat): (r: string)
    ensures |r| == w
  {
    if w == 0 then "" else Pad(n / 10, w - 1) + [Digit(n)]
  }

  /** %04d-%02d-%02d of year, month and day. */
  function DayKeyString(cur: nat): string {
    Pad(cur / 10000, 4) + ("-" + (Pad((cur / 100) % 100, 2) + ("-" + Pad(cur % 100, 2))))
  }

  /** The byte-wise order in which the program compares date strings. */
  predicate Less(a: string, b: string) {
    b != "" && (a == "" || a[0] < b[0] || (a[0] == b[0] && Less(a[1..], b[1..])))
  }

  lemma {:induction false} LessAt(a: string, b: string, i: nat)
    requires i < |a| && i < |b| && a[..i] == b[..i] && a[i] < b[i]
    ensures Less(a, b) && !Less(b, a)
  {
    if i > 0 {
      assert a[0] == a[..i][0] && b[0] == b[..i][0];
      assert a[1..][..i - 1] == a[..i][1..] && b[1..][..i - 1] == b[..i][1..];
      LessAt(a[1..], b[1..], i - 1);
    }
  }

  lemma {:induction false} NotLessSelf(a: string)
    ensures !Less(a, a)
  {
    if a != "" {
      NotLessSelf(a[1..]);
    }
  }

  lemma {:induction false} LessAfter(p: string, a: string, b: string)
    ensures Less(p + a, p + b) == Less(a, b)
  {
    if p == "" {
      assert p + a == a && p + b == b;
    } else {
      LessAfter(p[1..], a, b);
      assert (p + a)[1..] == p[1..] + a && (p + b)[1..] == p[1..] + b;
    }
  }

  /** Padded numbers compare as numbers, whatever follows. */
  lemma {:induction false} PadLess(a: nat, b: nat, w: nat, x: string, y: string)
    requires a < b < Pow10(w)
    ensures Less(Pad(a, w) + x, Pad(b, w) + y) && !Less(Pad(b, w) + y, Pad(a, w) + x)
  {
    var front, front' := Pad(a / 10, w - 1), Pad(b / 10, w - 1);
    assert Pad(a, w) + x == front + ([Digit(a)] + x) && Pad(b, w) + y == front' + ([Digit(b)] + y);
    if a / 10 < b / 10 {
      PadLess(a / 10, b / 10, w - 1, [Digit(a)] + x, [Digit(b)] + y);
    } else {
      LessAt(Pad(a, w) + x, Pad(b, w) + y, w - 1);
    }
  }

  /** Rendered dates are ordered as their day numbers, so the history may be keyed by either. */
  lemma DayKeyOrder(a: nat, b: nat)
    requires a < 100000000 && b < 100000000
    ensures Less(DayKeyString(a), DayKeyString(b)) <==> a < b
    ensures DayKeyString(a) == DayKeyString(b) <==> a == b
  {
    NotLessSelf(DayKeyString(a));
    if a < b {
      EarlierIsLess(a, b);
    } else if b < a {
      EarlierIsLess(b, a);
    }
  }

  lemma EarlierIsLess(a: nat, b: nat)
    requires a < b < 100000000
    ensures Less(DayKeyString(a), DayKeyString(b)) && !Less(DayKeyString(b), DayKeyString(a))
  {
    DateParts(a, b);
    PartsLess(a / 10000, (a / 100) % 100, a % 100, b / 10000, (b / 100) % 100, b % 100);
  }

  lemma DateParts(a: nat, b: nat)
    requires a < b < 100000000
    ensures b / 10000 < 10000
    ensures a / 10000 <= b / 10000
    ensures a / 10000 == b / 10000 ==> (a / 100) % 100 <= (b / 100) % 100
    ensures a / 10000 == b / 10000 && (a / 100) % 100 == (b / 100) % 100 ==> a % 100 < b % 100
  {
  }

  lemma PartsLess(year: nat, month: nat, day: nat, year': nat, month': nat, day': nat)
    requires month < 100 && day < 100 && month' < 100 && day' < 100 && year' < 10000
    requires year <= year' && (year == year' ==> month <= month' && (month == month' ==> day < day'))
    ensures var s := Pad(year, 4) + ("-" + (Pad(month, 2) + ("-" + Pad(day, 2))));
      var t := Pad(year', 4) + ("-" + (Pad(month', 2) + ("-" + Pad(day', 2))));
      Less(s, t) && !Less(t, s)
  {
    var tail, tail' := "-" + (Pad(month, 2) + ("-" + Pad(day, 2))), "-" + (Pad(month', 2) + ("-" + Pad(day', 2)));
    if year < year' {
      assert Pow10(3) == 1000 && Pow10(4) == 10000;
      PadLess(year, year', 4, tail, tail');
    } else {
      SameYear(month, day, month', day');
      LessAfter(Pad(year, 4), tail, tail');
      LessAfter(Pad(year, 4), tail', tail);
    }
  }

  lemma SameYear(month: nat, day: nat, month': nat, day': nat)
    requires month < 100 && day < 100 && month' < 100 && day' < 100
    requires month < month' || (month == month' && day < day')
    ensures var tail, tail' := "-" + (Pad(month, 2) + ("-" + Pad(day, 2))), "-" + (Pad(month', 2) + ("-" + Pad(day', 2)));
      Less(tail, tail') && !Less(tail', tail)
  {
    assert Pow10(2) == 100;
    var rest, rest' := "-" + Pad(day, 2), "-" + Pad(day', 2);
    if month < month' {
      PadLess(month, month', 2, rest, rest');
    } else {
      PadLess(day, day', 2, "", "");
      assert Pad(day, 2) + "" == Pad(day, 2) && Pad(day', 2) + "" == Pad(day', 2);
      LessAfter("-", Pad(day, 2), Pad(day', 2));
      LessAfter("-", Pad(day', 2), Pad(day, 2));
      LessAfter(Pad(month, 2), rest, rest');
      LessAfter(Pad(month, 2), rest', rest);
    }
    LessAfter("-", Pad(month, 2) + rest, Pad(month', 2) + rest');
    LessAfter("-", Pad(month', 2) + rest', Pad(month, 2) + rest);
  }

  // --- Labels ---------------------------------------------------------------------------------

  function LabelKey(site: string, outcome: string): string {
    site + ['\0'] + outcome
  }

  /** The part after the first separator; keys without one are skipped. */
  function OutcomeOf(key: string): Option<string> {
    if '\0' in key then Some(key[IndexOf(key, '\0') + 1..]) else None
  }

  /** The part before the first separator. */
  function SiteOf(key: string): Option<string> {
    Some(if '\0' in key then key[..IndexOf(key, '\0')] else key)
  }

  lemma KeyRoundTrip(site: string, outcome: string)
    requires '\0' !in site
    ensures SiteOf(LabelKey(site, outcome)) == Some(site)
    ensures OutcomeOf(LabelKey(site, outcome)) == Some(outcome)
  {
    var key := LabelKey(site, outcome);
    assert key[|site|] == '\0' && key[..|site|] == site && key[|site| + 1..] == outcome;
    FirstIndex(key, '\0', |site|);
  }

  // --- Sums over counter maps -----------------------------------------------------------------

  function Get(m: Counts, k: string): int {
    if k in m then m[k] else 0
  }

  function Plus(m: Counts, k: string, v: int): Counts {
    m[k := Get(m, k) + v]
  }

  /** v when the key belongs to the group. */
  function Share(group: string -> Option<string>, k: string, v: int, g: string): int {
    if group(k) == Some(g) then v else 0
  }

  /** The total of the counters whose key belongs to group g. */
  ghost function GroupSum(group: string -> Option<string>, m: Counts, g: string): int
    decreases |m|
  {
    if m == map[] then 0
    else
      var k :| k in m;
      Shrinks(m, k);
      Share(group, k, m[k], g) + GroupSum(group, m - {k}, g)
  }

  lemma Shrinks(m: Counts, k: string)
    requires k in m
    ensures |m - {k}| < |m|
  {
  }

  /** Any key can be summed last. */
  lemma {:induction false} GroupSumRemove(group: string -> Option<string>, m: Counts, k: string, g: string)
    requires k in m
    ensures GroupSum(group, m, g) == Share(group, k, m[k], g) + GroupSum(group, m - {k}, g)
    decreases |m|
  {
    var j :| j in m && GroupSum(group, m, g) == Share(group, j, m[j], g) + GroupSum(group, m - {j}, g);
    if j != k {
      Shrinks(m, j);
      Shrinks(m, k);
      GroupSumRemove(group, m - {j}, k, g);
      GroupSumRemove(group, m - {k}, j, g);
      assert m - {j} - {k} == m - {k} - {j};
    }
  }

  lemma GroupSumPlus(group: string -> Option<string>, m: Counts, k: string, v: int, g: string)
    ensures GroupSum(group, Plus(m, k, v), g) == GroupSum(group, m, g) + Share(group, k, v, g)
  {
    GroupSumRemove(group, Plus(m, k, v), k, g);
    assert Plus(m, k, v) - {k} == m - {k};
    if k in m {
      GroupSumRemove(group, m, k, g);
    } else {
      assert m - {k} == m;
    }
  }

  /** The loop that adds up one map by group. */
  method AddByGroup(group: string -> Option<string>, sums0: Counts, m: Counts) returns (sums: Counts)
    ensures forall g :: Get(sums, g) == Get(sums0, g) + GroupSum(group, m, g)
  {
    sums := sums0;
    var rest := m;
    while rest != map[]
      invariant forall g :: Get(sums, g) + GroupSum(group, rest, g) == Get(sums0, g) + GroupSum(group, m, g)
      decreases |rest|
    {
      var k :| k in rest;
      Shrinks(rest, k);
      forall g {
        GroupSumRemove(group, rest, k, g);
      }
      if group(k).Some? {
        sums := Plus(sums, group(k).value, rest[k]);
      }
      rest := rest - {k};
    }
  }

  /** The loop that adds one map to another, key by key. */
  method AddAll(counts0: Counts, m: Counts) returns (counts: Counts)
    ensures forall k :: Get(counts, k) == Get(counts0, k) + Get(m, k)
    ensures forall k :: k in counts <==> k in counts0 || k in m
    ensures forall group: string -> Option<string>, g ::
      GroupSum(group, counts, g) == GroupSum(group, counts0, g) + GroupSum(group, m, g)
  {
    counts := counts0;
    var rest := m;
    while rest != map[]
      invariant forall k :: k in rest ==> k in m
      invariant forall k :: Get(counts, k) + Get(rest, k) == Get(counts0, k) + Get(m, k)
      invariant forall k :: k in counts || k in rest <==> k in counts0 || k in m
      invariant forall group: string -> Option<string>, g ::
        GroupSum(group, counts, g) + GroupSum(group, rest, g) == GroupSum(group, counts0, g) + GroupSum(group, m, g)
      decreases |rest|
    {
      var k :| k in rest;
      Shrinks(rest, k);
      forall group: string -> Option<string>, g
        ensures GroupSum(group, Plus(counts, k, rest[k]), g) + GroupSum(group, rest - {k}, g) ==
          GroupSum(group, counts, g) + GroupSum(group, rest, g)
      {
        GroupSumRemove(group, rest, k, g);
        GroupSumPlus(group, counts, k, rest[k], g);
      }
      counts := Plus(counts, k, rest[k]);
      rest := rest - {k};
    }
  }

  // --- What happened: the log of increments ---------------------------------------------------

  datatype Increment = Increment(day: int, site: string, outcome: string)

  function KeyOf(e: Increment): string {
    LabelKey(e.site, e.outcome)
  }

  /** The increments of a day for one label pair. */
  ghost function CountKey(log: seq<Increment>, day: int, key: string): nat {
    if log == [] then 0
    else
      var n := |log| - 1;
      CountKey(log[..n], day, key) + if log[n].day == day && KeyOf(log[n]) == key then 1 else 0
  }

  /** The increments of a day for one group of label pairs. */
  ghost function CountGroup(log: seq<Increment>, day: int, group: string -> Option<string>, g: string): nat {
    if log == [] then 0
    else
      var n := |log| - 1;
      CountGroup(log[..n], day, group, g) + if log[n].day == day && group(KeyOf(log[n])) == Some(g) then 1 else 0
  }

  lemma {:induction false} NothingCounted(log: seq<Increment>, day: int)
    requires forall i :: 0 <= i < |log| ==> log[i].day != day
    ensures forall key :: CountKey(log, day, key) == 0
    ensures forall group: string -> Option<string>, g :: CountGroup(log, day, group, g) == 0
  {
    if log != [] {
      NothingCounted(log[..|log| - 1], day);
    }
  }

  lemma {:induction false} CountedKeysOnly(log: seq<Increment>, day: int, i: nat)
    requires i < |log| && log[i].day == day
    ensures CountKey(log, day, KeyOf(log[i])) > 0
  {
    if i < |log| - 1 {
      CountedKeysOnly(log[..|log| - 1], day, i);
    }
  }

  lemma CountSnoc(log: seq<Increment>, e: Increment)
    ensures forall day, key ::
      CountKey(log + [e], day, key) ==
      CountKey(log, day, key) + if e.day == day && KeyOf(e) == key then 1 else 0
    ensures forall day, group: string -> Option<string>, g ::
      CountGroup(log + [e], day, group, g) ==
      CountGroup(log, day, group, g) + if e.day == day && group(KeyOf(e)) == Some(g) then 1 else 0
  {
  }

  /** The same counts by the fields of the increments. */
  ghost function CountWhere(log: seq<Increment>, day: int, p: Increment -> bool): nat {
    if log == [] then 0
    else
      var n := |log| - 1;
      CountWhere(log[..n], day, p) + if log[n].day == day && p(log[n]) then 1 else 0
  }

  lemma {:induction false} CountsByField(log: seq<Increment>, day: int, site: string, outcome: string)
    requires '\0' !in site && forall i :: 0 <= i < |log| ==> '\0' !in log[i].site
    ensures CountKey(log, day, LabelKey(site, outcome)) ==
      CountWhere(log, day, (e: Increment) => e.site == site && e.outcome == outcome)
    ensures CountGroup(log, day, OutcomeOf, outcome) == CountWhere(log, day, (e: Increment) => e.outcome == outcome)
    ensures CountGroup(log, day, SiteOf, site) == CountWhere(log, day, (e: Increment) => e.site == site)
  {
    if log != [] {
      var n := |log| - 1;
      CountsByField(log[..n], day, site, outcome);
      KeyRoundTrip(site, outcome);
      KeyRoundTrip(log[n].site, log[n].outcome);
    }
  }

  /** The two maps together count exactly the day's increments, per label pair and per group. */
  ghost predicate Tracks(base: Counts, live: Counts, log: seq<Increment>, day: int) {
    && (forall key :: Get(base, key) + Get(live, key) == CountKey(log, day, key))
    && (forall group: string -> Option<string>, g ::
          GroupSum(group, base, g) + GroupSum(group, live, g) == CountGroup(log, day, group, g))
  }

  /** The entry holds exactly the day's increments per outcome. */
  ghost predicate ExactDay(entry: Counts, log: seq<Increment>, day: int) {
    forall o :: Get(entry, o) == CountGroup(log, day, OutcomeOf, o)
  }

  lemma TracksIncrement(base: Counts, live: Counts, log: seq<Increment>, e: Increment)
    requires Tracks(base, live, log, e.day)
    ensures Tracks(base, Plus(live, KeyOf(e), 1), log + [e], e.day)
  {
    CountSnoc(log, e);
    forall group: string -> Option<string>, g
      ensures GroupSum(group, base, g) + GroupSum(group, Plus(live, KeyOf(e), 1), g) ==
        CountGroup(log + [e], e.day, group, g)
    {
      GroupSumPlus(group, live, KeyOf(e), 1, g);
    }
  }

  function Later(a: int, b: int): int {
    if a > b then a else b
  }

  /** Every day but the open one is exact, and none at or after the horizon is missing. */
  ghost predicate Archived(history: map<int, Counts>, log: seq<Increment>, open: int, horizon: int) {
    && (forall d :: d in history ==> 0 < d)
    && (forall d :: d in history && d != open ==> ExactDay(history[d], log, d))
    && (forall i :: 0 <= i < |log| && log[i].day != open && log[i].day >= horizon ==> log[i].day in history)
  }

  /** after is before with an exact entry for the open day, cut off. */
  lemma ArchivedMore(before: map<int, Counts>, after: map<int, Counts>, log: seq<Increment>, day: int, horizon: int,
                     cutoff: int, base: Counts, live: Counts)
    requires Archived(before, log, day, horizon) && Tracks(base, live, log, day) && 0 < day
    requires forall d :: d in after <==> (d in before || d == day) && d >= cutoff
    requires forall d :: d in after && d != day ==> after[d] == before[d]
    requires day in after ==>
      forall o :: Get(after[day], o) == GroupSum(OutcomeOf, base, o) + GroupSum(OutcomeOf, live, o)
    ensures Archived(after, log, 0, Later(cutoff, horizon)) && Archived(after, log, day, Later(cutoff, horizon))
  {
    if day in after {
      assert ExactDay(after[day], log, day);
    }
  }

  lemma TracksNothing(log: seq<Increment>, day: int)
    requires forall i :: 0 <= i < |log| ==> log[i].day != day
    ensures Tracks(map[], map[], log, day)
  {
    NothingCounted(log, day);
  }

  class Daily {
    var live: Counts
    var base: Counts
    var day: int
    var history: map<int, Counts>
    var dailyFile: Option<(int, Counts)>
    var historyFile: map<int, Counts>

    ghost var log: seq<Increment>
    ghost var clock: int
    /** Days before this one may have been pruned. */
    ghost var horizon: int
    /** The cutoff of the last pruning. */
    ghost var floor: int
    /** Nothing was counted since the last flush. */
    ghost var clean: bool

    ghost predicate LogOk()
      reads this
    {
      && (forall i :: 0 <= i < |log| ==> 0 < log[i].day <= clock && '\0' !in log[i].site)
      && (day == 0 ==> forall i :: 0 <= i < |log| ==> log[i].day < clock)
      && (day != 0 ==> 0 < day <= clock && forall i :: 0 <= i < |log| ==> log[i].day <= day)
    }

    ghost predicate TodayOk()
      reads this
    {
      if day == 0 then live == map[] && base == map[] else Tracks(base, live, log, day)
    }

    /** Past days are exact, and none is missing within the retention. */
    ghost predicate HistoryOk()
      reads this
    {
      Archived(history, log, day, horizon)
    }

    /** After a flush the current day is on record too, and the files hold everything. */
    ghost predicate FilesOk()
      reads this
    {
      && day != 0
      && dailyFile.Some? && dailyFile.value.0 == day && Tracks(dailyFile.value.1, map[], log, day)
      && historyFile == history
      && Archived(history, log, 0, horizon)
    }

    /** The days on record are neither older than the last cutoff nor later than now. */
    ghost predicate RangeOk()
      reads this
    {
      forall d :: d in history ==> floor <= d <= clock
    }

    ghost predicate Valid()
      reads this
    {
      LogOk() && TodayOk() && HistoryOk() && RangeOk() && (clean ==> FilesOk())
    }

    constructor ()
      ensures Valid() && log == []
    {
      live, base, day, history := map[], map[], 0, map[];
      dailyFile, historyFile := None, map[];
      log, clock, horizon, floor, clean := [], 0, 0, 0, false;
    }

    /** Folds baseline and live counters into the history of one day and prunes old days. */
    method RecordHistory(dayKey: int, cutoff: int)
      modifies this`history
      ensures forall d :: d in history <==> (d in old(history) || d == dayKey) && d >= cutoff
      ensures forall d :: d in history && d != dayKey ==> history[d] == old(history)[d]
      ensures dayKey in history ==>
        forall o :: Get(history[dayKey], o) == GroupSum(OutcomeOf, base, o) + GroupSum(OutcomeOf, live, o)
    {
      var sums := AddByGroup(OutcomeOf, map[], base);
      sums := AddByGroup(OutcomeOf, sums, live);
      history := history[dayKey := sums];
      var todo := history.Keys;
      ghost var all := history;
      while todo != {}
        invariant todo <= all.Keys
        invariant forall d :: d in history <==> d in all && (d in todo || d >= cutoff)
        invariant forall d :: d in history ==> history[d] == all[d]
        decreases todo
      {
        ghost var some := Pick(todo);
        var d :| d in todo;
        todo := todo - {d};
        if d < cutoff {
          history := history - {d};
        }
      }
    }

    /** Records the current day, so that every day on record is exact. */
    method RecordCurrent(cutoff: int)
      requires Valid() && day != 0
      modifies this`history, this`horizon, this`floor, this`clean
      ensures Archived(history, log, 0, horizon) && Archived(history, log, day, horizon)
      ensures Valid() && !clean && horizon == Later(cutoff, old(horizon)) && floor == cutoff
      ensures forall d :: d in history ==> d in old(history) || d == day
    {
      ghost var before := history;
      RecordHistory(day, cutoff);
      ArchivedMore(before, history, log, day, horizon, cutoff, base, live);
      horizon, floor := Later(cutoff, horizon), cutoff;
      clean := false;
    }

    /** Starts a new day when the clock has left the current one. */
    method RollDaily(today: int, cutoff: int)
      requires Valid() && clock <= today && 0 < today
      modifies this
      ensures Valid() && clock == today && day == today && log == old(log)
      ensures clean == (old(clean) && old(day) == today)
      ensures old(day) == today ==>
        history == old(history) && horizon == old(horizon) && live == old(live) && base == old(base)
      ensures old(day) != today ==> live == map[] && base == map[] && Archived(history, log, 0, horizon)
      ensures old(horizon) <= horizon <= Later(cutoff, old(horizon))
      ensures floor == if old(day) != 0 && old(day) != today then cutoff else old(floor)
      ensures old(day) != 0 && old(day) != today ==> forall d :: d in history ==> d >= cutoff
      ensures dailyFile == old(dailyFile) && historyFile == old(historyFile)
    {
      clock := today;
      if day == today {
        return;
      }
      CloseDay(cutoff);
      OpenDay(today);
    }

    /** The counters of the day that is over go into its history. */
    method CloseDay(cutoff: int)
      requires Valid() && day != clock
      modifies this`history, this`horizon, this`floor, this`clean
      ensures Archived(history, log, 0, horizon) && old(horizon) <= horizon <= Later(cutoff, old(horizon))
      ensures RangeOk() && floor == if day != 0 then cutoff else old(floor)
    {
      if day != 0 {
        RecordCurrent(cutoff);
      }
    }

    /** The counters of a closed day are dropped and the new day starts empty. */
    method OpenDay(today: int)
      requires Archived(history, log, 0, horizon) && RangeOk() && 0 < today && today == clock
      requires forall i :: 0 <= i < |log| ==> 0 < log[i].day < today && '\0' !in log[i].site
      modifies this`live, this`base, this`day, this`clean
      ensures Valid() && day == today && live == map[] && base == map[] && !clean
    {
      live := map[];
      base := map[];
      day := today;
      clean := false;
      TracksNothing(log, today);
    }

    /** Counts one request. */
    method DailyReqInc(site: string, outcome: string, today: int, cutoff: int)
      requires Valid() && clock <= today && 0 < today
      requires '\0' !in site
      modifies this
      ensures Valid() && log == old(log) + [Increment(today, site, outcome)]
      ensures old(horizon) <= horizon <= Later(cutoff, old(horizon))
      ensures old(day) != 0 && old(day) != today ==> forall d :: d in history ==> d >= cutoff
    {
      RollDaily(today, cutoff);
      Inc(site, outcome);
    }

    /** The increment itself, on the current day. */
    method Inc(site: string, outcome: string)
      requires Valid() && day == clock && 0 < day && '\0' !in site
      modifies this`live, this`log, this`clean
      ensures Valid() && log == old(log) + [Increment(day, site, outcome)]
    {
      var e := Increment(day, site, outcome);
      TracksIncrement(base, live, log, e);
      CountSnoc(log, e);
      live := Plus(live, LabelKey(site, outcome), 1);
      log := log + [e];
      clean := false;
    }

    /** Folds the counters into the day they belong to and rolls the day forward. */
    method FoldDailyAndRoll(today: int, cutoff: int)
      requires Valid() && clock <= today && 0 < today
      modifies this
      ensures Valid() && clock == today && day == today && log == old(log) && !clean
      ensures Archived(history, log, 0, horizon) && horizon == Later(cutoff, old(horizon))
      ensures floor == cutoff && forall d :: d in history ==> cutoff <= d <= today
    {
      if day == 0 {
        RecordHistory(today, cutoff);
        horizon, floor, clock := Later(cutoff, horizon), cutoff, today;
        clean := false;
        NothingCounted(log, today);
      } else {
        RecordCurrent(cutoff);
      }
      RollDaily(today, cutoff);
    }

    /** Writes both state files. */
    method Flush(today: int, cutoff: int)
      requires Valid() && clock <= today && 0 < today
      modifies this
      ensures Valid() && clean && day == today && log == old(log) && horizon == Later(cutoff, old(horizon))
      ensures historyFile == history && forall d :: d in historyFile ==> cutoff <= d <= today
    {
      FoldDailyAndRoll(today, cutoff);
      WriteFiles();
    }

    method WriteFiles()
      requires Tracks(base, live, log, day)
      modifies this`dailyFile, this`historyFile, this`clean
      ensures dailyFile.Some? && dailyFile.value.0 == day && Tracks(dailyFile.value.1, map[], log, day)
      ensures historyFile == history && clean
    {
      var counts := AddAll(map[], base);
      counts := AddAll(counts, live);
      dailyFile := Some((day, counts));
      historyFile := history;
      clean := true;
    }

    /** Requests of the current day per site, as the console shows them. */
    method SnapshotDailyRequestsBySite() returns (out: Counts)
      requires Valid()
      ensures day != 0 ==> forall site :: '\0' !in site ==>
        Get(out, site) == CountWhere(log, day, (e: Increment) => e.site == site)
      ensures day == 0 ==> forall site :: Get(out, site) == 0
    {
      out := AddByGroup(SiteOf, map[], live);
      out := AddByGroup(SiteOf, out, base);
      if day != 0 {
        forall site | '\0' !in site
          ensures Get(out, site) == CountWhere(log, day, (e: Increment) => e.site == site)
        {
          CountsByField(log, day, site, "");
        }
      }
    }

    /** Main result for the current day: baseline and live counters add up to today's increments. */
    lemma TodayIsExact(site: string, outcome: string)
      requires Valid() && day != 0 && '\0' !in site
      ensures Get(base, LabelKey(site, outcome)) + Get(live, LabelKey(site, outcome)) ==
        CountWhere(log, day, (e: Increment) => e.site == site && e.outcome == outcome)
    {
      CountsByField(log, day, site, outcome);
    }

    /** The days on record are bounded from both sides in every reachable state. */
    lemma HistoryIsBounded()
      requires Valid()
      ensures forall d :: d in history ==> floor <= d <= clock
      ensures |history| <= if clock < floor then 0 else clock - floor + 1
    {
      BoundedCount(history.Keys, floor, clock);
      assert |history.Keys| == |history|;
    }

    /** Main result for past days: each one on record is exact per outcome, and none within the retention is missing. */
    lemma PastDaysAreExact()
      requires Valid()
      ensures forall d, outcome :: d in history && d != day ==>
        Get(history[d], outcome) == CountWhere(log, d, (e: Increment) => e.outcome == outcome)
      ensures forall i :: 0 <= i < |log| && log[i].day != day && log[i].day >= horizon ==> log[i].day in history
    {
      forall d, outcome | d in history && d != day
        ensures Get(history[d], outcome) == CountWhere(log, d, (e: Increment) => e.outcome == outcome)
      {
        CountsByField(log, d, "", outcome);
      }
    }

    /** The process stops after a flush and starts again, possibly on a later day. */
    method Restart(today: int)
      requires Valid() && clean && clock <= today && 0 < today
      modifies this
      ensures Valid() && log == old(log) && horizon == old(horizon) && history == old(history)
    {
      Boot(today);
    }

    /** The start of the process, which knows only the files. */
    method Boot(today: int)
      requires dailyFile.Some? && 0 < dailyFile.value.0 <= today
      requires Tracks(dailyFile.value.1, map[], log, dailyFile.value.0)
      requires Archived(historyFile, log, 0, horizon)
      requires forall d :: d in historyFile ==> floor <= d <= today
      requires forall i :: 0 <= i < |log| ==> 0 < log[i].day <= dailyFile.value.0 && '\0' !in log[i].site
      modifies this`live, this`base, this`day, this`history, this`clock, this`clean
      ensures Valid() && history == historyFile
    {
      live, base, day, history := map[], map[], 0, map[];
      clock := today;
      clean := false;
      LoadRequestsHistory();
      LoadDailyRequestsBase(today);
    }

    method LoadRequestsHistory()
      requires history == map[]
      modifies this`history
      ensures history == historyFile
    {
      if historyFile != map[] {
        history := historyFile;
      }
    }

    /** Restores the baseline only when the file belongs to today. */
    method LoadDailyRequestsBase(today: int)
      requires day == 0 && live == map[] && base == map[] && !clean && clock == today
      requires Archived(history, log, 0, horizon) && RangeOk()
      requires dailyFile.Some? && 0 < dailyFile.value.0 <= today
      requires Tracks(dailyFile.value.1, map[], log, dailyFile.value.0)
      requires forall i :: 0 <= i < |log| ==> 0 < log[i].day <= dailyFile.value.0 && '\0' !in log[i].site
      modifies this`base, this`day
      ensures Valid()
    {
      var date, counts := dailyFile.value.0, dailyFile.value.1;
      if counts == map[] {
        NothingLogged(log, date);
        return;
      }
      if date != today {
        return;
      }
      base := counts;
      day := today;
    }
  }

  lemma {:induction false} BoundedCount(s: set<int>, low: int, high: int)
    requires forall d :: d in s ==> low <= d <= high
    ensures |s| <= if high < low then 0 else high - low + 1
    decreases high - low
  {
    if s == {} {
    } else if high < low {
      var d := Pick(s);
    } else {
      BoundedCount(s - {high}, low, high - 1);
    }
  }

  /** With no counts there were no increments. */
  lemma NothingLogged(log: seq<Increment>, day: int)
    requires Tracks(map[], map[], log, day)
    ensures forall i :: 0 <= i < |log| ==> log[i].day != day
  {
    forall i | 0 <= i < |log|
      ensures log[i].day != day
    {
      if log[i].day == day {
        CountedKeysOnly(log, day, i);
      }
    }
  }
}
