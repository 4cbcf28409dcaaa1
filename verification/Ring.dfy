/**
 The live tail of the access log: a ring buffer with a filtered newest-first query, against the plain
 sequence of everything written.
 */
module Ring {
  import opened Text

  datatype Entry = Entry(site: string, clientIP: string, path: string, userAgent: string, outcome: string, rule: string)

  /** Case-insensitive substring search; the program's own scan, on ASCII. */
  method ContainsFold(s: string, sub: string) returns (found: bool)
    ensures found <==> Contains(ToLower(s), ToLower(sub))
  {
    var low, lowSub := ToLower(s), ToLower(sub);
    if |sub| == 0 {
      assert OccursAt(low, lowSub, 0);
      return true;
    }
    var n := |s| - |sub|;
    var i := 0;
    while i <= n
      invariant 0 <= i && (i <= n + 1 || n < 0)
      invariant forall k :: 0 <= k < i ==> !OccursAt(low, lowSub, k)
    {
      var matched := true;
      var j := 0;
      while j < |sub|
        invariant 0 <= j <= |sub|
        invariant matched ==> forall k :: 0 <= k < j ==> low[i + k] == lowSub[k]
        invariant !matched ==> !OccursAt(low, lowSub, i)
      {
        if Lower(s[i + j]) != Lower(sub[j]) {
          matched := false;
          assert low[i..i + |sub|][j] == low[i + j];
          break;
        }
        j := j + 1;
      }
      if matched {
        assert low[i..i + |sub|] == lowSub;
        assert OccursAt(low, lowSub, i);
        return true;
      }
      i := i + 1;
    }
    return false;
  }

  /** The query: each non-empty matcher must hold. */
  predicate Matches(e: Entry, site: string, q: string, outcome: string) {
    && (site == "" || Contains(ToLower(e.site), ToLower(site)))
    && (outcome == "" || e.outcome == outcome)
    && (q == "" || Contains(ToLower(e.path), ToLower(q)) || Contains(ToLower(e.userAgent), ToLower(q)) ||
        Contains(ToLower(e.clientIP), ToLower(q)) || Contains(ToLower(e.rule), ToLower(q)))
  }

  method MatchesQuery(e: Entry, site: string, q: string, outcome: string) returns (ok: bool)
    ensures ok == Query(site, q, outcome)(e)
  {
    if site != "" {
      var inSite := ContainsFold(e.site, site);
      if !inSite {
        return false;
      }
    }
    if outcome != "" && e.outcome != outcome {
      return false;
    }
    if q != "" {
      var inPath := ContainsFold(e.path, q);
      var inAgent := ContainsFold(e.userAgent, q);
      var inIP := ContainsFold(e.clientIP, q);
      var inRule := ContainsFold(e.rule, q);
      return inPath || inAgent || inIP || inRule;
    }
    return true;
  }

  /** The newest n of the written entries, newest first. */
  function NewestFirst(written: seq<Entry>, n: nat): seq<Entry>
    requires n <= |written|
  {
    seq(n, i requires 0 <= i < n => written[|written| - 1 - i])
  }

  function Query(site: string, q: string, outcome: string): Entry -> bool {
    e => Matches(e, site, q, outcome)
  }

  /** The matching ones among the first n entries. */
  function Matching(entries: seq<Entry>, n: nat, p: Entry -> bool): seq<Entry>
    requires n <= |entries|
  {
    if n == 0 then []
    else
      var front := Matching(entries, n - 1, p);
      if p(entries[n - 1]) then front + [entries[n - 1]] else front
  }

  /** The search text is looked for in four fields, in any case; the site is a substring too, the outcome exact. */
  lemma QuerySearches(e: Entry, site: string, q: string, outcome: string)
    ensures Query("", "", "")(e)
    ensures q != "" ==> (Query("", q, "")(e) <==>
      exists field :: field in [e.path, e.userAgent, e.clientIP, e.rule] && Contains(ToLower(field), ToLower(q)))
    ensures site != "" ==> (Query(site, "", "")(e) <==> Contains(ToLower(e.site), ToLower(site)))
    ensures outcome != "" ==> (Query("", "", outcome)(e) <==> e.outcome == outcome)
    ensures Query(site, q, outcome)(e) <==> Query(site, "", "")(e) && Query("", q, "")(e) && Query("", "", outcome)(e)
  {
    assert forall field :: field in [e.path, e.userAgent, e.clientIP, e.rule] <==>
      field == e.path || field == e.userAgent || field == e.clientIP || field == e.rule;
  }

  /** The first limit entries that match. */
  function FirstMatches(entries: seq<Entry>, limit: nat, p: Entry -> bool): seq<Entry> {
    var matching := Matching(entries, |entries|, p);
    if |matching| <= limit then matching else matching[..limit]
  }

  lemma MatchingOne(entries: seq<Entry>, n: nat, p: Entry -> bool)
    requires n < |entries|
    ensures Matching(entries, n + 1, p) == Matching(entries, n, p) + if p(entries[n]) then [entries[n]] else []
  {
  }

  lemma {:induction false} MatchingPrefix(entries: seq<Entry>, i: nat, n: nat, p: Entry -> bool)
    requires i <= n <= |entries|
    ensures Matching(entries, i, p) <= Matching(entries, n, p)
    decreases n
  {
    if i < n {
      MatchingPrefix(entries, i, n - 1, p);
    }
  }

  lemma FirstWhenEnough(entries: seq<Entry>, i: nat, limit: nat, p: Entry -> bool)
    requires i <= |entries| && |Matching(entries, i, p)| <= limit
    requires i == |entries| || |Matching(entries, i, p)| == limit
    ensures FirstMatches(entries, limit, p) == Matching(entries, i, p)
  {
    MatchingPrefix(entries, i, |entries|, p);
  }

  /** The slots hold the newest entries, oldest first: up to next, and when full also the older part after it. */
  ghost predicate Holds(slots: seq<Entry>, next: nat, full: bool, written: seq<Entry>) {
    && next < |slots|
    && if full then |written| >= |slots| && slots[next..] + slots[..next] == written[|written| - |slots|..]
       else slots[..next] == written
  }

  /** Overwriting a slot drops the oldest entry of a full buffer and makes the new one the newest. */
  lemma Overwrite(slots: seq<Entry>, next: nat, full: bool, written: seq<Entry>, e: Entry)
    requires Holds(slots, next, full, written)
    ensures if next + 1 == |slots| then Holds(slots[next := e], 0, true, written + [e])
            else Holds(slots[next := e], next + 1, full, written + [e])
  {
  }

  class Ring {
    const buf: array<Entry>
    var next: nat
    var full: bool

    ghost var written: seq<Entry>

    ghost predicate Valid()
      reads this, buf
    {
      Holds(buf[..], next, full, written)
    }

    constructor (cap: int)
      ensures Valid() && written == [] && fresh(buf)
      ensures buf.Length == if cap <= 0 then 5000 else cap
    {
      buf := new Entry[if cap <= 0 then 5000 else cap](_ => Entry("", "", "", "", "", ""));
      next, full, written := 0, false, [];
    }

    method Put(e: Entry)
      requires next < buf.Length
      modifies buf
      ensures buf[..] == old(buf[..])[next := e]
    {
      buf[next] := e;
    }

    /** Appends an entry, overwriting the oldest. */
    method Write(e: Entry)
      requires Valid()
      modifies this`next, this`full, this`written, buf
      ensures Valid() && written == old(written) + [e]
    {
      Overwrite(buf[..], next, full, written, e);
      Put(e);
      next := next + 1;
      if next >= buf.Length {
        next := 0;
        full := true;
      }
      written := written + [e];
    }

    /** The number of buffered entries. */
    method Count() returns (n: nat)
      requires Valid()
      ensures n == if |written| < buf.Length then |written| else buf.Length
    {
      if full {
        return buf.Length;
      }
      return next;
    }

    /** The newest matching entries, newest first, as if everything ever written had been kept. */
    method Recent(limit: nat, site: string, q: string, outcome: string) returns (out: seq<Entry>)
      requires Valid()
      ensures var n := if |written| < buf.Length then |written| else buf.Length;
        out == FirstMatches(NewestFirst(written, n), limit, Query(site, q, outcome))
    {
      var n := Count();
      out := [];
      ghost var newest, p := NewestFirst(written, n), Query(site, q, outcome);
      var i := 0;
      while i < n && |out| < limit
        invariant 0 <= i <= n
        invariant out == Matching(newest, i, p) && |out| <= limit
      {
        var e := Newest(i);
        assert e == newest[i];
        MatchingOne(newest, i, p);
        var ok := MatchesQuery(e, site, q, outcome);
        if ok {
          out := out + [e];
        }
        i := i + 1;
      }
      FirstWhenEnough(newest, i, limit, p);
    }

    method Newest(i: nat) returns (e: Entry)
      requires Valid() && i < |written| && i < buf.Length
      ensures e == written[|written| - 1 - i]
    {
      var idx := (next + buf.Length - 1 - i) % buf.Length;
      Slot(i);
      return buf[idx];
    }

    /** The i-th newest entry sits i slots before the next one, cyclically. */
    lemma Slot(i: nat)
      requires Valid() && i < |written| && i < buf.Length
      ensures (next + buf.Length - 1 - i) % buf.Length == if i < next then next - 1 - i else next + buf.Length - 1 - i
      ensures buf[if i < next then next - 1 - i else next + buf.Length - 1 - i] == written[|written| - 1 - i]
    {
      Wrap(next, i, buf.Length);
      if full {
        var tail := buf[..][next..] + buf[..][..next];
        assert tail[buf.Length - 1 - i] == written[|written| - buf.Length..][buf.Length - 1 - i];
      }
    }
  }

  lemma Wrap(next: nat, i: nat, cap: nat)
    requires next < cap && i < cap
    ensures (next + cap - 1 - i) % cap == if i < next then next - 1 - i else next + cap - 1 - i
  {
  }
}
