/**
 Login brute-force protection: per-source failures inside a sliding window, pruned in place, against
 the full list of failures since the source's last success.

 The clock is a parameter and does not run backwards; the window is fixed.
 */
module LoginLimit {
  import opened Sequences

  const MAX_TRACKED_SOURCES := 8192

  /** The failures that still count at a time, oldest first. */
  function Live(fs: seq<int>, now: int, window: int): (r: seq<int>)
    ensures |r| <= |fs|
  {
    if fs == [] then []
    else
      var n := |fs| - 1;
      Live(fs[..n], now, window) + if now - fs[n] < window then [fs[n]] else []
  }

  lemma {:induction false} LiveLater(fs: seq<int>, now: int, later: int, window: int)
    requires now <= later
    ensures Live(Live(fs, now, window), later, window) == Live(fs, later, window)
  {
    if fs != [] {
      var n := |fs| - 1;
      LiveLater(fs[..n], now, later, window);
      if now - fs[n] < window {
        LiveSnoc(Live(fs[..n], now, window), fs[n], later, window);
      } else {
        assert Live(fs, now, window) == Live(fs[..n], now, window);
        assert Live(fs, later, window) == Live(fs[..n], later, window);
      }
    }
  }

  /** The positions of the failures that still count. */
  ghost function LivePositions(fs: seq<int>, now: int, window: int): set<int> {
    set i | 0 <= i < |fs| && now - fs[i] < window
  }

  lemma {:induction false} LiveIsNumber(fs: seq<int>, now: int, window: int)
    ensures |Live(fs, now, window)| == |LivePositions(fs, now, window)|
  {
    if fs == [] {
      assert LivePositions(fs, now, window) == {};
    } else {
      var n := |fs| - 1;
      LiveIsNumber(fs[..n], now, window);
      assert LivePositions(fs, now, window) ==
        LivePositions(fs[..n], now, window) + if now - fs[n] < window then {n} else {};
    }
  }

  lemma LiveSnoc(fs: seq<int>, t: int, now: int, window: int)
    ensures Live(fs + [t], now, window) == Live(fs, now, window) + if now - t < window then [t] else []
  {
  }

  lemma {:induction false} LiveNone(fs: seq<int>, now: int, window: int)
    requires forall i :: 0 <= i < |fs| ==> now - fs[i] >= window
    ensures Live(fs, now, window) == []
  {
    if fs != [] {
      LiveNone(fs[..|fs| - 1], now, window);
    }
  }

  lemma {:induction false} LiveSorted(fs: seq<int>, now: int, window: int)
    requires Sorted(fs)
    ensures Sorted(Live(fs, now, window))
    ensures forall bound :: AtMost(fs, bound) ==> AtMost(Live(fs, now, window), bound)
  {
    if fs != [] {
      var n := |fs| - 1;
      LiveSorted(fs[..n], now, window);
      assert AtMost(fs[..n], fs[n]);
      forall bound | AtMost(fs, bound)
        ensures AtMost(Live(fs, now, window), bound)
      {
        assert AtMost(fs[..n], bound) && fs[n] <= bound;
      }
    }
  }

  predicate AtMost(fs: seq<int>, bound: int) {
    forall i | 0 <= i < |fs| :: fs[i] <= bound
  }

  /** The compaction that reuses the slice's own storage. */
  method Compact(fs: array<int>, now: int, window: int) returns (n: nat)
    modifies fs
    ensures n <= fs.Length && fs[..n] == Live(old(fs[..]), now, window)
  {
    ghost var was := fs[..];
    n := 0;
    for i := 0 to fs.Length
      invariant n <= i && fs[..n] == Live(was[..i], now, window)
      invariant forall j :: i <= j < fs.Length ==> fs[j] == was[j]
    {
      var ts := fs[i];
      LiveSnoc(was[..i], ts, now, window);
      assert was[..i + 1] == was[..i] + [ts];
      if now - ts < window {
        ghost var kept := fs[..n];
        fs[n] := ts;
        n := n + 1;
        assert fs[..n] == kept + [ts];
      }
    }
    assert was[..fs.Length] == was;
  }

  /** Two lists of failures that no later check can tell apart. */
  ghost predicate SameFrom(a: seq<int>, b: seq<int>, clock: int, window: int) {
    forall t :: clock <= t ==> Live(a, t, window) == Live(b, t, window)
  }

  type Failures = map<string, seq<int>>

  function Of(m: Failures, src: string): seq<int> {
    if src in m then m[src] else []
  }

  /** What pruning leaves: the live failures of each source, and no empty entries. */
  ghost function Pruned(m: Failures, now: int, window: int): Failures {
    map src | src in m && Live(m[src], now, window) != [] :: Live(m[src], now, window)
  }

  /** Under source spoofing, entries whose newest failure is long over go first. */
  method DropStale(m: Failures, now: int, window: int) returns (left: Failures)
    requires forall src :: src in m ==> Sorted(m[src])
    ensures Pruned(left, now, window) == Pruned(m, now, window)
    ensures forall src :: src in left ==> src in m && left[src] == m[src]
    ensures forall src :: src in left ==> left[src] != [] && now - left[src][|left[src]| - 1] <= window
  {
    left := m;
    var todo := m.Keys;
    while todo != {}
      invariant todo <= m.Keys
      invariant forall src :: src in left ==> src in m && left[src] == m[src]
      invariant forall src :: src in m && src !in left ==> Live(m[src], now, window) == []
      invariant forall src :: src in left && src !in todo ==> m[src] != [] && now - m[src][|m[src]| - 1] <= window
      decreases todo
    {
      var k :| k in todo;
      todo := todo - {k};
      var fs := m[k];
      if |fs| == 0 || now - fs[|fs| - 1] > window {
        LiveNone(fs, now, window);
        left := left - {k};
      }
    }
  }

  method KeepLive(m: Failures, now: int, window: int) returns (left: Failures)
    ensures left == Pruned(m, now, window)
  {
    left := m;
    var todo := m.Keys;
    while todo != {}
      invariant todo <= m.Keys
      invariant forall src :: src in left <==> src in m && (src in todo || Live(m[src], now, window) != [])
      invariant forall src :: src in left ==> left[src] == if src in todo then m[src] else Live(m[src], now, window)
      decreases todo
    {
      var k :| k in todo;
      todo := todo - {k};
      var kept := LiveOf(m[k], now, window);
      if |kept| == 0 {
        left := left - {k};
        continue;
      }
      left := left[k := kept];
    }
  }

  method LiveOf(fs: seq<int>, now: int, window: int) returns (kept: seq<int>)
    ensures kept == Live(fs, now, window)
  {
    var a := new int[|fs|](i requires 0 <= i < |fs| => fs[i]);
    assert a[..] == fs;
    var n := Compact(a, now, window);
    return a[..n];
  }

  class LoginLimiter {
    const window: int
    var failures: Failures

    /** Every failure since the source's last success. */
    ghost var since: Failures
    ghost var clock: int

    ghost predicate SourceOk(src: string)
      reads this
    {
      && Sorted(Of(failures, src)) && AtMost(Of(failures, src), clock)
      && SameFrom(Of(failures, src), Of(since, src), clock, window)
    }

    ghost predicate Valid()
      reads this
    {
      forall src :: SourceOk(src)
    }

    constructor (window: int)
      ensures Valid() && this.window == window && since == map[]
    {
      this.window, failures, since, clock := window, map[], map[], 0;
    }

    method PruneLocked(now: int)
      requires Valid() && clock <= now
      modifies this`failures, this`clock
      ensures Valid() && clock == now
      ensures failures == Pruned(old(failures), now, window)
    {
      forall src | src in failures
        ensures Sorted(failures[src])
      {
        assert SourceOk(src);
      }
      ghost var before := failures;
      if |failures| > MAX_TRACKED_SOURCES {
        failures := DropStale(failures, now, window);
      }
      failures := KeepLive(failures, now, window);
      clock := now;
      forall src
        ensures SourceOk(src)
      {
        assert old(SourceOk(src));
        PrunedOk(before, src, Of(since, src), old(clock), now, window);
      }
    }

    /** Locked out exactly when the failures since the last success inside the window reach max. */
    method Locked(src: string, max: int, now: int) returns (locked: bool)
      requires Valid() && clock <= now
      modifies this`failures, this`clock
      ensures Valid() && clock == now
      ensures locked <==> |LivePositions(Of(since, src), now, window)| >= max
    {
      PruneLocked(now);
      var fs := Of(failures, src);
      assert SourceOk(src);
      LiveLater(Of(old(failures), src), now, now, window);
      LiveIsNumber(Of(since, src), now, window);
      return |fs| >= max;
    }

    method RecordFailure(src: string, now: int)
      requires Valid() && clock <= now
      modifies this
      ensures Valid() && clock == now
      ensures since == old(since)[src := Of(old(since), src) + [now]]
    {
      PruneLocked(now);
      label Before:
      assert SourceOk(src);
      AppendOk(Of(failures, src), Of(since, src), now, window);
      failures := failures[src := Of(failures, src) + [now]];
      since := since[src := Of(since, src) + [now]];
      forall s
        ensures SourceOk(s)
      {
        assert s != src ==> old@Before(SourceOk(s));
      }
    }

    method RecordSuccess(src: string)
      requires Valid()
      modifies this`failures, this`since
      ensures Valid() && since == old(since) - {src}
    {
      failures := failures - {src};
      since := since - {src};
      forall s
        ensures SourceOk(s)
      {
        assert s != src ==> old(SourceOk(s));
      }
    }
  }

  lemma PrunedOk(m: Failures, src: string, since: seq<int>, clock: int, now: int, window: int)
    requires Sorted(Of(m, src)) && AtMost(Of(m, src), clock)
    requires SameFrom(Of(m, src), since, clock, window) && clock <= now
    ensures var left := Of(Pruned(m, now, window), src);
      Sorted(left) && AtMost(left, now) && SameFrom(left, since, now, window)
  {
    var fs := Of(m, src);
    LiveSorted(fs, now, window);
    assert AtMost(fs, now);
    assert Of(Pruned(m, now, window), src) == Live(fs, now, window);
    forall t | now <= t
      ensures Live(Live(fs, now, window), t, window) == Live(since, t, window)
    {
      LiveLater(fs, now, t, window);
    }
  }

  lemma AppendOk(fs: seq<int>, since: seq<int>, now: int, window: int)
    requires Sorted(fs) && AtMost(fs, now) && SameFrom(fs, since, now, window)
    ensures Sorted(fs + [now]) && AtMost(fs + [now], now) && SameFrom(fs + [now], since + [now], now, window)
  {
  }
}
