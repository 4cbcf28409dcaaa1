/**
 The access-log shipper: a sampled, non-blocking write into a bounded queue, and a loop that batches
 entries and hands them to the sink.

 Writers, the flush ticker, the loop and Close interleave freely; each method is one atomic action.
 */
module Shipper {
  import opened Options
  import opened Sequences

  const QUEUE_SIZE := 8192
  const COUNTER_RANGE := 0x1_0000_0000_0000_0000

  // --- Sampling -------------------------------------------------------------------------------

  /** The test on the value of the 64-bit call counter. */
  predicate Sampled(counter: nat, pct: nat) {
    counter % 100 < pct
  }

  function Next(counter: nat): nat {
    if counter + 1 == COUNTER_RANGE then 0 else counter + 1
  }

  /** How many of the next k calls pass the sampling, from a counter value on. */
  function KeptOf(counter: nat, k: nat, pct: nat): nat
    decreases k
  {
    if k == 0 then 0
    else (if Sampled(Next(counter), pct) then 1 else 0) + KeptOf(Next(counter), k - 1, pct)
  }

  /** How many of the counter values below n pass. */
  function PassBelow(n: nat, pct: nat): nat {
    if n == 0 then 0 else PassBelow(n - 1, pct) + if Sampled(n - 1, pct) then 1 else 0
  }

  lemma SampledAt(q: nat, r: nat, pct: nat)
    requires r < 100
    ensures Sampled(100 * q + r, pct) <==> r < pct
    ensures PassBelow(100 * q + r + 1, pct) == PassBelow(100 * q + r, pct) + if r < pct then 1 else 0
  {
    assert (100 * q + r) % 100 == r;
  }

  /** q full hundreds and r values more. */
  lemma {:induction false} PassBelowIs(q: nat, r: nat, pct: nat)
    requires r <= 100 && pct <= 100
    ensures PassBelow(100 * q + r, pct) == q * pct + if r < pct then r else pct
    decreases q, r
  {
    if r > 0 {
      PassBelowIs(q, r - 1, pct);
      SampledAt(q, r - 1, pct);
    } else if q > 0 {
      PassBelowIs(q - 1, 100, pct);
      TimesNext(q - 1, pct);
    }
  }

  lemma TimesNext(a: nat, p: nat)
    ensures (a + 1) * p == a * p + p
  {
  }

  lemma {:induction false} KeptWithinRun(counter: nat, k: nat, pct: nat)
    requires counter + k < COUNTER_RANGE && pct <= 100
    ensures KeptOf(counter, k, pct) == PassBelow(counter + k + 1, pct) - PassBelow(counter + 1, pct)
    decreases k
  {
    if k > 0 {
      KeptWithinRun(counter + 1, k - 1, pct);
    }
  }

  lemma {:induction false} KeptSplit(counter: nat, a: nat, b: nat, pct: nat)
    requires counter + a < COUNTER_RANGE
    ensures KeptOf(counter, a + b, pct) == KeptOf(counter, a, pct) + KeptOf(counter + a, b, pct)
    decreases a
  {
    if a > 0 {
      KeptSplit(counter + 1, a - 1, b, pct);
    }
  }

  /** After the largest counter value the count starts at 0 again. */
  lemma KeptFromZero(b: nat, pct: nat)
    requires 0 < b <= COUNTER_RANGE && pct <= 100
    ensures KeptOf(COUNTER_RANGE - 1, b, pct) == PassBelow(b, pct)
  {
    assert Next(COUNTER_RANGE - 1) == 0;
    KeptWithinRun(0, b - 1, pct);
  }

  /** The count over calls that cross the wrap-around: a before it and b after it. */
  lemma KeptAcrossWrap(a: nat, b: nat, pct: nat)
    requires a < COUNTER_RANGE && 0 < b <= COUNTER_RANGE && pct <= 100
    ensures KeptOf(COUNTER_RANGE - 1 - a, a + b, pct) ==
      PassBelow(COUNTER_RANGE, pct) - PassBelow(COUNTER_RANGE - a, pct) + PassBelow(b, pct)
  {
    KeptSplit(COUNTER_RANGE - 1 - a, a, b, pct);
    KeptWithinRun(COUNTER_RANGE - 1 - a, a, pct);
    KeptFromZero(b, pct);
  }

  /** Any 100 consecutive calls within one run of the counter keep exactly the configured percentage. */
  lemma HundredCallsKeepPct(counter: nat, pct: nat)
    requires counter + 100 < COUNTER_RANGE && pct <= 100
    ensures KeptOf(counter, 100, pct) == pct
  {
    KeptWithinRun(counter, 100, pct);
    var q, r := (counter + 1) / 100, (counter + 1) % 100;
    assert counter + 1 == 100 * q + r && counter + 101 == 100 * (q + 1) + r;
    PassBelowIs(q, r, pct);
    PassBelowIs(q + 1, r, pct);
    TimesNext(q, pct);
  }

  /** The number of the next 100 calls that come after the wrap-around; not positive without one. */
  function CallsAfterWrap(counter: nat): int {
    counter + 101 - COUNTER_RANGE
  }

  /** Where the next 100 calls keep the percentage: no wrap-around among them, or one that does no harm. */
  predicate KeepsPct(counter: nat, pct: nat) {
    var b := CallsAfterWrap(counter);
    b <= 0 || b == 100 || pct == 0 || pct == 100 || pct + 84 <= b || b + 16 <= pct
  }

  /**
   Exactly when 100 consecutive calls keep the configured percentage. 2^64 leaves 16 modulo 100, so the
   wrap-around cuts a hundred short after its first 16 values.
   */
  lemma HundredCallsKeepPctExactly(counter: nat, pct: nat)
    requires counter < COUNTER_RANGE && pct <= 100
    ensures KeptOf(counter, 100, pct) == pct <==> KeepsPct(counter, pct)
  {
    var b := CallsAfterWrap(counter);
    if b <= 0 {
      HundredCallsKeepPct(counter, pct);
    } else {
      HundredAcrossWrap(b, pct);
      WrapBalance(b, pct);
    }
  }

  /** 100 calls, the last b of them after the wrap-around. */
  lemma HundredAcrossWrap(b: nat, pct: nat)
    requires 1 <= b <= 100 && pct <= 100
    ensures KeptOf(COUNTER_RANGE - 101 + b, 100, pct) == LatePass(100 - b, pct) + if b >= pct then pct else b
  {
    KeptAcrossWrap(100 - b, b, pct);
    PassedBeforeWrap(100 - b, pct);
    PassedAfterWrap(b, pct);
  }

  /** How many of the last a counter values before the wrap-around pass. */
  function LatePass(a: nat, pct: nat): int {
    if a <= 16 then (if pct >= 16 then a else if pct >= 16 - a then pct - (16 - a) else 0)
    else (if pct >= 16 then 16 else pct) + if pct >= 116 - a then pct - (116 - a) else 0
  }

  lemma WrapBalance(b: nat, pct: nat)
    requires 1 <= b <= 100 && pct <= 100
    ensures LatePass(100 - b, pct) + (if b >= pct then pct else b) == pct <==>
      b == 100 || pct == 0 || pct == 100 || pct + 84 <= b || b + 16 <= pct
  {
  }

  lemma PassedAfterWrap(b: nat, pct: nat)
    requires 1 <= b <= 100 && pct <= 100
    ensures PassBelow(b, pct) == if b >= pct then pct else b
  {
    PassBelowIs(0, b, pct);
  }

  lemma PassedBeforeWrap(a: nat, pct: nat)
    requires a < 100 && pct <= 100
    ensures PassBelow(COUNTER_RANGE, pct) - PassBelow(COUNTER_RANGE - a, pct) == LatePass(a, pct)
  {
    var q := COUNTER_RANGE / 100;
    PassBelowIs(q, 16, pct);
    if a <= 16 {
      PassBelowIs(q, 16 - a, pct);
    } else {
      PassBelowIs(q - 1, 116 - a, pct);
      TimesNext(q - 1, pct);
    }
  }

  /** Across the wrap-around the percentage is not kept: 16 percent keeps 32 of these 100 calls. */
  lemma WrapAroundKeepsMore()
    ensures KeptOf(COUNTER_RANGE - 51, 100, 16) == 32
  {
    HundredAcrossWrap(50, 16);
  }

  // --- The record of writes -------------------------------------------------------------------

  /** A write that passed the sampling while the shipper was open, and whether the queue took it. */
  datatype Offer<Entry> = Offer(entry: Entry, taken: bool)

  function Taken<Entry>(offers: seq<Offer<Entry>>): seq<Entry> {
    if offers == [] then []
    else
      var last := offers[|offers| - 1];
      Taken(offers[..|offers| - 1]) + if last.taken then [last.entry] else []
  }

  function Refused<Entry>(offers: seq<Offer<Entry>>): nat {
    if offers == [] then 0
    else Refused(offers[..|offers| - 1]) + if offers[|offers| - 1].taken then 0 else 1
  }

  lemma OfferOne<Entry>(offers: seq<Offer<Entry>>, o: Offer<Entry>)
    ensures Taken(offers + [o]) == Taken(offers) + if o.taken then [o.entry] else []
    ensures Refused(offers + [o]) == Refused(offers) + if o.taken then 0 else 1
  {
  }

  lemma {:induction false} EveryOfferCounted<Entry>(offers: seq<Offer<Entry>>)
    ensures |offers| == |Taken(offers)| + Refused(offers)
  {
    if offers != [] {
      EveryOfferCounted(offers[..|offers| - 1]);
    }
  }

  /** A call of Write: whether it brought an entry to an open shipper, and whether it passed the sampling. */
  datatype Call = Call(plain: bool, offered: bool)

  /** The counter after n calls of a sampling shipper. */
  function CounterAfter(n: nat): (c: nat)
    ensures c < COUNTER_RANGE
  {
    if n == 0 then 0 else Next(CounterAfter(n - 1))
  }

  /** The offers among the first n calls. */
  function OfferedBefore(calls: seq<Call>, n: nat): nat
    requires n <= |calls|
  {
    if n == 0 then 0 else OfferedBefore(calls, n - 1) + if calls[n - 1].offered then 1 else 0
  }

  /** Of the first n calls, exactly the plain ones at a passing counter value were offered. */
  ghost predicate Traced(calls: seq<Call>, n: nat, pct: nat)
    requires n <= |calls|
  {
    n == 0 || (
      && Traced(calls, n - 1, pct)
      && calls[n - 1].offered == (calls[n - 1].plain && Sampled(CounterAfter(n), pct)))
  }

  lemma {:induction false} TracedMore(calls: seq<Call>, c: Call, n: nat, pct: nat)
    requires n <= |calls|
    ensures Traced(calls + [c], n, pct) == Traced(calls, n, pct)
    ensures OfferedBefore(calls + [c], n) == OfferedBefore(calls, n)
  {
    if n > 0 {
      TracedMore(calls, c, n - 1, pct);
    }
  }

  lemma {:induction false} TracedAt(calls: seq<Call>, n: nat, pct: nat, i: nat)
    requires i < n <= |calls| && Traced(calls, n, pct)
    ensures calls[i].offered == (calls[i].plain && Sampled(CounterAfter(i + 1), pct))
  {
    if i < n - 1 {
      TracedAt(calls, n - 1, pct, i);
    }
  }

  /** The offers among k consecutive plain calls are those the counter keeps. */
  lemma {:induction false} OfferedInWindow(calls: seq<Call>, i: nat, k: nat, pct: nat)
    requires i + k <= |calls| && Traced(calls, |calls|, pct)
    requires forall j :: i <= j < i + k ==> calls[j].plain
    ensures OfferedBefore(calls, i + k) == OfferedBefore(calls, i) + KeptOf(CounterAfter(i), k, pct)
    decreases k
  {
    if k > 0 {
      TracedAt(calls, |calls|, pct, i);
      OfferedInWindow(calls, i + 1, k - 1, pct);
    }
  }

  function Flat<Entry>(batches: seq<seq<Entry>>): seq<Entry> {
    if batches == [] then [] else Flat(batches[..|batches| - 1]) + batches[|batches| - 1]
  }

  /** Every batch has between 1 and max entries. */
  ghost predicate Sized<Entry>(batches: seq<seq<Entry>>, max: nat) {
    batches == [] || (Sized(batches[..|batches| - 1], max) && 0 < |batches[|batches| - 1]| <= max)
  }

  // --- The shipper ----------------------------------------------------------------------------

  class Shipper<Entry> {
    const batchSize: nat
    const samplePct: nat

    var ch: seq<Entry>
    var closed: bool
    var done: bool
    var dropped: nat
    var sampleCtr: nat
    var batch: seq<Entry>

    ghost var offers: seq<Offer<Entry>>
    ghost var pushed: seq<seq<Entry>>
    /** Every call of Write. */
    ghost var calls: seq<Call>

    /** Every taken entry is handed over, batched or queued, once and in order; every refused one is counted. */
    ghost predicate Conserved()
      reads this
    {
      Taken(offers) == Flat(pushed) + (batch + ch) && dropped == Refused(offers)
    }

    ghost predicate Valid()
      reads this
    {
      && batchSize > 0 && |ch| <= QUEUE_SIZE && sampleCtr < COUNTER_RANGE
      && Conserved()
      && |batch| < batchSize
      && Sized(pushed, batchSize)
      && (done ==> closed && ch == [] && batch == [])
      && 1 <= samplePct <= 100 && (samplePct < 100 ==> sampleCtr == CounterAfter(|calls|))
      && Traced(calls, |calls|, samplePct) && |offers| == OfferedBefore(calls, |calls|)
    }

    constructor (batchSize: int, samplePct: int)
      ensures Valid() && offers == [] && pushed == [] && calls == [] && !closed && !done
      ensures this.batchSize == if batchSize <= 0 then 200 else batchSize
      ensures this.samplePct == if samplePct <= 0 || samplePct > 100 then 100 else samplePct
    {
      this.batchSize := if batchSize <= 0 then 200 else batchSize;
      this.samplePct := if samplePct <= 0 || samplePct > 100 then 100 else samplePct;
      ch, closed, done, dropped, sampleCtr, batch := [], false, false, 0, 0, [];
      offers, pushed, calls := [], [], [];
    }

    /** Offers one entry without blocking; a nil entry still counts for the sampling. */
    method Write(e: Option<Entry>)
      requires Valid()
      modifies this`ch, this`dropped, this`sampleCtr, this`offers, this`calls
      ensures Valid()
      ensures sampleCtr == if samplePct < 100 then Next(old(sampleCtr)) else old(sampleCtr)
      ensures var offered := e.Some? && !closed && (samplePct >= 100 || Sampled(sampleCtr, samplePct));
        && offers == old(offers) + (if offered then [Offer(e.value, |old(ch)| < QUEUE_SIZE)] else [])
        && calls == old(calls) + [Call(e.Some? && !closed, offered)]
    {
      LogCall(e.Some? && !closed);
      if samplePct < 100 {
        sampleCtr := Next(sampleCtr);
        if sampleCtr % 100 >= samplePct {
          return;
        }
      }
      if e == None {
        return;
      }
      if closed {
        return;
      }
      Enqueue(e.value);
    }

    /** The send on the bounded channel, which drops the entry when it is full. */
    method Enqueue(entry: Entry)
      requires Conserved() && |ch| <= QUEUE_SIZE
      modifies this`ch, this`dropped, this`offers
      ensures Conserved() && |ch| <= QUEUE_SIZE
      ensures offers == old(offers) + [Offer(entry, |old(ch)| < QUEUE_SIZE)]
    {
      OfferOne(offers, Offer(entry, |ch| < QUEUE_SIZE));
      offers := offers + [Offer(entry, |ch| < QUEUE_SIZE)];
      if |ch| < QUEUE_SIZE {
        AssocAll(Flat(pushed), batch, ch, [entry]);
        Assoc(Flat(pushed), batch, ch);
        ch := ch + [entry];
      } else {
        dropped := dropped + 1;
      }
    }

    ghost method LogCall(plain: bool)
      requires 1 <= samplePct <= 100 && (samplePct < 100 ==> sampleCtr == CounterAfter(|calls|))
      requires Traced(calls, |calls|, samplePct)
      modifies this`calls
      ensures var offered := plain && (samplePct >= 100 || Sampled(Next(sampleCtr), samplePct));
        && calls == old(calls) + [Call(plain, offered)]
        && OfferedBefore(calls, |calls|) == OfferedBefore(old(calls), |old(calls)|) + if offered then 1 else 0
      ensures Traced(calls, |calls|, samplePct)
      ensures samplePct < 100 ==> Next(sampleCtr) == CounterAfter(|calls|)
    {
      var c := Call(plain, plain && (samplePct >= 100 || Sampled(Next(sampleCtr), samplePct)));
      TracedMore(calls, c, |calls|, samplePct);
      calls := calls + [c];
    }

    /** Hands a nonempty batch to the sink. */
    method Flush()
      requires batchSize > 0 && |batch| <= batchSize && Conserved() && Sized(pushed, batchSize)
      modifies this`batch, this`pushed
      ensures batch == [] && Conserved() && Sized(pushed, batchSize)
      ensures pushed == (if old(batch) == [] then old(pushed) else old(pushed) + [old(batch)])
      ensures old(pushed) <= pushed
    {
      if |batch| == 0 {
        return;
      }
      assert (pushed + [batch])[..|pushed|] == pushed;
      Assoc(Flat(pushed), batch, ch);
      pushed := pushed + [batch];
      batch := [];
      assert batch + ch == ch;
    }

    /** Moves the queue's first entry into the batch. */
    method TakeFirst()
      requires Conserved() && ch != []
      modifies this`ch, this`batch
      ensures Conserved() && batch == old(batch) + [old(ch)[0]] && ch == old(ch)[1..]
    {
      assert batch + ch == batch + [ch[0]] + ch[1..];
      batch := batch + [ch[0]];
      ch := ch[1..];
    }

    /** The flush ticker fires. */
    method Tick()
      requires Valid() && !done
      modifies this`batch, this`pushed
      ensures Valid() && batch == [] && old(pushed) <= pushed
    {
      Flush();
    }

    /** The loop receives: the next entry, or the end of a closed channel. */
    method Receive()
      requires Valid() && !done && (ch != [] || closed)
      modifies this`ch, this`batch, this`pushed, this`done
      ensures Valid() && old(pushed) <= pushed
      ensures if old(ch) == [] then done && ch == [] else ch == old(ch)[1..] && !done
    {
      if ch == [] {
        Flush();
        done := true;
        return;
      }
      TakeFirst();
      if |batch| >= batchSize {
        Flush();
      }
    }

    /**
     Closes the shipper and waits for the loop, while the ticker may still fire. A repeated call does
     not wait.
     */
    method Close(ticks: nat -> bool)
      requires Valid()
      modifies this`closed, this`ch, this`batch, this`pushed, this`done
      ensures Valid() && closed && old(pushed) <= pushed
      ensures old(closed) ==> ch == old(ch) && batch == old(batch) && pushed == old(pushed)
      ensures !old(closed) ==> done && ch == [] && batch == [] && Flat(pushed) == Taken(offers)
    {
      if closed {
        return;
      }
      closed := true;
      var clock := 0;
      while !done
        invariant Valid() && closed && old(pushed) <= pushed
        decreases !done, |ch|
      {
        if ticks(clock) {
          Tick();
        }
        clock := clock + 1;
        Receive();
      }
    }

    /**
     Main result on sampling: whatever happened in between, 100 consecutive calls with an entry on an
     open shipper offer exactly the configured percentage if and only if the counter's wrap-around does
     no harm among them.
     */
    lemma HundredWritesKeepPct(i: nat)
      requires Valid() && i + 100 <= |calls| && forall j :: i <= j < i + 100 ==> calls[j].plain
      ensures OfferedBefore(calls, i + 100) - OfferedBefore(calls, i) == samplePct <==>
        KeepsPct(CounterAfter(i), samplePct)
    {
      OfferedInWindow(calls, i, 100, samplePct);
      HundredCallsKeepPctExactly(CounterAfter(i), samplePct);
    }

    /** Main result: what was offered is dropped, queued, batched or handed over, and nothing else. */
    lemma Conservation()
      requires Valid()
      ensures |offers| == dropped + |ch| + |batch| + |Flat(pushed)|
      ensures Flat(pushed) <= Taken(offers)
    {
      EveryOfferCounted(offers);
    }
  }
}
