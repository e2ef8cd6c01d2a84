/**
 * The sliding-window rate limiter of aggregator/api.py: three windows of timestamps per
 * client, pruned on use and swept every 500 calls, against a limiter that keeps every
 * accepted request forever.
 */
module RateLimiter {
  datatype Bucket = Transactions | Batches | Reads

  type Windows = map<string, seq<real>>

  datatype Limiter = Limiter(tx: Windows, batch: Windows, read: Windows, calls: nat)

  const WINDOW_SECS := 60.0
  const EVICT_EVERY := 500
  const EMPTY: Limiter := Limiter(map[], map[], map[], 0)

  function Limit(b: Bucket): nat {
    match b
    case Transactions => 100
    case Batches => 20
    case Reads => 200
  }

  function Get(l: Limiter, b: Bucket): Windows {
    match b
    case Transactions => l.tx
    case Batches => l.batch
    case Reads => l.read
  }

  function Put(l: Limiter, b: Bucket, w: Windows): Limiter {
    match b
    case Transactions => l.(tx := w)
    case Batches => l.(batch := w)
    case Reads => l.(read := w)
  }

  function WindowOf(w: Windows, ip: string): seq<real> {
    if ip in w then w[ip] else []
  }

  // ------------------------------------------------------------ the code's steps

  function Stale(times: seq<real>, cutoff: real): bool {
    times == [] || times[|times| - 1] < cutoff
  }

  function Evicted(w: Windows, cutoff: real): Windows {
    map ip | ip in w && !Stale(w[ip], cutoff) :: w[ip]
  }

  function Swept(l: Limiter, cutoff: real): Limiter {
    if l.calls + 1 >= EVICT_EVERY then Limiter(Evicted(l.tx, cutoff), Evicted(l.batch, cutoff), Evicted(l.read, cutoff), 0)
    else l.(calls := l.calls + 1)
  }

  function Pruned(times: seq<real>, cutoff: real): seq<real> {
    if times != [] && times[0] < cutoff then Pruned(times[1..], cutoff) else times
  }

  function Checked(l: Limiter, b: Bucket, ip: string, limit: nat, now: real): (Limiter, bool) {
    var s := Swept(l, now - WINDOW_SECS);
    var times := Pruned(WindowOf(Get(s, b), ip), now - WINDOW_SECS);
    if |times| >= limit then (Put(s, b, Get(s, b)[ip := times]), false)
    else (Put(s, b, Get(s, b)[ip := times + [now]]), true)
  }

  class RateLimiterState {
    var tx: Windows
    var batch: Windows
    var read: Windows
    var calls: nat

    function State(): Limiter
      reads this
    {
      Limiter(tx, batch, read, calls)
    }

    constructor ()
      ensures State() == EMPTY
    {
      tx, batch, read, calls := map[], map[], map[], 0;
    }

    static method EvictStale(windows: Windows, cutoff: real) returns (kept: Windows)
      ensures kept == Evicted(windows, cutoff)
    {
      var stale := set ip | ip in windows && Stale(windows[ip], cutoff);
      ghost var all := stale;
      kept := windows;
      while stale != {}
        invariant stale <= all
        invariant kept == map ip | ip in windows && ip !in all - stale :: windows[ip]
      {
        var ip :| ip in stale;
        kept := kept - {ip};
        stale := stale - {ip};
      }
    }

    method CheckRate(b: Bucket, ip: string, limit: nat, now: real) returns (allowed: bool)
      modifies this
      ensures (State(), allowed) == Checked(old(State()), b, ip, limit, now)
    {
      var cutoff := now - WINDOW_SECS;
      calls := calls + 1;
      if calls >= EVICT_EVERY {
        tx := EvictStale(tx, cutoff);
        batch := EvictStale(batch, cutoff);
        read := EvictStale(read, cutoff);
        calls := 0;
      }
      assert State() == Swept(old(State()), cutoff);
      var times := WindowOf(Get(State(), b), ip);
      while times != [] && times[0] < cutoff
        invariant Pruned(times, cutoff) == Pruned(WindowOf(Get(State(), b), ip), cutoff)
      {
        times := times[1..];
      }
      allowed := |times| < limit;
      var stored := if allowed then times + [now] else times;
      match b
      case Transactions => tx := tx[ip := stored];
      case Batches => batch := batch[ip := stored];
      case Reads => read := read[ip := stored];
    }
  }

  // ------------------------------------------------------------ the reference

  datatype Accept = Accept(bucket: Bucket, ip: string, time: real)

  /** When requests of one bucket and client were accepted. */
  function Times(log: seq<Accept>, b: Bucket, ip: string): seq<real> {
    if log == [] then []
    else
      var last := log[|log| - 1];
      Times(log[..|log| - 1], b, ip) + if last.bucket == b && last.ip == ip then [last.time] else []
  }

  /** How many of the times lie in the closed interval. */
  function Within(times: seq<real>, lo: real, hi: real): nat {
    if times == [] then 0
    else
      var n := |times| - 1;
      Within(times[..n], lo, hi) + if lo <= times[n] <= hi then 1 else 0
  }

  /** The reference decision, over every request ever accepted. */
  predicate Admits(log: seq<Accept>, b: Bucket, ip: string, now: real) {
    Within(Times(log, b, ip), now - WINDOW_SECS, now) < Limit(b)
  }

  datatype Call = Call(bucket: Bucket, ip: string, now: real)

  function Logged(log: seq<Accept>, c: Call): seq<Accept> {
    if Admits(log, c.bucket, c.ip, c.now) then log + [Accept(c.bucket, c.ip, c.now)] else log
  }

  function Log(calls: seq<Call>): seq<Accept> {
    if calls == [] then [] else Logged(Log(calls[..|calls| - 1]), calls[|calls| - 1])
  }

  /** The limiter after a run of calls. */
  function Run(calls: seq<Call>): Limiter {
    if calls == [] then EMPTY
    else
      var c := calls[|calls| - 1];
      Checked(Run(calls[..|calls| - 1]), c.bucket, c.ip, Limit(c.bucket), c.now).0
  }

  /** The limiter's decision on the next call. */
  predicate Allows(calls: seq<Call>, c: Call) {
    Checked(Run(calls), c.bucket, c.ip, Limit(c.bucket), c.now).1
  }

  predicate Ordered(calls: seq<Call>) {
    forall i, j | 0 <= i < j < |calls| :: calls[i].now <= calls[j].now
  }

  predicate Sorted(times: seq<real>) {
    forall i, j | 0 <= i < j < |times| :: times[i] <= times[j]
  }

  // ------------------------------------------------------------ the refinement

  /** A window is the accepted times but for an expired beginning. */
  predicate Recent(window: seq<real>, times: seq<real>, last: real) {
    && |window| <= |times|
    && window == times[|times| - |window|..]
    && (|window| < |times| ==> times[|times| - |window| - 1] < last - WINDOW_SECS)
  }

  ghost predicate Matches(l: Limiter, log: seq<Accept>, last: real) {
    forall b, ip :: Recent(WindowOf(Get(l, b), ip), Times(log, b, ip), last)
  }

  ghost predicate UpTo(log: seq<Accept>, last: real) {
    forall b, ip :: TimesUpTo(Times(log, b, ip), last)
  }

  predicate TimesUpTo(times: seq<real>, last: real) {
    Sorted(times) && forall i | 0 <= i < |times| :: times[i] <= last
  }

  lemma {:induction false} NoneWithin(times: seq<real>, lo: real, hi: real)
    requires forall i | 0 <= i < |times| :: times[i] < lo
    ensures Within(times, lo, hi) == 0
  {
    if times != [] {
      NoneWithin(times[..|times| - 1], lo, hi);
    }
  }

  /** An expired beginning does not count, and the rest counts in full. */
  lemma {:induction false} CountSuffix(times: seq<real>, m: nat, lo: real, hi: real)
    requires m <= |times|
    requires forall i | 0 <= i < m :: times[i] < lo
    requires forall i | m <= i < |times| :: lo <= times[i] <= hi
    ensures Within(times, lo, hi) == |times| - m
  {
    if m == |times| {
      NoneWithin(times, lo, hi);
    } else {
      CountSuffix(times[..|times| - 1], m, lo, hi);
    }
  }

  /** Pruning keeps a sorted window's entries from the cutoff on. */
  lemma {:induction false} PrunedIsSuffix(times: seq<real>, cutoff: real) returns (m: nat)
    requires Sorted(times)
    ensures m <= |times| && Pruned(times, cutoff) == times[m..]
    ensures forall i | 0 <= i < m :: times[i] < cutoff
    ensures forall i | m <= i < |times| :: times[i] >= cutoff
  {
    if times != [] && times[0] < cutoff {
      var k := PrunedIsSuffix(times[1..], cutoff);
      m := k + 1;
      assert times[1..][k..] == times[m..];
      forall i | 0 <= i < m ensures times[i] < cutoff {
        if i > 0 { assert times[i] == times[1..][i - 1]; }
      }
      forall i | m <= i < |times| ensures times[i] >= cutoff {
        assert times[i] == times[1..][i - 1];
      }
    } else {
      m := 0;
    }
  }

  lemma SuffixIsRecent(times: seq<real>, m: nat, now: real)
    requires m <= |times| && (m > 0 ==> times[m - 1] < now - WINDOW_SECS)
    ensures Recent(times[m..], times, now)
  {
  }

  lemma RecentIsSuffix(window: seq<real>, times: seq<real>, last: real, now: real) returns (start: nat)
    requires Sorted(times) && Recent(window, times, last) && last <= now
    ensures start <= |times| && window == times[start..] && Sorted(window)
    ensures forall i | 0 <= i < start :: times[i] < now - WINDOW_SECS
  {
    start := |times| - |window|;
    forall i | 0 <= i < start ensures times[i] < now - WINDOW_SECS {
      assert i == start - 1 || times[i] <= times[start - 1];
    }
  }

  /** The pruned window holds exactly the accepted times of the last 60 seconds. */
  lemma PrunedCounts(window: seq<real>, times: seq<real>, last: real, now: real)
    requires Sorted(times) && (forall i | 0 <= i < |times| :: times[i] <= now)
    requires Recent(window, times, last) && last <= now
    ensures Recent(Pruned(window, now - WINDOW_SECS), times, now)
    ensures |Pruned(window, now - WINDOW_SECS)| == Within(times, now - WINDOW_SECS, now)
  {
    hide Recent, Within, Pruned;
    var cutoff := now - WINDOW_SECS;
    var start := RecentIsSuffix(window, times, last, now);
    var k := PrunedIsSuffix(window, cutoff);
    var m := start + k;
    assert window[k..] == times[m..];
    forall i | m <= i < |times| ensures cutoff <= times[i] <= now {
      assert times[i] == window[i - start];
    }
    forall i | 0 <= i < m ensures times[i] < cutoff {
      if i >= start {
        assert times[i] == window[i - start];
      }
    }
    SuffixIsRecent(times, m, now);
    CountSuffix(times, m, cutoff, now);
  }

  /** A window the sweep drops holds nothing that still counts. */
  lemma StaleIsEmpty(window: seq<real>, times: seq<real>, last: real, now: real)
    requires Sorted(times) && Recent(window, times, last) && last <= now
    requires Stale(window, now - WINDOW_SECS)
    ensures Recent([], times, now)
  {
    if window != [] {
      assert times[|times| - 1] == window[|window| - 1];
    }
  }

  lemma SweptWindow(l: Limiter, cutoff: real, b: Bucket, ip: string)
    ensures var window := WindowOf(Get(l, b), ip);
            var swept := WindowOf(Get(Swept(l, cutoff), b), ip);
            swept == window || (swept == [] && Stale(window, cutoff))
  {
    hide Stale;
  }

  lemma SweptMatches(l: Limiter, log: seq<Accept>, last: real, now: real)
    requires Matches(l, log, last) && UpTo(log, last) && last <= now
    ensures Matches(Swept(l, now - WINDOW_SECS), log, now)
  {
    hide Swept, Get, WindowOf, Times, Sorted, Stale, Recent;
    var cutoff := now - WINDOW_SECS;
    forall b, ip ensures Recent(WindowOf(Get(Swept(l, cutoff), b), ip), Times(log, b, ip), now) {
      var window, times := WindowOf(Get(l, b), ip), Times(log, b, ip);
      assert Recent(window, times, last);
      UpToAt(log, last, b, ip);
      SweptWindow(l, cutoff, b, ip);
      if WindowOf(Get(Swept(l, cutoff), b), ip) == window {
        RecentLater(window, times, last, now);
      } else {
        StaleIsEmpty(window, times, last, now);
      }
    }
  }

  lemma RecentLater(window: seq<real>, times: seq<real>, last: real, now: real)
    requires Recent(window, times, last) && last <= now
    ensures Recent(window, times, now)
  {
  }

  lemma UpToAt(log: seq<Accept>, last: real, b: Bucket, ip: string)
    requires UpTo(log, last)
    ensures Sorted(Times(log, b, ip))
    ensures forall i | 0 <= i < |Times(log, b, ip)| :: Times(log, b, ip)[i] <= last
  {
    hide Sorted, Times;
    assert TimesUpTo(Times(log, b, ip), last);
  }

  lemma TimesGrow(log: seq<Accept>, a: Accept, b: Bucket, ip: string)
    ensures Times(log + [a], b, ip) == Times(log, b, ip) + if a.bucket == b && a.ip == ip then [a.time] else []
  {
    assert (log + [a])[..|log|] == log;
  }

  lemma LogUpTo(log: seq<Accept>, last: real, c: Call)
    requires UpTo(log, last) && last <= c.now
    ensures UpTo(Logged(log, c), c.now)
  {
    hide Within, Times, Admits, TimesUpTo;
    forall b, ip ensures TimesUpTo(Times(Logged(log, c), b, ip), c.now) {
      var times := Times(log, b, ip);
      assert TimesUpTo(times, last);
      TimesUpToGrow(times, last, c.now);
      TimesGrow(log, Accept(c.bucket, c.ip, c.now), b, ip);
      assert times + [] == times;
    }
  }

  lemma TimesUpToGrow(times: seq<real>, last: real, now: real)
    requires TimesUpTo(times, last) && last <= now
    ensures TimesUpTo(times, now) && TimesUpTo(times + [now], now)
  {
  }

  /** What a call stores, and what it leaves alone. */
  lemma CheckedWindow(l: Limiter, c: Call, limit: nat, b: Bucket, ip: string)
    ensures var s := Swept(l, c.now - WINDOW_SECS);
            var pruned := Pruned(WindowOf(Get(s, c.bucket), c.ip), c.now - WINDOW_SECS);
            var r := Checked(l, c.bucket, c.ip, limit, c.now);
            && r.1 == (|pruned| < limit)
            && WindowOf(Get(r.0, b), ip) == if b != c.bucket || ip != c.ip then WindowOf(Get(s, b), ip)
                                            else if r.1 then pruned + [c.now] else pruned
  {
    hide Swept, Pruned;
  }

  lemma RecentGrows(window: seq<real>, times: seq<real>, now: real)
    requires Recent(window, times, now)
    ensures Recent(window + [now], times + [now], now)
  {
  }

  /** One call: the decision is the reference's, and the windows keep matching. */
  lemma CallRefines(l: Limiter, log: seq<Accept>, last: real, c: Call)
    requires Matches(l, log, last) && UpTo(log, last) && last <= c.now
    ensures Checked(l, c.bucket, c.ip, Limit(c.bucket), c.now).1 == Admits(log, c.bucket, c.ip, c.now)
    ensures Matches(Checked(l, c.bucket, c.ip, Limit(c.bucket), c.now).0, Logged(log, c), c.now)
  {
    hide Swept, Pruned, Within, Limit, Checked, Times, Recent, Sorted, Get, WindowOf;
    SweptMatches(l, log, last, c.now);
    var s := Swept(l, c.now - WINDOW_SECS);
    var window, times := WindowOf(Get(s, c.bucket), c.ip), Times(log, c.bucket, c.ip);
    assert Recent(window, times, c.now);
    UpToAt(log, last, c.bucket, c.ip);
    PrunedCounts(window, times, c.now, c.now);
    RecentGrows(Pruned(window, c.now - WINDOW_SECS), times, c.now);
    CheckedWindow(l, c, Limit(c.bucket), c.bucket, c.ip);
    var next, log' := Checked(l, c.bucket, c.ip, Limit(c.bucket), c.now).0, Logged(log, c);
    forall b, ip ensures Recent(WindowOf(Get(next, b), ip), Times(log', b, ip), c.now) {
      TimesGrow(log, Accept(c.bucket, c.ip, c.now), b, ip);
      CheckedWindow(l, c, Limit(c.bucket), b, ip);
      assert Recent(WindowOf(Get(s, b), ip), Times(log, b, ip), c.now);
      assert Times(log, b, ip) + [] == Times(log, b, ip);
    }
  }

  function LastOf(calls: seq<Call>, start: real): real {
    if calls == [] then start else calls[|calls| - 1].now
  }

  lemma {:induction false} RunMatches(calls: seq<Call>, start: real)
    requires Ordered(calls)
    ensures Matches(Run(calls), Log(calls), LastOf(calls, start)) && UpTo(Log(calls), LastOf(calls, start))
  {
    hide Checked, Admits;
    if calls != [] {
      var init, c := calls[..|calls| - 1], calls[|calls| - 1];
      RunMatches(init, c.now);
      CallRefines(Run(init), Log(init), LastOf(init, c.now), c);
      LogUpTo(Log(init), LastOf(init, c.now), c);
    }
  }

  /** For calls in time order every decision is the reference limiter's: neither pruning
      nor the sweep changes one. */
  lemma DecidesAsReference(calls: seq<Call>, c: Call)
    requires Ordered(calls + [c])
    ensures Allows(calls, c) == Admits(Log(calls), c.bucket, c.ip, c.now)
  {
    hide Checked, Admits;
    assert Ordered(calls) by {
      forall i, j | 0 <= i < j < |calls| ensures calls[i].now <= calls[j].now {
        assert (calls + [c])[i] == calls[i] && (calls + [c])[j] == calls[j];
      }
    }
    RunMatches(calls, c.now);
    if calls != [] {
      assert (calls + [c])[|calls| - 1] == calls[|calls| - 1] && (calls + [c])[|calls|] == c;
    }
    CallRefines(Run(calls), Log(calls), LastOf(calls, c.now), c);
  }

  // ------------------------------------------------------------ the promise

  /** Accepted requests that are limit apart are more than a window apart. */
  predicate Spaced(times: seq<real>, limit: nat) {
    forall i | 0 <= i && i + limit < |times| :: times[i + limit] - times[i] > WINDOW_SECS
  }

  lemma {:induction false} AtLeastWithin(times: seq<real>, m: nat, lo: real, hi: real)
    requires m <= |times| && forall i | m <= i < |times| :: lo <= times[i] <= hi
    ensures Within(times, lo, hi) >= |times| - m
  {
    if m < |times| {
      AtLeastWithin(times[..|times| - 1], m, lo, hi);
    }
  }

  lemma {:induction false} AtMostWithin(times: seq<real>, m: nat, lo: real, hi: real)
    requires m <= |times| && forall i | 0 <= i < m :: times[i] < lo
    ensures Within(times, lo, hi) <= |times| - m
  {
    if m < |times| {
      AtMostWithin(times[..|times| - 1], m, lo, hi);
    } else {
      NoneWithin(times, lo, hi);
    }
  }

  /** If the last limit entries were all inside the window, it would be full. */
  lemma FullWindowExpired(times: seq<real>, limit: nat, now: real)
    requires Sorted(times) && (forall i | 0 <= i < |times| :: times[i] <= now)
    requires Within(times, now - WINDOW_SECS, now) < limit <= |times|
    ensures times[|times| - limit] < now - WINDOW_SECS
  {
    var k := |times| - limit;
    if times[k] >= now - WINDOW_SECS {
      forall i | k <= i < |times| ensures now - WINDOW_SECS <= times[i] <= now {
        assert i == k || times[k] <= times[i];
      }
      AtLeastWithin(times, k, now - WINDOW_SECS, now);
    }
  }

  lemma SpacedGrows(times: seq<real>, limit: nat, now: real)
    requires Spaced(times, limit) && limit > 0
    requires limit <= |times| ==> times[|times| - limit] < now - WINDOW_SECS
    ensures Spaced(times + [now], limit)
  {
    var n := |times|;
    forall i | 0 <= i && i + limit < n + 1
      ensures (times + [now])[i + limit] - (times + [now])[i] > WINDOW_SECS
    {
      if i + limit < n {
        assert times[i + limit] - times[i] > WINDOW_SECS;
      }
    }
  }

  lemma {:induction false} SpacedBounds(times: seq<real>, limit: nat, a: real)
    requires Sorted(times) && Spaced(times, limit)
    ensures Within(times, a, a + WINDOW_SECS) <= limit
  {
    if times != [] {
      var n := |times| - 1;
      if a <= times[n] <= a + WINDOW_SECS && n >= limit {
        assert times[n - limit + limit] - times[n - limit] > WINDOW_SECS;
        AtMostWithin(times, n - limit + 1, a, a + WINDOW_SECS);
      } else if !(a <= times[n] <= a + WINDOW_SECS) {
        var init := times[..n];
        assert Spaced(init, limit) by {
          forall i | 0 <= i && i + limit < n ensures init[i + limit] - init[i] > WINDOW_SECS {
            assert times[i + limit] - times[i] > WINDOW_SECS;
          }
        }
        SpacedBounds(init, limit, a);
      } else {
        AtMostWithin(times, 0, a, a + WINDOW_SECS);
      }
    }
  }

  lemma {:induction false} LogIsSpaced(calls: seq<Call>, b: Bucket, ip: string)
    requires Ordered(calls)
    ensures Spaced(Times(Log(calls), b, ip), Limit(b))
  {
    hide Limit, Within, Spaced, Sorted, Admits, UpTo, Matches;
    if calls == [] {
      NothingSpaced(Limit(b));
    } else {
      var init, c := calls[..|calls| - 1], calls[|calls| - 1];
      LogIsSpaced(init, b, ip);
      RunMatches(init, c.now);
      var times := Times(Log(init), b, ip);
      UpToAt(Log(init), LastOf(init, c.now), b, ip);
      TimesGrow(Log(init), Accept(c.bucket, c.ip, c.now), b, ip);
      assert times + [] == times;
      if Admits(Log(init), c.bucket, c.ip, c.now) && b == c.bucket && ip == c.ip {
        AdmitsMeans(Log(init), b, ip, c.now);
        if Limit(b) <= |times| {
          FullWindowExpired(times, Limit(b), c.now);
        }
        SpacedGrows(times, Limit(b), c.now);
      }
    }
  }

  lemma AdmitsMeans(log: seq<Accept>, b: Bucket, ip: string, now: real)
    ensures Admits(log, b, ip, now) == (Within(Times(log, b, ip), now - WINDOW_SECS, now) < Limit(b))
  {
  }

  lemma NothingSpaced(limit: nat)
    ensures Spaced([], limit)
  {
  }

  /** No closed 60-second window ever holds more than the limit of accepted requests of
      one bucket and client. */
  lemma WindowNeverExceeded(calls: seq<Call>, b: Bucket, ip: string, a: real)
    requires Ordered(calls)
    ensures Within(Times(Log(calls), b, ip), a, a + 60.0)
         <= match b case Transactions => 100 case Batches => 20 case Reads => 200
  {
    hide Within, Sorted, UpTo, Matches, Spaced;
    LogIsSpaced(calls, b, ip);
    RunMatches(calls, a);
    UpToAt(Log(calls), LastOf(calls, a), b, ip);
    SpacedBounds(Times(Log(calls), b, ip), Limit(b), a);
  }

  // ------------------------------------------------------------ memory

  /** The counter is the number of calls since the last sweep, the 500th of which sweeps. */
  lemma {:induction false} SweptEvery500(calls: seq<Call>)
    ensures Run(calls).calls == |calls| % 500
  {
    if calls != [] {
      hide Run, Checked, Swept, Pruned;
      var init, c := calls[..|calls| - 1], calls[|calls| - 1];
      assert calls == init + [c];
      SweptEvery500(init);
      RunGrows(init, c);
      CheckedCounts(Run(init), c);
      NextOf500(|init|);
    }
  }

  lemma NextOf500(n: nat)
    ensures (n + 1) % 500 == if n % 500 >= 499 then 0 else n % 500 + 1
  {
  }

  lemma CheckedCounts(l: Limiter, c: Call)
    ensures Checked(l, c.bucket, c.ip, Limit(c.bucket), c.now).0.calls == if l.calls >= 499 then 0 else l.calls + 1
  {
    hide Pruned, Evicted;
  }

  /** After every 500th call each client other than the caller still held, in any bucket, has
      an accepted request of the last 60 seconds; after any other call nobody else's window
      has changed. */
  lemma SweepForgets(calls: seq<Call>, c: Call, b: Bucket, ip: string)
    requires b != c.bucket || ip != c.ip
    ensures var before, now := Get(Run(calls), b), Get(Run(calls + [c]), b);
            if |calls + [c]| % 500 == 0
            then ip in now <==> ip in before && before[ip] != [] && before[ip][|before[ip]| - 1] >= c.now - 60.0
            else (ip in now <==> ip in before) && (ip in now ==> now[ip] == before[ip])
  {
    hide Checked, Swept, Run;
    SweptEvery500(calls);
    RunGrows(calls, c);
    CheckedElsewhere(Run(calls), c, b, ip);
    SweptAt(Run(calls), c.now - WINDOW_SECS, b, ip);
  }

  /** A call changes nobody else's window beyond the sweep. */
  lemma CheckedElsewhere(l: Limiter, c: Call, b: Bucket, ip: string)
    requires b != c.bucket || ip != c.ip
    ensures var after, swept := Get(Checked(l, c.bucket, c.ip, Limit(c.bucket), c.now).0, b),
                                Get(Swept(l, c.now - WINDOW_SECS), b);
            (ip in after <==> ip in swept) && (ip in after ==> after[ip] == swept[ip])
  {
    hide Swept, Pruned;
  }

  lemma SweptAt(l: Limiter, cutoff: real, b: Bucket, ip: string)
    ensures var before, now := Get(l, b), Get(Swept(l, cutoff), b);
            && (ip in now <==> ip in before && (l.calls + 1 >= EVICT_EVERY ==> !Stale(before[ip], cutoff)))
            && (ip in now ==> now[ip] == before[ip])
  {
  }

  // ------------------------------------------------------------ out of order

  /** n batch requests of one client at one time. */
  function Burst(n: nat, t: real): (calls: seq<Call>)
    ensures |calls| == n
  {
    seq(n, _ => Call(Batches, "a", t))
  }

  /** An admitted call is logged behind what was there. */
  lemma LogGrows(calls: seq<Call>, c: Call)
    requires Admits(Log(calls), c.bucket, c.ip, c.now)
    ensures Log(calls + [c]) == Log(calls) + [Accept(c.bucket, c.ip, c.now)]
  {
    hide Admits;
    assert (calls + [c])[..|calls|] == calls;
  }

  lemma BurstGrows(n: nat, t: real)
    ensures Burst(n + 1, t) == Burst(n, t) + [Call(Batches, "a", t)]
  {
  }

  lemma RunGrows(calls: seq<Call>, c: Call)
    ensures Run(calls + [c]) == Checked(Run(calls), c.bucket, c.ip, Limit(c.bucket), c.now).0
  {
    hide Checked;
    assert (calls + [c])[..|calls|] == calls;
  }

  function Copies(n: nat, t: real): (times: seq<real>)
    ensures |times| == n && forall i | 0 <= i < n :: times[i] == t
  {
    seq(n, _ => t)
  }

  lemma CopiesGrow(n: nat, t: real)
    ensures Copies(n, t) + [t] == Copies(n + 1, t)
    ensures Pruned(Copies(n, t), t - WINDOW_SECS) == Copies(n, t)
  {
  }

  /** Twenty requests at once are all accepted, and stored. */
  lemma {:induction false} BurstAccepted(n: nat, t: real)
    requires n <= 20
    ensures Times(Log(Burst(n, t)), Batches, "a") == Copies(n, t)
    ensures WindowOf(Run(Burst(n, t)).batch, "a") == Copies(n, t)
    ensures Run(Burst(n, t)).calls == n
  {
    if n > 0 {
      hide Within, Times, Log, Run, Pruned, Burst, Copies;
      var init, c := Burst(n - 1, t), Call(Batches, "a", t);
      BurstGrows(n - 1, t);
      BurstAccepted(n - 1, t);
      CountSuffix(Copies(n - 1, t), 0, t - WINDOW_SECS, t);
      AdmitsMeans(Log(init), Batches, "a", t);
      LogGrows(init, c);
      TimesGrow(Log(init), Accept(Batches, "a", t), Batches, "a");
      CopiesGrow(n - 1, t);
      RunGrows(init, c);
    }
  }

  lemma {:induction false} AllPruned(times: seq<real>, cutoff: real)
    requires forall i | 0 <= i < |times| :: times[i] < cutoff
    ensures Pruned(times, cutoff) == []
  {
    if times != [] {
      AllPruned(times[1..], cutoff);
    }
  }

  /** A full burst 60 seconds before `late`, and one request stamped s. */
  function LateRun(s: real, late: real): seq<Call> {
    Burst(20, late - WINDOW_SECS) + [Call(Batches, "a", s)]
  }

  lemma LateWindow(s: real, late: real)
    requires s > late
    ensures WindowOf(Run(LateRun(s, late)).batch, "a") == [s] && Run(LateRun(s, late)).calls == 21
  {
    hide Log, Burst, Pruned, Run, Copies, Times;
    var t, c := late - WINDOW_SECS, Call(Batches, "a", s);
    BurstAccepted(20, t);
    RunGrows(Burst(20, t), c);
    AllPruned(Copies(20, t), s - WINDOW_SECS);
    CheckedWindow(Run(Burst(20, t)), c, 20, Batches, "a");
  }

  lemma LateTimes(s: real, late: real)
    requires s > late
    ensures Times(Log(LateRun(s, late)), Batches, "a") == Copies(20, late - WINDOW_SECS) + [s]
  {
    hide Within, Burst, Times, Log;
    var t := late - WINDOW_SECS;
    BurstAccepted(20, t);
    NoneWithin(Copies(20, t), s - WINDOW_SECS, s);
    AdmitsMeans(Log(Burst(20, t)), Batches, "a", s);
    LogGrows(Burst(20, t), Call(Batches, "a", s));
    TimesGrow(Log(Burst(20, t)), Accept(Batches, "a", s), Batches, "a");
  }

  lemma LateWithin(times: seq<real>, s: real, late: real)
    requires s > late && times == Copies(20, late - WINDOW_SECS)
    ensures Within(times + [s], late - WINDOW_SECS, late) == 20
  {
    CountSuffix(times, 0, late - WINDOW_SECS, late);
    assert (times + [s])[..20] == times;
  }

  /** Every inversion of two stamps can be let through: judged by a window pruned for the
      later stamp, the earlier one passes as the 21st batch request in 60 seconds. */
  lemma InversionIsLetThrough(s: real, late: real)
    requires s > late
    ensures Allows(LateRun(s, late), Call(Batches, "a", late)) && !Admits(Log(LateRun(s, late)), Batches, "a", late)
  {
    LateWindow(s, late);
    LateTimes(s, late);
    LateWithin(Copies(20, late - WINDOW_SECS), s, late);
    AdmitsMeans(Log(LateRun(s, late)), Batches, "a", late);
    assert Pruned([s], late - WINDOW_SECS) == [s];
    CheckedWindow(Run(LateRun(s, late)), Call(Batches, "a", late), 20, Batches, "a");
    hide Log, Run, Within, Times, Pruned, Checked, Burst;
  }

  predicate LastStamped(calls: seq<Call>, s: real) {
    calls != [] && calls[|calls| - 1].now == s
  }

  /** Exactly when the stamps decide: after calls in order, the last one stamped s, every
      decision on a call stamped `late` is the reference's iff s <= late. */
  lemma OrderDecides(s: real, late: real)
    ensures (forall calls: seq<Call>, b: Bucket, ip: string | Ordered(calls) && LastStamped(calls, s) ::
              Allows(calls, Call(b, ip, late)) == Admits(Log(calls), b, ip, late))
        <==> s <= late
  {
    hide Allows, Admits, Log;
    if s <= late {
      forall calls: seq<Call>, b: Bucket, ip: string | Ordered(calls) && LastStamped(calls, s)
        ensures Allows(calls, Call(b, ip, late)) == Admits(Log(calls), b, ip, late)
      {
        AppendedOrdered(calls, Call(b, ip, late));
        DecidesAsReference(calls, Call(b, ip, late));
      }
    } else {
      InversionIsLetThrough(s, late);
      BurstOrdered(s, late);
    }
  }

  lemma AppendedOrdered(calls: seq<Call>, c: Call)
    requires Ordered(calls) && calls != [] && calls[|calls| - 1].now <= c.now
    ensures Ordered(calls + [c])
  {
    var all := calls + [c];
    forall i, j | 0 <= i < j < |all| ensures all[i].now <= all[j].now {
      if j == |calls| && i < |calls| - 1 {
        assert calls[i].now <= calls[|calls| - 1].now;
      }
    }
  }

  lemma BurstOrdered(s: real, late: real)
    requires s > late
    ensures Ordered(LateRun(s, late)) && LastStamped(LateRun(s, late), s)
  {
  }
}
