/** The picker of pkg/util/proxy/grpc_bounded_load_balancer.go: the overload threshold, with real
    numbers for float64, and the round-robin search over a wrapping 32-bit counter. */
module BoundedLoadPicker {
  import opened Common
  import opened BoundedLoadStats

  const COUNTER: int := 0x1_0000_0000

  function Ceil(x: real): int {
    if x.Floor as real == x then x.Floor else x.Floor + 1
  }

  function Threshold(s: Stats, factor: real): int {
    if factor <= 1.0 then 0
    else if s.total == 0 || |s.inflight| == 0 then 0
    else ThresholdOf(Average(s.total, |s.inflight|), factor)
  }

  function Average(total: int, n: nat): real
    requires n > 0
  {
    total as real / n as real
  }

  function ThresholdOf(average: real, factor: real): int {
    Ceil(average * factor)
  }

  predicate Overloaded(s: Stats, a: Addr, threshold: int) {
    a in s.inflight && s.inflight[a] >= threshold
  }

  /** The connection index of the j-th try after counter value `next`. */
  function Probe(next: nat, n: nat, j: nat): nat
    requires n > 0
  {
    ((next + j) % COUNTER) % n
  }

  class Picker {
    const subConnsAddr: seq<Addr>
    const overloadedFactor: real
    var nextRoundRobinID: nat

    ghost predicate Valid()
      reads this
    {
      0 < |subConnsAddr| < COUNTER && nextRoundRobinID < COUNTER
    }

    /** Any start index will do; the code draws it at random. */
    constructor (addrs: seq<Addr>, factor: real, start: nat)
      requires 0 < |addrs| < COUNTER && start < |addrs|
      ensures Valid() && subConnsAddr == addrs && overloadedFactor == factor && nextRoundRobinID == start
    {
      subConnsAddr, overloadedFactor, nextRoundRobinID := addrs, factor, start;
    }

    method NextRoundRobinConnection() returns (pick: nat)
      requires Valid()
      modifies this
      ensures Valid()
      ensures pick == Probe(old(nextRoundRobinID), |subConnsAddr|, 1)
      ensures nextRoundRobinID == (old(nextRoundRobinID) + 1) % COUNTER
    {
      nextRoundRobinID := (nextRoundRobinID + 1) % COUNTER;
      pick := nextRoundRobinID % |subConnsAddr|;
    }

    /** The next connection, seen from the counter value `tries` steps ago. */
    method NextAfter(ghost start: nat, ghost tries: nat) returns (pick: nat)
      requires Valid() && nextRoundRobinID == (start + tries) % COUNTER
      modifies this
      ensures Valid() && nextRoundRobinID == (start + (tries + 1)) % COUNTER
      ensures pick == Probe(start, |subConnsAddr|, tries + 1)
    {
      NextProbe(start, tries, |subConnsAddr|);
      pick := NextRoundRobinConnection();
    }

    /** Tries connections in round-robin order and stops at the first one that is not overloaded,
        or after as many tries as there are connections.  The statistics may change all the while:
        `views[0]` is what the threshold is computed from, `views[j]` what the j-th try looks at. */
    method Pick(views: seq<Stats>) returns (pick: nat, tries: nat)
      requires Valid() && |views| == |subConnsAddr| + 1
      modifies this
      ensures Valid()
      ensures 1 <= tries <= |subConnsAddr|
      ensures nextRoundRobinID == (old(nextRoundRobinID) + tries) % COUNTER
      ensures Picked(old(nextRoundRobinID), subConnsAddr, views, Threshold(views[0], overloadedFactor), pick, tries)
    {
      var threshold := Threshold(views[0], overloadedFactor);
      if threshold <= 0 {
        pick := NextRoundRobinConnection();
        return pick, 1;
      }
      pick, tries := Search(views, threshold);
    }

    /** The loop of Pick. */
    method Search(views: seq<Stats>, threshold: int) returns (pick: nat, tries: nat)
      requires Valid() && threshold > 0 && |views| == |subConnsAddr| + 1
      modifies this
      ensures Valid()
      ensures 1 <= tries <= |subConnsAddr|
      ensures nextRoundRobinID == (old(nextRoundRobinID) + tries) % COUNTER
      ensures Picked(old(nextRoundRobinID), subConnsAddr, views, threshold, pick, tries)
    {
      ghost var start := nextRoundRobinID;
      pick, tries := 0, 0;
      while tries < |subConnsAddr|
        invariant 0 <= tries <= |subConnsAddr| && Valid()
        invariant nextRoundRobinID == (start + tries) % COUNTER
        invariant AllOverloaded(start, subConnsAddr, views, threshold, tries)
        invariant tries > 0 ==> pick == Probe(start, |subConnsAddr|, tries)
      {
        pick := NextAfter(start, tries);
        tries := tries + 1;
        if !Overloaded(views[tries], subConnsAddr[pick], threshold) {
          return;
        }
        OneMoreOverloaded(start, subConnsAddr, views, threshold, tries);
      }
    }
  }

  /** The j-th try finds its connection overloaded. */
  predicate OverloadedAt(next: nat, addrs: seq<Addr>, views: seq<Stats>, threshold: int, j: nat)
    requires |addrs| > 0
  {
    j < |views| && Overloaded(views[j], addrs[Probe(next, |addrs|, j)], threshold)
  }

  /** The first `tries` tries all do. */
  ghost predicate AllOverloaded(next: nat, addrs: seq<Addr>, views: seq<Stats>, threshold: int, tries: nat)
    requires |addrs| > 0
  {
    forall j: nat :: 1 <= j <= tries ==> OverloadedAt(next, addrs, views, threshold, j)
  }

  ghost predicate Picked(next: nat, addrs: seq<Addr>, views: seq<Stats>, threshold: int, pick: nat, tries: nat)
    requires |addrs| > 0
  {
    && 1 <= tries < |views| && pick == Probe(next, |addrs|, tries) && pick < |addrs|
    && (if threshold <= 0 then tries == 1
        else AllOverloaded(next, addrs, views, threshold, tries - 1)
             && (tries == |addrs| || !Overloaded(views[tries], addrs[pick], threshold)))
  }

  lemma OneMoreOverloaded(next: nat, addrs: seq<Addr>, views: seq<Stats>, threshold: int, tries: nat)
    requires |addrs| > 0 && tries > 0
    requires AllOverloaded(next, addrs, views, threshold, tries - 1) && OverloadedAt(next, addrs, views, threshold, tries)
    ensures AllOverloaded(next, addrs, views, threshold, tries)
  {
  }

  lemma NextProbe(start: nat, tries: nat, n: nat)
    requires n > 0
    ensures (((start + tries) % COUNTER) + 1) % COUNTER == (start + (tries + 1)) % COUNTER
    ensures Probe((start + tries) % COUNTER, n, 1) == Probe(start, n, tries + 1)
  {
  }

  // ----- Some backend is below the threshold -----

  lemma {:induction false} SumAtLeast(m: map<Addr, Word>, t: int)
    requires t >= 0
    requires forall a :: a in m ==> m[a] >= t
    ensures Sum(m) >= |m| * t
    decreases |m|
  {
    if m != map[] {
      var a :| a in m;
      SumWithout(m, a);
      SumAtLeast(m - {a}, t);
      OneLess(m, a);
      OneMoreTime(|m| - 1, t);
    }
  }

  lemma OneLess(m: map<Addr, Word>, a: Addr)
    requires a in m
    ensures |m - {a}| == |m| - 1
  {
    assert (m - {a}).Keys == m.Keys - {a};
  }

  lemma OneMoreTime(n: int, t: int)
    ensures (n + 1) * t == n * t + t
  {
  }

  lemma CeilBounds(x: real)
    ensures x <= Ceil(x) as real < x + 1.0
  {
  }

  lemma Stretch(x: real, y: real, n: real)
    requires x > y && n > 0.0
    ensures x * n > y * n
  {
  }

  lemma {:induction false} RealProduct(t: int, n: nat)
    ensures (t * n) as real == t as real * n as real
  {
    if n > 0 {
      RealProduct(t, n - 1);
      assert t * n == t * (n - 1) + t;
      assert t as real * n as real == t as real * (n - 1) as real + t as real;
    }
  }

  /** The threshold exceeds the average. */
  lemma ThresholdAboveAverage(total: int, n: nat, factor: real)
    requires total > 0 && n > 0 && factor > 1.0
    ensures ThresholdOf(Average(total, n), factor) * n > total
  {
    AverageTimesCount(total, n);
    AboveAverage(total, n, Average(total, n), factor);
  }

  lemma AboveAverage(total: int, n: nat, avg: real, factor: real)
    requires n > 0 && factor > 1.0 && avg > 0.0 && avg * n as real == total as real
    ensures ThresholdOf(avg, factor) * n > total
  {
    Stretch(factor, 1.0, avg);
    assert avg * factor > avg;
    CeilBounds(avg * factor);
    TimesCount(total, n, avg, ThresholdOf(avg, factor));
  }

  lemma TimesCount(total: int, n: nat, avg: real, t: int)
    requires n > 0 && t as real > avg && avg * n as real == total as real
    ensures t * n > total
  {
    Stretch(t as real, avg, n as real);
    RealProduct(t, n);
  }

  lemma AverageTimesCount(total: int, n: nat)
    requires total > 0 && n > 0
    ensures Average(total, n) > 0.0 && Average(total, n) * n as real == total as real
  {
  }

  /** The threshold is the least integer that is no less than the factor times the average, when there is
      an average and the factor exceeds 1, and 0 otherwise. */
  lemma ThresholdIsLeast(s: Stats, factor: real, t: int)
    ensures factor > 1.0 && s.total > 0 && |s.inflight| > 0 ==>
      (t >= Threshold(s, factor) <==> t as real * |s.inflight| as real >= s.total as real * factor)
    ensures !(factor > 1.0 && s.total > 0 && |s.inflight| > 0) ==> Threshold(s, factor) == 0
  {
    if factor > 1.0 && s.total > 0 && |s.inflight| > 0 {
      AverageTimesCount(s.total, |s.inflight|);
      LeastAbove(s.total as real, |s.inflight| as real, Average(s.total, |s.inflight|), factor, t);
    }
  }

  lemma LeastAbove(total: real, n: real, avg: real, factor: real, t: int)
    requires n > 0.0 && avg * n == total
    ensures t >= ThresholdOf(avg, factor) <==> t as real * n >= total * factor
  {
    var x := avg * factor;
    CeilBounds(x);
    assert x * n == total * factor by {
      assert avg * factor * n == avg * n * factor;
    }
    Cancel(t as real, x, n);
  }

  lemma Cancel(x: real, y: real, n: real)
    requires n > 0.0
    ensures x >= y <==> x * n >= y * n
  {
    if x > y {
      Stretch(x, y, n);
    } else if x < y {
      Stretch(y, x, n);
    }
  }

  /** A backend is overloaded if and only if it has at least `factor` times the average in flight. */
  ghost predicate AboveAverageBy(now: Stats, a: Addr, base: Stats, factor: real) {
    a in now.inflight && now.inflight[a] as real * |base.inflight| as real >= base.total as real * factor
  }

  lemma OverloadedMeans(now: Stats, a: Addr, base: Stats, factor: real)
    requires factor > 1.0 && base.total > 0 && |base.inflight| > 0
    ensures Threshold(base, factor) > 0
    ensures Overloaded(now, a, Threshold(base, factor)) <==> AboveAverageBy(now, a, base, factor)
  {
    ThresholdIsLeast(base, factor, 0);
    Stretch(factor, 0.0, base.total as real);
    if a in now.inflight {
      ThresholdIsLeast(base, factor, now.inflight[a]);
    }
  }

  /** So Pick skips exactly backends that have at least `factor` times the average in flight, and returns
      one that has not, unless it has tried as often as there are connections. */
  lemma PickBounds(next: nat, addrs: seq<Addr>, views: seq<Stats>, factor: real, pick: nat, tries: nat)
    requires |addrs| > 0 && |views| == |addrs| + 1 && factor > 1.0
    requires views[0].total > 0 && |views[0].inflight| > 0
    requires tries <= |addrs| && Picked(next, addrs, views, Threshold(views[0], factor), pick, tries)
    ensures tries < |addrs| ==> !AboveAverageBy(views[tries], addrs[pick], views[0], factor)
    ensures forall j: nat :: 1 <= j < tries ==> AboveAverageBy(views[j], addrs[Probe(next, |addrs|, j)], views[0], factor)
  {
    OverloadedMeans(views[tries], addrs[pick], views[0], factor);
    forall j: nat | 1 <= j < tries
      ensures AboveAverageBy(views[j], addrs[Probe(next, |addrs|, j)], views[0], factor)
    {
      assert OverloadedAt(next, addrs, views, Threshold(views[0], factor), j);
      OverloadedMeans(views[j], addrs[Probe(next, |addrs|, j)], views[0], factor);
    }
  }

  lemma OneIsBelow(m: map<Addr, Word>, t: int)
    requires t * |m| > Sum(m)
    ensures exists a :: a in m && m[a] < t
  {
    if forall a :: a in m ==> m[a] >= t {
      if t >= 0 {
        SumAtLeast(m, t);
      } else {
        NegativeProduct(t, |m|);
      }
      assert false;
    }
  }

  lemma NegativeProduct(t: int, n: nat)
    requires t < 0
    ensures t * n <= 0
  {
  }

  /** With counts that have not wrapped and some RPC in flight, some backend is not overloaded. */
  lemma SomeoneIsBelow(s: Stats, factor: real)
    requires factor > 1.0
    requires s.total == Sum(s.inflight) && s.total > 0
    ensures Threshold(s, factor) > 0
    ensures exists a :: a in s.inflight && !Overloaded(s, a, Threshold(s, factor))
  {
    NonEmptySum(s.inflight);
    ThresholdAboveAverage(s.total, |s.inflight|, factor);
    assert Threshold(s, factor) == ThresholdOf(Average(s.total, |s.inflight|), factor);
    BelowThreshold(s, Threshold(s, factor));
  }

  lemma NonEmptySum(m: map<Addr, Word>)
    requires Sum(m) > 0
    ensures |m| > 0
  {
    assert |m| == 0 ==> m == map[];
  }

  lemma BelowThreshold(s: Stats, t: int)
    requires t * |s.inflight| > Sum(s.inflight)
    ensures t > 0
    ensures exists a :: a in s.inflight && !Overloaded(s, a, t)
  {
    OneIsBelow(s.inflight, t);
    var a :| a in s.inflight && s.inflight[a] < t;
    assert !Overloaded(s, a, t);
  }

  // ----- The tries of one Pick -----

  /** Every connection index is tried within one round. */
  ghost predicate CoversAll(next: nat, n: nat)
    requires n > 0
  {
    forall x: nat :: x < n ==> Tried(next, n, x)
  }

  ghost predicate Tried(next: nat, n: nat, x: nat)
    requires n > 0
  {
    exists j: nat :: 1 <= j <= n && Probe(next, n, j) == x
  }

  lemma ProbeBeforeWrap(next: nat, n: nat, j: nat)
    requires n > 0 && next + j < COUNTER
    ensures Probe(next, n, j) == (next + j) % n
  {
  }

  lemma ProbeAfterWrap(next: nat, n: nat, j: nat)
    requires n > 0 && COUNTER <= next + j < COUNTER + n && next + j < COUNTER + COUNTER
    ensures Probe(next, n, j) == next + j - COUNTER
  {
    var v := next + j - COUNTER;
    assert (next + j) % COUNTER == v;
    ModIs(0, n, v);
  }

  /** Consecutive values hit every residue. */
  lemma Residue(base: nat, n: nat, x: nat) returns (j: nat)
    requires n > 0 && x < n
    ensures 1 <= j <= n && (base + j) % n == x
  {
    var r := (base + 1) % n;
    var q := (base + 1) / n;
    assert base + 1 == q * n + r;
    if x >= r {
      j := 1 + x - r;
      ModIs(q, n, x);
    } else {
      j := 1 + x - r + n;
      assert (q + 1) * n == q * n + n;
      ModIs(q + 1, n, x);
    }
  }

  lemma MultipleOfN(v: nat, n: nat)
    requires n > 0 && COUNTER % n == 0
    ensures (v % COUNTER) % n == v % n
  {
    var q, m := v / COUNTER, COUNTER / n;
    var r := v % COUNTER;
    assert COUNTER == m * n;
    assert v == q * COUNTER + r;
    var k, x := r / n, r % n;
    assert r == k * n + x;
    assert v == (q * m + k) * n + x by {
      assert q * (m * n) == (q * m) * n;
      assert (q * m + k) * n == (q * m) * n + k * n;
    }
    ModIs(q * m + k, n, x);
  }

  lemma CoveredIfAligned(next: nat, n: nat)
    requires 0 < n < COUNTER && next < COUNTER
    requires next + n < COUNTER || next == COUNTER - 1 || COUNTER % n == 0
    ensures CoversAll(next, n)
  {
    forall x: nat | x < n
      ensures Tried(next, n, x)
    {
      TriedIfAligned(next, n, x);
    }
  }

  lemma TriedIfAligned(next: nat, n: nat, x: nat)
    requires 0 < n < COUNTER && next < COUNTER && x < n
    requires next + n < COUNTER || next == COUNTER - 1 || COUNTER % n == 0
    ensures Tried(next, n, x)
  {
    if next == COUNTER - 1 {
      ProbeAfterWrap(next, n, x + 1);
      assert Probe(next, n, x + 1) == x;
    } else {
      var j := Residue(next, n, x);
      if next + n < COUNTER {
        ProbeBeforeWrap(next, n, j);
      } else {
        MultipleOfN(next + j, n);
      }
      assert Probe(next, n, j) == x;
    }
  }

  /** Residues of the values just below the wrap. */
  lemma BelowWrap(n: nat, i: nat)
    requires 0 < i < n < COUNTER
    ensures var c := COUNTER % n; (COUNTER - i) % n == if i <= c then c - i else n + c - i
  {
    var q, c := COUNTER / n, COUNTER % n;
    assert COUNTER == q * n + c;
    if i <= c {
      ModIs(q, n, c - i);
    } else {
      assert (q - 1) * n == q * n - n;
      ModIs(q - 1, n, n + c - i);
    }
  }

  /** A wrap in mid-round skips a connection unless the count divides 2^32. */
  lemma SkippedIfUnaligned(next: nat, n: nat) returns (x: nat)
    requires 0 < n < COUNTER && next < COUNTER - 1
    requires next + n >= COUNTER && COUNTER % n != 0
    ensures x < n && !Tried(next, n, x)
  {
    var k := COUNTER - 1 - next;
    var c := COUNTER % n;
    x := if c >= k then n - 1 else n - k + c - 1;
    forall j: nat | 1 <= j <= n
      ensures Probe(next, n, j) != x
    {
      if j <= k {
        ProbeBeforeWrap(next, n, j);
        BelowWrap(n, k + 1 - j);
        assert next + j == COUNTER - (k + 1 - j);
      } else {
        ProbeAfterWrap(next, n, j);
      }
    }
  }

  /** One Pick can try every connection if and only if its round does not cross the counter's
      wrap-around, or crosses it without harm. */
  lemma CoversAllExactly(next: nat, n: nat)
    requires 0 < n < COUNTER && next < COUNTER
    ensures CoversAll(next, n) <==> next + n < COUNTER || next == COUNTER - 1 || COUNTER % n == 0
  {
    if next + n < COUNTER || next == COUNTER - 1 || COUNTER % n == 0 {
      CoveredIfAligned(next, n);
    } else {
      var x := SkippedIfUnaligned(next, n);
    }
  }

  /** The backend is tried within one round, and that try finds it overloaded. */
  ghost predicate FoundOverloaded(next: nat, addrs: seq<Addr>, views: seq<Stats>, t: int, a: Addr)
    requires |addrs| > 0
  {
    exists j: nat :: 1 <= j <= |addrs| && OverloadedAt(next, addrs, views, t, j) && addrs[Probe(next, |addrs|, j)] == a
  }

  /** When the picker knows every tracked backend and its round covers all of them: some backend is
      below the threshold as it is computed, and Pick returns a backend that is not overloaded at that
      try unless each one that was below had become overloaded by the time it was tried.  Starting the
      RPC then stays within the threshold. */
  lemma PickAvoidsOverloaded(next: nat, addrs: seq<Addr>, views: seq<Stats>, factor: real, pick: nat, tries: nat, rpc: Rpc)
    requires 0 < |addrs| < COUNTER && next < COUNTER && |views| == |addrs| + 1
    requires CoversAll(next, |addrs|)
    requires factor > 1.0 && views[0].total == Sum(views[0].inflight) && views[0].total > 0
    requires forall a :: a in views[0].inflight ==> a in addrs
    requires tries <= |addrs| && Picked(next, addrs, views, Threshold(views[0], factor), pick, tries)
    ensures var t := Threshold(views[0], factor);
      && (exists a :: a in views[0].inflight && !Overloaded(views[0], a, t))
      && (Overloaded(views[tries], addrs[pick], t) ==>
            forall a :: a in views[0].inflight ==> FoundOverloaded(next, addrs, views, t, a))
      && (!Overloaded(views[tries], addrs[pick], t) && addrs[pick] in views[tries].inflight ==>
            && addrs[pick] in Step(views[tries], OutHeader(rpc, addrs[pick])).inflight
            && Step(views[tries], OutHeader(rpc, addrs[pick])).inflight[addrs[pick]] <= t)
  {
    var t := Threshold(views[0], factor);
    SomeoneIsBelow(views[0], factor);
    if Overloaded(views[tries], addrs[pick], t) {
      forall a | a in views[0].inflight
        ensures FoundOverloaded(next, addrs, views, t, a)
      {
        AllWereTried(next, addrs, views, t, pick, tries, a);
      }
    } else {
      OneMoreFits(views[tries], addrs[pick], t, rpc);
    }
  }

  lemma OneMoreFits(s: Stats, a: Addr, t: int, rpc: Rpc)
    requires !Overloaded(s, a, t)
    ensures a in s.inflight ==> a in Step(s, OutHeader(rpc, a)).inflight && Step(s, OutHeader(rpc, a)).inflight[a] <= t
  {
  }

  lemma AllWereTried(next: nat, addrs: seq<Addr>, views: seq<Stats>, t: int, pick: nat, tries: nat, a: Addr)
    requires |addrs| > 0 && CoversAll(next, |addrs|) && t > 0 && a in addrs && |views| == |addrs| + 1
    requires tries <= |addrs| && Picked(next, addrs, views, t, pick, tries) && Overloaded(views[tries], addrs[pick], t)
    ensures FoundOverloaded(next, addrs, views, t, a)
  {
    var x: nat :| x < |addrs| && addrs[x] == a;
    assert Tried(next, |addrs|, x);
    var j: nat :| 1 <= j <= |addrs| && Probe(next, |addrs|, j) == x;
    assert OverloadedAt(next, addrs, views, t, j);
  }

  /** With statistics that stand still during the search, the pick is not overloaded. */
  lemma StillPickAvoidsOverloaded(next: nat, addrs: seq<Addr>, s: Stats, factor: real, pick: nat, tries: nat)
    requires 0 < |addrs| < COUNTER && next < COUNTER && CoversAll(next, |addrs|)
    requires factor > 1.0 && s.total == Sum(s.inflight) && s.total > 0
    requires forall a :: a in s.inflight ==> a in addrs
    requires tries <= |addrs| && Picked(next, addrs, seq(|addrs| + 1, _ => s), Threshold(s, factor), pick, tries)
    ensures !Overloaded(s, addrs[pick], Threshold(s, factor))
  {
    var views := seq(|addrs| + 1, _ => s);
    PickAvoidsOverloaded(next, addrs, views, factor, pick, tries, 0);
    var a :| a in s.inflight && !Overloaded(s, a, Threshold(s, factor));
    assert !FoundOverloaded(next, addrs, views, Threshold(s, factor), a);
  }
}
