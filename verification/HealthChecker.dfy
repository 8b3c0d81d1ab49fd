/** The health checker of pkg/gateway/healthcheck/checker.go: status after any history of results,
    and the spacing of the checks under any sequence of ticks. */
module HealthChecker {
  import opened Common

  datatype Endpoint = Endpoint(name: string, interval: int, retries: int)

  datatype Result = Result(name: string, ok: bool)

  // ----- Reference definitions, on histories -----

  /** How many of this endpoint's latest results are failures with no success after them. */
  function TrailingFailures(history: seq<Result>, name: string): nat {
    if history == [] then 0
    else
      var last, before := history[|history| - 1], history[..|history| - 1];
      if last.name != name then TrailingFailures(before, name)
      else if last.ok then 0
      else TrailingFailures(before, name) + 1
  }

  predicate Unhealthy(history: seq<Result>, ep: Endpoint) {
    TrailingFailures(history, ep.name) > 0 && TrailingFailures(history, ep.name) > ep.retries
  }

  /** The results of one endpoint. */
  function Own(history: seq<Result>, name: string): seq<bool> {
    if history == [] then []
    else
      var last, before := history[|history| - 1], history[..|history| - 1];
      if last.name == name then Own(before, name) + [last.ok] else Own(before, name)
  }

  /** The latest `n` of these results are all failures. */
  predicate EndsInFailures(own: seq<bool>, n: int) {
    n <= |own| && forall i :: 0 <= i < |own| && |own| - n <= i ==> !own[i]
  }

  lemma {:induction false} TrailingMeans(history: seq<Result>, name: string, n: nat)
    ensures TrailingFailures(history, name) >= n <==> EndsInFailures(Own(history, name), n)
    decreases |history|
  {
    if history != [] {
      var last, before := history[|history| - 1], history[..|history| - 1];
      var own := Own(before, name);
      if last.name != name {
        TrailingMeans(before, name, n);
      } else if n > 0 {
        TrailingMeans(before, name, n - 1);
        var now := own + [last.ok];
        assert now[|own|] == last.ok;
        assert forall i :: 0 <= i < |own| ==> now[i] == own[i];
      }
    }
  }

  /** An endpoint is unhealthy if and only if its latest `retries + 1` results, and at least one, are all
      failures. */
  lemma UnhealthyMeans(history: seq<Result>, ep: Endpoint)
    ensures Unhealthy(history, ep) <==> EndsInFailures(Own(history, ep.name), if ep.retries < 0 then 1 else ep.retries + 1)
  {
    TrailingMeans(history, ep.name, if ep.retries < 0 then 1 else ep.retries + 1);
  }

  predicate Due(last: Option<int>, interval: int, now: int) {
    last.None? || now - last.value >= interval
  }

  /** When the endpoint was last checked, after these ticks. */
  function LastCheck(ticks: seq<int>, interval: int): Option<int> {
    if ticks == [] then None
    else
      var last, now := LastCheck(ticks[..|ticks| - 1], interval), ticks[|ticks| - 1];
      if Due(last, interval, now) then Some(now) else last
  }

  /** Tick `k` starts a check. */
  predicate ChecksAt(ticks: seq<int>, k: nat, interval: int)
    requires k < |ticks|
  {
    Due(LastCheck(ticks[..k], interval), interval, ticks[k])
  }

  // ----- The checker -----

  ghost predicate UniqueNames(eps: seq<Endpoint>) {
    forall i, j :: 0 <= i < j < |eps| ==> eps[i].name != eps[j].name
  }

  ghost predicate StatusOk(eps: seq<Endpoint>, counts: map<string, int>, status: map<string, bool>, history: seq<Result>) {
    && (forall i :: 0 <= i < |eps| ==> EndpointOk(eps[i], counts, status, history))
    && (forall n :: n in status ==> Configured(eps, n))
  }

  /** The failure count and the status of one endpoint are those its results ask for. */
  ghost predicate EndpointOk(ep: Endpoint, counts: map<string, int>, status: map<string, bool>, history: seq<Result>) {
    && ep.name in status
    && Count(counts, ep.name) == TrailingFailures(history, ep.name)
    && status[ep.name] == !Unhealthy(history, ep)
  }

  ghost predicate Configured(eps: seq<Endpoint>, name: string) {
    exists i :: 0 <= i < |eps| && eps[i].name == name
  }

  ghost predicate ChecksOk(eps: seq<Endpoint>, last: map<string, int>, ticks: seq<int>) {
    forall i :: 0 <= i < |eps| ==> LastOf(last, eps[i].name) == LastCheck(ticks, eps[i].interval)
  }

  function Count(counts: map<string, int>, name: string): int {
    if name in counts then counts[name] else 0
  }

  function LastOf(last: map<string, int>, name: string): Option<int> {
    if name in last then Some(last[name]) else None
  }

  class Checker {
    const endpoints: seq<Endpoint>
    var failureCounts: map<string, int>
    var healthStatus: map<string, bool>
    var lastChecked: map<string, int>
    ghost var history: seq<Result>
    ghost var ticks: seq<int>

    ghost predicate Valid()
      reads this
    {
      && UniqueNames(endpoints)
      && StatusOk(endpoints, failureCounts, healthStatus, history)
      && ChecksOk(endpoints, lastChecked, ticks)
    }

    constructor (endpoints: seq<Endpoint>)
      requires UniqueNames(endpoints)
      ensures Valid() && this.endpoints == endpoints && history == [] && ticks == []
    {
      this.endpoints := endpoints;
      failureCounts, lastChecked, history, ticks := map[], map[], [], [];
      healthStatus := map[];
      new;
      for i := 0 to |endpoints|
        invariant this.endpoints == endpoints && failureCounts == map[] && lastChecked == map[] && history == [] && ticks == []
        invariant forall n :: n in healthStatus <==> exists j :: 0 <= j < i && endpoints[j].name == n
        invariant forall n :: n in healthStatus ==> healthStatus[n]
      {
        healthStatus := healthStatus[endpoints[i].name := true];
      }
    }

    method RecordSuccess(ep: Endpoint)
      requires Valid() && ep in endpoints
      modifies this`failureCounts, this`healthStatus, this`history
      ensures Valid() && history == old(history) + [Result(ep.name, true)]
    {
      OneResult(endpoints, failureCounts, healthStatus, history, ep, true);
      MarkHealthy(ep);
      history := history + [Result(ep.name, true)];
    }

    /** The two map updates of recordSuccess. */
    method MarkHealthy(ep: Endpoint)
      modifies this`failureCounts, this`healthStatus
      ensures failureCounts == CountsAfter(old(failureCounts), ep, true)
      ensures healthStatus == StatusAfter(failureCounts, old(healthStatus), ep, true)
    {
      failureCounts := failureCounts[ep.name := 0];
      if !(ep.name in healthStatus && healthStatus[ep.name]) {
        healthStatus := healthStatus[ep.name := true];
      } else {
        assert healthStatus == healthStatus[ep.name := true];
      }
    }

    method RecordFailure(ep: Endpoint)
      requires Valid() && ep in endpoints
      modifies this`failureCounts, this`healthStatus, this`history
      ensures Valid() && history == old(history) + [Result(ep.name, false)]
    {
      OneResult(endpoints, failureCounts, healthStatus, history, ep, false);
      MarkUnhealthy(ep);
      history := history + [Result(ep.name, false)];
    }

    /** The two map updates of recordFailure. */
    method MarkUnhealthy(ep: Endpoint)
      requires ep.name in healthStatus
      modifies this`failureCounts, this`healthStatus
      ensures failureCounts == CountsAfter(old(failureCounts), ep, false)
      ensures healthStatus == StatusAfter(failureCounts, old(healthStatus), ep, false)
    {
      failureCounts := failureCounts[ep.name := Count(failureCounts, ep.name) + 1];
      if failureCounts[ep.name] > ep.retries {
        if healthStatus[ep.name] {
          healthStatus := healthStatus[ep.name := false];
        } else {
          assert healthStatus == healthStatus[ep.name := false];
        }
      }
    }

    /** Unhealthy exactly when the endpoint is known and its trailing failures are more than its
        retries allow. */
    method IsHealthy(name: string) returns (healthy: bool)
      requires Valid()
      ensures healthy <==> forall i :: 0 <= i < |endpoints| && endpoints[i].name == name ==> !Unhealthy(history, endpoints[i])
    {
      healthy := name !in healthStatus || healthStatus[name];
    }

    /** Starts the checks that are due; `started` are the endpoints checked at this tick. */
    method Iteration(now: int) returns (started: seq<Endpoint>)
      requires Valid()
      modifies this`lastChecked, this`ticks
      ensures Valid() && ticks == old(ticks) + [now]
      ensures forall i :: 0 <= i < |endpoints| ==>
        (endpoints[i] in started <==> ChecksAt(ticks, |old(ticks)|, endpoints[i].interval))
    {
      ghost var before := lastChecked;
      started := StartDue(now);
      TickKeepsChecks(endpoints, before, lastChecked, ticks, now);
      forall i | 0 <= i < |endpoints|
        ensures endpoints[i] in started <==> ChecksAt(ticks + [now], |ticks|, endpoints[i].interval)
      {
        assert LastOf(before, endpoints[i].name) == LastCheck(ticks, endpoints[i].interval);
        assert (ticks + [now])[..|ticks|] == ticks;
      }
      ticks := ticks + [now];
    }

    /** The loop over the endpoints. */
    method StartDue(now: int) returns (started: seq<Endpoint>)
      requires UniqueNames(endpoints)
      modifies this`lastChecked
      ensures forall j :: 0 <= j < |endpoints| ==> Visited(endpoints[j], old(lastChecked), lastChecked, started, now)
    {
      started := [];
      ghost var before := lastChecked;
      for i := 0 to |endpoints|
        invariant forall j :: i <= j < |endpoints| ==> LastOf(lastChecked, endpoints[j].name) == LastOf(before, endpoints[j].name)
        invariant forall j :: 0 <= j < i ==> Visited(endpoints[j], before, lastChecked, started, now)
        invariant forall e :: e in started ==> exists j :: 0 <= j < i && endpoints[j] == e
      {
        var ep := endpoints[i];
        var lastCheck := LastOf(lastChecked, ep.name);
        if Due(lastCheck, ep.interval, now) {
          VisitDue(endpoints, i, before, lastChecked, started, now);
          lastChecked := lastChecked[ep.name := now];
          started := started + [ep];
        } else {
          assert Visited(ep, before, lastChecked, started, now);
        }
      }
    }
  }

  function NewLast(before: map<string, int>, ep: Endpoint, now: int): Option<int> {
    if Due(LastOf(before, ep.name), ep.interval, now) then Some(now) else LastOf(before, ep.name)
  }

  /** An endpoint after its turn: checked now if it was due, untouched otherwise. */
  ghost predicate Visited(ep: Endpoint, before: map<string, int>, after: map<string, int>, started: seq<Endpoint>, now: int) {
    var due := Due(LastOf(before, ep.name), ep.interval, now);
    && LastOf(after, ep.name) == NewLast(before, ep, now)
    && (ep in started <==> due)
  }

  lemma VisitDue(eps: seq<Endpoint>, i: nat, before: map<string, int>, last: map<string, int>, started: seq<Endpoint>, now: int)
    requires UniqueNames(eps) && i < |eps|
    requires LastOf(last, eps[i].name) == LastOf(before, eps[i].name) && Due(LastOf(last, eps[i].name), eps[i].interval, now)
    requires forall j :: 0 <= j < i ==> Visited(eps[j], before, last, started, now)
    ensures forall j :: 0 <= j <= i ==> Visited(eps[j], before, last[eps[i].name := now], started + [eps[i]], now)
  {
    forall j | 0 <= j < i
      ensures Visited(eps[j], before, last[eps[i].name := now], started + [eps[i]], now)
    {
      assert Visited(eps[j], before, last, started, now);
      assert eps[j].name != eps[i].name;
    }
  }

  lemma TickKeepsChecks(eps: seq<Endpoint>, before: map<string, int>, after: map<string, int>, ticks: seq<int>, now: int)
    requires ChecksOk(eps, before, ticks)
    requires forall j :: 0 <= j < |eps| ==> LastOf(after, eps[j].name) == NewLast(before, eps[j], now)
    ensures ChecksOk(eps, after, ticks + [now])
  {
    assert (ticks + [now])[..|ticks|] == ticks;
  }

  lemma ResultExtends(history: seq<Result>, r: Result, name: string)
    ensures TrailingFailures(history + [r], name) ==
      if r.name != name then TrailingFailures(history, name) else if r.ok then 0 else TrailingFailures(history, name) + 1
  {
    assert (history + [r])[..|history|] == history;
  }

  function CountsAfter(counts: map<string, int>, ep: Endpoint, ok: bool): map<string, int> {
    counts[ep.name := if ok then 0 else Count(counts, ep.name) + 1]
  }

  function StatusAfter(counts: map<string, int>, status: map<string, bool>, ep: Endpoint, ok: bool): map<string, bool> {
    if ok then status[ep.name := true]
    else if Count(counts, ep.name) > ep.retries then status[ep.name := false]
    else status
  }

  /** One recorded result keeps counts and status in step with the history. */
  lemma OneResult(eps: seq<Endpoint>, counts: map<string, int>, status: map<string, bool>, history: seq<Result>, ep: Endpoint, ok: bool)
    requires UniqueNames(eps) && StatusOk(eps, counts, status, history) && ep in eps
    ensures ep.name in status
    ensures var counts' := CountsAfter(counts, ep, ok);
      StatusOk(eps, counts', StatusAfter(counts', status, ep, ok), history + [Result(ep.name, ok)])
  {
    var counts' := CountsAfter(counts, ep, ok);
    var status' := StatusAfter(counts', status, ep, ok);
    var history' := history + [Result(ep.name, ok)];
    var k :| 0 <= k < |eps| && eps[k] == ep;
    assert EndpointOk(eps[k], counts, status, history);
    forall i | 0 <= i < |eps|
      ensures EndpointOk(eps[i], counts', status', history')
    {
      assert EndpointOk(eps[i], counts, status, history);
      ResultExtends(history, Result(ep.name, ok), eps[i].name);
      assert i != k ==> eps[i].name != eps[k].name;
    }
  }

  // ----- Spacing of the checks -----

  ghost predicate GapsAtMost(ticks: seq<int>, gap: int) {
    forall k :: 0 < k < |ticks| ==> ticks[k - 1] <= ticks[k] <= ticks[k - 1] + gap
  }

  /** No check starts strictly between ticks i and j. */
  ghost predicate NoCheckBetween(ticks: seq<int>, i: nat, j: nat, interval: int)
    requires i <= j <= |ticks|
  {
    forall k :: i < k < j ==> !ChecksAt(ticks, k, interval)
  }

  lemma {:induction false} LastCheckStays(ticks: seq<int>, i: nat, j: nat, interval: int)
    requires i < j <= |ticks| && ChecksAt(ticks, i, interval) && NoCheckBetween(ticks, i, j, interval)
    ensures LastCheck(ticks[..j], interval) == Some(ticks[i])
    decreases j
  {
    assert ticks[..j][..j - 1] == ticks[..j - 1];
    if j > i + 1 {
      LastCheckStays(ticks, i, j - 1, interval);
      assert !ChecksAt(ticks, j - 1, interval);
    }
  }

  /** Every endpoint is checked at the first tick, and after a check next at the first tick that is at
      least its interval later. */
  lemma ChecksExactly(ticks: seq<int>, interval: int)
    requires ticks != []
    ensures ChecksAt(ticks, 0, interval)
    ensures forall i, k :: 0 <= i < k < |ticks| && ChecksAt(ticks, i, interval) && NoCheckBetween(ticks, i, k, interval) ==>
      (ChecksAt(ticks, k, interval) <==> ticks[k] - ticks[i] >= interval)
  {
    assert ticks[..0] == [];
    forall i, k | 0 <= i < k < |ticks| && ChecksAt(ticks, i, interval) && NoCheckBetween(ticks, i, k, interval)
      ensures ChecksAt(ticks, k, interval) <==> ticks[k] - ticks[i] >= interval
    {
      LastCheckStays(ticks, i, k, interval);
    }
  }

  /** Successive checks of an endpoint start at least its interval apart, and less than one tick
      gap more than that; the first tick always checks. */
  lemma CheckSpacing(ticks: seq<int>, i: nat, j: nat, interval: int, gap: int)
    requires interval > 0 && GapsAtMost(ticks, gap)
    requires i < j < |ticks|
    requires ChecksAt(ticks, i, interval) && ChecksAt(ticks, j, interval) && NoCheckBetween(ticks, i, j, interval)
    ensures interval <= ticks[j] - ticks[i] < interval + gap
    ensures ChecksAt(ticks, 0, interval)
  {
    LastCheckStays(ticks, i, j, interval);
    assert ticks[j] <= ticks[j - 1] + gap;
    if j > i + 1 {
      LastCheckStays(ticks, i, j - 1, interval);
      assert !ChecksAt(ticks, j - 1, interval);
    }
    assert ticks[..0] == [];
  }
}
