/** What the statistics of the bounded load balancer say about the events so far, told by functions of
    the events that do not run the handler. */
module BoundedLoadEvents {
  import opened Common
  import opened BoundedLoadStats

  // ----- Connections -----

  /** Connections begun minus connections ended. */
  function ConnBalance(evs: seq<Event>, a: Addr): int {
    if evs == [] then
      0
    else
      var before, e := ConnBalance(evs[..|evs| - 1], a), evs[|evs| - 1];
      if e == ConnBegin(a) then before + 1 else if e == ConnEnd(a) then before - 1 else before
  }

  /** A connection has begun since the last one ended that brought the balance to 0, modulo 2^64. */
  predicate Tracked(evs: seq<Event>, a: Addr) {
    evs != [] &&
    var e := evs[|evs| - 1];
    e == ConnBegin(a) || (Tracked(evs[..|evs| - 1], a) && !(e == ConnEnd(a) && Wrap(ConnBalance(evs, a)) == 0))
  }

  /** The connection count is the balance modulo 2^64, and these are the backends tracked, after every
      order of events. */
  lemma {:induction false} ConnectionsAreBalance(evs: seq<Event>, a: Addr)
    ensures Connections(Run(evs), a) == Wrap(ConnBalance(evs, a))
    ensures a in Run(evs).inflight <==> Tracked(evs, a)
    decreases |evs|
  {
    if evs != [] {
      var n := |evs| - 1;
      ConnectionsAreBalance(evs[..n], a);
      StepMovesConnections(Run(evs[..n]), evs[n], a);
      PlusWrap(ConnBalance(evs[..n], a), 1);
      PlusWrap(ConnBalance(evs[..n], a), -1);
    }
  }

  lemma StepMovesConnections(s: Stats, e: Event, a: Addr)
    ensures Connections(Step(s, e), a) ==
      if e == ConnBegin(a) then Plus(Connections(s, a), 1) else if e == ConnEnd(a) then Plus(Connections(s, a), -1) else Connections(s, a)
    ensures a in Step(s, e).inflight <==>
      e == ConnBegin(a) || (a in s.inflight && !(e == ConnEnd(a) && Plus(Connections(s, a), -1) == 0))
  {
  }

  /** No connection ends that has not begun. */
  ghost predicate Matched(evs: seq<Event>, a: Addr) {
    forall k {:trigger evs[..k]} :: 0 <= k <= |evs| ==> ConnBalance(evs[..k], a) >= 0
  }

  /** Then exactly the backends with an open connection are tracked. */
  lemma {:induction false} TrackedWhileConnected(evs: seq<Event>, a: Addr)
    requires Matched(evs, a) && |evs| < WORD
    ensures Tracked(evs, a) <==> ConnBalance(evs, a) > 0
    decreases |evs|
  {
    if evs != [] {
      var n := |evs| - 1;
      MatchedBefore(evs, a, n);
      TrackedWhileConnected(evs[..n], a);
      BalanceIsSmall(evs, a);
      assert evs[..|evs|] == evs;
    }
  }

  lemma MatchedBefore(evs: seq<Event>, a: Addr, n: nat)
    requires Matched(evs, a) && n <= |evs|
    ensures Matched(evs[..n], a)
  {
    forall k {:trigger evs[..n][..k]} | 0 <= k <= n
      ensures ConnBalance(evs[..n][..k], a) >= 0
    {
      assert evs[..n][..k] == evs[..k];
    }
  }

  lemma {:induction false} BalanceIsSmall(evs: seq<Event>, a: Addr)
    ensures -|evs| <= ConnBalance(evs, a) <= |evs|
    decreases |evs|
  {
    if evs != [] {
      BalanceIsSmall(evs[..|evs| - 1], a);
    }
  }

  // ----- Tracking periods -----

  /** The ConnBegin with which the current tracking period of a backend began. */
  function TrackedSince(evs: seq<Event>, a: Addr): (p: Option<nat>)
    ensures p.Some? ==> p.value < |evs| && evs[p.value] == ConnBegin(a)
    ensures p.Some? <==> Tracked(evs, a)
  {
    if evs == [] then
      None
    else
      var n := |evs| - 1;
      if !Tracked(evs, a) then None
      else if Tracked(evs[..n], a) then TrackedSince(evs[..n], a)
      else Some(n)
  }

  /** Tracked ever since event `p`, which found it untracked. */
  ghost predicate PeriodFrom(evs: seq<Event>, a: Addr, p: nat) {
    && p < |evs| && !Tracked(evs[..p], a)
    && forall m {:trigger evs[..m]} :: p < m <= |evs| ==> Tracked(evs[..m], a)
  }

  lemma TrackedSinceMeans(evs: seq<Event>, a: Addr, p: nat)
    ensures TrackedSince(evs, a) == Some(p) <==> PeriodFrom(evs, a, p)
  {
    if TrackedSince(evs, a) == Some(p) {
      TrackedFrom(evs, a, p);
    }
    if PeriodFrom(evs, a, p) {
      assert evs[..|evs|] == evs;
      var q := TrackedSince(evs, a).value;
      TrackedFrom(evs, a, q);
      var beforeP, beforeQ := evs[..p], evs[..q];
    }
  }

  lemma TrackedFrom(evs: seq<Event>, a: Addr, p: nat)
    requires TrackedSince(evs, a) == Some(p)
    ensures PeriodFrom(evs, a, p)
  {
    UntrackedAt(evs, a, p);
    forall m {:trigger evs[..m]} | p < m <= |evs|
      ensures Tracked(evs[..m], a)
    {
      TrackedAt(evs, a, p, m);
    }
  }

  lemma {:induction false} UntrackedAt(evs: seq<Event>, a: Addr, p: nat)
    requires TrackedSince(evs, a) == Some(p)
    ensures !Tracked(evs[..p], a)
    decreases |evs|
  {
    var n := |evs| - 1;
    if p != n {
      UntrackedAt(evs[..n], a, p);
      assert evs[..n][..p] == evs[..p];
    }
  }

  lemma {:induction false} TrackedAt(evs: seq<Event>, a: Addr, p: nat, m: nat)
    requires TrackedSince(evs, a) == Some(p) && p < m <= |evs|
    ensures Tracked(evs[..m], a)
    decreases |evs|
  {
    var n := |evs| - 1;
    if m == |evs| {
      assert evs[..m] == evs;
    } else {
      TrackedAt(evs[..n], a, p, m);
      assert evs[..n][..m] == evs[..m];
    }
  }

  /** With matched connections a period begins with the first connection and lasts while there is one. */
  lemma PeriodIsConnected(evs: seq<Event>, a: Addr, p: nat)
    requires Matched(evs, a) && |evs| < WORD
    ensures TrackedSince(evs, a) == Some(p) <==>
      && p < |evs| && ConnBalance(evs[..p], a) == 0
      && forall m {:trigger evs[..m]} :: p < m <= |evs| ==> ConnBalance(evs[..m], a) > 0
  {
    TrackedSinceMeans(evs, a, p);
    forall m {:trigger evs[..m]} | 0 <= m <= |evs|
      ensures Tracked(evs[..m], a) <==> ConnBalance(evs[..m], a) > 0
    {
      MatchedBefore(evs, a, m);
      TrackedWhileConnected(evs[..m], a);
    }
  }

  // ----- RPCs -----

  /** gRPC reports a remote address with every OutHeader. */
  predicate Addressed(evs: seq<Event>) {
    forall k :: 0 <= k < |evs| && evs[k].OutHeader? ==> evs[k].addr != ""
  }

  /** The OutHeader that opened an RPC which has not ended: the first one since its last End that has an
      address, or the latest one if none has. */
  function OpenedAt(evs: seq<Event>, rpc: Rpc): (k: Option<nat>)
    ensures k.Some? ==> k.value < |evs| && evs[k.value].OutHeader? && evs[k.value].rpc == rpc
  {
    if evs == [] then
      None
    else
      var n := |evs| - 1;
      var before := OpenedAt(evs[..n], rpc);
      match evs[n]
      case OutHeader(x, _) => if x == rpc && Unaddressed(evs[..n], before) then Some(n) else before
      case End(x) => if x == rpc then None else before
      case _ => before
  }

  /** There is no such header, or it has no address. */
  predicate Unaddressed(evs: seq<Event>, k: Option<nat>)
    requires k.Some? ==> k.value < |evs| && evs[k.value].OutHeader?
  {
    k.None? || evs[k.value].addr == ""
  }

  /** The RPC is open, and to `a`. */
  predicate OpenedTo(evs: seq<Event>, rpc: Rpc, a: Addr) {
    OpenedAt(evs, rpc).Some? && evs[OpenedAt(evs, rpc).value].addr == a
  }

  /** The handler remembers exactly the open RPCs, each with the address of the header that opened it. */
  lemma {:induction false} OpenIsRemembered(evs: seq<Event>, rpc: Rpc)
    ensures rpc in Run(evs).addrOf <==> OpenedAt(evs, rpc).Some?
    ensures rpc in Run(evs).addrOf ==> OpenedTo(evs, rpc, Run(evs).addrOf[rpc])
    decreases |evs|
  {
    if evs != [] {
      OpenIsRemembered(evs[..|evs| - 1], rpc);
    }
  }

  // ----- In-flight counts -----

  /** RPCs to a tracked backend that were opened in its current period minus those that ended in it. */
  function CountSince(evs: seq<Event>, a: Addr): int {
    if evs == [] || !Tracked(evs, a) || !Tracked(evs[..|evs| - 1], a) then
      0
    else
      var before, e := evs[..|evs| - 1], evs[|evs| - 1];
      CountSince(before, a) +
      if e.OutHeader? && e.addr == a && Unaddressed(before, OpenedAt(before, e.rpc)) then 1
      else if e.End? && OpenedTo(before, e.rpc, a) then -1
      else 0
  }

  /** The in-flight count is that number modulo 2^64, after every order of events. */
  lemma {:induction false} CountIsSince(evs: seq<Event>, a: Addr)
    ensures a in Run(evs).inflight <==> Tracked(evs, a)
    ensures a in Run(evs).inflight ==> Run(evs).inflight[a] == Wrap(CountSince(evs, a))
    decreases |evs|
  {
    ConnectionsAreBalance(evs, a);
    if evs != [] {
      var n := |evs| - 1;
      CountIsSince(evs[..n], a);
      if evs[n].OutHeader? || evs[n].End? {
        OpenIsRemembered(evs[..n], evs[n].rpc);
      }
      StepMovesCount(Run(evs[..n]), evs[n], a);
      PlusWrap(CountSince(evs[..n], a), 1);
      PlusWrap(CountSince(evs[..n], a), -1);
    }
  }

  lemma StepMovesCount(s: Stats, e: Event, a: Addr)
    ensures a in Step(s, e).inflight ==>
      (Step(s, e).inflight[a] ==
       if a !in s.inflight then 0
       else if e.OutHeader? && e.addr == a && (e.rpc !in s.addrOf || s.addrOf[e.rpc] == "") then Plus(s.inflight[a], 1)
       else if e.End? && e.rpc in s.addrOf && s.addrOf[e.rpc] == a then Plus(s.inflight[a], -1)
       else s.inflight[a])
  {
  }
}
