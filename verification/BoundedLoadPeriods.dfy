/** When an in-flight count of the bounded load balancer is exact, told from the events alone: by the
    period in which a backend is tracked and the events that open and end RPCs to it. */
module BoundedLoadPeriods {
  import opened Common
  import opened BoundedLoadStats
  import opened BoundedLoadEvents
  import opened BoundedLoadLedger

  /** A period goes on, begins or is over with the last event. */
  lemma PeriodStep(evs: seq<Event>, a: Addr)
    requires evs != []
    ensures TrackedSince(evs, a) ==
      if a !in Run(evs).inflight then None
      else if a in Run(evs[..|evs| - 1]).inflight then TrackedSince(evs[..|evs| - 1], a)
      else Some(|evs| - 1)
    ensures TrackedSince(evs[..|evs| - 1], a).Some? <==> a in Run(evs[..|evs| - 1]).inflight
  {
    ConnectionsAreBalance(evs, a);
    ConnectionsAreBalance(evs[..|evs| - 1], a);
  }

  // ----- The ledger, from the events -----

  /** The RPC that event `j` ends, if it is open to `a` until then. */
  predicate EndsOneAt(evs: seq<Event>, j: nat, a: Addr)
    requires j < |evs|
  {
    && evs[j].End? && OpenedAt(evs[..j], evs[j].rpc).Some?
    && evs[OpenedAt(evs[..j], evs[j].rpc).value].addr == a
  }

  /** An End within the current period of an RPC opened before it. */
  ghost predicate StaleAt(evs: seq<Event>, j: nat, a: Addr) {
    && j < |evs| && TrackedSince(evs, a).Some? && TrackedSince(evs, a).value < j
    && EndsOneAt(evs, j, a)
    && OpenedAt(evs[..j], evs[j].rpc).value < TrackedSince(evs, a).value
  }

  /** Which RPCs are open and which of them the current period counted. */
  ghost predicate RpcLaw(evs: seq<Event>, rpc: Rpc) {
    var s, l, k := Run(evs), LedgerOf(evs), OpenedAt(evs, rpc);
    && (rpc in s.addrOf <==> k.Some?)
    && (k.Some? ==> evs[k.value] == OutHeader(rpc, s.addrOf[rpc]))
    && (rpc in l.counted <==> k.Some? && Since(TrackedSince(evs, s.addrOf[rpc]), k.value))
  }

  predicate Since(p: Option<nat>, k: nat) {
    p.Some? && p.value < k
  }

  lemma {:induction false} RpcLawHolds(evs: seq<Event>, rpc: Rpc)
    requires Addressed(evs)
    ensures RpcLaw(evs, rpc)
    decreases |evs|
  {
    if evs != [] {
      var n := |evs| - 1;
      RpcLawHolds(evs[..n], rpc);
      LedgerHolds(evs[..n]);
      match evs[n] {
        case OutHeader(x, a) => RpcLawOutHeader(evs, rpc);
        case End(x) => RpcLawEnd(evs, rpc);
        case _ => RpcLawConn(evs, rpc);
      }
    }
  }

  lemma RpcLawOutHeader(evs: seq<Event>, rpc: Rpc)
    requires evs != [] && evs[|evs| - 1].OutHeader? && evs[|evs| - 1].addr != ""
    requires RpcLaw(evs[..|evs| - 1], rpc) && LedgerInv(Run(evs[..|evs| - 1]), LedgerOf(evs[..|evs| - 1]))
    ensures RpcLaw(evs, rpc)
  {
    if rpc in Run(evs).addrOf {
      PeriodStep(evs, Run(evs).addrOf[rpc]);
    }
  }

  lemma RpcLawEnd(evs: seq<Event>, rpc: Rpc)
    requires evs != [] && evs[|evs| - 1].End?
    requires RpcLaw(evs[..|evs| - 1], rpc) && LedgerInv(Run(evs[..|evs| - 1]), LedgerOf(evs[..|evs| - 1]))
    ensures RpcLaw(evs, rpc)
  {
    if rpc in Run(evs).addrOf {
      PeriodStep(evs, Run(evs).addrOf[rpc]);
    }
  }

  lemma RpcLawConn(evs: seq<Event>, rpc: Rpc)
    requires evs != [] && (evs[|evs| - 1].ConnBegin? || evs[|evs| - 1].ConnEnd?)
    requires RpcLaw(evs[..|evs| - 1], rpc) && LedgerInv(Run(evs[..|evs| - 1]), LedgerOf(evs[..|evs| - 1]))
    ensures RpcLaw(evs, rpc)
  {
    if rpc in Run(evs).addrOf {
      PeriodStep(evs, Run(evs).addrOf[rpc]);
    }
  }

  lemma CountedOne(evs: seq<Event>, rpc: Rpc, a: Addr)
    requires Addressed(evs)
    ensures rpc in OpenAt(Run(evs).addrOf, a) <==> OpenedTo(evs, rpc, a)
    ensures rpc in OpenAt(LedgerOf(evs).counted, a) <==>
      OpenedTo(evs, rpc, a) && Since(TrackedSince(evs, a), OpenedAt(evs, rpc).value)
  {
    LedgerHolds(evs);
    RpcLawHolds(evs, rpc);
  }

  ghost predicate StaleLaw(evs: seq<Event>, a: Addr) {
    Stale(LedgerOf(evs), a) > 0 <==> exists j: nat :: StaleAt(evs, j, a)
  }

  lemma {:induction false} StaleLawHolds(evs: seq<Event>, a: Addr)
    requires Addressed(evs)
    ensures StaleLaw(evs, a)
    decreases |evs|
  {
    if a !in Run(evs).inflight {
      NoPeriod(evs, a);
    } else if a !in Run(evs[..|evs| - 1]).inflight {
      FreshPeriod(evs, a);
    } else {
      StaleLawHolds(evs[..|evs| - 1], a);
      StaleLawStep(evs, a);
    }
  }

  lemma NoPeriod(evs: seq<Event>, a: Addr)
    requires Addressed(evs) && a !in Run(evs).inflight
    ensures Stale(LedgerOf(evs), a) == 0
    ensures forall j: nat :: !StaleAt(evs, j, a)
  {
    LedgerHolds(evs);
    ConnectionsAreBalance(evs, a);
    assert TrackedSince(evs, a) == None;
    forall j: nat
      ensures !StaleAt(evs, j, a)
    {
    }
  }

  lemma FreshPeriod(evs: seq<Event>, a: Addr)
    requires evs != [] && a in Run(evs).inflight && a !in Run(evs[..|evs| - 1]).inflight
    ensures Stale(LedgerOf(evs), a) == 0
    ensures forall j: nat :: !StaleAt(evs, j, a)
  {
    var n := |evs| - 1;
    StaleStart(Run(evs[..n]), LedgerOf(evs[..n]), evs[n], a);
    PeriodStep(evs, a);
    assert TrackedSince(evs, a) == Some(n);
    forall j: nat
      ensures !StaleAt(evs, j, a)
    {
    }
  }

  lemma StaleStart(s: Stats, l: Ledger, e: Event, a: Addr)
    requires a !in s.inflight && a in Step(s, e).inflight
    ensures Stale(LedgerStep(s, l, e), a) == 0
  {
  }

  /** Within a period, only the last event can add a stale end. */
  lemma StaleLawStep(evs: seq<Event>, a: Addr)
    requires evs != [] && a in Run(evs).inflight && a in Run(evs[..|evs| - 1]).inflight
    requires Addressed(evs) && StaleLaw(evs[..|evs| - 1], a)
    ensures StaleLaw(evs, a)
  {
    var n := |evs| - 1;
    StaleGrows(evs, a);
    PeriodStep(evs, a);
    if Stale(LedgerOf(evs[..n]), a) > 0 {
      var j: nat :| StaleAt(evs[..n], j, a);
      EarlierStale(evs, j, a);
    }
    if j: nat :| StaleAt(evs, j, a) && j != n {
      EarlierStale(evs, j, a);
    }
  }

  lemma EarlierStale(evs: seq<Event>, j: nat, a: Addr)
    requires j < |evs| - 1 && TrackedSince(evs, a) == TrackedSince(evs[..|evs| - 1], a)
    ensures StaleAt(evs, j, a) <==> StaleAt(evs[..|evs| - 1], j, a)
  {
    assert evs[..|evs| - 1][..j] == evs[..j];
  }

  lemma StaleGrows(evs: seq<Event>, a: Addr)
    requires evs != [] && a in Run(evs).inflight && a in Run(evs[..|evs| - 1]).inflight && Addressed(evs)
    ensures Stale(LedgerOf(evs), a) == Stale(LedgerOf(evs[..|evs| - 1]), a) + if StaleAt(evs, |evs| - 1, a) then 1 else 0
  {
    var n := |evs| - 1;
    LedgerHolds(evs[..n]);
    StaleStep(Run(evs[..n]), LedgerOf(evs[..n]), evs[n], a);
    if evs[n].End? {
      StaleIfUncounted(evs, a);
    }
  }

  lemma StaleIfUncounted(evs: seq<Event>, a: Addr)
    requires evs != [] && a in Run(evs).inflight && a in Run(evs[..|evs| - 1]).inflight && Addressed(evs)
    requires evs[|evs| - 1].End?
    ensures var before, rpc := evs[..|evs| - 1], evs[|evs| - 1].rpc;
      StaleAt(evs, |evs| - 1, a) <==> rpc in OpenAt(Run(before).addrOf, a) && rpc !in OpenAt(LedgerOf(before).counted, a)
  {
    CountedOne(evs[..|evs| - 1], evs[|evs| - 1].rpc, a);
    PeriodStep(evs, a);
    StaleAtLast(evs, a);
  }

  /** The ledger counts a stale end exactly when an RPC to `a` ends that it has not counted. */
  lemma StaleStep(s: Stats, l: Ledger, e: Event, a: Addr)
    requires LedgerInv(s, l) && a in s.inflight && a in Step(s, e).inflight
    ensures Stale(LedgerStep(s, l, e), a) ==
      Stale(l, a) + if e.End? && e.rpc in OpenAt(s.addrOf, a) && e.rpc !in OpenAt(l.counted, a) then 1 else 0
  {
  }

  lemma StaleAtLast(evs: seq<Event>, a: Addr)
    requires evs != [] && evs[|evs| - 1].End?
    requires TrackedSince(evs, a).Some? && TrackedSince(evs, a) == TrackedSince(evs[..|evs| - 1], a)
    ensures var before, rpc := evs[..|evs| - 1], evs[|evs| - 1].rpc;
      StaleAt(evs, |evs| - 1, a) <==> OpenedTo(before, rpc, a) && !Since(TrackedSince(before, a), OpenedAt(before, rpc).value)
  {
    var n := |evs| - 1;
    var k, p := OpenedAt(evs[..n], evs[n].rpc), TrackedSince(evs[..n], a);
    assert evs[p.value] == evs[..n][p.value];
    assert k.Some? ==> evs[k.value] == evs[..n][k.value];
  }

  // ----- Exactness -----

  /** Every RPC open to `a` was opened in the period in which `a` is tracked now. */
  ghost predicate OpenWithinPeriod(evs: seq<Event>, a: Addr) {
    forall rpc :: OpenedTo(evs, rpc, a) ==> Since(TrackedSince(evs, a), OpenedAt(evs, rpc).value)
  }

  lemma CountedAll(evs: seq<Event>, a: Addr)
    requires Addressed(evs) && a in Run(evs).inflight
    ensures OpenAt(LedgerOf(evs).counted, a) == OpenAt(Run(evs).addrOf, a) <==> OpenWithinPeriod(evs, a)
  {
    var counted, open := OpenAt(LedgerOf(evs).counted, a), OpenAt(Run(evs).addrOf, a);
    forall rpc
      ensures rpc in open <==> OpenedTo(evs, rpc, a)
      ensures rpc in counted <==> rpc in open && Since(TrackedSince(evs, a), OpenedAt(evs, rpc).value)
    {
      CountedOne(evs, rpc, a);
    }
    if OpenWithinPeriod(evs, a) {
      assert counted == open;
    }
  }

  /** After every order of events, the count of a tracked backend is the number of RPCs open to it if
      and only if each of them was opened in the current period, and so was each RPC to it that ended
      in the current period. */
  lemma CountIsExactWithinPeriod(evs: seq<Event>, a: Addr)
    requires Addressed(evs) && |evs| < WORD && Tracked(evs, a)
    ensures a in Run(evs).inflight
    ensures Run(evs).inflight[a] == |OpenAt(Run(evs).addrOf, a)| <==>
      OpenWithinPeriod(evs, a) && forall j: nat :: !StaleAt(evs, j, a)
  {
    ConnectionsAreBalance(evs, a);
    CountIsCountedMinusStale(evs, a);
    CountedAll(evs, a);
    StaleLawHolds(evs, a);
  }
}
