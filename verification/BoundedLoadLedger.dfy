/** What the in-flight counts of the bounded load balancer mean, told in terms of RPCs. */
module BoundedLoadLedger {
  import opened Common
  import opened BoundedLoadStats
  import opened BoundedLoadEvents

  /** `counted` holds the open RPCs that the current tracking period of their backend counted up;
      `stale[a]` is how many RPCs ended in the current period of `a` that it never counted up. */
  datatype Ledger = Ledger(counted: map<Rpc, Addr>, stale: map<Addr, nat>)

  function Without(counted: map<Rpc, Addr>, a: Addr): map<Rpc, Addr> {
    map rpc | rpc in counted && counted[rpc] != a :: counted[rpc]
  }

  function LedgerStep(s: Stats, l: Ledger, e: Event): Ledger {
    match e
    case OutHeader(rpc, a) =>
      if (rpc in s.addrOf && s.addrOf[rpc] != "") || a !in s.inflight then l
      else l.(counted := l.counted[rpc := a])
    case End(rpc) =>
      if rpc !in s.addrOf || s.addrOf[rpc] !in s.inflight then l
      else if rpc in l.counted then l.(counted := l.counted - {rpc})
      else
        var a := s.addrOf[rpc];
        l.(stale := l.stale[a := 1 + if a in l.stale then l.stale[a] else 0])
    case ConnBegin(a) =>
      if a in s.inflight then l else l.(stale := l.stale[a := 0])
    case ConnEnd(a) =>
      if Plus(Connections(s, a), -1) != 0 then l
      else Ledger(Without(l.counted, a), l.stale - {a})
  }

  function LedgerOf(evs: seq<Event>): Ledger {
    if evs == [] then Ledger(map[], map[])
    else LedgerStep(Run(evs[..|evs| - 1]), LedgerOf(evs[..|evs| - 1]), evs[|evs| - 1])
  }

  function OpenAt(rpcs: map<Rpc, Addr>, a: Addr): set<Rpc> {
    set rpc | rpc in rpcs && rpcs[rpc] == a
  }

  ghost predicate LedgerInv(s: Stats, l: Ledger) {
    && (forall rpc :: rpc in s.addrOf ==> s.addrOf[rpc] != "")
    && (forall rpc :: rpc in l.counted ==> rpc in s.addrOf && l.counted[rpc] == s.addrOf[rpc] && l.counted[rpc] in s.inflight)
    && l.stale.Keys == s.inflight.Keys
    && (forall a :: a in s.inflight ==> CountLaw(s, l, a))
  }

  ghost predicate CountLaw(s: Stats, l: Ledger, a: Addr)
    requires a in s.inflight && a in l.stale
  {
    s.inflight[a] == Wrap(|OpenAt(l.counted, a)| - l.stale[a])
  }

  lemma OpenAtAdd(m: map<Rpc, Addr>, rpc: Rpc, a: Addr)
    requires rpc !in m
    ensures |OpenAt(m[rpc := a], a)| == |OpenAt(m, a)| + 1
    ensures forall b :: b != a ==> OpenAt(m[rpc := a], b) == OpenAt(m, b)
  {
    assert OpenAt(m[rpc := a], a) == OpenAt(m, a) + {rpc};
  }

  lemma OpenAtRemove(m: map<Rpc, Addr>, rpc: Rpc)
    requires rpc in m
    ensures |OpenAt(m - {rpc}, m[rpc])| == |OpenAt(m, m[rpc])| - 1
    ensures forall b :: b != m[rpc] ==> OpenAt(m - {rpc}, b) == OpenAt(m, b)
  {
    var a := m[rpc];
    assert OpenAt(m, a) == OpenAt(m - {rpc}, a) + {rpc};
  }

  lemma LedgerStepKeeps(s: Stats, l: Ledger, e: Event)
    requires LedgerInv(s, l)
    requires e.OutHeader? ==> e.addr != ""
    ensures LedgerInv(Step(s, e), LedgerStep(s, l, e))
  {
    match e {
      case OutHeader(rpc, a) => OutHeaderKeeps(s, l, rpc, a);
      case End(rpc) => EndKeeps(s, l, rpc);
      case ConnBegin(a) => ConnBeginKeeps(s, l, a);
      case ConnEnd(a) => ConnEndKeeps(s, l, a);
    }
  }

  /** The count of `a` moves by `d`, with its balance, and those of the others stay. */
  lemma CountMovesWithLedger(s: Stats, l: Ledger, s': Stats, l': Ledger, a: Addr, d: int)
    requires l.stale.Keys == l'.stale.Keys == s.inflight.Keys && a in s.inflight
    requires forall b :: b in s.inflight ==> CountLaw(s, l, b)
    requires s'.inflight == s.inflight[a := Plus(s.inflight[a], d)]
    requires |OpenAt(l'.counted, a)| - l'.stale[a] == |OpenAt(l.counted, a)| - l.stale[a] + d
    requires forall b :: b in s.inflight && b != a ==> OpenAt(l'.counted, b) == OpenAt(l.counted, b) && l'.stale[b] == l.stale[b]
    ensures forall b :: b in s'.inflight ==> CountLaw(s', l', b)
  {
    PlusWrap(|OpenAt(l.counted, a)| - l.stale[a], d);
    assert CountLaw(s, l, a) && CountLaw(s', l', a);
    forall b | b in s'.inflight
      ensures CountLaw(s', l', b)
    {
      assert CountLaw(s, l, b);
    }
  }

  lemma OutHeaderKeeps(s: Stats, l: Ledger, rpc: Rpc, a: Addr)
    requires LedgerInv(s, l) && a != ""
    ensures LedgerInv(Step(s, OutHeader(rpc, a)), LedgerStep(s, l, OutHeader(rpc, a)))
  {
    if rpc !in s.addrOf && a in s.inflight {
      OpenAtAdd(l.counted, rpc, a);
      CountMovesWithLedger(s, l, Step(s, OutHeader(rpc, a)), LedgerStep(s, l, OutHeader(rpc, a)), a, 1);
    }
  }

  lemma EndKeeps(s: Stats, l: Ledger, rpc: Rpc)
    requires LedgerInv(s, l)
    ensures LedgerInv(Step(s, End(rpc)), LedgerStep(s, l, End(rpc)))
  {
    if rpc in s.addrOf && s.addrOf[rpc] in s.inflight {
      if rpc in l.counted {
        CountedEndKeeps(s, l, rpc);
      } else {
        StaleEndKeeps(s, l, rpc);
      }
    }
  }

  lemma CountedEndKeeps(s: Stats, l: Ledger, rpc: Rpc)
    requires LedgerInv(s, l) && rpc in l.counted
    ensures LedgerInv(Step(s, End(rpc)), l.(counted := l.counted - {rpc}))
  {
    OpenAtRemove(l.counted, rpc);
    CountMovesWithLedger(s, l, Step(s, End(rpc)), l.(counted := l.counted - {rpc}), s.addrOf[rpc], -1);
  }

  lemma StaleEndKeeps(s: Stats, l: Ledger, rpc: Rpc)
    requires LedgerInv(s, l) && rpc in s.addrOf && rpc !in l.counted && s.addrOf[rpc] in s.inflight
    ensures var a := s.addrOf[rpc];
      LedgerInv(Step(s, End(rpc)), l.(stale := l.stale[a := l.stale[a] + 1]))
  {
    var a := s.addrOf[rpc];
    CountMovesWithLedger(s, l, Step(s, End(rpc)), l.(stale := l.stale[a := l.stale[a] + 1]), a, -1);
  }

  lemma ConnBeginKeeps(s: Stats, l: Ledger, a: Addr)
    requires LedgerInv(s, l)
    ensures LedgerInv(Step(s, ConnBegin(a)), LedgerStep(s, l, ConnBegin(a)))
  {
    var s', l' := Step(s, ConnBegin(a)), LedgerStep(s, l, ConnBegin(a));
    if a !in s.inflight {
      assert OpenAt(l.counted, a) == {};
    }
    forall b | b in s'.inflight
      ensures CountLaw(s', l', b)
    {
      if b in s.inflight {
        assert CountLaw(s, l, b);
      }
    }
  }

  lemma ConnEndKeeps(s: Stats, l: Ledger, a: Addr)
    requires LedgerInv(s, l)
    ensures LedgerInv(Step(s, ConnEnd(a)), LedgerStep(s, l, ConnEnd(a)))
  {
    var s', l' := Step(s, ConnEnd(a)), LedgerStep(s, l, ConnEnd(a));
    forall b | b in s'.inflight
      ensures b in l'.stale && CountLaw(s', l', b)
    {
      assert CountLaw(s, l, b);
      if l' != l {
        assert OpenAt(l'.counted, b) == OpenAt(l.counted, b);
      }
    }
  }

  lemma {:induction false} LedgerHolds(evs: seq<Event>)
    requires Addressed(evs)
    ensures LedgerInv(Run(evs), LedgerOf(evs))
    decreases |evs|
  {
    if evs != [] {
      var n := |evs| - 1;
      LedgerHolds(evs[..n]);
      LedgerStepKeeps(Run(evs[..n]), LedgerOf(evs[..n]), evs[n]);
    }
  }

  /** The count is the RPCs counted and still open minus the stale ends, modulo 2^64.  It is the number
      of RPCs open to that backend if and only if the current period counted each of them and there are
      no stale ends. */
  ghost predicate CountMeans(s: Stats, l: Ledger, a: Addr, events: nat) {
    && a in s.inflight && a in l.stale
    && s.inflight[a] == Wrap(|OpenAt(l.counted, a)| - l.stale[a])
    && (events < WORD ==>
          (s.inflight[a] == |OpenAt(s.addrOf, a)| <==> l.stale[a] == 0 && OpenAt(l.counted, a) == OpenAt(s.addrOf, a)))
  }

  lemma LedgerExplainsCount(s: Stats, l: Ledger, a: Addr, events: nat)
    requires LedgerInv(s, l) && a in s.inflight
    requires |OpenAt(s.addrOf, a)| + l.stale[a] <= events
    ensures CountMeans(s, l, a, events)
  {
    var counted, open := OpenAt(l.counted, a), OpenAt(s.addrOf, a);
    assert CountLaw(s, l, a);
    assert counted <= open;
    SubsetSize(counted, open);
    if events < WORD {
      WrapIsExact(|counted|, l.stale[a], |open|);
    }
    if |counted| == |open| {
      SameSize(counted, open);
    }
  }

  /** Every backend's count has that meaning after every order of events. */
  lemma CountIsCountedMinusStale(evs: seq<Event>, a: Addr)
    requires Addressed(evs) && a in Run(evs).inflight
    ensures CountMeans(Run(evs), LedgerOf(evs), a, |evs|)
  {
    LedgerHolds(evs);
    LedgerIsSmall(evs, a);
    LedgerExplainsCount(Run(evs), LedgerOf(evs), a, |evs|);
  }

  lemma WrapIsExact(counted: nat, stale: nat, open: nat)
    requires counted <= open && open + stale < WORD
    ensures Wrap(counted - stale) == open <==> stale == 0 && counted == open
  {
    if counted < stale {
      WrapShift(counted - stale, 1);
    }
  }

  lemma {:induction false} LedgerIsSmall(evs: seq<Event>, a: Addr)
    requires Addressed(evs)
    ensures |OpenAt(Run(evs).addrOf, a)| + Stale(LedgerOf(evs), a) <= |evs|
    decreases |evs|
  {
    if evs == [] {
      assert OpenAt(map[], a) == {};
    } else {
      var n := |evs| - 1;
      LedgerIsSmall(evs[..n], a);
      LedgerHolds(evs[..n]);
      LedgerGrowsByOne(Run(evs[..n]), LedgerOf(evs[..n]), evs[n], a);
    }
  }

  function Stale(l: Ledger, a: Addr): nat {
    if a in l.stale then l.stale[a] else 0
  }

  lemma LedgerGrowsByOne(s: Stats, l: Ledger, e: Event, a: Addr)
    requires LedgerInv(s, l)
    ensures |OpenAt(Step(s, e).addrOf, a)| + Stale(LedgerStep(s, l, e), a) <= |OpenAt(s.addrOf, a)| + Stale(l, a) + 1
  {
    match e {
      case OutHeader(rpc, b) =>
        if rpc !in s.addrOf {
          OpenAtAdd(s.addrOf, rpc, b);
        }
      case End(rpc) =>
        if rpc in s.addrOf {
          OpenAtRemove(s.addrOf, rpc);
        }
      case ConnBegin(_) =>
      case ConnEnd(_) =>
    }
  }

  // ----- Orderly runs -----

  /** The environment's side, told from the events: connections are closed only after they were opened,
      no backend loses its last connection while an RPC to it is open, and RPCs go to connected backends. */
  ghost predicate OrderlyAt(evs: seq<Event>, k: nat)
    requires k < |evs|
  {
    match evs[k]
    case OutHeader(rpc, a) => a != "" && ConnBalance(evs[..k], a) > 0
    case ConnEnd(a) =>
      ConnBalance(evs[..k], a) > 0 && (ConnBalance(evs[..k], a) == 1 ==> forall rpc :: !OpenedTo(evs[..k], rpc, a))
    case _ => true
  }

  ghost predicate OrderlyRun(evs: seq<Event>) {
    forall k :: 0 <= k < |evs| ==> OrderlyAt(evs, k)
  }

  lemma OrderlyUpTo(evs: seq<Event>, n: nat)
    requires OrderlyRun(evs) && n <= |evs|
    ensures OrderlyRun(evs[..n])
  {
    forall k | 0 <= k < n
      ensures OrderlyAt(evs[..n], k)
    {
      assert OrderlyAt(evs, k);
      assert evs[..n][..k] == evs[..k];
    }
  }

  lemma {:induction false} OrderlyMatched(evs: seq<Event>, a: Addr)
    requires OrderlyRun(evs)
    ensures Addressed(evs) && ConnBalance(evs, a) >= 0
    decreases |evs|
  {
    if evs != [] {
      var n := |evs| - 1;
      OrderlyUpTo(evs, n);
      OrderlyMatched(evs[..n], a);
      assert OrderlyAt(evs, n);
      forall k | 0 <= k < |evs| && evs[k].OutHeader?
        ensures evs[k].addr != ""
      {
        assert OrderlyAt(evs, k);
      }
    }
  }

  /** The same, as the handler's state shows it. */
  ghost predicate Orderly(s: Stats, e: Event) {
    match e
    case OutHeader(rpc, a) => a != "" && Connections(s, a) > 0
    case End(_) => true
    case ConnBegin(a) => Connections(s, a) < WORD - 1
    case ConnEnd(a) => Connections(s, a) > 0 && (s.conns[a] == 1 ==> OpenAt(s.addrOf, a) == {})
  }

  lemma OrderlyState(evs: seq<Event>, k: nat)
    requires OrderlyRun(evs) && k < |evs| < WORD
    ensures Orderly(Run(evs[..k]), evs[k])
  {
    var before, e := evs[..k], evs[k];
    assert OrderlyAt(evs, k);
    OrderlyUpTo(evs, k);
    if !e.End? {
      var a := e.addr;
      OrderlyMatched(before, a);
      ConnectionsAreBalance(before, a);
      BalanceIsSmall(before, a);
      WrapSmall(ConnBalance(before, a));
      forall rpc
        ensures rpc in OpenAt(Run(before).addrOf, a) <==> OpenedTo(before, rpc, a)
      {
        OpenIsRemembered(before, rpc);
      }
    }
  }

  /** All open RPCs are counted, nothing is stale, and both maps track the same backends. */
  ghost predicate OrderlyInv(s: Stats, l: Ledger) {
    && l.counted == s.addrOf
    && (forall a :: a in l.stale ==> l.stale[a] == 0)
    && s.conns.Keys == s.inflight.Keys
    && (forall a :: a in s.conns ==> s.conns[a] > 0)
  }

  lemma OrderlyStepKeeps(s: Stats, l: Ledger, e: Event)
    requires LedgerInv(s, l) && OrderlyInv(s, l) && Orderly(s, e)
    ensures OrderlyInv(Step(s, e), LedgerStep(s, l, e))
  {
    match e {
      case OutHeader(_, _) =>
      case End(_) =>
      case ConnBegin(a) => OrderlyConnBegin(s, l, a);
      case ConnEnd(a) => OrderlyConnEnd(s, l, a);
    }
  }

  lemma OrderlyConnBegin(s: Stats, l: Ledger, a: Addr)
    requires OrderlyInv(s, l) && l.stale.Keys == s.inflight.Keys && Orderly(s, ConnBegin(a))
    ensures OrderlyInv(Step(s, ConnBegin(a)), LedgerStep(s, l, ConnBegin(a)))
  {
    WrapSmall(Connections(s, a) as int + 1);
  }

  lemma OrderlyConnEnd(s: Stats, l: Ledger, a: Addr)
    requires OrderlyInv(s, l) && Orderly(s, ConnEnd(a))
    ensures OrderlyInv(Step(s, ConnEnd(a)), LedgerStep(s, l, ConnEnd(a)))
  {
    WrapSmall(s.conns[a] as int - 1);
    if s.conns[a] == 1 {
      assert forall rpc :: rpc in s.addrOf ==> rpc !in OpenAt(s.addrOf, a);
      assert Without(l.counted, a) == l.counted;
    }
  }

  lemma {:induction false} OrderlyHolds(evs: seq<Event>)
    requires OrderlyRun(evs) && |evs| < WORD
    ensures LedgerInv(Run(evs), LedgerOf(evs)) && OrderlyInv(Run(evs), LedgerOf(evs))
    decreases |evs|
  {
    if evs != [] {
      var n := |evs| - 1;
      OrderlyUpTo(evs, n);
      OrderlyHolds(evs[..n]);
      OrderlyState(evs, n);
      LedgerStepKeeps(Run(evs[..n]), LedgerOf(evs[..n]), evs[n]);
      OrderlyStepKeeps(Run(evs[..n]), LedgerOf(evs[..n]), evs[n]);
    }
  }

  /** In an orderly run nothing wraps: exactly the connected backends are tracked, every count is the
      number of open RPCs to that backend, and the total is the number of open RPCs. */
  lemma OrderlyCountsAreExact(evs: seq<Event>)
    requires OrderlyRun(evs) && |evs| < WORD
    ensures var s := Run(evs);
      && (forall a :: a in s.inflight <==> ConnBalance(evs, a) > 0)
      && s.conns.Keys == s.inflight.Keys
      && (forall a, rpc :: rpc in OpenAt(s.addrOf, a) <==> OpenedTo(evs, rpc, a))
      && (forall a :: a in s.inflight ==> s.inflight[a] == |OpenAt(s.addrOf, a)|)
      && s.total == Sum(s.inflight) == |s.addrOf|
  {
    OrderlyHolds(evs);
    FewRpcs(evs);
    TotalIsSum(evs);
    OrderlyStateIsExact(Run(evs), LedgerOf(evs));
    forall a
      ensures a in Run(evs).inflight <==> ConnBalance(evs, a) > 0
    {
      OrderlyTracked(evs, a);
    }
    forall a, rpc
      ensures rpc in OpenAt(Run(evs).addrOf, a) <==> OpenedTo(evs, rpc, a)
    {
      OrderlyMatched(evs, a);
      OpenIsRemembered(evs, rpc);
    }
  }

  lemma OrderlyTracked(evs: seq<Event>, a: Addr)
    requires OrderlyRun(evs) && |evs| < WORD && OrderlyInv(Run(evs), LedgerOf(evs))
    ensures a in Run(evs).inflight <==> ConnBalance(evs, a) > 0
  {
    OrderlyMatched(evs, a);
    ConnectionsAreBalance(evs, a);
    BalanceIsSmall(evs, a);
    WrapSmall(ConnBalance(evs, a));
  }

  lemma OrderlyStateIsExact(s: Stats, l: Ledger)
    requires LedgerInv(s, l) && OrderlyInv(s, l)
    requires |s.addrOf| < WORD && s.total == Wrap(Sum(s.inflight))
    ensures forall a :: a in s.inflight ==> s.inflight[a] == |OpenAt(s.addrOf, a)|
    ensures s.total == Sum(s.inflight) == |s.addrOf|
  {
    forall a | a in s.inflight
      ensures s.inflight[a] == |OpenAt(s.addrOf, a)|
    {
      OrderlyCount(s, l, a);
    }
    SumOfOpen(s.inflight, s.addrOf);
    WrapSmall(|s.addrOf|);
  }

  lemma OrderlyCount(s: Stats, l: Ledger, a: Addr)
    requires a in s.inflight && a in l.stale && CountLaw(s, l, a)
    requires l.counted == s.addrOf && l.stale[a] == 0
    requires |s.addrOf| < WORD
    ensures s.inflight[a] == |OpenAt(s.addrOf, a)|
  {
    OpenAtMost(s.addrOf, a);
    WrapSmall(|OpenAt(s.addrOf, a)|);
  }

  lemma WrapSmall(x: int)
    requires 0 <= x < WORD
    ensures Wrap(x) == x
  {
  }

  lemma OpenAtMost(m: map<Rpc, Addr>, a: Addr)
    ensures |OpenAt(m, a)| <= |m|
  {
    SubsetSize(OpenAt(m, a), m.Keys);
  }

  lemma {:induction false} FewRpcs(evs: seq<Event>)
    ensures |Run(evs).addrOf| <= |evs|
    decreases |evs|
  {
    if evs != [] {
      FewRpcs(evs[..|evs| - 1]);
    }
  }

  /** Open RPCs, counted backend by backend, are all open RPCs. */
  lemma {:induction false} SumOfOpen(inflight: map<Addr, Word>, rpcs: map<Rpc, Addr>)
    requires forall rpc :: rpc in rpcs ==> rpcs[rpc] in inflight
    requires forall a :: a in inflight ==> inflight[a] == |OpenAt(rpcs, a)|
    ensures Sum(inflight) == |rpcs|
    decreases |inflight|
  {
    if inflight == map[] {
      assert rpcs == map[];
    } else {
      var a :| a in inflight;
      SumWithout(inflight, a);
      SplitOff(rpcs, a);
      OpenWithout(inflight, rpcs, a);
      SumOfOpen(inflight - {a}, Without(rpcs, a));
    }
  }

  lemma OpenWithout(inflight: map<Addr, Word>, rpcs: map<Rpc, Addr>, a: Addr)
    requires a in inflight && forall b :: b in inflight ==> inflight[b] == |OpenAt(rpcs, b)|
    ensures forall b :: b in inflight - {a} ==> (inflight - {a})[b] == |OpenAt(Without(rpcs, a), b)|
  {
    SplitOff(rpcs, a);
  }

  lemma SplitOff(rpcs: map<Rpc, Addr>, a: Addr)
    ensures |rpcs| == |Without(rpcs, a)| + |OpenAt(rpcs, a)|
    ensures OpenAt(Without(rpcs, a), a) == {}
    ensures forall b :: b != a ==> OpenAt(Without(rpcs, a), b) == OpenAt(rpcs, b)
  {
    var rest := Without(rpcs, a);
    assert rpcs.Keys == rest.Keys + OpenAt(rpcs, a);
    assert rest.Keys !! OpenAt(rpcs, a);
  }

  /** Losing and regaining the last connection while an RPC is open forgets that RPC: the count is 0
      although one RPC is open, and no stale end has happened. */
  lemma ReconnectForgets(a: Addr)
    requires a != ""
    ensures var evs := [ConnBegin(a), OutHeader(1, a), ConnEnd(a), ConnBegin(a)];
      Run(evs) == Stats(map[1 := a], map[a := 0], 0, map[a := 1]) && LedgerOf(evs) == Ledger(map[], map[a := 0])
  {
    var evs := [ConnBegin(a), OutHeader(1, a), ConnEnd(a), ConnBegin(a)];
    var l0, l1, l2, l3 := Ledger(map[], map[]), Ledger(map[], map[a := 0]), Ledger(map[1 := a], map[a := 0]), Ledger(map[], map[]);
    FirstThree(evs, a);
    RunMore(evs, 4, Stats(map[1 := a], map[], 0, map[]));
    LedgerMore(evs, 1, l0);
    LedgerMore(evs, 2, l1);
    LedgerMore(evs, 3, l2);
    LedgerMore(evs, 4, l3);
    assert evs[..4] == evs;
  }

  lemma FirstThree(evs: seq<Event>, a: Addr)
    requires a != "" && |evs| >= 3 && evs[0] == ConnBegin(a) && evs[1] == OutHeader(1, a) && evs[2] == ConnEnd(a)
    ensures Run(evs[..0]) == Stats(map[], map[], 0, map[])
    ensures Run(evs[..1]) == Stats(map[], map[a := 0], 0, map[a := 1])
    ensures Run(evs[..2]) == Stats(map[1 := a], map[a := 1], 1, map[a := 1])
    ensures Run(evs[..3]) == Stats(map[1 := a], map[], 0, map[])
  {
    var s1, s2 := Stats(map[], map[a := 0], 0, map[a := 1]), Stats(map[1 := a], map[a := 1], 1, map[a := 1]);
    RunMore(evs, 1, Run([]));
    RunMore(evs, 2, s1);
    RunMore(evs, 3, s2);
  }

  lemma LedgerMore(evs: seq<Event>, k: nat, l: Ledger)
    requires 0 < k <= |evs| && LedgerOf(evs[..k - 1]) == l
    ensures LedgerOf(evs[..k]) == LedgerStep(Run(evs[..k - 1]), l, evs[k - 1])
  {
    assert evs[..k][..k - 1] == evs[..k - 1];
  }

  /** When that RPC then ends, the counters wrap. */
  lemma ReconnectWraps(a: Addr)
    requires a != ""
    ensures var s := Run([ConnBegin(a), OutHeader(1, a), ConnEnd(a), ConnBegin(a), End(1)]);
      a in s.inflight && s.inflight[a] == WORD - 1 && s.total == WORD - 1
  {
    var evs := [ConnBegin(a), OutHeader(1, a), ConnEnd(a), ConnBegin(a), End(1)];
    FirstThree(evs, a);
    var s3 := Stats(map[1 := a], map[], 0, map[]);
    RunMore(evs, 4, s3);
    RunMore(evs, 5, Step(s3, evs[3]));
    assert evs[..5] == evs;
  }

  lemma RunMore(evs: seq<Event>, k: nat, s: Stats)
    requires 0 < k <= |evs| && Run(evs[..k - 1]) == s
    ensures Run(evs[..k]) == Step(s, evs[k - 1])
  {
    assert evs[..k][..k - 1] == evs[..k - 1];
  }
}
