/** The picker beside the stats handler: RPCs and connections come and go while Pick searches. */
module BoundedLoadSearch {
  import opened BoundedLoadStats
  import opened BoundedLoadEvents
  import opened BoundedLoadLedger
  import opened BoundedLoadPicker

  /** The moments of one Pick: the threshold is read after `at[0]` events, the j-th try looks at the
      statistics after `at[j]` events. */
  ghost predicate Moments(evs: seq<Event>, at: seq<nat>, n: nat) {
    && |at| == n + 1
    && (forall j :: 0 <= j < |at| ==> at[0] <= at[j] <= at[n] <= |evs|)
  }

  ghost function Views(evs: seq<Event>, at: seq<nat>): (views: seq<Stats>)
    requires forall j :: 0 <= j < |at| ==> at[j] <= |evs|
    ensures |views| == |at| && forall j :: 0 <= j < |at| ==> views[j] == Run(evs[..at[j]])
  {
    seq(|at|, j requires 0 <= j < |at| => Run(evs[..at[j]]))
  }

  /** Only an OutHeader to a backend adds to its load. */
  lemma LoadRisesByHeader(s: Stats, e: Event, a: Addr, t: int)
    requires t > 0 && !Overloaded(s, a, t) && !(e.OutHeader? && e.addr == a)
    requires forall b :: b in s.inflight ==> s.inflight[b] == |OpenAt(s.addrOf, b)|
    ensures !Overloaded(Step(s, e), a, t)
  {
    match e {
      case End(rpc) =>
        if rpc in s.addrOf && s.addrOf[rpc] == a && a in s.inflight {
          assert rpc in OpenAt(s.addrOf, a);
        }
      case _ =>
    }
  }

  /** An RPC to `a` started between two moments. */
  ghost predicate StartedBetween(evs: seq<Event>, p: nat, q: nat, a: Addr) {
    exists m :: p <= m < q && m < |evs| && evs[m].OutHeader? && evs[m].addr == a
  }

  lemma {:induction false} StaysBelow(evs: seq<Event>, p: nat, q: nat, a: Addr, t: int)
    requires OrderlyRun(evs) && |evs| < WORD && p <= q <= |evs| && t > 0
    requires !Overloaded(Run(evs[..p]), a, t) && !StartedBetween(evs, p, q, a)
    ensures !Overloaded(Run(evs[..q]), a, t)
    decreases q
  {
    if p < q {
      var n := q - 1;
      StaysBelow(evs, p, n, a, t);
      OrderlyUpTo(evs, n);
      OrderlyCountsAreExact(evs[..n]);
      LoadRisesByHeader(Run(evs[..n]), evs[n], a, t);
      RunMore(evs, q, Run(evs[..n]));
    }
  }

  /** In any orderly run with an RPC in flight, a picker that knows the connected backends and whose
      round covers them picks one that is not overloaded at that try, unless an RPC was started, while
      Pick searched, on every single backend that was below the threshold. */
  lemma OrderlyPickAvoidsOverloaded(evs: seq<Event>, at: seq<nat>, next: nat, addrs: seq<Addr>, factor: real, pick: nat, tries: nat)
    requires OrderlyRun(evs) && |evs| < WORD && 0 < |addrs| < COUNTER && Moments(evs, at, |addrs|)
    requires Run(evs[..at[0]]).addrOf != map[] && forall a :: ConnBalance(evs[..at[0]], a) > 0 ==> a in addrs
    requires next < COUNTER && CoversAll(next, |addrs|) && factor > 1.0 && tries <= |addrs|
    requires Picked(next, addrs, Views(evs, at), Threshold(Run(evs[..at[0]]), factor), pick, tries)
    ensures var s, t := Run(evs[..at[0]]), Threshold(Run(evs[..at[0]]), factor);
      && (exists a :: a in s.inflight && !Overloaded(s, a, t))
      && (Overloaded(Run(evs[..at[tries]]), addrs[pick], t) ==>
            forall a :: a in s.inflight && !Overloaded(s, a, t) ==> StartedBetween(evs, at[0], at[tries], a))
  {
    var s, t, views := Run(evs[..at[0]]), Threshold(Run(evs[..at[0]]), factor), Views(evs, at);
    OrderlyUpTo(evs, at[0]);
    OrderlyCountsAreExact(evs[..at[0]]);
    SomeoneIsBelow(s, factor);
    PickAvoidsOverloaded(next, addrs, views, factor, pick, tries, 0);
    if Overloaded(Run(evs[..at[tries]]), addrs[pick], t) {
      forall a | a in s.inflight && !Overloaded(s, a, t)
        ensures StartedBetween(evs, at[0], at[tries], a)
      {
        assert FoundOverloaded(next, addrs, views, t, a);
        HeaderCame(evs, at, next, addrs, t, a);
      }
    }
  }

  lemma HeaderCame(evs: seq<Event>, at: seq<nat>, next: nat, addrs: seq<Addr>, t: int, a: Addr)
    requires OrderlyRun(evs) && |evs| < WORD && |addrs| > 0 && Moments(evs, at, |addrs|) && t > 0
    requires !Overloaded(Run(evs[..at[0]]), a, t) && FoundOverloaded(next, addrs, Views(evs, at), t, a)
    ensures StartedBetween(evs, at[0], at[|addrs|], a)
  {
    var j: nat :| 1 <= j <= |addrs| && OverloadedAt(next, addrs, Views(evs, at), t, j) && addrs[Probe(next, |addrs|, j)] == a;
    if !StartedBetween(evs, at[0], at[|addrs|], a) {
      StaysBelow(evs, at[0], at[j], a, t);
    }
  }
}
