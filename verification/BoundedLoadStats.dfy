/** The event-driven counters of pkg/util/proxy/grpc_bounded_load_balancer.go: open RPCs and
    connections per backend, in wrapping 64-bit arithmetic, under any order of events. */
module BoundedLoadStats {
  import opened Common

  type Addr = string
  type Rpc = nat

  const WORD: int := 0x1_0000_0000_0000_0000

  type Word = x: int | 0 <= x < WORD

  function Wrap(x: int): Word {
    x % WORD
  }

  /** Unsigned addition and subtraction with wrap-around. */
  function Plus(w: Word, d: int): Word {
    var x: int := w;
    Wrap(x + d)
  }

  function Minus(w: Word, v: Word): Word {
    var d: int := v;
    Plus(w, 0 - d)
  }

  datatype Stats = Stats(addrOf: map<Rpc, Addr>, inflight: map<Addr, Word>, total: Word, conns: map<Addr, Word>)

  datatype Event =
    | OutHeader(rpc: Rpc, addr: Addr)
    | End(rpc: Rpc)
    | ConnBegin(addr: Addr)
    | ConnEnd(addr: Addr)

  function Connections(s: Stats, a: Addr): Word {
    if a in s.conns then s.conns[a] else 0
  }

  function Step(s: Stats, e: Event): Stats {
    match e
    case OutHeader(rpc, a) =>
      if rpc in s.addrOf && s.addrOf[rpc] != "" then
        s
      else
        var s' := s.(addrOf := s.addrOf[rpc := a]);
        if a in s.inflight then
          s'.(inflight := s.inflight[a := Plus(s.inflight[a], 1)], total := Plus(s.total, 1))
        else
          s'
    case End(rpc) =>
      if rpc !in s.addrOf then
        s
      else
        var a := s.addrOf[rpc];
        var s' := s.(addrOf := s.addrOf - {rpc});
        if a in s.inflight then
          s'.(inflight := s.inflight[a := Plus(s.inflight[a], -1)], total := Plus(s.total, -1))
        else
          s'
    case ConnBegin(a) =>
      s.(conns := s.conns[a := Plus(Connections(s, a), 1)],
         inflight := if a in s.inflight then s.inflight else s.inflight[a := 0])
    case ConnEnd(a) =>
      var c := Plus(Connections(s, a), -1);
      if c != 0 then
        s.(conns := s.conns[a := c])
      else
        s.(conns := s.conns - {a}, inflight := s.inflight - {a},
           total := if a in s.inflight then Minus(s.total, s.inflight[a]) else s.total)
  }

  function Run(evs: seq<Event>): Stats {
    if evs == [] then Stats(map[], map[], 0, map[]) else Step(Run(evs[..|evs| - 1]), evs[|evs| - 1])
  }

  // ----- The handler -----

  datatype RPCStats = OutHeaderStats(client: bool, remoteAddr: Addr) | EndStats | OtherStats

  datatype ConnStats = ConnBeginStats | ConnEndStats

  class StatsHandler {
    var remoteAddrByRPC: map<Rpc, Addr>
    var inflightRequestsByRemoteAddr: map<Addr, Word>
    var inflightRequestsTotal: Word
    var connectionsByRemoteAddr: map<Addr, Word>

    ghost function Value(): Stats
      reads this
    {
      Stats(remoteAddrByRPC, inflightRequestsByRemoteAddr, inflightRequestsTotal, connectionsByRemoteAddr)
    }

    constructor ()
      ensures Value() == Run([])
    {
      remoteAddrByRPC, inflightRequestsByRemoteAddr := map[], map[];
      inflightRequestsTotal, connectionsByRemoteAddr := 0, map[];
    }

    /** A call without an RPC id in its context, or about the server side, changes nothing. */
    method HandleRPC(rpcID: Option<Rpc>, info: RPCStats)
      modifies this
      ensures Value() ==
        if rpcID.None? then old(Value())
        else match info
          case OutHeaderStats(client, a) => if client then Step(old(Value()), OutHeader(rpcID.value, a)) else old(Value())
          case EndStats => Step(old(Value()), End(rpcID.value))
          case OtherStats => old(Value())
    {
      match info
      case OutHeaderStats(client, remoteAddr) =>
        if !client || rpcID.None? {
          return;
        }
        var rpc := rpcID.value;
        var firstHeader := rpc !in remoteAddrByRPC || remoteAddrByRPC[rpc] == "";
        if !firstHeader {
          return;
        }
        remoteAddrByRPC := remoteAddrByRPC[rpc := remoteAddr];
        if remoteAddr in inflightRequestsByRemoteAddr {
          inflightRequestsByRemoteAddr :=
            inflightRequestsByRemoteAddr[remoteAddr := Plus(inflightRequestsByRemoteAddr[remoteAddr], 1)];
          inflightRequestsTotal := Plus(inflightRequestsTotal, 1);
        }
      case EndStats =>
        if rpcID.None? {
          return;
        }
        var rpc := rpcID.value;
        if rpc in remoteAddrByRPC {
          var remoteAddr := remoteAddrByRPC[rpc];
          remoteAddrByRPC := remoteAddrByRPC - {rpc};
          if remoteAddr in inflightRequestsByRemoteAddr {
            inflightRequestsByRemoteAddr :=
              inflightRequestsByRemoteAddr[remoteAddr := Plus(inflightRequestsByRemoteAddr[remoteAddr], -1)];
            inflightRequestsTotal := Plus(inflightRequestsTotal, -1);
          }
        }
      case OtherStats =>
    }

    method HandleConn(remoteAddr: Option<Addr>, info: ConnStats)
      modifies this
      ensures Value() ==
        if remoteAddr.None? then old(Value())
        else Step(old(Value()), if info.ConnBeginStats? then ConnBegin(remoteAddr.value) else ConnEnd(remoteAddr.value))
    {
      if remoteAddr.None? {
        return;
      }
      var a := remoteAddr.value;
      var count := if a in connectionsByRemoteAddr then connectionsByRemoteAddr[a] else 0;
      match info
      case ConnBeginStats =>
        connectionsByRemoteAddr := connectionsByRemoteAddr[a := Plus(count, 1)];
        if a !in inflightRequestsByRemoteAddr {
          inflightRequestsByRemoteAddr := inflightRequestsByRemoteAddr[a := 0];
        }
      case ConnEndStats =>
        connectionsByRemoteAddr := connectionsByRemoteAddr[a := Plus(count, -1)];
        if connectionsByRemoteAddr[a] == 0 {
          if a in inflightRequestsByRemoteAddr {
            inflightRequestsTotal := Minus(inflightRequestsTotal, inflightRequestsByRemoteAddr[a]);
          }
          inflightRequestsByRemoteAddr := inflightRequestsByRemoteAddr - {a};
          connectionsByRemoteAddr := connectionsByRemoteAddr - {a};
        }
    }
  }

  // ----- Sums over backends -----

  ghost function Sum(m: map<Addr, Word>): nat
    decreases |m|
  {
    if m == map[] then 0
    else
      var a :| a in m;
      m[a] + Sum(m - {a})
  }

  lemma {:induction false} SumWithout(m: map<Addr, Word>, a: Addr)
    requires a in m
    ensures Sum(m) == m[a] + Sum(m - {a})
    decreases |m|
  {
    var b :| b in m && Sum(m) == m[b] + Sum(m - {b});
    if b != a {
      SumWithout(m - {b}, a);
      SumWithout(m - {a}, b);
      assert m - {a} - {b} == m - {b} - {a};
    }
  }

  lemma SumUpdate(m: map<Addr, Word>, a: Addr, v: Word)
    ensures Sum(m[a := v]) == Sum(m - {a}) + v
    ensures a in m ==> Sum(m) == Sum(m - {a}) + m[a]
    ensures a !in m ==> m - {a} == m
  {
    SumWithout(m[a := v], a);
    assert m[a := v] - {a} == m - {a};
    if a in m {
      SumWithout(m, a);
    }
  }

  // ----- Conservation, for every order of events -----

  /** inflightRequestsTotal is the sum of the per-backend counts, modulo 2^64, after every run. */
  lemma {:induction false} TotalIsSum(evs: seq<Event>)
    ensures Run(evs).total == Wrap(Sum(Run(evs).inflight))
    decreases |evs|
  {
    if evs != [] {
      TotalIsSum(evs[..|evs| - 1]);
      StepKeepsTotal(Run(evs[..|evs| - 1]), evs[|evs| - 1]);
    }
  }

  lemma StepKeepsTotal(s: Stats, e: Event)
    requires s.total == Wrap(Sum(s.inflight))
    ensures Step(s, e).total == Wrap(Sum(Step(s, e).inflight))
  {
    match e {
      case OutHeader(rpc, a) =>
        if a in s.inflight {
          CountMoves(s.inflight, a, 1, s.total);
        }
      case End(rpc) =>
        if rpc in s.addrOf && s.addrOf[rpc] in s.inflight {
          CountMoves(s.inflight, s.addrOf[rpc], -1, s.total);
        }
      case ConnBegin(a) => SumUpdate(s.inflight, a, 0);
      case ConnEnd(a) =>
        if a in s.inflight {
          SumWithout(s.inflight, a);
          var d: int := s.inflight[a];
          PlusWrap(Sum(s.inflight), 0 - d);
        } else {
          assert s.inflight - {a} == s.inflight;
        }
    }
  }

  lemma CountMoves(m: map<Addr, Word>, a: Addr, d: int, total: Word)
    requires a in m && total == Wrap(Sum(m))
    ensures Plus(total, d) == Wrap(Sum(m[a := Plus(m[a], d)]))
  {
    var v := Plus(m[a], d);
    SumUpdate(m, a, v);
    var rest := Sum(m - {a});
    calc {
      Plus(total, d);
      { PlusWrap(Sum(m), d); }
      Wrap(rest + (m[a] + d));
      { PlusWrap(m[a] + d, rest); }
      Wrap(rest + v);
    }
  }

  lemma PlusWrap(x: int, d: int)
    ensures Plus(Wrap(x), d) == Wrap(x + d)
  {
    var q := x / WORD;
    assert x == q * WORD + Wrap(x);
    WrapShift(Wrap(x) + d, q);
  }

  lemma WrapShift(x: int, k: int)
    ensures Wrap(x + k * WORD) == Wrap(x)
  {
  }
}
