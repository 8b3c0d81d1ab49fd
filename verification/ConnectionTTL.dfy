/** The connection tracker of pkg/gateway/connection_limiter_middleware.go: its time-to-live
    arithmetic, and its counters under any interleaving of requests and idle sweeps. */
module ConnectionTTL {
  import opened Common

  // ----- calculateTTL -----

  const INT64: int := 0x1_0000_0000_0000_0000
  const MAX_INT64: int := 0x7fff_ffff_ffff_ffff
  const MILLISECOND := 1_000_000

  /** The conversion of a uint64 to int64. */
  function Signed(hash: int): int
    requires 0 <= hash < INT64
  {
    if hash <= MAX_INT64 then hash else hash - INT64
  }

  /** Go's remainder has the sign of the dividend. */
  function GoMod(a: int, b: int): int
    requires b > 0
  {
    if a >= 0 then a % b else -(-a % b)
  }

  /** Durations are nanoseconds; the constructor admits 0 <= min <= max only. */
  predicate Bounds(minTTL: int, maxTTL: int) {
    0 <= minTTL <= maxTTL <= MAX_INT64
  }

  function TTLMillis(minTTL: int, maxTTL: int, hash: int): int
    requires Bounds(minTTL, maxTTL) && 0 <= hash < INT64
  {
    var minMs, maxMs := minTTL / MILLISECOND, maxTTL / MILLISECOND;
    minMs + GoMod(Signed(hash), maxMs + 1 - minMs)
  }

  /** No hash overflows, every result is within the range's width of the minimum, and it lies in the
      documented range exactly when the signed hash is not a negative non-multiple of the width. */
  lemma TTLRange(minTTL: int, maxTTL: int, hash: int)
    requires Bounds(minTTL, maxTTL) && 0 <= hash < INT64
    ensures var minMs, maxMs := minTTL / MILLISECOND, maxTTL / MILLISECOND;
      var ttl := TTLMillis(minTTL, maxTTL, hash);
      && minMs - (maxMs - minMs) <= ttl <= maxMs
      && -MAX_INT64 <= ttl * MILLISECOND <= MAX_INT64
      && (minMs <= ttl <==> hash <= MAX_INT64 || (INT64 - hash) % (maxMs + 1 - minMs) == 0)
      && (ttl - minMs - (if hash <= MAX_INT64 then hash else hash - INT64)) % (maxMs + 1 - minMs) == 0
  {
    var minMs, maxMs := minTTL / MILLISECOND, maxTTL / MILLISECOND;
    RemainderCongruent(Signed(hash), maxMs + 1 - minMs);
    RemainderRange(Signed(hash), maxMs + 1 - minMs);
  }

  lemma RemainderCongruent(a: int, b: int)
    requires b > 0
    ensures (GoMod(a, b) - a) % b == 0
  {
    var x := if a >= 0 then a else -a;
    var q, m := x / b, x % b;
    assert x == q * b + m;
    if a >= 0 {
      assert GoMod(a, b) - a == -q * b;
      ModIs(-q, b, 0);
    } else {
      assert GoMod(a, b) - a == q * b;
      ModIs(q, b, 0);
    }
  }

  lemma RemainderRange(a: int, b: int)
    requires b > 0
    ensures -b < GoMod(a, b) < b
    ensures GoMod(a, b) >= 0 <==> a >= 0 || -a % b == 0
  {
  }

  /** A hash in the upper half can put the TTL below the configured minimum, and below zero. */
  lemma TTLBelowMinimum()
    ensures TTLMillis(1_000 * MILLISECOND, 4_000 * MILLISECOND, INT64 - 3_000) == -2_000
  {
    assert Signed(INT64 - 3_000) == -3_000;
    assert GoMod(-3_000, 3_001) == -3_000;
  }

  // ----- The tracker -----

  type Conn = string

  datatype Tracked = Tracked(ttl: int, created: int, lastSeen: int)

  /** Where a goroutine stands: between the locked sections it owes the counters an update. */
  datatype Phase =
    | Idle
    | OwesOpened(conn: Conn, ttl: int, created: int)
    | Checking(conn: Conn, ttl: int, created: int)
    | Removing(conn: Conn)
    | OwesClosed(count: nat)

  /** `misses` counts the removals that found the connection already gone. */
  datatype State = State(connections: map<Conn, Tracked>, openTotal: nat, closedTotal: nat, threads: seq<Phase>, misses: nat)

  datatype Event =
    | Touch(t: nat, conn: Conn, ttl: int, now: int)
    | CountOpened(t: nat)
    | Check(t: nat, now: int)
    | Remove(t: nat)
    | Sweep(t: nat, now: int, maxTTL: int)
    | CountClosed(t: nat)

  predicate Enabled(s: State, e: Event) {
    && e.t < |s.threads|
    && match e
       case Touch(t, _, _, _) => s.threads[t].Idle?
       case CountOpened(t) => s.threads[t].OwesOpened?
       case Check(t, _) => s.threads[t].Checking?
       case Remove(t) => s.threads[t].Removing?
       case Sweep(t, _, _) => s.threads[t].Idle?
       case CountClosed(t) => s.threads[t].OwesClosed?
  }

  function Fresh(m: map<Conn, Tracked>, now: int, maxTTL: int): map<Conn, Tracked> {
    map c | c in m && !(now - m[c].lastSeen > maxTTL) :: m[c]
  }

  function Next(s: State, e: Event): State
    requires Enabled(s, e)
  {
    var t := e.t;
    match e
    case Touch(_, c, ttl, now) =>
      if c in s.connections then
        var seen := s.connections[c];
        s.(connections := s.connections[c := seen.(lastSeen := now)], threads := s.threads[t := Checking(c, seen.ttl, seen.created)])
      else
        s.(connections := s.connections[c := Tracked(ttl, now, now)], threads := s.threads[t := OwesOpened(c, ttl, now)])
    case CountOpened(_) =>
      var p := s.threads[t];
      s.(openTotal := s.openTotal + 1, threads := s.threads[t := Checking(p.conn, p.ttl, p.created)])
    case Check(_, now) =>
      var p := s.threads[t];
      s.(threads := s.threads[t := if now - p.created > p.ttl then Removing(p.conn) else Idle])
    case Remove(_) =>
      var c := s.threads[t].conn;
      s.(connections := s.connections - {c}, threads := s.threads[t := OwesClosed(1)],
         misses := if c in s.connections then s.misses else s.misses + 1)
    case Sweep(_, now, maxTTL) =>
      var kept := Fresh(s.connections, now, maxTTL);
      FreshIsSmaller(s.connections, now, maxTTL);
      s.(connections := kept, threads := s.threads[t := OwesClosed(|s.connections| - |kept|)])
    case CountClosed(_) =>
      s.(closedTotal := s.closedTotal + s.threads[t].count, threads := s.threads[t := Idle])
  }

  lemma FreshIsSmaller(m: map<Conn, Tracked>, now: int, maxTTL: int)
    ensures |Fresh(m, now, maxTTL)| <= |m|
  {
    SubsetSize(Fresh(m, now, maxTTL).Keys, m.Keys);
  }

  /** The update a goroutine still owes to opened minus closed. */
  function Owed(p: Phase): int {
    match p
    case OwesOpened(_, _, _) => 1
    case OwesClosed(n) => 0 - n as int
    case _ => 0
  }

  function AllOwed(threads: seq<Phase>): int {
    if threads == [] then 0 else AllOwed(threads[..|threads| - 1]) + Owed(threads[|threads| - 1])
  }

  lemma {:induction false} OwedUpdate(threads: seq<Phase>, t: nat, p: Phase)
    requires t < |threads|
    ensures AllOwed(threads[t := p]) == AllOwed(threads) - Owed(threads[t]) + Owed(p)
    decreases |threads|
  {
    var n := |threads| - 1;
    var updated := threads[t := p];
    if t == n {
      assert updated[..n] == threads[..n];
    } else {
      assert updated[..n] == threads[..n][t := p];
      OwedUpdate(threads[..n], t, p);
    }
  }

  /** Opened minus closed, with the updates still owed and the removals that missed, is the number
      of tracked connections. */
  ghost predicate Balanced(s: State) {
    s.openTotal - s.closedTotal + AllOwed(s.threads) + s.misses == |s.connections|
  }

  lemma NextKeepsBalance(s: State, e: Event)
    requires Enabled(s, e) && Balanced(s)
    ensures Balanced(Next(s, e))
  {
    match e {
      case Touch(t, c, ttl, now) => TouchKeepsBalance(s, t, c, ttl, now);
      case Remove(t) => RemoveKeepsBalance(s, t);
      case _ => BalanceMoves(s, Next(s, e), e.t);
    }
  }

  /** What a step adds to the totals is what its goroutine then owes less. */
  lemma BalanceMoves(s: State, s': State, t: nat)
    requires Balanced(s) && t < |s.threads| == |s'.threads| && s'.threads == s.threads[t := s'.threads[t]]
    requires Standing(s') + Owed(s'.threads[t]) == Standing(s) + Owed(s.threads[t])
    ensures Balanced(s')
  {
    OwedUpdate(s.threads, t, s'.threads[t]);
  }

  function Standing(s: State): int {
    s.openTotal - s.closedTotal + s.misses - |s.connections|
  }

  lemma TouchKeepsBalance(s: State, t: nat, c: Conn, ttl: int, now: int)
    requires Enabled(s, Touch(t, c, ttl, now)) && Balanced(s)
    ensures Balanced(Next(s, Touch(t, c, ttl, now)))
  {
    var s' := Next(s, Touch(t, c, ttl, now));
    Sizes(s.connections, c, s'.connections[c]);
    BalanceMoves(s, s', t);
  }

  lemma RemoveKeepsBalance(s: State, t: nat)
    requires Enabled(s, Remove(t)) && Balanced(s)
    ensures Balanced(Next(s, Remove(t)))
  {
    Sizes(s.connections, s.threads[t].conn, Tracked(0, 0, 0));
    BalanceMoves(s, Next(s, Remove(t)), t);
  }

  lemma Sizes(m: map<Conn, Tracked>, c: Conn, v: Tracked)
    ensures |m[c := v]| == if c in m then |m| else |m| + 1
    ensures |m - {c}| == if c in m then |m| - 1 else |m|
  {
    assert m[c := v].Keys == m.Keys + {c};
    assert (m - {c}).Keys == m.Keys - {c};
  }

  function Init(threads: nat): State {
    State(map[], 0, 0, seq(threads, _ => Idle), 0)
  }

  /** The state after a run, or None when some event was not enabled. */
  function Run(threads: nat, evs: seq<Event>): Option<State> {
    if evs == [] then Some(Init(threads))
    else
      match Run(threads, evs[..|evs| - 1])
      case None => None
      case Some(s) => if Enabled(s, evs[|evs| - 1]) then Some(Next(s, evs[|evs| - 1])) else None
  }

  lemma {:induction false} IdleOwesNothing(threads: seq<Phase>)
    requires forall t :: 0 <= t < |threads| ==> threads[t].Idle?
    ensures AllOwed(threads) == 0
    decreases |threads|
  {
    if threads != [] {
      IdleOwesNothing(threads[..|threads| - 1]);
    }
  }

  lemma {:induction false} RunBalanced(threads: nat, evs: seq<Event>)
    requires Run(threads, evs).Some?
    ensures Balanced(Run(threads, evs).value)
    decreases |evs|
  {
    if evs == [] {
      IdleOwesNothing(Init(threads).threads);
    } else {
      RunBalanced(threads, evs[..|evs| - 1]);
      NextKeepsBalance(Run(threads, evs[..|evs| - 1]).value, evs[|evs| - 1]);
    }
  }

  ghost predicate Quiet(s: State) {
    forall t :: 0 <= t < |s.threads| ==> s.threads[t].Idle?
  }

  /** Whenever no request is under way, in every interleaving, opened minus closed is at most the
      number of tracked connections, and equals it if and only if no removal missed. */
  lemma QuietCounters(threads: nat, evs: seq<Event>)
    requires Run(threads, evs).Some? && Quiet(Run(threads, evs).value)
    ensures var s := Run(threads, evs).value;
      && s.openTotal - s.closedTotal <= |s.connections|
      && (s.openTotal - s.closedTotal == |s.connections| <==> s.misses == 0)
  {
    RunBalanced(threads, evs);
    IdleOwesNothing(Run(threads, evs).value.threads);
  }

  /** The only goroutine's connection is tracked until that goroutine removes it. */
  ghost predicate SerialInv(s: State) {
    && |s.threads| == 1 && s.misses == 0
    && (s.threads[0].OwesOpened? || s.threads[0].Checking? || s.threads[0].Removing? ==> s.threads[0].conn in s.connections)
  }

  lemma SerialStep(s: State, e: Event)
    requires SerialInv(s) && Enabled(s, e)
    ensures SerialInv(Next(s, e))
  {
  }

  /** With one request at a time a removal never misses: the counters are exact in serial runs. */
  lemma {:induction false} SerialNeverMisses(evs: seq<Event>)
    requires Run(1, evs).Some?
    ensures SerialInv(Run(1, evs).value)
    decreases |evs|
  {
    if evs != [] {
      SerialNeverMisses(evs[..|evs| - 1]);
      SerialStep(Run(1, evs[..|evs| - 1]).value, evs[|evs| - 1]);
    }
  }

  /** Two requests that find the same connection expired both count it as closed. */
  lemma RaceMisses() returns (evs: seq<Event>, s: State)
    ensures Run(2, evs) == Some(s) && Quiet(s)
    ensures s.openTotal == 1 && s.closedTotal == 2 && s.connections == map[]
  {
    evs, s := BothFindItExpired();
    evs, s := Do(evs, s, Remove(0));
    evs, s := Do(evs, s, Remove(1));
    assert s.threads == [OwesClosed(1), OwesClosed(1)];
    evs, s := Do(evs, s, CountClosed(0));
    evs, s := Do(evs, s, CountClosed(1));
    assert s.connections.Keys == {};
  }

  lemma BothFindItExpired() returns (evs: seq<Event>, s: State)
    ensures Run(2, evs) == Some(s)
    ensures s.threads == [Removing("c"), Removing("c")] && s.connections.Keys == {"c"}
    ensures s.openTotal == 1 && s.closedTotal == 0
  {
    evs, s := [], Init(2);
    evs, s := Do(evs, s, Touch(0, "c", 5, 0));
    evs, s := Do(evs, s, Touch(1, "c", 5, 9));
    assert s.threads == [OwesOpened("c", 5, 0), Checking("c", 5, 0)] && s.connections.Keys == {"c"};
    evs, s := Do(evs, s, CountOpened(0));
    evs, s := Do(evs, s, Check(0, 9));
    evs, s := Do(evs, s, Check(1, 9));
  }

  lemma Do(evs: seq<Event>, s: State, e: Event) returns (evs': seq<Event>, s': State)
    requires Run(2, evs) == Some(s) && Enabled(s, e)
    ensures Run(2, evs') == Some(s') && s' == Next(s, e)
  {
    evs', s' := evs + [e], Next(s, e);
    assert evs'[..|evs|] == evs;
  }

  // ----- The methods, one request at a time -----

  /** The steps of connectionState: a touch, and the count of a new connection. */
  function Touched(s: State, c: Conn, ttl: int, now: int): (s': State)
    requires |s.threads| == 1 && s.threads[0].Idle?
    ensures |s'.threads| == 1 && s'.threads[0].Checking?
  {
    var s1 := Next(s, Touch(0, c, ttl, now));
    if s1.threads[0].OwesOpened? then Next(s1, CountOpened(0)) else s1
  }

  /** The steps of a whole request. */
  function Served(s: State, c: Conn, ttl: int, now: int, later: int): State
    requires |s.threads| == 1 && s.threads[0].Idle?
  {
    var s1 := Next(Touched(s, c, ttl, now), Check(0, later));
    if s1.threads[0].Removing? then Next(Next(s1, Remove(0)), CountClosed(0)) else s1
  }

  /** The steps of one clean-up. */
  function Swept(s: State, now: int, maxTTL: int): State
    requires |s.threads| == 1 && s.threads[0].Idle?
  {
    Next(Next(s, Sweep(0, now, maxTTL)), CountClosed(0))
  }

  lemma TouchedIs(m: map<Conn, Tracked>, opens: nat, closes: nat, c: Conn, ttl: int, now: int)
    ensures var state := if c in m then m[c].(lastSeen := now) else Tracked(ttl, now, now);
      Touched(State(m, opens, closes, [Idle], 0), c, ttl, now) ==
      State(m[c := state], if c in m then opens else opens + 1, closes, [Checking(c, state.ttl, state.created)], 0)
  {
  }

  lemma ServedIs(m: map<Conn, Tracked>, opens: nat, closes: nat, c: Conn, ttl: int, now: int, later: int)
    ensures var state := if c in m then m[c].(lastSeen := now) else Tracked(ttl, now, now);
      var opens' := if c in m then opens else opens + 1;
      Served(State(m, opens, closes, [Idle], 0), c, ttl, now, later) ==
      if later - state.created > state.ttl then State(m[c := state] - {c}, opens', closes + 1, [Idle], 0)
      else State(m[c := state], opens', closes, [Idle], 0)
  {
    TouchedIs(m, opens, closes, c, ttl, now);
  }

  lemma SweptIs(m: map<Conn, Tracked>, opens: nat, closes: nat, now: int, maxTTL: int)
    ensures var kept := Fresh(m, now, maxTTL);
      |kept| <= |m| && Swept(State(m, opens, closes, [Idle], 0), now, maxTTL) == State(kept, opens, closes + |m| - |kept|, [Idle], 0)
  {
    FreshIsSmaller(m, now, maxTTL);
  }

  class ConnectionLimiter {
    const minTTL: int
    const maxTTL: int
    var connections: map<Conn, Tracked>
    var openTotal: nat
    var closedTotal: nat

    /** The tracker as the machine sees it when no request is under way. */
    ghost function Value(): State
      reads this
    {
      State(connections, openTotal, closedTotal, [Idle], 0)
    }

    /** The counters account for exactly the tracked connections. */
    ghost predicate Valid()
      reads this
    {
      Bounds(minTTL, maxTTL) && openTotal - closedTotal == |connections|
    }

    constructor (minTTL: int, maxTTL: int)
      requires Bounds(minTTL, maxTTL)
      ensures Valid() && connections == map[] && this.minTTL == minTTL && this.maxTTL == maxTTL
    {
      this.minTTL, this.maxTTL := minTTL, maxTTL;
      connections, openTotal, closedTotal := map[], 0, 0;
    }

    method ConnectionState(conn: Conn, hash: int, now: int) returns (state: Tracked)
      requires Valid() && 0 <= hash < INT64
      modifies this
      ensures Valid()
      ensures connections == old(connections)[conn := state] && closedTotal == old(closedTotal)
      ensures state == if conn in old(connections) then old(connections)[conn].(lastSeen := now)
        else Tracked(TTLMillis(minTTL, maxTTL, hash) * MILLISECOND, now, now)
      ensures Value().(threads := [Checking(conn, state.ttl, state.created)]) ==
        Touched(old(Value()), conn, TTLMillis(minTTL, maxTTL, hash) * MILLISECOND, now)
    {
      TouchedIs(connections, openTotal, closedTotal, conn, TTLMillis(minTTL, maxTTL, hash) * MILLISECOND, now);
      if conn in connections {
        state := connections[conn].(lastSeen := now);
        assert connections.Keys == connections.Keys + {conn};
        connections := connections[conn := state];
      } else {
        state := Tracked(TTLMillis(minTTL, maxTTL, hash) * MILLISECOND, now, now);
        connections := connections[conn := state];
        openTotal := openTotal + 1;
      }
    }

    method RemoveExpiredConnection(conn: Conn, hash: int, now: int, later: int) returns (removed: bool)
      requires Valid() && 0 <= hash < INT64
      modifies this
      ensures Valid()
      ensures var created := if conn in old(connections) then old(connections)[conn].created else now;
        var ttl := if conn in old(connections) then old(connections)[conn].ttl
          else TTLMillis(minTTL, maxTTL, hash) * MILLISECOND;
        removed <==> later - created > ttl
      ensures conn in connections <==> !removed
      ensures closedTotal == old(closedTotal) + if removed then 1 else 0
      ensures connections - {conn} == old(connections) - {conn}
      ensures Value() == Served(old(Value()), conn, TTLMillis(minTTL, maxTTL, hash) * MILLISECOND, now, later)
    {
      ServedIs(connections, openTotal, closedTotal, conn, TTLMillis(minTTL, maxTTL, hash) * MILLISECOND, now, later);
      var state := ConnectionState(conn, hash, now);
      if !(later - state.created > state.ttl) {
        return false;
      }
      Drop(conn);
      return true;
    }

    method Drop(conn: Conn)
      requires Valid() && conn in connections
      modifies this
      ensures Valid() && connections == old(connections) - {conn}
      ensures openTotal == old(openTotal) && closedTotal == old(closedTotal) + 1
    {
      Sizes(connections, conn, connections[conn]);
      connections := connections - {conn};
      closedTotal := closedTotal + 1;
    }

    method RemoveIdleExpiredConnections(now: int)
      requires Valid()
      modifies this
      ensures Valid()
      ensures connections == Fresh(old(connections), now, maxTTL) && openTotal == old(openTotal)
      ensures Value() == Swept(old(Value()), now, maxTTL)
    {
      SweptIs(connections, openTotal, closedTotal, now, maxTTL);
      var count := DropIdle(now);
      closedTotal := closedTotal + count;
    }

    /** The loop over the tracked connections. */
    method DropIdle(now: int) returns (count: nat)
      modifies this`connections
      ensures connections == Fresh(old(connections), now, maxTTL)
      ensures count == |old(connections)| - |connections|
    {
      count := 0;
      var todo := connections.Keys;
      while todo != {}
        invariant todo <= connections.Keys <= old(connections).Keys
        invariant forall c :: c in connections ==> connections[c] == old(connections)[c]
        invariant forall c :: c in old(connections) && c !in todo ==>
          (c in connections <==> !(now - old(connections)[c].lastSeen > maxTTL))
        invariant count == |old(connections)| - |connections|
        decreases todo
      {
        var c :| c in todo;
        if now - connections[c].lastSeen > maxTTL {
          Sizes(connections, c, connections[c]);
          connections := connections - {c};
          count := count + 1;
        }
        todo := todo - {c};
      }
    }
  }
}
