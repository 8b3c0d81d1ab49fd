/** When the connection counters of the TTL middleware are exact, told from the events: which removals
    miss, and why. */
module ConnectionRaces {
  import opened Common
  import opened ConnectionTTL

  predicate Touches(e: Event, c: Conn) {
    e.Touch? && e.conn == c
  }

  /** The latest Touch of a goroutine: the request it is serving. */
  function LastTouch(evs: seq<Event>, t: nat): (i: Option<nat>)
    ensures i.Some? ==> i.value < |evs| && evs[i.value].Touch? && evs[i.value].t == t
  {
    if evs == [] then None
    else if evs[|evs| - 1].Touch? && evs[|evs| - 1].t == t then Some(|evs| - 1)
    else LastTouch(evs[..|evs| - 1], t)
  }

  /** The last event of the run, a Remove or a Sweep, takes `c` out of the tracked connections. */
  ghost predicate LastTakesOut(threads: nat, evs: seq<Event>, c: Conn) {
    && evs != [] && Run(threads, evs).Some?
    && (evs[|evs| - 1].Remove? || evs[|evs| - 1].Sweep?)
    && c in Run(threads, evs[..|evs| - 1]).value.connections
    && c !in Run(threads, evs).value.connections
  }

  /** The event that took `c` out, if no request on `c` has come since. */
  ghost function TakenAt(threads: nat, evs: seq<Event>, c: Conn): (m: Option<nat>)
    ensures m.Some? ==> m.value < |evs|
  {
    if evs == [] || Touches(evs[|evs| - 1], c) then None
    else if LastTakesOut(threads, evs, c) then Some(|evs| - 1)
    else TakenAt(threads, evs[..|evs| - 1], c)
  }

  /** That is: the event took it out, and no later one touches it. */
  lemma TakenAtMeans(threads: nat, evs: seq<Event>, c: Conn, m: nat)
    ensures TakenAt(threads, evs, c) == Some(m) <==>
      && m < |evs| && LastTakesOut(threads, evs[..m + 1], c)
      && forall q :: m < q < |evs| ==> !Touches(evs[q], c)
  {
    if TakenAt(threads, evs, c) == Some(m) {
      TakenThere(threads, evs, c, m);
      forall q | m < q < |evs|
        ensures !Touches(evs[q], c)
      {
        UntouchedSince(threads, evs, c, m, q);
      }
    }
    if m < |evs| && LastTakesOut(threads, evs[..m + 1], c) && forall q :: m < q < |evs| ==> !Touches(evs[q], c) {
      TakenNow(threads, evs[..m + 1], c);
      TakenOnce(threads, evs, c, m, |evs|);
      assert evs[..|evs|] == evs;
    }
  }

  lemma {:induction false} TakenThere(threads: nat, evs: seq<Event>, c: Conn, m: nat)
    requires TakenAt(threads, evs, c) == Some(m)
    ensures LastTakesOut(threads, evs[..m + 1], c)
    decreases |evs|
  {
    var n := |evs| - 1;
    assert evs[..n + 1] == evs;
    if m != n {
      TakenThere(threads, evs[..n], c, m);
      assert evs[..n][..m + 1] == evs[..m + 1];
    }
  }

  lemma {:induction false} UntouchedSince(threads: nat, evs: seq<Event>, c: Conn, m: nat, q: nat)
    requires TakenAt(threads, evs, c) == Some(m) && m < q < |evs|
    ensures !Touches(evs[q], c)
    decreases |evs|
  {
    if q < |evs| - 1 {
      UntouchedSince(threads, evs[..|evs| - 1], c, m, q);
    }
  }

  /** Taken out by event `m`, and out ever since. */
  ghost predicate OutSince(threads: nat, evs: seq<Event>, c: Conn, m: nat) {
    TakenAt(threads, evs, c) == Some(m) && (Run(threads, evs).Some? ==> c !in Run(threads, evs).value.connections)
  }

  lemma TakenNow(threads: nat, evs: seq<Event>, c: Conn)
    requires LastTakesOut(threads, evs, c)
    ensures OutSince(threads, evs, c, |evs| - 1)
  {
  }

  lemma StaysOut(threads: nat, all: seq<Event>, c: Conn, m: nat, k: nat)
    requires 0 < k <= |all| && !Touches(all[k - 1], c)
    requires OutSince(threads, all[..k - 1], c, m)
    ensures OutSince(threads, all[..k], c, m)
  {
    var evs := all[..k];
    assert evs[..k - 1] == all[..k - 1];
    if Run(threads, evs).Some? {
      LastOnConn(threads, evs, c);
    }
  }

  /** Untouched, it stays out, so nothing takes it out again. */
  lemma {:induction false} TakenOnce(threads: nat, evs: seq<Event>, c: Conn, m: nat, k: nat)
    requires m < k <= |evs| && OutSince(threads, evs[..m + 1], c, m)
    requires forall q :: m < q < |evs| ==> !Touches(evs[q], c)
    ensures OutSince(threads, evs[..k], c, m)
    decreases k
  {
    if k > m + 1 {
      TakenOnce(threads, evs, c, m, k - 1);
      StaysOut(threads, evs, c, m, k);
    }
  }

  /** Event `j` removes a connection that another goroutine took out since this one's request came. */
  ghost predicate RemovalRaces(threads: nat, evs: seq<Event>, j: nat) {
    && j < |evs| && evs[j].Remove?
    && var i := LastTouch(evs[..j], evs[j].t);
    && i.Some?
    && var m := TakenAt(threads, evs[..j], evs[i.value].conn);
    && m.Some? && i.value < m.value
  }

  // ----- A goroutine works on the connection of its latest request -----

  ghost predicate OnIts(p: Phase, evs: seq<Event>, t: nat) {
    forall c :: OnConn(p, c) ==> LastTouch(evs, t).Some? && evs[LastTouch(evs, t).value].conn == c
  }

  lemma {:induction false} WorksOnLastTouch(threads: nat, evs: seq<Event>, t: nat)
    requires Run(threads, evs).Some? && t < threads
    ensures |Run(threads, evs).value.threads| == threads
    ensures OnIts(Run(threads, evs).value.threads[t], evs, t)
    decreases |evs|
  {
    if evs != [] {
      var n := |evs| - 1;
      WorksOnLastTouch(threads, evs[..n], t);
      PhaseStep(Run(threads, evs[..n]).value, evs[n], t);
    }
  }

  predicate OnConn(p: Phase, c: Conn) {
    (p.OwesOpened? || p.Checking? || p.Removing?) && p.conn == c
  }

  /** Only a Touch gives a goroutine a connection to work on. */
  lemma PhaseStep(s: State, e: Event, t: nat)
    requires Enabled(s, e) && t < |s.threads|
    ensures |Next(s, e).threads| == |s.threads|
    ensures forall c :: OnConn(Next(s, e).threads[t], c) ==> if e.Touch? && e.t == t then e.conn == c else OnConn(s.threads[t], c)
  {
  }

  // ----- When a connection is gone -----

  lemma StepOnConn(s: State, e: Event, c: Conn)
    requires Enabled(s, e)
    ensures Touches(e, c) ==> c in Next(s, e).connections
    ensures !Touches(e, c) && c in Next(s, e).connections ==> c in s.connections
    ensures c in s.connections && c !in Next(s, e).connections ==> e.Remove? || e.Sweep?
  {
  }

  /** After a Touch of `c`, it is untracked if and only if a later event took it out for good. */
  lemma {:induction false} GoneExactly(threads: nat, evs: seq<Event>, i: nat, c: Conn)
    requires Run(threads, evs).Some? && i < |evs| && Touches(evs[i], c)
    ensures c !in Run(threads, evs).value.connections <==> TakenAt(threads, evs, c).Some?
    ensures TakenAt(threads, evs, c).Some? ==> i < TakenAt(threads, evs, c).value
    decreases |evs|
  {
    LastOnConn(threads, evs, c);
    if i < |evs| - 1 {
      GoneExactly(threads, evs[..|evs| - 1], i, c);
    }
  }

  lemma LastOnConn(threads: nat, evs: seq<Event>, c: Conn)
    requires evs != [] && Run(threads, evs).Some?
    ensures var before, after := Run(threads, evs[..|evs| - 1]).value.connections, Run(threads, evs).value.connections;
      && (Touches(evs[|evs| - 1], c) ==> c in after)
      && (!Touches(evs[|evs| - 1], c) ==> (c !in after <==> LastTakesOut(threads, evs, c) || c !in before))
  {
    StepOnConn(Run(threads, evs[..|evs| - 1]).value, evs[|evs| - 1], c);
  }

  // ----- What is known of a tracked connection -----

  /** The latest Touch of `c` by anyone. */
  function LastTouchOf(evs: seq<Event>, c: Conn): (k: Option<nat>)
    ensures k.Some? ==> k.value < |evs| && Touches(evs[k.value], c)
  {
    if evs == [] then None
    else if Touches(evs[|evs| - 1], c) then Some(|evs| - 1)
    else LastTouchOf(evs[..|evs| - 1], c)
  }

  /** The Touch with which the tracking of `c` began: the latest one that found it untracked. */
  ghost function TrackedFrom(threads: nat, evs: seq<Event>, c: Conn): (k: Option<nat>)
    ensures k.Some? ==> k.value < |evs| && Touches(evs[k.value], c)
  {
    if evs == [] then
      None
    else
      var before := evs[..|evs| - 1];
      if Touches(evs[|evs| - 1], c) && Run(threads, before).Some? && c !in Run(threads, before).value.connections then
        Some(|evs| - 1)
      else
        TrackedFrom(threads, before, c)
  }

  /** A tracked connection has the TTL and creation time of the request that began its tracking and was
      last seen at the latest request on it. */
  ghost predicate KnownBy(s: State, threads: nat, evs: seq<Event>, c: Conn) {
    var from, last := TrackedFrom(threads, evs, c), LastTouchOf(evs, c);
    c in s.connections ==>
      && from.Some? && last.Some?
      && s.connections[c] == Tracked(evs[from.value].ttl, evs[from.value].now, evs[last.value].now)
  }

  lemma {:induction false} TrackedIsTouched(threads: nat, evs: seq<Event>, c: Conn)
    requires Run(threads, evs).Some?
    ensures KnownBy(Run(threads, evs).value, threads, evs, c)
    decreases |evs|
  {
    if evs != [] {
      TrackedIsTouched(threads, evs[..|evs| - 1], c);
      StepOnTracked(Run(threads, evs[..|evs| - 1]).value, evs[|evs| - 1], c);
    }
  }

  lemma StepOnTracked(s: State, e: Event, c: Conn)
    requires Enabled(s, e)
    ensures c in Next(s, e).connections ==>
      (Next(s, e).connections[c] ==
       if !Touches(e, c) then (if c in s.connections then s.connections[c] else Tracked(0, 0, 0))
       else if c in s.connections then s.connections[c].(lastSeen := e.now)
       else Tracked(e.ttl, e.now, e.now))
    ensures c in Next(s, e).connections && !Touches(e, c) ==> c in s.connections
  {
  }

  /** So a sweep drops exactly the connections whose latest request is longer ago than the maximum TTL. */
  lemma SweepsIdle(threads: nat, evs: seq<Event>, s: State, t: nat, now: int, maxTTL: int, c: Conn)
    requires Run(threads, evs) == Some(s) && Enabled(s, Sweep(t, now, maxTTL)) && c in s.connections
    ensures LastTouchOf(evs, c).Some?
    ensures c in Next(s, Sweep(t, now, maxTTL)).connections <==> now - evs[LastTouchOf(evs, c).value].now <= maxTTL
  {
    TrackedIsTouched(threads, evs, c);
  }

  // ----- Misses -----

  /** In every interleaving no removal has missed if and only if none raced with a Remove or Sweep of
      the same connection. */
  lemma {:induction false} MissesAreRaces(threads: nat, evs: seq<Event>)
    requires Run(threads, evs).Some?
    ensures Run(threads, evs).value.misses == 0 <==> forall j: nat :: !RemovalRaces(threads, evs, j)
    decreases |evs|
  {
    if evs != [] {
      var n := |evs| - 1;
      MissesAreRaces(threads, evs[..n]);
      LastMisses(threads, evs);
      if j: nat :| RemovalRaces(threads, evs[..n], j) {
        RacedEarlier(threads, evs, j);
      }
      if j: nat :| RemovalRaces(threads, evs, j) && j != n {
        RacedEarlier(threads, evs, j);
      }
    }
  }

  lemma RacedEarlier(threads: nat, evs: seq<Event>, j: nat)
    requires j < |evs| - 1
    ensures RemovalRaces(threads, evs, j) <==> RemovalRaces(threads, evs[..|evs| - 1], j)
  {
    assert evs[..|evs| - 1][..j] == evs[..j];
  }

  lemma LastMisses(threads: nat, evs: seq<Event>)
    requires evs != [] && Run(threads, evs).Some?
    ensures Run(threads, evs).value.misses ==
      Run(threads, evs[..|evs| - 1]).value.misses + if RemovalRaces(threads, evs, |evs| - 1) then 1 else 0
  {
    var n := |evs| - 1;
    var before, e := evs[..n], evs[n];
    if e.Remove? {
      RunKeepsThreads(threads, before);
      WorksOnLastTouch(threads, before, e.t);
      assert OnConn(Run(threads, before).value.threads[e.t], Run(threads, before).value.threads[e.t].conn);
      var i := LastTouch(before, e.t).value;
      assert before[i] == evs[i];
      GoneExactly(threads, before, i, before[i].conn);
    }
  }

  lemma {:induction false} RunKeepsThreads(threads: nat, evs: seq<Event>)
    requires Run(threads, evs).Some?
    ensures |Run(threads, evs).value.threads| == threads
    decreases |evs|
  {
    if evs != [] {
      RunKeepsThreads(threads, evs[..|evs| - 1]);
      NextKeepsThreads(Run(threads, evs[..|evs| - 1]).value, evs[|evs| - 1]);
    }
  }

  lemma NextKeepsThreads(s: State, e: Event)
    requires Enabled(s, e)
    ensures |Next(s, e).threads| == |s.threads|
  {
  }

  /** Whenever no request is under way, opened minus closed is the number of tracked connections if and
      only if no request's removal came after another goroutine's Remove or Sweep had taken its
      connection out. */
  lemma QuietCountersAreExact(threads: nat, evs: seq<Event>)
    requires Run(threads, evs).Some? && Quiet(Run(threads, evs).value)
    ensures var s := Run(threads, evs).value;
      s.openTotal - s.closedTotal == |s.connections| <==> forall j: nat :: !RemovalRaces(threads, evs, j)
  {
    QuietCounters(threads, evs);
    MissesAreRaces(threads, evs);
  }
}
