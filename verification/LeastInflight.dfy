/** The least-inflight host provider of pkg/util/proxy/dnslb/least_inflight.go.  A run is the
    sequence of calls the provider served, with the host each StartHost returned. */
module LeastInflight {
  import opened NamedHeap

  datatype Event =
    | Started(host: string)
    | StartedDefault
    | Ended(host: string)
    | Added(host: string)
    | Removed(host: string)

  /** Effect of one call on the plain map from host to count. */
  function Step(m: map<string, int>, e: Event): map<string, int> {
    match e
    case Started(h) => if h in m then m[h := m[h] + 1] else m
    case StartedDefault => m
    case Ended(h) => if h in m then m[h := m[h] - 1] else m
    case Added(h) => if h in m then m else m[h := 0]
    case Removed(h) => m - {h}
  }

  /** StartHost may only answer with a least-loaded host, or the default when there is none. */
  ghost predicate Legal(m: map<string, int>, e: Event) {
    match e
    case Started(h) => IsMinimum(m, h)
    case StartedDefault => m == map[]
    case _ => true
  }

  function RunFrom(m: map<string, int>, evs: seq<Event>): map<string, int> {
    if evs == [] then m else Step(RunFrom(m, evs[..|evs| - 1]), evs[|evs| - 1])
  }

  ghost predicate LegalRun(m: map<string, int>, evs: seq<Event>) {
    evs == [] || (LegalRun(m, evs[..|evs| - 1]) && Legal(RunFrom(m, evs[..|evs| - 1]), evs[|evs| - 1]))
  }

  class Provider {
    const defaultHostname: string
    const h: NamedMinHeap
    ghost var history: seq<Event>

    ghost predicate Valid()
      reads this, h
    {
      h.Valid() && LegalRun(map[], history) && h.Counts() == RunFrom(map[], history)
    }

    constructor (defaultHostname: string)
      ensures Valid() && fresh(h) && history == [] && this.defaultHostname == defaultHostname
    {
      this.defaultHostname := defaultHostname;
      h := new NamedMinHeap();
      history := [];
    }

    /** Adds a call to the history, once the heap has followed it. */
    ghost method Note(e: Event)
      requires h.Valid() && LegalRun(map[], history) && Legal(RunFrom(map[], history), e)
      requires h.Counts() == Step(RunFrom(map[], history), e)
      modifies this`history
      ensures Valid() && history == old(history) + [e]
    {
      Extend(history, e);
      history := history + [e];
    }

    method StartHost() returns (host: string)
      requires Valid()
      modifies this, h
      ensures Valid()
      ensures history == old(history) + [if old(h.Counts()) == map[] then StartedDefault else Started(host)]
      ensures if old(h.Counts()) == map[] then host == defaultHostname else IsMinimum(old(h.Counts()), host)
    {
      var n := h.Len();
      if n == 0 {
        Note(StartedDefault);
        return defaultHostname;
      }
      host := StartLeast();
    }

    /** The branch of StartHost that finds a host. */
    method StartLeast() returns (host: string)
      requires Valid()
      requires h.Counts() != map[]
      modifies this, h
      ensures Valid()
      ensures history == old(history) + [Started(host)]
      ensures IsMinimum(old(h.Counts()), host)
    {
      assert |h.q| > 0 by {
        SizeOfIndex(h.q, h.nameIndex);
      }
      host := h.Min();
      h.Inc(host);
      Note(Started(host));
    }

    method EndHost(host: string)
      requires Valid()
      modifies this, h
      ensures Valid()
      ensures history == old(history) + [Ended(host)]
    {
      h.Dec(host);
      Note(Ended(host));
    }

    method InstanceAdded(host: string)
      requires Valid()
      modifies this, h
      ensures Valid()
      ensures history == old(history) + [Added(host)]
    {
      h.Add(host);
      Note(Added(host));
    }

    method InstanceRemoved(host: string)
      requires Valid()
      modifies this, h
      ensures Valid()
      ensures history == old(history) + [Removed(host)]
    {
      h.Remove(host);
      Note(Removed(host));
    }
  }

  lemma Extend(evs: seq<Event>, e: Event)
    ensures RunFrom(map[], evs + [e]) == Step(RunFrom(map[], evs), e)
    ensures LegalRun(map[], evs + [e]) == (LegalRun(map[], evs) && Legal(RunFrom(map[], evs), e))
  {
    assert (evs + [e])[..|evs + [e]| - 1] == evs;
  }

  // ----- What the counts mean, told from the calls alone -----

  function Occurrences(evs: seq<Event>, e: Event): nat {
    if evs == [] then 0 else Occurrences(evs[..|evs| - 1], e) + if evs[|evs| - 1] == e then 1 else 0
  }

  /** Call `k` discovered `host` anew, and no later call removed it. */
  ghost predicate AddedAnew(evs: seq<Event>, host: string, k: nat) {
    && k < |evs| && evs[k] == Added(host)
    && Removed(host) !in evs[k..]
    && forall j :: 0 <= j < k && evs[j] == Added(host) ==> Removed(host) in evs[j..k]
  }

  /** A host is in the heap exactly when some call discovered it anew and none removed it since. */
  lemma {:induction false} TrackedWhileAdded(evs: seq<Event>, host: string)
    ensures host in RunFrom(map[], evs) <==> exists k: nat :: AddedAnew(evs, host, k)
    decreases |evs|
  {
    if evs != [] {
      TrackedWhileAdded(evs[..|evs| - 1], host);
      AnewStep(evs, evs[..|evs| - 1], host);
    }
  }

  lemma AnewStep(evs: seq<Event>, before: seq<Event>, host: string)
    requires evs != [] && before == evs[..|evs| - 1]
    ensures (exists k: nat :: AddedAnew(evs, host, k)) <==>
      || evs[|evs| - 1] == Added(host)
      || (evs[|evs| - 1] != Removed(host) && exists k: nat :: AddedAnew(before, host, k))
  {
    var n := |evs| - 1;
    LastCall(evs, before, host);
    if k: nat :| AddedAnew(before, host, k) && evs[n] != Removed(host) {
      EarlierAnew(evs, host, k);
    }
    if k: nat :| AddedAnew(evs, host, k) && k < n {
      EarlierAnew(evs, host, k);
    }
  }

  lemma EarlierAnew(evs: seq<Event>, host: string, k: nat)
    requires k < |evs| - 1
    ensures AddedAnew(evs, host, k) <==> AddedAnew(evs[..|evs| - 1], host, k) && evs[|evs| - 1] != Removed(host)
  {
    var n := |evs| - 1;
    assert evs[k..] == evs[..n][k..] + [evs[n]];
    assert forall j :: 0 <= j < k ==> evs[j..k] == evs[..n][j..k];
  }

  /** The value of a host is the StartHost answers minus the EndHost calls since it was discovered. */
  lemma {:induction false} CountIsStartsMinusEnds(evs: seq<Event>, host: string, k: nat)
    requires AddedAnew(evs, host, k)
    ensures host in RunFrom(map[], evs)
    ensures RunFrom(map[], evs)[host] == Occurrences(evs[k..], Started(host)) - Occurrences(evs[k..], Ended(host))
    decreases |evs|
  {
    var n := |evs| - 1;
    var before := evs[..n];
    if k == n {
      LastCall(evs, before, host);
      TrackedWhileAdded(before, host);
    } else {
      SuffixStep(evs, host, k);
      CountIsStartsMinusEnds(before, host, k);
    }
  }

  lemma SuffixStep(evs: seq<Event>, host: string, k: nat)
    requires k < |evs| - 1
    ensures AddedAnew(evs, host, k) <==> AddedAnew(evs[..|evs| - 1], host, k) && evs[|evs| - 1] != Removed(host)
    ensures forall x :: Occurrences(evs[k..], x) == Occurrences(evs[..|evs| - 1][k..], x) + if evs[|evs| - 1] == x then 1 else 0
  {
    var n := |evs| - 1;
    assert evs[k..] == evs[..n][k..] + [evs[n]];
    assert evs[k..][..|evs[k..]| - 1] == evs[..n][k..];
    EarlierAnew(evs, host, k);
  }

  /** The last call opens an epoch exactly when it adds a host that was not there. */
  lemma LastCall(evs: seq<Event>, before: seq<Event>, host: string)
    requires evs != [] && before == evs[..|evs| - 1]
    ensures AddedAnew(evs, host, |evs| - 1) <==>
      evs[|evs| - 1] == Added(host) && !exists k: nat :: AddedAnew(before, host, k)
    ensures evs[|evs| - 1] == Added(host) ==>
      Occurrences(evs[|evs| - 1..], Started(host)) == 0 && Occurrences(evs[|evs| - 1..], Ended(host)) == 0
  {
    var n := |evs| - 1;
    assert evs[n..] == [evs[n]];
    assert evs[n..][..0] == [];
    assert forall j :: 0 <= j < n ==> evs[j..n] == before[j..];
    if j :| 0 <= j < n && before[j] == Added(host) && Removed(host) !in before[j..] {
      FirstOfEpoch(before, host, j);
    }
  }

  lemma {:induction false} FirstOfEpoch(evs: seq<Event>, host: string, j: nat)
    requires j < |evs| && evs[j] == Added(host) && Removed(host) !in evs[j..]
    ensures exists k: nat :: AddedAnew(evs, host, k)
    decreases j
  {
    if i :| 0 <= i < j && evs[i] == Added(host) && Removed(host) !in evs[i..j] {
      assert evs[i..] == evs[i..j] + evs[j..];
      FirstOfEpoch(evs, host, i);
    } else {
      assert AddedAnew(evs, host, j);
    }
  }

  // ----- Balance -----

  ghost predicate Within(m: map<string, int>, d: int) {
    forall a, b :: a in m && b in m ==> m[a] - m[b] <= d
  }

  predicate OnlyStarts(evs: seq<Event>) {
    forall i :: 0 <= i < |evs| ==> evs[i].Started?
  }

  /** StartHost calls alone never widen the spread between hosts beyond what it was, or beyond 1:
      from all-zero counts the maximum stays within one of the minimum. */
  lemma {:induction false} StartsKeepBalance(m: map<string, int>, evs: seq<Event>, d: int)
    requires Within(m, d) && d >= 1
    requires OnlyStarts(evs) && LegalRun(m, evs)
    ensures Within(RunFrom(m, evs), d)
    ensures RunFrom(m, evs).Keys == m.Keys
    decreases |evs|
  {
    if evs != [] {
      StartsKeepBalance(m, evs[..|evs| - 1], d);
    }
  }
}
