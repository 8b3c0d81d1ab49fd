/** The in-flight limiter of pkg/gateway/request_limiter_middleware.go, with its two atomic
    additions and the decision between them as separate steps of any interleaving. */
module RequestLimiter {
  import opened Common

  const INT32: int := 0x1_0000_0000
  const MAX_INT32: int := 0x7fff_ffff

  /** A 32-bit signed addition. */
  function Add32(a: int, b: int): int {
    var s := (a + b) % INT32;
    if s <= MAX_INT32 then s else s - INT32
  }

  /** It is the sum modulo 2^32, in the range of a signed 32-bit number. */
  lemma Add32Wraps(a: int, b: int)
    ensures -MAX_INT32 - 1 <= Add32(a, b) <= MAX_INT32
    ensures (Add32(a, b) - (a + b)) % INT32 == 0
  {
    var q := (a + b) / INT32;
    assert a + b == q * INT32 + (a + b) % INT32;
    ModIs(-q, INT32, 0);
    ModIs(-q - 1, INT32, 0);
  }

  /** A request: not there, after the first addition with the value it returned, inside the wrapped
      handler, or turned away with status 503 but not yet counted down. */
  datatype Request = Away | Counted(value: int) | Inside | TurnedAway

  datatype State = State(limit: int, inFlight: int, requests: seq<Request>)

  datatype Event = Arrive(r: nat) | Decide(r: nat) | Leave(r: nat)

  predicate Enabled(s: State, e: Event) {
    && e.r < |s.requests|
    && match e
       case Arrive(r) => s.requests[r].Away?
       case Decide(r) => s.requests[r].Counted?
       case Leave(r) => s.requests[r].Inside? || s.requests[r].TurnedAway?
  }

  function Next(s: State, e: Event): State
    requires Enabled(s, e)
  {
    match e
    case Arrive(r) =>
      var v := Add32(s.inFlight, 1);
      s.(inFlight := v, requests := s.requests[r := Counted(v)])
    case Decide(r) =>
      s.(requests := s.requests[r := if s.requests[r].value > s.limit then TurnedAway else Inside])
    case Leave(r) =>
      s.(inFlight := Add32(s.inFlight, -1), requests := s.requests[r := Away])
  }

  function Init(limit: int, requests: nat): State {
    State(limit, 0, seq(requests, _ => Away))
  }

  function Run(limit: int, requests: nat, evs: seq<Event>): Option<State> {
    if evs == [] then Some(Init(limit, requests))
    else
      match Run(limit, requests, evs[..|evs| - 1])
      case None => None
      case Some(s) => if Enabled(s, evs[|evs| - 1]) then Some(Next(s, evs[|evs| - 1])) else None
  }

  // ----- Counting requests -----

  predicate Admitted(q: Request, limit: int) {
    q.Inside? || (q.Counted? && q.value <= limit)
  }

  function Active(qs: seq<Request>): (n: nat)
    ensures n <= |qs|
  {
    if qs == [] then 0 else Active(qs[..|qs| - 1]) + if qs[|qs| - 1].Away? then 0 else 1
  }

  function AdmittedCount(qs: seq<Request>, limit: int): (n: nat)
    ensures n <= Active(qs)
  {
    if qs == [] then 0 else AdmittedCount(qs[..|qs| - 1], limit) + if Admitted(qs[|qs| - 1], limit) then 1 else 0
  }

  function InsideCount(qs: seq<Request>, limit: int): (n: nat)
    ensures n <= AdmittedCount(qs, limit)
  {
    if qs == [] then 0 else InsideCount(qs[..|qs| - 1], limit) + if qs[|qs| - 1].Inside? then 1 else 0
  }

  function Bit(b: bool): int {
    if b then 1 else 0
  }

  lemma {:induction false} CountsMove(qs: seq<Request>, r: nat, q: Request, limit: int)
    requires r < |qs|
    ensures Active(qs[r := q]) == Active(qs) - Bit(!qs[r].Away?) + Bit(!q.Away?)
    ensures AdmittedCount(qs[r := q], limit) == AdmittedCount(qs, limit) - Bit(Admitted(qs[r], limit)) + Bit(Admitted(q, limit))
    decreases |qs|
  {
    var n := |qs| - 1;
    if r == n {
      assert qs[r := q][..n] == qs[..n];
    } else {
      assert qs[r := q][..n] == qs[..n][r := q];
      CountsMove(qs[..n], r, q, limit);
    }
  }

  lemma {:induction false} NobodyActive(qs: seq<Request>, limit: int)
    requires forall r :: 0 <= r < |qs| ==> qs[r].Away?
    ensures Active(qs) == 0 && AdmittedCount(qs, limit) == 0
    decreases |qs|
  {
    if qs != [] {
      NobodyActive(qs[..|qs| - 1], limit);
    }
  }

  /** The counter is the number of requests between the two additions, and at most `limit` of them
      are or will be let in. */
  ghost predicate Inv(s: State) {
    && 0 < s.limit && |s.requests| <= MAX_INT32
    && s.inFlight == Active(s.requests)
    && AdmittedCount(s.requests, s.limit) <= s.limit
  }

  lemma NextKeeps(s: State, e: Event)
    requires Inv(s) && Enabled(s, e)
    ensures Inv(Next(s, e))
  {
    CountsMove(s.requests, e.r, Next(s, e).requests[e.r], s.limit);
    match e {
      case Arrive(_) => SmallAdd(s.inFlight, 1);
      case Decide(_) =>
      case Leave(_) => SmallAdd(s.inFlight, -1);
    }
  }

  lemma SmallAdd(a: int, b: int)
    requires 0 <= a + b <= MAX_INT32
    ensures Add32(a, b) == a + b
  {
  }

  lemma {:induction false} RunKeeps(limit: int, requests: nat, evs: seq<Event>)
    requires 0 < limit && requests <= MAX_INT32 && Run(limit, requests, evs).Some?
    ensures Inv(Run(limit, requests, evs).value) && Run(limit, requests, evs).value.limit == limit
    decreases |evs|
  {
    if evs == [] {
      NobodyActive(Init(limit, requests).requests, limit);
    } else {
      RunKeeps(limit, requests, evs[..|evs| - 1]);
      NextKeeps(Run(limit, requests, evs[..|evs| - 1]).value, evs[|evs| - 1]);
    }
  }

  /** In every interleaving at most `limit` requests are inside the wrapped handler at once, and the
      counter is back at zero whenever no request is under way. */
  lemma AtMostLimitInside(limit: int, requests: nat, evs: seq<Event>)
    requires 0 < limit && requests <= MAX_INT32 && Run(limit, requests, evs).Some?
    ensures var s := Run(limit, requests, evs).value;
      && InsideCount(s.requests, limit) <= limit
      && s.inFlight == Active(s.requests)
      && ((forall r :: 0 <= r < |s.requests| ==> s.requests[r].Away?) ==> s.inFlight == 0)
  {
    RunKeeps(limit, requests, evs);
    var s := Run(limit, requests, evs).value;
    if forall r :: 0 <= r < |s.requests| ==> s.requests[r].Away? {
      NobodyActive(s.requests, limit);
    }
  }

  /** However long its decision takes and whatever the others do meanwhile, a request is turned away
      exactly when `limit` others were under way as it arrived, at event `i`. */
  lemma TurnedAwayOnlyWhenFull(limit: int, requests: nat, evs: seq<Event>, i: nat, r: nat)
    requires 0 < limit && requests <= MAX_INT32 && Run(limit, requests, evs).Some?
    requires i < |evs| && evs[i] == Arrive(r) && forall m :: i < m < |evs| ==> evs[m].r != r
    ensures Run(limit, requests, evs[..i]).Some? && Enabled(Run(limit, requests, evs).value, Decide(r))
    ensures Next(Run(limit, requests, evs).value, Decide(r)).requests[r].TurnedAway? <==>
      Active(Run(limit, requests, evs[..i]).value.requests) >= limit
  {
    RunKeeps(limit, requests, evs);
    KeepsItsNumber(limit, requests, evs, i, r);
  }

  /** Until it decides, a request keeps the value its arrival got. */
  lemma {:induction false} KeepsItsNumber(limit: int, requests: nat, evs: seq<Event>, i: nat, r: nat)
    requires 0 < limit && requests <= MAX_INT32 && Run(limit, requests, evs).Some?
    requires i < |evs| && evs[i] == Arrive(r) && forall m :: i < m < |evs| ==> evs[m].r != r
    ensures Run(limit, requests, evs[..i]).Some?
    ensures var s := Run(limit, requests, evs).value;
      r < |s.requests| && s.requests[r] == Counted(Active(Run(limit, requests, evs[..i]).value.requests) + 1)
    decreases |evs|
  {
    var n := |evs| - 1;
    if i == n {
      RunKeeps(limit, requests, evs[..n]);
      ArrivalCounts(Run(limit, requests, evs[..n]).value, r);
    } else {
      assert evs[..n][..i] == evs[..i];
      KeepsItsNumber(limit, requests, evs[..n], i, r);
    }
  }

  lemma ArrivalCounts(s: State, r: nat)
    requires Inv(s) && Enabled(s, Arrive(r))
    ensures Next(s, Arrive(r)).requests[r] == Counted(Active(s.requests) + 1)
  {
    CountsMove(s.requests, r, Counted(0), s.limit);
  }
}
