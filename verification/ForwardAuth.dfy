/** The result cache of pkg/auth/forward.go, over every interleaving of lookups, answers of the
    authentication service and clean-ups. */
module ForwardAuth {
  import opened Common
  import opened ByteStrings
  import opened AuthCodec
  import opened AuthRoundTrip

  // ----- Cache keys -----

  function Key(authorization: Str, scope: Str): Str {
    authorization + ['|'] + scope
  }

  /** `s` ends with a bar followed by `t`. */
  ghost predicate EndsWithBar(s: Str, t: Str) {
    exists p: Str :: s == p + ['|'] + t
  }

  /** Two scopes can collide on a key, for some Authorization values, if and only if one of them
      ends with a bar followed by the other. */
  lemma KeysCollideExactly(s: Str, t: Str)
    ensures (exists a, b :: (a, s) != (b, t) && Key(a, s) == Key(b, t)) <==> EndsWithBar(s, t) || EndsWithBar(t, s)
  {
    if a, b :| (a, s) != (b, t) && Key(a, s) == Key(b, t) {
      if |s| >= |t| {
        Overhang(a, s, b, t);
      } else {
        Overhang(b, t, a, s);
      }
    }
    if EndsWithBar(s, t) {
      Collide(s, t);
    }
    if EndsWithBar(t, s) {
      Collide(t, s);
    }
  }

  lemma Overhang(a: Str, s: Str, b: Str, t: Str)
    requires Key(a, s) == Key(b, t) && (a, s) != (b, t) && |s| >= |t|
    ensures EndsWithBar(s, t)
  {
    var k := Key(a, s);
    assert s == k[|a| + 1..] && t == k[|b| + 1..];
    assert |a| + |s| == |b| + |t|;
    assert a == k[..|a|] && b == k[..|b|];
    assert |s| > |t|;
    var n := |s| - |t| - 1;
    assert s[n] == k[|a| + 1 + n] == k[|b|] == '|';
    assert s == s[..n] + ['|'] + t;
  }

  lemma Collide(s: Str, t: Str)
    requires EndsWithBar(s, t)
    ensures exists a, b :: (a, s) != (b, t) && Key(a, s) == Key(b, t)
    ensures exists a, b :: (a, t) != (b, s) && Key(a, t) == Key(b, s)
  {
    var p: Str :| s == p + ['|'] + t;
    var b: Str := ['|'] + p;
    assert Key([], s) == Key(b, t);
    assert ([], s) != (b, t) && (b, t) != ([], s);
  }

  /** Scopes without a bar, which all of the gateway's are, never collide. */
  lemma KeysAreInjective(a: Str, s: Str, b: Str, t: Str)
    requires '|' !in s && '|' !in t
    requires Key(a, s) == Key(b, t)
    ensures a == b && s == t
  {
    KeysCollideExactly(s, t);
    NoBar(s, t);
    NoBar(t, s);
  }

  lemma NoBar(s: Str, t: Str)
    requires '|' !in s
    ensures !EndsWithBar(s, t)
  {
    forall p: Str
      ensures s != p + ['|'] + t
    {
      assert (p + ['|'] + t)[|p|] == '|';
    }
  }

  // ----- The protocol -----

  datatype Entry = Entry(result: AuthResult, expires: int)

  /** The service's answer to one request, or a failure to get one. */
  datatype Answer = NoAnswer | Answer(status: int, org: seq<Str>, policies: seq<Str>, extra: Header)

  datatype Failure = Unauthorized | Forbidden | Unavailable | UnexpectedStatus | BadHeaders(error: AuthError)

  datatype Outcome = Granted(result: AuthResult) | Denied(failure: Failure)

  /** What Authenticate makes of an answer. */
  function Judge(answer: Answer, valid: Str -> bool): Outcome {
    match answer
    case NoAnswer => Denied(Unavailable)
    case Answer(status, org, policies, extra) =>
      if status == 401 then Denied(Unauthorized)
      else if status == 403 then Denied(Forbidden)
      else if status != 200 then Denied(UnexpectedStatus)
      else
        match Build(org, policies, extra, valid)
        case Err(e) => Denied(BadHeaders(e))
        case Ok(r) => Granted(r)
  }

  /** The outcome for each kind of answer. */
  lemma JudgeMeans(answer: Answer, valid: Str -> bool)
    ensures Judge(answer, valid) == Denied(Unavailable) <==> answer == NoAnswer
    ensures Judge(answer, valid) == Denied(Unauthorized) <==> answer.Answer? && answer.status == 401
    ensures Judge(answer, valid) == Denied(Forbidden) <==> answer.Answer? && answer.status == 403
    ensures Judge(answer, valid) == Denied(UnexpectedStatus) <==> answer.Answer? && answer.status !in {200, 401, 403}
    ensures forall r :: Judge(answer, valid) == Granted(r) <==>
      answer.Answer? && answer.status == 200 && Build(answer.org, answer.policies, answer.extra, valid) == Ok(r)
    ensures forall e :: Judge(answer, valid) == Denied(BadHeaders(e)) <==>
      answer.Answer? && answer.status == 200 && Build(answer.org, answer.policies, answer.extra, valid) == Err(e)
  {
  }

  /** Times are those of the cache accesses; another request's steps may come in between. */
  datatype Event =
    | Lookup(authorization: Str, scope: Str, now: int)
    | Answered(authorization: Str, scope: Str, answer: Answer, now: int)
    | CleanUp(now: int)

  function Hit(cache: map<Str, Entry>, key: Str, now: int): Option<AuthResult> {
    if key in cache && now <= cache[key].expires then Some(cache[key].result) else None
  }

  function Stored(cache: map<Str, Entry>, key: Str, r: AuthResult, now: int, ttl: int): map<Str, Entry> {
    if ttl > 0 then cache[key := Entry(r, now + ttl)] else cache
  }

  function Step(cache: map<Str, Entry>, e: Event, ttl: int, valid: Str -> bool): map<Str, Entry> {
    match e
    case Lookup(_, _, _) => cache
    case Answered(a, s, answer, now) =>
      (match Judge(answer, valid)
       case Denied(_) => cache
       case Granted(r) => Stored(cache, Key(a, s), r, now, ttl))
    case CleanUp(now) => map k | k in cache && now <= cache[k].expires :: cache[k]
  }

  function Run(evs: seq<Event>, ttl: int, valid: Str -> bool): map<Str, Entry> {
    if evs == [] then map[] else Step(Run(evs[..|evs| - 1], ttl, valid), evs[|evs| - 1], ttl, valid)
  }

  class ForwardAuthenticator {
    const ttl: int
    const valid: Str -> bool
    var cache: map<Str, Entry>

    constructor (ttl: int, valid: Str -> bool)
      ensures this.ttl == ttl && this.valid == valid && cache == map[]
    {
      this.ttl, this.valid, cache := ttl, valid, map[];
    }

    method LookupCache(authorization: Str, scope: Str, now: int) returns (cached: Option<AuthResult>)
      ensures cached == if ttl > 0 then Hit(cache, Key(authorization, scope), now) else None
    {
      var cacheKey := authorization + ['|'] + scope;
      if ttl > 0 && cacheKey in cache && now <= cache[cacheKey].expires {
        return Some(cache[cacheKey].result);
      }
      return None;
    }

    /** Authenticate: a live cache entry answers at once; otherwise the service's answer, which comes
        in later, decides. */
    method Authenticate(authorization: Str, scope: Str, now: int, answer: Answer, later: int) returns (out: Outcome)
      modifies this
      ensures var hit := if ttl > 0 then Hit(old(cache), Key(authorization, scope), now) else None;
        if hit.Some? then out == Granted(hit.value) && cache == old(cache)
        else out == Judge(answer, valid) && cache == Step(old(cache), Answered(authorization, scope, answer, later), ttl, valid)
    {
      var cached := LookupCache(authorization, scope, now);
      if cached.Some? {
        return Granted(cached.value);
      }
      out := HandleAnswer(authorization, scope, answer, later);
    }

    /** The part of Authenticate after the service answered. */
    method HandleAnswer(authorization: Str, scope: Str, answer: Answer, now: int) returns (out: Outcome)
      modifies this
      ensures out == Judge(answer, valid)
      ensures cache == Step(old(cache), Answered(authorization, scope, answer, now), ttl, valid)
    {
      out := Decide(answer);
      if out.Granted? {
        Store(authorization, scope, out.result, now);
      }
    }

    /** The switch over the answer's status. */
    method Decide(answer: Answer) returns (out: Outcome)
      ensures out == Judge(answer, valid)
    {
      if answer.NoAnswer? {
        return Denied(Unavailable);
      } else if answer.status == 401 {
        return Denied(Unauthorized);
      } else if answer.status == 403 {
        return Denied(Forbidden);
      } else if answer.status != 200 {
        return Denied(UnexpectedStatus);
      }
      var result := NewAuthResult(answer.org, answer.policies, answer.extra, valid);
      if result.Err? {
        return Denied(BadHeaders(result.error));
      }
      return Granted(result.value);
    }

    method Store(authorization: Str, scope: Str, result: AuthResult, now: int)
      modifies this
      ensures cache == Stored(old(cache), Key(authorization, scope), result, now, ttl)
    {
      if ttl > 0 {
        cache := cache[Key(authorization, scope) := Entry(result, now + ttl)];
      }
    }
  }

  // ----- Soundness over every run -----

  /** A 200 answer for this key whose headers were accepted. */
  predicate Grants(e: Event, key: Str, valid: Str -> bool) {
    && e.Answered? && Key(e.authorization, e.scope) == key
    && Judge(e.answer, valid).Granted?
  }

  /** Where the latest of them is. */
  function LatestGrant(evs: seq<Event>, key: Str, valid: Str -> bool): (k: Option<nat>)
    ensures k.Some? ==> k.value < |evs| && Grants(evs[k.value], key, valid)
    ensures forall m :: (if k.Some? then k.value + 1 else 0) <= m < |evs| ==> !Grants(evs[m], key, valid)
  {
    if evs == [] then None
    else if Grants(evs[|evs| - 1], key, valid) then Some(|evs| - 1)
    else
      assert forall m :: 0 <= m < |evs| - 1 ==> evs[m] == evs[..|evs| - 1][m];
      LatestGrant(evs[..|evs| - 1], key, valid)
  }

  /** A clean-up after event `k` has dropped what expired then. */
  ghost predicate SweptAfter(evs: seq<Event>, k: nat, expires: int) {
    exists m :: k < m < |evs| && evs[m].CleanUp? && expires < evs[m].now
  }

  /** The cache is told by the events: an entry is there if and only if some answer granted its key and
      no clean-up since the latest one found that one expired; and it is the latest one's. */
  ghost predicate EntryLaw(evs: seq<Event>, ttl: int, valid: Str -> bool, key: Str) {
    var cache, k := Run(evs, ttl, valid), LatestGrant(evs, key, valid);
    && (key in cache <==> k.Some? && !SweptAfter(evs, k.value, evs[k.value].now + ttl))
    && (key in cache ==> cache[key] == Entry(Judge(evs[k.value].answer, valid).result, evs[k.value].now + ttl))
  }

  lemma {:induction false} EntryIsLatestGrant(evs: seq<Event>, ttl: int, valid: Str -> bool, key: Str)
    requires ttl > 0
    ensures EntryLaw(evs, ttl, valid, key)
    decreases |evs|
  {
    if evs != [] {
      EntryIsLatestGrant(evs[..|evs| - 1], ttl, valid, key);
      if Grants(evs[|evs| - 1], key, valid) {
        EntryAfterGrant(evs, ttl, valid, key);
      } else {
        EntryAfterOther(evs, ttl, valid, key);
      }
    }
  }

  lemma EntryAfterGrant(evs: seq<Event>, ttl: int, valid: Str -> bool, key: Str)
    requires ttl > 0 && evs != [] && Grants(evs[|evs| - 1], key, valid)
    ensures EntryLaw(evs, ttl, valid, key)
  {
    var n := |evs| - 1;
    StepOnKey(Run(evs[..n], ttl, valid), evs[n], ttl, valid, key);
    assert LatestGrant(evs, key, valid) == Some(n);
    assert !SweptAfter(evs, n, evs[n].now + ttl);
  }

  lemma EntryAfterOther(evs: seq<Event>, ttl: int, valid: Str -> bool, key: Str)
    requires ttl > 0 && evs != [] && !Grants(evs[|evs| - 1], key, valid)
    requires EntryLaw(evs[..|evs| - 1], ttl, valid, key)
    ensures EntryLaw(evs, ttl, valid, key)
  {
    var n := |evs| - 1;
    StepOnKey(Run(evs[..n], ttl, valid), evs[n], ttl, valid, key);
    var k := LatestGrant(evs[..n], key, valid);
    assert LatestGrant(evs, key, valid) == k;
    if k.Some? {
      assert evs[k.value] == evs[..n][k.value];
      SweptStep(evs, k.value, evs[k.value].now + ttl);
    }
  }

  /** What an event does to the entry of one key. */
  lemma StepOnKey(cache: map<Str, Entry>, e: Event, ttl: int, valid: Str -> bool, key: Str)
    requires ttl > 0
    ensures var cache' := Step(cache, e, ttl, valid);
      if Grants(e, key, valid) then
        key in cache' && cache'[key] == Entry(Judge(e.answer, valid).result, e.now + ttl)
      else
        && (key in cache' <==> key in cache && !(e.CleanUp? && cache[key].expires < e.now))
        && (key in cache' ==> cache'[key] == cache[key])
  {
  }

  lemma SweptStep(evs: seq<Event>, k: nat, expires: int)
    requires k < |evs| - 1
    ensures SweptAfter(evs, k, expires) <==>
      || SweptAfter(evs[..|evs| - 1], k, expires)
      || (evs[|evs| - 1].CleanUp? && expires < evs[|evs| - 1].now)
  {
    var before := evs[..|evs| - 1];
    if m :| k < m < |before| && before[m].CleanUp? && expires < before[m].now {
      assert evs[m] == before[m];
    }
    if m :| k < m < |evs| && evs[m].CleanUp? && expires < evs[m].now && m != |evs| - 1 {
      assert evs[m] == before[m];
    }
  }

  lemma {:induction false} NothingStored(evs: seq<Event>, ttl: int, valid: Str -> bool)
    requires ttl <= 0
    ensures Run(evs, ttl, valid) == map[]
    decreases |evs|
  {
    if evs != [] {
      NothingStored(evs[..|evs| - 1], ttl, valid);
    }
  }

  /** Every cache hit, after every run, is the result of the latest answer granted with status 200 for
      the same Authorization and scope, no longer than the TTL ago. */
  lemma HitsAreSound(evs: seq<Event>, ttl: int, valid: Str -> bool, authorization: Str, scope: Str, now: int)
    requires Hit(Run(evs, ttl, valid), Key(authorization, scope), now).Some?
    requires '|' !in scope && forall k :: 0 <= k < |evs| && evs[k].Answered? ==> '|' !in evs[k].scope
    ensures var r := Hit(Run(evs, ttl, valid), Key(authorization, scope), now).value;
      exists k: nat ::
        && k < |evs| && evs[k].Answered?
        && evs[k].authorization == authorization && evs[k].scope == scope
        && evs[k].answer.Answer? && evs[k].answer.status == 200
        && Build(evs[k].answer.org, evs[k].answer.policies, evs[k].answer.extra, valid) == Ok(r)
        && now <= evs[k].now + ttl
        && (forall m :: k < m < |evs| ==> !Grants(evs[m], Key(authorization, scope), valid))
  {
    var key := Key(authorization, scope);
    if ttl <= 0 {
      NothingStored(evs, ttl, valid);
    }
    EntryIsLatestGrant(evs, ttl, valid, key);
    var k := LatestGrant(evs, key, valid).value;
    KeysAreInjective(evs[k].authorization, evs[k].scope, authorization, scope);
  }

  /** And conversely: as long as no clean-up has run with a later clock, there is a hit exactly while the
      latest granted answer for the key is no older than the TTL. */
  lemma HitsAreComplete(evs: seq<Event>, ttl: int, valid: Str -> bool, key: Str, now: int)
    requires ttl > 0
    requires forall m :: 0 <= m < |evs| && evs[m].CleanUp? ==> evs[m].now <= now
    ensures Hit(Run(evs, ttl, valid), key, now) ==
      match LatestGrant(evs, key, valid)
      case None => None
      case Some(k) => if now <= evs[k].now + ttl then Some(Judge(evs[k].answer, valid).result) else None
  {
    EntryIsLatestGrant(evs, ttl, valid, key);
  }
}
