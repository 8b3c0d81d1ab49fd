/** AuthResultHeaders of pkg/auth/authenticator.go and the header rewriting of authMiddleware in
    pkg/gateway/api.go, with net/http's canonical header keys. */
module AuthHeaders {
  import opened Common
  import opened ByteStrings
  import opened PathEscaping
  import opened AuthCodec
  import opened AuthRoundTrip

  // ----- Canonical keys -----

  predicate TokenByte(c: Octet) {
    Alphanumeric(c) || c in {'!', '#', '$', '%', '&', '\'', '*', '+', '-', '.', '^', '_', '`', '|', '~'}
  }

  predicate Token(k: Str) {
    forall i :: 0 <= i < |k| ==> TokenByte(k[i])
  }

  function CaseByte(c: Octet, upper: bool): (d: Octet)
    ensures d == '-' <==> c == '-'
    ensures TokenByte(c) ==> TokenByte(d)
  {
    if upper && 'a' <= c <= 'z' then
      var d := (c as int - 32) as char;
      assert 'A' <= d <= 'Z';
      d
    else if !upper && 'A' <= c <= 'Z' then
      var d := (c as int + 32) as char;
      assert 'a' <= d <= 'z';
      d
    else
      c
  }

  predicate StartsWord(k: Str, i: nat)
    requires i < |k|
  {
    i == 0 || k[i - 1] == '-'
  }

  /** Upper case at the start of each hyphen-separated word, lower case elsewhere. */
  function Recase(k: Str, upper: bool): (r: Str)
    ensures |r| == |k|
  {
    if k == [] then [] else [CaseByte(k[0], upper)] + Recase(k[1..], k[0] == '-')
  }

  lemma {:induction false} RecaseAt(k: Str, upper: bool, i: nat)
    requires i < |k|
    ensures Recase(k, upper)[i] == CaseByte(k[i], if i == 0 then upper else StartsWord(k, i))
  {
    if i > 0 {
      RecaseAt(k[1..], k[0] == '-', i - 1);
    }
  }

  lemma Recased(k: Str)
    ensures forall i :: 0 <= i < |k| ==> Recase(k, true)[i] == CaseByte(k[i], StartsWord(k, i))
  {
    forall i | 0 <= i < |k|
      ensures Recase(k, true)[i] == CaseByte(k[i], StartsWord(k, i))
    {
      RecaseAt(k, true, i);
    }
  }

  /** http.CanonicalHeaderKey; a key with a byte outside the token set stays as it is. */
  function Canonical(k: Str): (r: Str)
    ensures |r| == |k|
  {
    if Token(k) then Recase(k, true) else k
  }

  lemma CanonicalIdempotent(k: Str)
    ensures Canonical(Canonical(k)) == Canonical(k)
  {
    if Token(k) {
      var r := Recase(k, true);
      Recased(k);
      forall i | 0 <= i < |k|
        ensures Recase(r, true)[i] == r[i]
      {
        CaseTwice(k[i], StartsWord(k, i));
        RecaseAt(r, true, i);
        assert StartsWord(r, i) == StartsWord(k, i);
      }
      assert Recase(r, true) == r;
    }
  }

  lemma CaseTwice(c: Octet, upper: bool)
    ensures CaseByte(CaseByte(c, upper), upper) == CaseByte(c, upper)
  {
  }

  /** Spellings that differ only in letter case have the same canonical form. */
  lemma CanonicalIgnoresCase(k: Str, l: Str)
    requires Token(k) && Token(l) && |k| == |l|
    requires forall i :: 0 <= i < |k| ==> CaseByte(k[i], false) == CaseByte(l[i], false)
    ensures Canonical(k) == Canonical(l)
  {
    forall i | 0 <= i < |k|
      ensures CaseByte(k[i], true) == CaseByte(l[i], true)
      ensures (k[i] == '-') == (l[i] == '-')
    {
      SameLetter(k[i], l[i]);
    }
    var r, q := Recase(k, true), Recase(l, true);
    forall i | 0 <= i < |k|
      ensures r[i] == q[i]
    {
      RecaseAt(k, true, i);
      RecaseAt(l, true, i);
    }
    assert r == q;
  }

  lemma SameLetter(c: Octet, d: Octet)
    requires CaseByte(c, false) == CaseByte(d, false)
    ensures CaseByte(c, true) == CaseByte(d, true)
    ensures (c == '-') == (d == '-')
  {
    if 'A' <= c <= 'Z' {
      assert CaseByte(c, false) as int == c as int + 32;
    }
    if 'A' <= d <= 'Z' {
      assert CaseByte(d, false) as int == d as int + 32;
    }
    if 'a' <= c <= 'z' {
      assert CaseByte(c, true) as int == c as int - 32;
    }
    if 'a' <= d <= 'z' {
      assert CaseByte(d, true) as int == d as int - 32;
    }
  }

  // ----- Header names -----

  /** The keys the code uses, in canonical form except for the lower-case one of HTTP/2. */
  datatype Names = Names(authorization: Str, orgID: Str, orgIDLower: Str, labelPolicy: Str, contentType: Str)

  function NamesOf(auth: Str, org: Str, lower: Str, policy: Str, content: Str): Names {
    Names(Canonical(auth), Canonical(org), lower, Canonical(policy), Canonical(content))
  }

  ghost predicate GoodNames(n: Names) {
    && Canonical(n.authorization) == n.authorization
    && Canonical(n.orgID) == n.orgID == Canonical(n.orgIDLower) && n.orgIDLower != n.orgID
    && Canonical(n.labelPolicy) == n.labelPolicy
    && n.labelPolicy != n.orgID && n.labelPolicy != n.orgIDLower
    && n.authorization != n.orgID && n.authorization != n.labelPolicy
    && n.contentType != n.authorization && n.contentType != n.orgID && n.contentType != n.labelPolicy
  }

  /** The spellings in the code give names that are canonical and told apart. */
  lemma NamesAreGood(auth: Str, org: Str, lower: Str, policy: Str, content: Str)
    requires auth == "Authorization" && org == "X-Scope-OrgID" && lower == "x-scope-orgid"
    requires policy == "X-Prom-Label-Policy" && content == "Content-Type"
    ensures GoodNames(NamesOf(auth, org, lower, policy, content))
  {
    LowerOrgID(lower, org);
    StartsWithA(auth);
    GoodFromSpelling(auth, org, lower, policy, content);
  }

  lemma GoodFromSpelling(auth: Str, org: Str, lower: Str, policy: Str, content: Str)
    requires |auth| == |org| == |lower| == 13 && |policy| == 19 && |content| == 12
    requires Canonical(lower) == Canonical(org) != lower
    requires Canonical(auth)[0] != Canonical(org)[0]
    ensures GoodNames(NamesOf(auth, org, lower, policy, content))
  {
    CanonicalIdempotent(auth);
    CanonicalIdempotent(org);
    CanonicalIdempotent(policy);
  }

  lemma StartsWithA(auth: Str)
    requires auth == "Authorization"
    ensures Canonical(auth)[0] == 'A'
  {
    assert Token(auth);
    FirstByte(auth);
  }

  lemma FirstByte(k: Str)
    requires k != [] && Token(k)
    ensures Canonical(k)[0] == CaseByte(k[0], true)
  {
  }

  lemma LowerOrgID(k: Str, l: Str)
    requires k == "x-scope-orgid" && l == "X-Scope-OrgID"
    ensures Canonical(k) == Canonical(l) != k
    ensures Canonical(l)[0] == 'X'
  {
    assert Token(k) && Token(l);
    CanonicalIgnoresCase(k, l);
    FirstByte(l);
  }

  function Values(h: Header, key: Str): seq<Str> {
    if key in h then h[key] else []
  }

  // ----- AuthResultHeaders -----

  /** What the outbound headers are, whatever order the extra headers are visited in. */
  ghost predicate HeadersOf(n: Names, r: AuthResult, out: Header) {
    DerivedOf(n, r, out) && ExtrasOf(n, r.extraHeaders, out)
  }

  /** The tenant header, and the policy header when there are policies. */
  ghost predicate DerivedOf(n: Names, r: AuthResult, out: Header) {
    && Values(out, n.orgID) == [Join(r.tenantIDs, '|')]
    && Values(out, n.labelPolicy) == PrintPolicies(r.labelPolicies)
    && (n.labelPolicy in out ==> r.labelPolicies != [])
  }

  /** All other headers are extras under their canonical keys, and no extra is missing. */
  ghost predicate ExtrasOf(n: Names, extra: Header, out: Header) {
    && (forall k :: k in out && k != n.orgID && k != n.labelPolicy ==> FromExtra(extra, k, out[k]))
    && (forall e :: e in extra ==> Canonical(e) in out || Canonical(e) == n.labelPolicy)
  }

  ghost predicate FromExtra(extra: Header, k: Str, vs: seq<Str>) {
    exists e :: e in extra && Canonical(e) == k && extra[e] == vs
  }

  method AuthResultHeaders(n: Names, r: AuthResult) returns (out: Header)
    requires GoodNames(n)
    ensures HeadersOf(n, r, out)
  {
    var extras := CanonicalExtras(r.extraHeaders);
    out := extras[n.orgID := [Join(r.tenantIDs, '|')]];
    out := AddPolicies(out - {n.labelPolicy}, n.labelPolicy, r.labelPolicies);
    DerivedSet(n, r, out);
    ExtrasKept(n, r.extraHeaders, extras, out);
  }

  lemma DerivedSet(n: Names, r: AuthResult, out: Header)
    requires n.orgID in out && out[n.orgID] == [Join(r.tenantIDs, '|')]
    requires Values(out, n.labelPolicy) == PrintPolicies(r.labelPolicies)
    requires n.labelPolicy in out ==> r.labelPolicies != []
    ensures DerivedOf(n, r, out)
  {
  }

  method CanonicalExtras(extra: Header) returns (out: Header)
    ensures forall k :: k in out ==> FromExtra(extra, k, out[k])
    ensures forall e :: e in extra ==> Canonical(e) in out
  {
    out := map[];
    var todo := extra.Keys;
    while todo != {}
      invariant todo <= extra.Keys
      invariant forall k :: k in out ==> FromExtra(extra, k, out[k])
      invariant forall e :: e in extra && e !in todo ==> Canonical(e) in out
      decreases todo
    {
      var e :| e in todo;
      out := out[Canonical(e) := extra[e]];
      todo := todo - {e};
    }
  }

  /** Header.Add, once per policy. */
  method AddPolicies(base: Header, key: Str, ps: seq<LabelPolicy>) returns (out: Header)
    requires key !in base
    ensures Values(out, key) == PrintPolicies(ps)
    ensures key in out ==> ps != []
    ensures forall k :: k != key ==> (k in out <==> k in base) && (k in base ==> out[k] == base[k])
  {
    out := base;
    for i := 0 to |ps|
      invariant Values(out, key) == PrintPolicies(ps[..i])
      invariant key in out ==> i > 0
      invariant forall k :: k != key ==> (k in out <==> k in base) && (k in base ==> out[k] == base[k])
    {
      assert PrintPolicies(ps[..i + 1]) == PrintPolicies(ps[..i]) + [PrintPolicy(ps[i])];
      out := out[key := Values(out, key) + [PrintPolicy(ps[i])]];
    }
    assert ps[..|ps|] == ps;
  }

  /** The round trip through the header map itself, for every result NewAuthResult accepted. */
  lemma HeadersParseBack(n: Names, org: seq<Str>, pol: seq<Str>, extra: Header, valid: Str -> bool, out: Header)
    requires Build(org, pol, extra, valid).Ok?
    requires HeadersOf(n, Build(org, pol, extra, valid).value, out)
    ensures Build(Values(out, n.orgID), Values(out, n.labelPolicy), extra, valid) == Build(org, pol, extra, valid)
  {
    RoundTrip(org, pol, extra, valid);
  }

  // ----- authMiddleware -----

  predicate IsGRPC(n: Names, client: Header) {
    var ct := Values(client, n.contentType);
    |ct| > 0 && "application/grpc" <= ct[0]
  }

  /** The headers handed to the next handler, given the client's and the injected ones. */
  function Forwarded(n: Names, client: Header, injected: Header): Header {
    var h := Stripped(n, client) + injected;
    if IsGRPC(n, client) && n.orgID in h then (h - {n.orgID})[n.orgIDLower := h[n.orgID]] else h
  }

  method Rewrite(n: Names, client: Header, injected: Header) returns (h: Header)
    ensures h == Forwarded(n, client, injected)
  {
    var isGRPC := IsGRPC(n, client);
    h := client - {n.authorization};
    h := h - {n.orgID};
    h := h - {n.labelPolicy};
    assert h == Stripped(n, client);
    h := SetAll(h, injected);
    if isGRPC && n.orgID in h {
      var v := h[n.orgID];
      h := h - {n.orgID};
      h := h[n.orgIDLower := v];
    }
  }

  method SetAll(base: Header, injected: Header) returns (h: Header)
    ensures h == base + injected
  {
    h := base;
    var todo := injected.Keys;
    while todo != {}
      invariant todo <= injected.Keys
      invariant h.Keys == base.Keys + (injected.Keys - todo)
      invariant forall k :: k in h ==> h[k] == if k in injected && k !in todo then injected[k] else base[k]
      decreases todo
    {
      var k :| k in todo;
      h := h[k := injected[k]];
      todo := todo - {k};
    }
  }

  // ----- What the client can influence -----

  function Stripped(n: Names, client: Header): Header {
    client - {n.authorization, n.orgID, n.labelPolicy}
  }

  lemma StrippedKey(n: Names, client: Header, k: Str)
    requires k != n.authorization && k != n.orgID && k != n.labelPolicy
    ensures k in Stripped(n, client) <==> k in client
    ensures k in client ==> Stripped(n, client)[k] == client[k]
  {
  }

  /** The header map has key `k` with these values, or not at all. */
  function At(h: Header, k: Str): Option<seq<Str>> {
    if k in h then Some(h[k]) else None
  }

  /** The request's content type says gRPC. */
  predicate SaysGRPC(n: Names, client: Header) {
    match At(client, n.contentType)
    case None => false
    case Some(values) => |values| > 0 && |values[0]| >= 16 && values[0][..16] == "application/grpc"
  }

  lemma GRPCBySays(n: Names, client: Header)
    ensures IsGRPC(n, client) <==> SaysGRPC(n, client)
  {
  }

  /** What the next handler gets under each key.  The client's Authorization, tenant and policy headers are
      gone; the injected headers are there; for gRPC the injected tenants are under the lower-case key
      alone; everything else is what the client sent. */
  lemma ForwardedAt(n: Names, client: Header, injected: Header, k: Str)
    requires GoodNames(n)
    ensures var grpc := SaysGRPC(n, client) && n.orgID in injected;
      At(Forwarded(n, client, injected), k) ==
      if grpc && k == n.orgID then None
      else if grpc && k == n.orgIDLower then Some(injected[n.orgID])
      else if k in injected then Some(injected[k])
      else if k == n.authorization || k == n.orgID || k == n.labelPolicy then None
      else At(client, k)
  {
    GRPCBySays(n, client);
    assert n.orgID !in Stripped(n, client);
  }

  /** The two requests agree on every header but the three that are stripped. */
  ghost predicate AgreeOnTheRest(n: Names, a: Header, b: Header) {
    forall k :: k != n.authorization && k != n.orgID && k != n.labelPolicy ==> At(a, k) == At(b, k)
  }

  /** They are forwarded alike. */
  lemma AgreeingForwarded(n: Names, a: Header, b: Header, injected: Header)
    requires GoodNames(n) && AgreeOnTheRest(n, a, b)
    ensures Forwarded(n, a, injected) == Forwarded(n, b, injected)
  {
    var f, g := Forwarded(n, a, injected), Forwarded(n, b, injected);
    assert At(a, n.contentType) == At(b, n.contentType);
    forall k
      ensures At(f, k) == At(g, k)
    {
      ForwardedAt(n, a, injected, k);
      ForwardedAt(n, b, injected, k);
    }
    SameEverywhere(f, g);
  }

  lemma SameEverywhere(f: Header, g: Header)
    requires forall k :: At(f, k) == At(g, k)
    ensures f == g
  {
    forall k
      ensures k in f <==> k in g
      ensures k in f && k in g ==> f[k] == g[k]
    {
      assert At(f, k) == At(g, k);
    }
  }

  /** One authentication result makes for one set of forwarded headers, whatever the client sent in
      the stripped headers and in whatever order the extra headers were visited. */
  ghost predicate ResultDecides(n: Names, r: AuthResult) {
    forall a, b, i, j ::
      HeadersOf(n, r, i) && HeadersOf(n, r, j) && AgreeOnTheRest(n, a, b) ==>
        Forwarded(n, a, i) == Forwarded(n, b, j)
  }

  /** Extra headers that share a canonical key, other than the derived ones, carry equal values. */
  ghost predicate ExtrasAgree(n: Names, r: AuthResult) {
    forall d, e :: SameKey(n, r.extraHeaders, d, e) ==> r.extraHeaders[d] == r.extraHeaders[e]
  }

  predicate SameKey(n: Names, x: Header, d: Str, e: Str) {
    d in x && e in x && Canonical(d) == Canonical(e) && Canonical(d) != n.orgID && Canonical(d) != n.labelPolicy
  }

  /** Forwarded headers are decided by the result alone if and only if its extras agree. */
  lemma ClientCannotInfluence(n: Names, r: AuthResult)
    requires GoodNames(n)
    ensures ResultDecides(n, r) <==> ExtrasAgree(n, r)
  {
    if ExtrasAgree(n, r) {
      forall a, b, i, j | HeadersOf(n, r, i) && HeadersOf(n, r, j) && AgreeOnTheRest(n, a, b)
        ensures Forwarded(n, a, i) == Forwarded(n, b, j)
      {
        AgreeingExtrasDecide(n, r, i, j);
        AgreeingForwarded(n, a, b, i);
      }
    } else {
      var d, e :| SameKey(n, r.extraHeaders, d, e) && r.extraHeaders[d] != r.extraHeaders[e];
      var i, j := EitherIsForwarded(n, r, d, e);
    }
  }

  /** Disagreeing extras: the request can be forwarded with the one or with the other. */
  lemma EitherIsForwarded(n: Names, r: AuthResult, d: Str, e: Str) returns (i: Header, j: Header)
    requires GoodNames(n) && SameKey(n, r.extraHeaders, d, e) && r.extraHeaders[d] != r.extraHeaders[e]
    ensures HeadersOf(n, r, i) && HeadersOf(n, r, j) && Forwarded(n, map[], i) != Forwarded(n, map[], j)
  {
    i, j := Preferring(n, r, d), Preferring(n, r, e);
    assert i[Canonical(d)] != j[Canonical(d)];
    NothingSent(n, i);
    NothingSent(n, j);
  }

  lemma NothingSent(n: Names, injected: Header)
    ensures Forwarded(n, map[], injected) == injected
  {
    assert Stripped(n, map[]) == map[];
    assert map[] + injected == injected;
  }

  lemma AgreeingExtrasDecide(n: Names, r: AuthResult, i: Header, j: Header)
    requires ExtrasAgree(n, r) && HeadersOf(n, r, i) && HeadersOf(n, r, j)
    ensures i == j
  {
    forall k
      ensures k in i ==> k in j && i[k] == j[k]
      ensures k in j ==> k in i && i[k] == j[k]
    {
      DerivedDecided(n, r, i, j);
      if k in i && k != n.orgID && k != n.labelPolicy {
        ExtraDecided(n, r, i, j, k);
      }
      if k in j && k != n.orgID && k != n.labelPolicy {
        ExtraDecided(n, r, j, i, k);
      }
    }
  }

  lemma DerivedDecided(n: Names, r: AuthResult, i: Header, j: Header)
    requires DerivedOf(n, r, i) && DerivedOf(n, r, j)
    ensures n.orgID in i && n.orgID in j && i[n.orgID] == j[n.orgID]
    ensures n.labelPolicy in i <==> n.labelPolicy in j
    ensures n.labelPolicy in i ==> i[n.labelPolicy] == j[n.labelPolicy]
  {
    assert |PrintPolicies(r.labelPolicies)| == |r.labelPolicies|;
  }

  lemma ExtraDecided(n: Names, r: AuthResult, i: Header, j: Header, k: Str)
    requires ExtrasAgree(n, r) && ExtrasOf(n, r.extraHeaders, i) && ExtrasOf(n, r.extraHeaders, j)
    requires k in i && k != n.orgID && k != n.labelPolicy
    ensures k in j && i[k] == j[k]
  {
    var d := ExtraFor(n, r.extraHeaders, i, k);
    assert k in j;
    var e := ExtraFor(n, r.extraHeaders, j, k);
    assert SameKey(n, r.extraHeaders, d, e);
  }

  lemma ExtraFor(n: Names, x: Header, out: Header, k: Str) returns (e: Str)
    requires ExtrasOf(n, x, out) && k in out && k != n.orgID && k != n.labelPolicy
    ensures e in x && Canonical(e) == k && x[e] == out[k]
  {
    assert FromExtra(x, k, out[k]);
    e :| e in x && Canonical(e) == k && x[e] == out[k];
  }

  /** Headers for a result in which the extra `d` is the one visited last under its canonical key. */
  ghost function Preferring(n: Names, r: AuthResult, d: Str): (out: Header)
    requires GoodNames(n) && d in r.extraHeaders && Canonical(d) != n.orgID && Canonical(d) != n.labelPolicy
    ensures HeadersOf(n, r, out)
    ensures Canonical(d) in out && out[Canonical(d)] == r.extraHeaders[d]
  {
    var x := r.extraHeaders;
    var keys := set e | e in x :: Canonical(e);
    var extras := map k | k in keys :: x[Visited(x, d, k)];
    var tenants := extras[n.orgID := [Join(r.tenantIDs, '|')]] - {n.labelPolicy};
    var out := if r.labelPolicies == [] then tenants else tenants[n.labelPolicy := PrintPolicies(r.labelPolicies)];
    PreferredHeaders(n, r, d, extras, out);
    out
  }

  ghost function Visited(x: Header, d: Str, k: Str): (e: Str)
    requires d in x && exists e :: e in x && Canonical(e) == k
    ensures e in x && Canonical(e) == k && (Canonical(d) == k ==> e == d)
  {
    if Canonical(d) == k then d else var e :| e in x && Canonical(e) == k; e
  }

  lemma PreferredHeaders(n: Names, r: AuthResult, d: Str, extras: Header, out: Header)
    requires GoodNames(n) && d in r.extraHeaders && Canonical(d) != n.orgID && Canonical(d) != n.labelPolicy
    requires forall e :: e in r.extraHeaders ==> Canonical(e) in extras
    requires forall k :: k in extras ==> FromExtra(r.extraHeaders, k, extras[k])
    requires extras[Canonical(d)] == r.extraHeaders[d]
    requires var tenants := extras[n.orgID := [Join(r.tenantIDs, '|')]] - {n.labelPolicy};
      out == if r.labelPolicies == [] then tenants else tenants[n.labelPolicy := PrintPolicies(r.labelPolicies)]
    ensures HeadersOf(n, r, out)
    ensures Canonical(d) in out && out[Canonical(d)] == r.extraHeaders[d]
  {
    OnlyDerivedDiffer(n, r, extras, out);
    ExtrasKept(n, r.extraHeaders, extras, out);
  }

  /** Setting the derived headers changes no other key. */
  lemma OnlyDerivedDiffer(n: Names, r: AuthResult, extras: Header, out: Header)
    requires GoodNames(n)
    requires var tenants := extras[n.orgID := [Join(r.tenantIDs, '|')]] - {n.labelPolicy};
      out == if r.labelPolicies == [] then tenants else tenants[n.labelPolicy := PrintPolicies(r.labelPolicies)]
    ensures DerivedOf(n, r, out) && n.orgID in out
    ensures forall k :: k != n.orgID && k != n.labelPolicy ==> (k in out <==> k in extras) && (k in out ==> out[k] == extras[k])
  {
  }

  lemma ExtrasKept(n: Names, x: Header, extras: Header, out: Header)
    requires forall e :: e in x ==> Canonical(e) in extras
    requires forall k :: k in extras ==> FromExtra(x, k, extras[k])
    requires n.orgID in out
    requires forall k :: k != n.orgID && k != n.labelPolicy ==> (k in out <==> k in extras) && (k in out ==> out[k] == extras[k])
    ensures ExtrasOf(n, x, out)
  {
  }

  /** Two spellings of one extra header: the result does not decide what is forwarded. */
  lemma CollidingExtras(n: Names, d: Str, e: Str, r: AuthResult) returns (i: Header, j: Header)
    requires GoodNames(n) && |n.orgID| == 13 && |n.labelPolicy| == 19
    requires d == "x-a" && e == "X-A" && r.extraHeaders == map[d := [d], e := [e]]
    ensures HeadersOf(n, r, i) && HeadersOf(n, r, j) && Forwarded(n, map[], i) != Forwarded(n, map[], j)
  {
    SpelledTwice(d, e);
    assert [d][0] != [e][0];
    i, j := EitherIsForwarded(n, r, d, e);
  }

  lemma SpelledTwice(d: Str, e: Str)
    requires d == "x-a" && e == "X-A"
    ensures Canonical(d) == Canonical(e) && d != e && |Canonical(d)| == 3
  {
    assert d[0] != e[0];
    assert Token(d) && Token(e);
    CanonicalIgnoresCase(d, e);
  }

  // ----- Where tenants and policies come from -----

  /** The key that carries the tenants to the backend: lower case for gRPC (section 8.2 of RFC 9113). */
  function TenantKey(n: Names, client: Header): Str {
    if IsGRPC(n, client) then n.orgIDLower else n.orgID
  }

  /** A spelling of the tenant header that Del(X-Scope-OrgID) does not reach and nothing overwrites. */
  predicate StrayTenantKey(n: Names, client: Header, k: Str) {
    k in client && Canonical(k) == n.orgID && k != n.orgID && k != TenantKey(n, client)
  }

  /** The tenants sent on are those of the authentication result; the result's header is the only
      spelling of the tenant header if and only if the client sent no stray spelling of it, which
      net/http's canonical keys rule out. */
  lemma TenantsComeFromResult(n: Names, client: Header, r: AuthResult, injected: Header)
    requires GoodNames(n) && HeadersOf(n, r, injected)
    ensures var h := Forwarded(n, client, injected);
      && Values(h, TenantKey(n, client)) == [Join(r.tenantIDs, '|')]
      && ((forall k :: k in h && Canonical(k) == n.orgID ==> k == TenantKey(n, client)) <==>
            !exists k :: StrayTenantKey(n, client, k))
  {
    var h := Forwarded(n, client, injected);
    forall k | k in h && Canonical(k) == n.orgID && k != TenantKey(n, client)
      ensures StrayTenantKey(n, client, k)
    {
      OtherSpellingIsStray(n, client, r, injected, k);
    }
    if k :| StrayTenantKey(n, client, k) {
      StrayKeySurvives(n, client, r, injected, k);
    }
    assert n.orgID in injected;
  }

  lemma OtherSpellingIsStray(n: Names, client: Header, r: AuthResult, injected: Header, k: Str)
    requires GoodNames(n) && HeadersOf(n, r, injected)
    requires k in Forwarded(n, client, injected) && Canonical(k) == n.orgID && k != TenantKey(n, client)
    ensures StrayTenantKey(n, client, k)
  {
    if k in injected {
      InjectedKeyIsCanonical(n, r, injected, k);
    }
  }

  lemma StrayKeySurvives(n: Names, client: Header, r: AuthResult, injected: Header, k: Str)
    requires GoodNames(n) && HeadersOf(n, r, injected) && StrayTenantKey(n, client, k)
    ensures k in Forwarded(n, client, injected)
  {
    StrippedKey(n, client, k);
    StrippedKeyStays(n, client, injected, k);
  }

  /** A key that is neither stripped nor rewritten reaches the next handler. */
  lemma StrippedKeyStays(n: Names, client: Header, injected: Header, k: Str)
    requires k in Stripped(n, client) && k != n.orgID
    ensures k in Forwarded(n, client, injected)
  {
  }

  lemma InjectedKeyIsCanonical(n: Names, r: AuthResult, injected: Header, k: Str)
    requires GoodNames(n) && HeadersOf(n, r, injected) && k in injected
    ensures Canonical(k) == k
  {
    if k != n.orgID && k != n.labelPolicy {
      assert FromExtra(r.extraHeaders, k, injected[k]);
      var e :| e in r.extraHeaders && Canonical(e) == k && r.extraHeaders[e] == injected[k];
      CanonicalIdempotent(e);
    }
  }

  /** A spelling of the policy header that Del(X-Prom-Label-Policy) does not reach. */
  predicate StrayPolicyKey(n: Names, client: Header, k: Str) {
    k in client && Canonical(k) == n.labelPolicy && k != n.labelPolicy
  }

  /** Label policies sent on are those of the result, and none when it has none; no other spelling
      of the policy header remains if and only if the client sent no stray spelling of it, whatever
      the extra headers are. */
  lemma PoliciesComeFromResult(n: Names, client: Header, r: AuthResult, injected: Header)
    requires GoodNames(n) && HeadersOf(n, r, injected)
    ensures var h := Forwarded(n, client, injected);
      && Values(h, n.labelPolicy) == PrintPolicies(r.labelPolicies)
      && (n.labelPolicy in h <==> r.labelPolicies != [])
      && ((forall k :: k in h && Canonical(k) == n.labelPolicy ==> k == n.labelPolicy) <==>
            !exists k :: StrayPolicyKey(n, client, k))
  {
    var h := Forwarded(n, client, injected);
    PolicyValues(n, client, r, injected);
    forall k | k in h && Canonical(k) == n.labelPolicy && k != n.labelPolicy
      ensures StrayPolicyKey(n, client, k)
    {
      if k in injected {
        InjectedKeyIsCanonical(n, r, injected, k);
      }
    }
    if k :| StrayPolicyKey(n, client, k) {
      StrippedKey(n, client, k);
      StrippedKeyStays(n, client, injected, k);
    }
  }

  lemma PolicyValues(n: Names, client: Header, r: AuthResult, injected: Header)
    requires GoodNames(n) && HeadersOf(n, r, injected)
    ensures Values(Forwarded(n, client, injected), n.labelPolicy) == PrintPolicies(r.labelPolicies)
    ensures n.labelPolicy in Forwarded(n, client, injected) <==> r.labelPolicies != []
  {
    assert n.labelPolicy !in Stripped(n, client);
    assert |PrintPolicies(r.labelPolicies)| == |r.labelPolicies|;
  }
}
