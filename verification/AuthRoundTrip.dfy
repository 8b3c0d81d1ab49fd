/** NewAuthResult and AuthResultHeaders of pkg/auth/authenticator.go undo each other. */
module AuthRoundTrip {
  import opened ByteStrings
  import opened PathEscaping
  import opened AuthCodec

  /** NewAuthResult, as a function of its inputs. */
  function Build(org: seq<Str>, pol: seq<Str>, extra: Header, valid: Str -> bool): Result<AuthResult, AuthError> {
    match TenantsOf(org)
    case Err(f) => Err(InvalidTenant(f))
    case Ok(ids) =>
      if ids == [] then
        Err(InvalidTenant(NoTenant))
      else
        match PoliciesOf(pol, valid)
        case Err(f) => Err(InvalidPolicy(f))
        case Ok(ps) =>
          if forall k :: 0 <= k < |ps| ==> ps[k].tenantID in ids
          then Ok(AuthResult(ids, ps, extra))
          else Err(InvalidTenant(UnlistedTenant))
  }

  method NewAuthResult(org: seq<Str>, pol: seq<Str>, extra: Header, valid: Str -> bool)
    returns (r: Result<AuthResult, AuthError>)
    ensures r == Build(org, pol, extra, valid)
  {
    var tenants := ParseTenantIDs(org);
    if tenants.Err? {
      return Err(InvalidTenant(tenants.error));
    }
    var ids := tenants.value;
    if |ids| == 0 {
      return Err(InvalidTenant(NoTenant));
    }
    var policies := ParseLabelPolicies(pol, valid);
    if policies.Err? {
      return Err(InvalidPolicy(policies.error));
    }
    var ps := policies.value;
    var listed := AllListed(ids, ps);
    if !listed {
      return Err(InvalidTenant(UnlistedTenant));
    }
    return Ok(AuthResult(ids, ps, extra));
  }

  /** The cross-tenant check: every policy names an authorised tenant. */
  method AllListed(ids: seq<Str>, ps: seq<LabelPolicy>) returns (listed: bool)
    ensures listed <==> forall k :: 0 <= k < |ps| ==> ps[k].tenantID in ids
  {
    var authorised: set<Str> := {};
    for i := 0 to |ids|
      invariant forall id :: id in authorised <==> id in ids[..i]
    {
      authorised := authorised + {ids[i]};
    }
    assert ids[..|ids|] == ids;
    for i := 0 to |ps|
      invariant forall k :: 0 <= k < i ==> ps[k].tenantID in ids
    {
      if ps[i].tenantID !in authorised {
        return false;
      }
    }
    return true;
  }

  // ----- The values NewAuthResult can produce -----

  ghost predicate Distinct(ids: seq<Str>) {
    forall i, j :: 0 <= i < j < |ids| ==> ids[i] != ids[j]
  }

  ghost predicate GoodTenants(ids: seq<Str>) {
    Distinct(ids) && forall k :: 0 <= k < |ids| ==> ValidTenantID(ids[k]) && Trimmed(ids[k])
  }

  /** At least one tenant, all valid and distinct; every policy names one of them and carries a
      valid selector. */
  ghost predicate WellFormed(r: AuthResult, valid: Str -> bool) {
    && r.tenantIDs != [] && GoodTenants(r.tenantIDs)
    && forall k :: 0 <= k < |r.labelPolicies| ==>
         r.labelPolicies[k].tenantID in r.tenantIDs && valid(r.labelPolicies[k].selector)
  }

  lemma {:induction false} AcceptedTenantsAreGood(entries: seq<Str>)
    requires AddTenants(entries).Ok?
    ensures GoodTenants(AddTenants(entries).value)
    decreases |entries|
  {
    if entries != [] {
      var n := |entries| - 1;
      AcceptedTenantsAreGood(entries[..n]);
      TrimTrims(entries[n]);
    }
  }

  lemma {:induction false} AcceptedSelectorsAreValid(entries: seq<Str>, valid: Str -> bool, k: nat)
    requires ParseEntries(entries, Entries(valid)).Ok?
    requires k < |ParseEntries(entries, Entries(valid)).value|
    ensures valid(ParseEntries(entries, Entries(valid)).value[k].selector)
    decreases |entries|
  {
    var n := |entries| - 1;
    var before := ParseEntries(entries[..n], Entries(valid)).value;
    if k < |before| {
      AcceptedSelectorsAreValid(entries[..n], valid, k);
    }
  }

  lemma BuiltIsWellFormed(org: seq<Str>, pol: seq<Str>, extra: Header, valid: Str -> bool)
    ensures Build(org, pol, extra, valid).Ok? ==> WellFormed(Build(org, pol, extra, valid).value, valid)
  {
    if Build(org, pol, extra, valid).Ok? {
      AcceptedTenantsAreGood(SplitAll(org, '|'));
      var ps := PoliciesOf(pol, valid).value;
      forall k | 0 <= k < |ps|
        ensures valid(ps[k].selector)
      {
        AcceptedSelectorsAreValid(SplitAll(pol, ','), valid, k);
      }
    }
  }

  // ----- The printer -----

  function PrintPolicy(p: LabelPolicy): Str {
    p.tenantID + [':'] + Escape(p.selector)
  }

  function PrintPolicies(ps: seq<LabelPolicy>): (values: seq<Str>)
    ensures |values| == |ps| && forall k :: 0 <= k < |ps| ==> values[k] == PrintPolicy(ps[k])
  {
    seq(|ps|, k requires 0 <= k < |ps| => PrintPolicy(ps[k]))
  }

  // ----- Parsing what was printed -----

  lemma {:induction false} GoodTenantsAreAccepted(ids: seq<Str>)
    requires GoodTenants(ids)
    ensures AddTenants(ids) == Ok(ids)
    decreases |ids|
  {
    if ids != [] {
      var n := |ids| - 1;
      GoodTenantsAreAccepted(ids[..n]);
      TrimTrims(ids[n]);
      assert ids == ids[..n] + [ids[n]];
    }
  }

  lemma TenantsRoundTrip(ids: seq<Str>)
    requires ids != [] && GoodTenants(ids)
    ensures TenantsOf([Join(ids, '|')]) == Ok(ids)
  {
    var value := Join(ids, '|');
    SplitOfJoin(ids, '|');
    forall k | 0 <= k < |ids|
      ensures '|' !in ids[k]
    {
      NoByte(ids[k], '|');
    }
    SplitAllClean(ids, '|');
    SplitAllOne(value, '|');
    GoodTenantsAreAccepted(ids);
  }

  lemma NoByte(id: Str, c: Octet)
    requires ValidTenantID(id) && c in "|,:/"
    ensures c !in id
  {
  }

  /** A printed entry has no white space at its ends: its tenant starts with none and what
      follows is plain ASCII. */
  lemma PrintedIsTrimmed(p: LabelPolicy)
    requires ValidTenantID(p.tenantID) && Trimmed(p.tenantID)
    ensures Trim(PrintPolicy(p)) == PrintPolicy(p)
  {
    var t, e, w := p.tenantID, Escape(p.selector), PrintPolicy(p);
    HeadStays(t, e);
    EscapeIsPlain(p.selector);
    assert w[|w| - 1] == if e == [] then ':' else e[|e| - 1];
    PlainTail(w);
    TrimTrims(w);
  }

  lemma HeadStays(t: Str, e: Str)
    requires t != [] && SpaceHead(t) == 0
    ensures SpaceHead(t + [':'] + e) == 0
  {
    var w := t + [':'] + e;
    assert w[|t|] == ':';
    assert forall k :: 0 <= k < |t| ==> w[k] == t[k];
  }

  lemma PlainTail(w: Str)
    requires w != []
    requires Unescaped(w[|w| - 1]) || w[|w| - 1] == '%'
    ensures SpaceTail(w) == 0
  {
  }

  lemma ParseTrimmedEntry(t: Str, e: Str, selector: Str, valid: Str -> bool)
    requires t != [] && ':' !in t
    requires Trim(t + [':'] + e) == t + [':'] + e
    requires Unescape(e) == Plain(selector) && valid(selector)
    ensures ParseEntry(t + [':'] + e, valid) == Ok(LabelPolicy(t, selector))
  {
    var w := t + [':'] + e;
    FirstIndex(t, ':', e);
    assert w[..|t|] == t;
    assert w[|t| + 1..] == e;
  }

  lemma PolicyRoundTrip(p: LabelPolicy, valid: Str -> bool)
    requires ValidTenantID(p.tenantID) && Trimmed(p.tenantID) && valid(p.selector)
    ensures ParseEntry(PrintPolicy(p), valid) == Ok(p)
  {
    PrintedIsTrimmed(p);
    NoByte(p.tenantID, ':');
    UnescapeEscape(p.selector);
    ParseTrimmedEntry(p.tenantID, Escape(p.selector), p.selector, valid);
  }

  lemma PrintedHasNoComma(p: LabelPolicy)
    requires ValidTenantID(p.tenantID)
    ensures ',' !in PrintPolicy(p)
  {
    NoByte(p.tenantID, ',');
    EscapeIsPlain(p.selector);
  }

  lemma {:induction false} EntriesParseBack(values: seq<Str>, ps: seq<LabelPolicy>, parse: EntryParser)
    requires |values| == |ps|
    requires forall k :: 0 <= k < |ps| ==> parse(values[k]) == Ok(ps[k])
    ensures ParseEntries(values, parse) == Ok(ps)
    decreases |ps|
  {
    if ps != [] {
      var n := |ps| - 1;
      EntriesParseBack(values[..n], ps[..n], parse);
      assert ps == ps[..n] + [ps[n]];
    }
  }

  lemma PoliciesRoundTrip(ps: seq<LabelPolicy>, valid: Str -> bool)
    requires forall k :: 0 <= k < |ps| ==>
      ValidTenantID(ps[k].tenantID) && Trimmed(ps[k].tenantID) && valid(ps[k].selector)
    ensures PoliciesOf(PrintPolicies(ps), valid) == Ok(ps)
  {
    var values := PrintPolicies(ps);
    forall k | 0 <= k < |values|
      ensures ',' !in values[k]
      ensures Entries(valid)(values[k]) == Ok(ps[k])
    {
      PrintedHasNoComma(ps[k]);
      PolicyRoundTrip(ps[k], valid);
    }
    SplitAllClean(values, ',');
    EntriesParseBack(values, ps, Entries(valid));
  }

  /** Re-parsing the printed headers of any result gives the result back: the same tenants and
      the same policies, in the same order. */
  lemma WellFormedRoundTrips(r: AuthResult, valid: Str -> bool)
    requires WellFormed(r, valid)
    ensures Build([Join(r.tenantIDs, '|')], PrintPolicies(r.labelPolicies), r.extraHeaders, valid) == Ok(r)
  {
    TenantsRoundTrip(r.tenantIDs);
    PoliciesRoundTrip(r.labelPolicies, valid);
  }

  lemma RoundTrip(org: seq<Str>, pol: seq<Str>, extra: Header, valid: Str -> bool)
    ensures Build(org, pol, extra, valid).Ok? ==>
      var r := Build(org, pol, extra, valid).value;
      Build([Join(r.tenantIDs, '|')], PrintPolicies(r.labelPolicies), extra, valid) == Ok(r)
  {
    if Build(org, pol, extra, valid).Ok? {
      BuiltIsWellFormed(org, pol, extra, valid);
      WellFormedRoundTrips(Build(org, pol, extra, valid).value, valid);
    }
  }

  /** The well-formed results are exactly the ones some headers produce. */
  lemma WellFormedIsReachable(r: AuthResult, valid: Str -> bool)
    ensures WellFormed(r, valid) <==> exists org, pol :: Build(org, pol, r.extraHeaders, valid) == Ok(r)
  {
    if WellFormed(r, valid) {
      WellFormedRoundTrips(r, valid);
    }
    if org, pol :| Build(org, pol, r.extraHeaders, valid) == Ok(r) {
      BuiltIsWellFormed(org, pol, r.extraHeaders, valid);
    }
  }
}
