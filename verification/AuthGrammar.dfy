/** Which headers pkg/auth/authenticator.go accepts, what it makes of them and which fault it reports for
    the others, entry by entry. */
module AuthGrammar {
  import opened ByteStrings
  import opened PathEscaping
  import opened AuthCodec
  import opened AuthRoundTrip

  // ----- X-Scope-OrgID -----

  /** The trimmed entries, each a valid tenant and none twice. */
  ghost predicate Lists(entries: seq<Str>, ids: seq<Str>) {
    && |ids| == |entries|
    && (forall k :: 0 <= k < |entries| ==> ids[k] == Trim(entries[k]) && ValidTenantID(ids[k]))
    && (forall j, k :: 0 <= j < k < |entries| ==> ids[j] != ids[k])
  }

  lemma ListsStep(entries: seq<Str>, ids: seq<Str>)
    requires |ids| == |entries| > 0
    ensures var n := |entries| - 1;
      Lists(entries, ids) <==>
        Lists(entries[..n], ids[..n]) && ids[n] == Trim(entries[n]) && ValidTenantID(ids[n]) && ids[n] !in ids[..n]
  {
    var n := |entries| - 1;
    var es, ts := entries[..n], ids[..n];
    assert forall k :: 0 <= k < n ==> es[k] == entries[k] && ts[k] == ids[k];
    if Lists(entries, ids) {
      forall j, k | 0 <= j < k < n
        ensures ts[j] != ts[k]
      {
        assert ids[j] != ids[k];
      }
    }
  }

  lemma {:induction false} AddsExactly(entries: seq<Str>, ids: seq<Str>)
    ensures AddTenants(entries) == Ok(ids) <==> Lists(entries, ids)
    decreases |entries|
  {
    if entries != [] {
      var n := |entries| - 1;
      var prior := AddTenants(entries[..n]);
      if prior.Ok? {
        AddsExactly(entries[..n], prior.value);
        AddsOne(prior.value, entries[n], ids);
      }
      if |ids| == |entries| {
        AddsExactly(entries[..n], ids[..n]);
        ListsStep(entries, ids);
      }
    }
  }

  lemma AddsOne(before: seq<Str>, entry: Str, ids: seq<Str>)
    ensures AddTenant(before, entry) == Ok(ids) <==>
      && |ids| == |before| + 1 && ids[..|before|] == before
      && ids[|before|] == Trim(entry) && ValidTenantID(Trim(entry)) && Trim(entry) !in before
  {
    if |ids| == |before| + 1 {
      assert ids == ids[..|before|] + [ids[|before|]];
    }
  }

  /** The header is accepted as these tenants if and only if there is at most one field line and they
      are its trimmed entries, all valid and all different. */
  lemma TenantsAccepted(values: seq<Str>, ids: seq<Str>)
    ensures TenantsOf(values) == Ok(ids) <==> |values| <= 1 && Lists(SplitAll(values, '|'), ids)
  {
    AddsExactly(SplitAll(values, '|'), ids);
  }

  /** What is wrong with entry `k`. */
  ghost predicate TenantFaultAt(entries: seq<Str>, k: nat, fault: TenantFault)
    requires k < |entries|
  {
    var id := Trim(entries[k]);
    match fault
    case EmptyID => id == []
    case MalformedID => id != [] && !ValidTenantID(id)
    case DuplicateID => ValidTenantID(id) && Repeats(entries, k)
    case _ => false
  }

  /** The tenant of entry `k` was listed before. */
  ghost predicate Repeats(entries: seq<Str>, k: nat)
    requires k < |entries|
  {
    exists j :: 0 <= j < k && Trim(entries[j]) == Trim(entries[k])
  }

  ghost predicate FirstTenantFault(entries: seq<Str>, k: nat, fault: TenantFault) {
    && k < |entries| && TenantFaultAt(entries, k, fault)
    && exists ids :: Lists(entries[..k], ids)
  }

  ghost predicate TenantFaultFirst(entries: seq<Str>, fault: TenantFault) {
    exists k: nat :: FirstTenantFault(entries, k, fault)
  }

  /** Otherwise the fault is that of a second field line, or of the first entry that has one. */
  lemma TenantsRejected(values: seq<Str>, fault: TenantFault)
    ensures TenantsOf(values) == Err(fault) <==>
      if |values| > 1 then fault == RepeatedHeader else TenantFaultFirst(SplitAll(values, '|'), fault)
  {
    if |values| <= 1 {
      FaultsExactly(SplitAll(values, '|'), fault);
    }
  }

  lemma FaultsExactly(entries: seq<Str>, fault: TenantFault)
    ensures AddTenants(entries) == Err(fault) <==> TenantFaultFirst(entries, fault)
  {
    if AddTenants(entries) == Err(fault) {
      var k := FaultIsThere(entries, fault);
    }
    if k: nat :| FirstTenantFault(entries, k, fault) {
      FaultIsReported(entries, k, fault);
    }
  }

  lemma {:induction false} FaultIsThere(entries: seq<Str>, fault: TenantFault) returns (k: nat)
    requires AddTenants(entries) == Err(fault)
    ensures FirstTenantFault(entries, k, fault)
    decreases |entries|
  {
    var n := |entries| - 1;
    if AddTenants(entries[..n]).Err? {
      k := FaultIsThere(entries[..n], fault);
      EarlierFault(entries, n, k, fault);
    } else {
      k := n;
      LastFault(entries, AddTenants(entries[..n]).value, fault);
    }
  }

  lemma EarlierFault(entries: seq<Str>, n: nat, k: nat, fault: TenantFault)
    requires n <= |entries| && FirstTenantFault(entries[..n], k, fault)
    ensures FirstTenantFault(entries, k, fault)
  {
    assert entries[..n][..k] == entries[..k];
    if fault.DuplicateID? {
      var j :| 0 <= j < k && Trim(entries[..n][j]) == Trim(entries[..n][k]);
      assert Trim(entries[j]) == Trim(entries[k]);
    }
  }

  lemma LastFault(entries: seq<Str>, ids: seq<Str>, fault: TenantFault)
    requires entries != [] && AddTenants(entries[..|entries| - 1]) == Ok(ids)
    ensures AddTenants(entries) == Err(fault) <==> TenantFaultAt(entries, |entries| - 1, fault)
    ensures Lists(entries[..|entries| - 1], ids)
  {
    AddsExactly(entries[..|entries| - 1], ids);
    SeenBefore(entries, ids);
    OneFault(ids, entries[|entries| - 1], fault);
  }

  lemma OneFault(ids: seq<Str>, entry: Str, fault: TenantFault)
    ensures AddTenant(ids, entry) == Err(fault) <==>
      || (fault.EmptyID? && Trim(entry) == [])
      || (fault.MalformedID? && Trim(entry) != [] && !ValidTenantID(Trim(entry)))
      || (fault.DuplicateID? && ValidTenantID(Trim(entry)) && Trim(entry) in ids)
  {
  }

  lemma SeenBefore(entries: seq<Str>, ids: seq<Str>)
    requires entries != [] && Lists(entries[..|entries| - 1], ids)
    ensures Trim(entries[|entries| - 1]) in ids <==> Repeats(entries, |entries| - 1)
  {
    var n := |entries| - 1;
    var id := Trim(entries[n]);
    if id in ids {
      var j :| 0 <= j < |ids| && ids[j] == id;
      assert Trim(entries[..n][j]) == id;
      assert Trim(entries[j]) == id;
    }
    if j :| 0 <= j < n && Trim(entries[j]) == id {
      assert ids[j] == Trim(entries[..n][j]);
    }
  }

  lemma FaultIsReported(entries: seq<Str>, k: nat, fault: TenantFault)
    requires FirstTenantFault(entries, k, fault)
    ensures AddTenants(entries) == Err(fault)
  {
    var ids :| Lists(entries[..k], ids);
    AddsExactly(entries[..k], ids);
    FaultAtEnd(entries, k, fault);
    FaultUpTo(entries, k, ids, fault);
    FaultSpreads(entries, k + 1);
  }

  lemma FaultSpreads(entries: seq<Str>, n: nat)
    requires n <= |entries| && AddTenants(entries[..n]).Err?
    ensures AddTenants(entries) == AddTenants(entries[..n])
  {
    TenantFaultStays(entries[..n], entries[n..]);
    assert entries[..n] + entries[n..] == entries;
  }

  lemma FaultUpTo(entries: seq<Str>, k: nat, ids: seq<Str>, fault: TenantFault)
    requires k < |entries| && AddTenants(entries[..k]) == Ok(ids) && TenantFaultAt(entries[..k + 1], k, fault)
    ensures AddTenants(entries[..k + 1]) == Err(fault)
  {
    assert entries[..k + 1][..k] == entries[..k];
    LastFault(entries[..k + 1], ids, fault);
  }

  lemma FaultAtEnd(entries: seq<Str>, k: nat, fault: TenantFault)
    requires k < |entries| && TenantFaultAt(entries, k, fault)
    ensures TenantFaultAt(entries[..k + 1], k, fault)
  {
    var upTo := entries[..k + 1];
    if fault.DuplicateID? {
      var j :| 0 <= j < k && Trim(entries[j]) == Trim(entries[k]);
      assert Trim(upTo[j]) == Trim(upTo[k]);
    }
  }

  // ----- X-Prom-Label-Policy -----

  /** The entry reads "tenant:escaped selector". */
  ghost predicate Reads(entry: Str, tenant: Str, escaped: Str) {
    Trim(entry) == tenant + [':'] + escaped && tenant != [] && ':' !in tenant
  }

  ghost predicate Denotes(entry: Str, valid: Str -> bool, p: LabelPolicy) {
    exists escaped :: Reads(entry, p.tenantID, escaped) && Unescape(escaped) == Plain(p.selector) && valid(p.selector)
  }

  /** What is wrong with an entry. */
  ghost predicate PolicyFaultIn(entry: Str, valid: Str -> bool, fault: PolicyFault) {
    match fault
    case EmptyEntry => Trim(entry) == []
    case MissingColon => Trim(entry) != [] && ':' !in Trim(entry)
    case EmptyTenant => Trim(entry) != [] && Trim(entry)[0] == ':'
    case BadEscape => exists t, e :: Reads(entry, t, e) && Unescape(e) == Malformed
    case BadSelector => exists t, e :: Reads(entry, t, e) && Unescape(e).Plain? && !valid(Unescape(e).text)
  }

  lemma EntryParts(entry: Str, t: Str, e: Str)
    requires Reads(entry, t, e)
    ensures IndexOf(Trim(entry), ':') == |t| && Trim(entry)[..|t|] == t && Trim(entry)[|t| + 1..] == e
  {
    FirstIndex(t, ':', e);
  }

  lemma EntryReads(entry: Str) returns (t: Str, e: Str)
    requires IndexOf(Trim(entry), ':') > 0
    ensures Reads(entry, t, e)
  {
    var v, i := Trim(entry), IndexOf(Trim(entry), ':');
    t, e := v[..i], v[i + 1..];
  }

  lemma EntryAccepted(entry: Str, valid: Str -> bool, p: LabelPolicy)
    ensures ParseEntry(entry, valid) == Ok(p) <==> Denotes(entry, valid, p)
  {
    if ParseEntry(entry, valid) == Ok(p) {
      var t, e := EntryReads(entry);
      EntryParts(entry, t, e);
    }
    if escaped :| Reads(entry, p.tenantID, escaped) && Unescape(escaped) == Plain(p.selector) && valid(p.selector) {
      EntryParts(entry, p.tenantID, escaped);
    }
  }

  lemma EntryRejected(entry: Str, valid: Str -> bool, fault: PolicyFault)
    ensures ParseEntry(entry, valid) == Err(fault) <==> PolicyFaultIn(entry, valid, fault)
  {
    if IndexOf(Trim(entry), ':') > 0 {
      var t, e := EntryReads(entry);
      SplitEntryRejected(entry, valid, fault, t, e);
    } else {
      forall t, e
        ensures !Reads(entry, t, e)
      {
        if Reads(entry, t, e) {
          EntryParts(entry, t, e);
        }
      }
    }
  }

  lemma SplitEntryRejected(entry: Str, valid: Str -> bool, fault: PolicyFault, t: Str, e: Str)
    requires Reads(entry, t, e)
    ensures ParseEntry(entry, valid) == Err(fault) <==> PolicyFaultIn(entry, valid, fault)
  {
    EntryParts(entry, t, e);
    assert Trim(entry)[0] == t[0] && Trim(entry)[|t|] == ':';
    forall t', e' | Reads(entry, t', e')
      ensures t' == t && e' == e
    {
      EntryParts(entry, t', e');
    }
  }

  /** Each entry denotes the policy in its place. */
  ghost predicate DenoteAll(entries: seq<Str>, valid: Str -> bool, ps: seq<LabelPolicy>) {
    |ps| == |entries| && forall k :: 0 <= k < |entries| ==> Denotes(entries[k], valid, ps[k])
  }

  /** The header is accepted as these policies if and only if each entry, of all field lines in order,
      denotes the policy in its place. */
  lemma PoliciesAccepted(values: seq<Str>, valid: Str -> bool, ps: seq<LabelPolicy>)
    ensures PoliciesOf(values, valid) == Ok(ps) <==> DenoteAll(SplitAll(values, ','), valid, ps)
  {
    var entries := SplitAll(values, ',');
    ParsesExactly(entries, Entries(valid), ps);
    forall k | 0 <= k < |entries| && |ps| == |entries|
      ensures Entries(valid)(entries[k]) == Ok(ps[k]) <==> Denotes(entries[k], valid, ps[k])
    {
      EntryAccepted(entries[k], valid, ps[k]);
    }
  }

  lemma {:induction false} ParsesExactly(entries: seq<Str>, parse: EntryParser, ps: seq<LabelPolicy>)
    ensures ParseEntries(entries, parse) == Ok(ps) <==>
      |ps| == |entries| && forall k :: 0 <= k < |entries| ==> parse(entries[k]) == Ok(ps[k])
    decreases |entries|
  {
    if entries != [] {
      var n := |entries| - 1;
      if ParseEntries(entries[..n], parse).Ok? {
        ParsesExactly(entries[..n], parse, ParseEntries(entries[..n], parse).value);
      }
      if |ps| == |entries| && forall k :: 0 <= k < |entries| ==> parse(entries[k]) == Ok(ps[k]) {
        ParsesExactly(entries[..n], parse, ps[..n]);
        assert ps == ps[..n] + [ps[n]];
      }
    }
  }

  /** Otherwise the fault is that of the first entry that has one. */
  lemma PoliciesRejected(values: seq<Str>, valid: Str -> bool, fault: PolicyFault)
    ensures PoliciesOf(values, valid) == Err(fault) <==> PolicyFaultFirst(SplitAll(values, ','), valid, fault)
  {
    var entries := SplitAll(values, ',');
    if PoliciesOf(values, valid) == Err(fault) {
      var k := PolicyFaultIsThere(entries, valid, fault);
    }
    if k: nat :| FirstPolicyFault(entries, valid, k, fault) {
      PolicyFaultIsReported(entries, valid, k, fault);
    }
  }

  ghost predicate FirstPolicyFault(entries: seq<Str>, valid: Str -> bool, k: nat, fault: PolicyFault) {
    && k < |entries| && PolicyFaultIn(entries[k], valid, fault)
    && forall j :: 0 <= j < k ==> Denotable(entries[j], valid)
  }

  ghost predicate Denotable(entry: Str, valid: Str -> bool) {
    exists p :: Denotes(entry, valid, p)
  }

  ghost predicate PolicyFaultFirst(entries: seq<Str>, valid: Str -> bool, fault: PolicyFault) {
    exists k: nat :: FirstPolicyFault(entries, valid, k, fault)
  }

  lemma {:induction false} PolicyFaultIsThere(entries: seq<Str>, valid: Str -> bool, fault: PolicyFault) returns (k: nat)
    requires ParseEntries(entries, Entries(valid)) == Err(fault)
    ensures FirstPolicyFault(entries, valid, k, fault)
    decreases |entries|
  {
    var n := |entries| - 1;
    var parse := Entries(valid);
    if ParseEntries(entries[..n], parse).Err? {
      k := PolicyFaultIsThere(entries[..n], valid, fault);
    } else {
      k := n;
      EntryRejected(entries[n], valid, fault);
      var ps := ParseEntries(entries[..n], parse).value;
      ParsesExactly(entries[..n], parse, ps);
      forall j | 0 <= j < n
        ensures Denotable(entries[j], valid)
      {
        assert parse(entries[..n][j]) == Ok(ps[j]);
        EntryAccepted(entries[j], valid, ps[j]);
        assert Denotes(entries[j], valid, ps[j]);
      }
    }
  }

  lemma PolicyFaultIsReported(entries: seq<Str>, valid: Str -> bool, k: nat, fault: PolicyFault)
    requires FirstPolicyFault(entries, valid, k, fault)
    ensures ParseEntries(entries, Entries(valid)) == Err(fault)
  {
    forall j | 0 <= j < k
      ensures Entries(valid)(entries[j]).Ok?
    {
      DenotableParses(entries[j], valid);
    }
    AcceptedSoFar(entries, Entries(valid), k);
    EntryRejected(entries[k], valid, fault);
    NextIsFault(entries, Entries(valid), k, fault);
  }

  lemma NextIsFault(entries: seq<Str>, parse: EntryParser, k: nat, fault: PolicyFault)
    requires k < |entries| && ParseEntries(entries[..k], parse).Ok? && parse(entries[k]) == Err(fault)
    ensures ParseEntries(entries, parse) == Err(fault)
  {
    EntriesOneMore(entries[..k], entries[k], parse);
    assert entries[..k + 1] == entries[..k] + [entries[k]];
    PolicyFaultInPrefix(entries[..k + 1], entries, parse);
  }

  lemma {:induction false} AcceptedSoFar(entries: seq<Str>, parse: EntryParser, k: nat)
    requires k <= |entries| && forall j :: 0 <= j < k ==> parse(entries[j]).Ok?
    ensures ParseEntries(entries[..k], parse).Ok?
    decreases k
  {
    if k > 0 {
      AcceptedSoFar(entries, parse, k - 1);
      NextIsAccepted(entries, parse, k - 1);
    }
  }

  lemma NextIsAccepted(entries: seq<Str>, parse: EntryParser, k: nat)
    requires k < |entries| && ParseEntries(entries[..k], parse).Ok? && parse(entries[k]).Ok?
    ensures ParseEntries(entries[..k + 1], parse).Ok?
  {
    EntriesOneMore(entries[..k], entries[k], parse);
    assert entries[..k + 1] == entries[..k] + [entries[k]];
  }

  lemma DenotableParses(entry: Str, valid: Str -> bool)
    requires Denotable(entry, valid)
    ensures ParseEntry(entry, valid).Ok?
  {
    var p :| Denotes(entry, valid, p);
    EntryAccepted(entry, valid, p);
  }

  // ----- Both together -----

  ghost predicate AllListedIn(ps: seq<LabelPolicy>, ids: seq<Str>) {
    forall k :: 0 <= k < |ps| ==> ps[k].tenantID in ids
  }

  /** The headers are accepted as this result if and only if they list its tenants, at least one, denote its
      policies, and these name only those tenants. */
  lemma ResultAccepted(org: seq<Str>, pol: seq<Str>, extra: Header, valid: Str -> bool, r: AuthResult)
    ensures Build(org, pol, extra, valid) == Ok(r) <==>
      && |org| <= 1 && Lists(SplitAll(org, '|'), r.tenantIDs) && r.tenantIDs != []
      && DenoteAll(SplitAll(pol, ','), valid, r.labelPolicies)
      && AllListedIn(r.labelPolicies, r.tenantIDs)
      && r.extraHeaders == extra
  {
    TenantsAccepted(org, r.tenantIDs);
    PoliciesAccepted(pol, valid, r.labelPolicies);
  }

  /** The tenants are accepted. */
  ghost predicate ListsSome(org: seq<Str>, ids: seq<Str>) {
    |org| <= 1 && Lists(SplitAll(org, '|'), ids)
  }

  /** Otherwise a fault of the tenants comes first, then their absence, then a fault of the policies, then a
      policy for a tenant that is not listed. */
  lemma ResultRejected(org: seq<Str>, pol: seq<Str>, extra: Header, valid: Str -> bool, e: AuthError)
    ensures Build(org, pol, extra, valid) == Err(e) <==>
      || (e.InvalidTenant? && TenantsRefused(org, e.tenant))
      || (e == InvalidTenant(NoTenant) && org == [])
      || (e.InvalidPolicy? && org != [] && TenantsListed(org) && PolicyFaultFirst(SplitAll(pol, ','), valid, e.policy))
      || (e == InvalidTenant(UnlistedTenant) && org != [] && NamesUnlisted(org, pol, valid))
  {
    BuildFaults(org, pol, extra, valid, e);
    TenantsSplit(org);
    UnlistedExactly(org, pol, valid);
    if e.InvalidTenant? {
      TenantsRejected(org, e.tenant);
    } else {
      PoliciesRejected(pol, valid, e.policy);
    }
  }

  /** The same, by the two parsers. */
  lemma BuildFaults(org: seq<Str>, pol: seq<Str>, extra: Header, valid: Str -> bool, e: AuthError)
    ensures Build(org, pol, extra, valid) == Err(e) <==>
      || (e.InvalidTenant? && TenantsOf(org) == Err(e.tenant))
      || (e == InvalidTenant(NoTenant) && org == [])
      || (e.InvalidPolicy? && org != [] && TenantsOf(org).Ok? && PoliciesOf(pol, valid) == Err(e.policy))
      || (e == InvalidTenant(UnlistedTenant) && org != [] && TenantsOf(org).Ok? && PoliciesOf(pol, valid).Ok?
          && !AllListedIn(PoliciesOf(pol, valid).value, TenantsOf(org).value))
  {
    if TenantsOf(org).Ok? {
      TenantsAccepted(org, TenantsOf(org).value);
      NoTenantMeansNoLine(org, TenantsOf(org).value);
    }
  }

  ghost predicate TenantsListed(org: seq<Str>) {
    exists ids :: ListsSome(org, ids)
  }

  ghost predicate TenantsRefused(org: seq<Str>, fault: TenantFault) {
    if |org| > 1 then fault == RepeatedHeader else TenantFaultFirst(SplitAll(org, '|'), fault)
  }

  ghost predicate NamesUnlisted(org: seq<Str>, pol: seq<Str>, valid: Str -> bool) {
    exists ids, ps :: ListsSome(org, ids) && DenoteAll(SplitAll(pol, ','), valid, ps) && !AllListedIn(ps, ids)
  }

  lemma TenantsSplit(org: seq<Str>)
    ensures TenantsOf(org).Ok? <==> TenantsListed(org)
  {
    if TenantsOf(org).Ok? {
      TenantsAccepted(org, TenantsOf(org).value);
      assert ListsSome(org, TenantsOf(org).value);
    }
    if ids :| ListsSome(org, ids) {
      TenantsAccepted(org, ids);
    }
  }

  lemma NoTenantMeansNoLine(org: seq<Str>, ids: seq<Str>)
    requires ListsSome(org, ids)
    ensures ids == [] <==> org == []
  {
    if org != [] {
      assert org == [org[0]];
      SplitAllOne(org[0], '|');
    }
  }

  lemma UnlistedExactly(org: seq<Str>, pol: seq<Str>, valid: Str -> bool)
    ensures NamesUnlisted(org, pol, valid) <==>
      && TenantsOf(org).Ok? && PoliciesOf(pol, valid).Ok?
      && !AllListedIn(PoliciesOf(pol, valid).value, TenantsOf(org).value)
  {
    if TenantsOf(org).Ok? && PoliciesOf(pol, valid).Ok? {
      TenantsAccepted(org, TenantsOf(org).value);
      PoliciesAccepted(pol, valid, PoliciesOf(pol, valid).value);
      assert ListsSome(org, TenantsOf(org).value);
      assert DenoteAll(SplitAll(pol, ','), valid, PoliciesOf(pol, valid).value);
    }
    if ids, ps :| ListsSome(org, ids) && DenoteAll(SplitAll(pol, ','), valid, ps) && !AllListedIn(ps, ids) {
      TenantsAccepted(org, ids);
      PoliciesAccepted(pol, valid, ps);
    }
  }
}
