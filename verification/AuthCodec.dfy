/** The parser and printer of authentication results in pkg/auth/authenticator.go. */
module AuthCodec {
  import opened ByteStrings
  import opened PathEscaping

  datatype LabelPolicy = LabelPolicy(tenantID: Str, selector: Str)

  datatype PolicyFault = EmptyEntry | MissingColon | EmptyTenant | BadEscape | BadSelector

  datatype TenantFault = RepeatedHeader | EmptyID | MalformedID | DuplicateID | NoTenant | UnlistedTenant

  /** The two error kinds callers can tell apart, with the branch that raised them. */
  datatype AuthError = InvalidTenant(tenant: TenantFault) | InvalidPolicy(policy: PolicyFault)

  datatype Result<+T, +E> = Ok(value: T) | Err(error: E)

  type Header = map<Str, seq<Str>>

  datatype AuthResult = AuthResult(tenantIDs: seq<Str>, labelPolicies: seq<LabelPolicy>, extraHeaders: Header)

  // ----- Tenants -----

  const MAX_TENANT_ID_LENGTH := 150

  predicate ValidTenantID(id: Str) {
    && 0 < |id| <= MAX_TENANT_ID_LENGTH
    && id != "." && id != ".."
    && forall k :: 0 <= k < |id| ==> id[k] !in "|,:/" && !AsciiSpace(id[k])
  }

  /** One more entry of X-Scope-OrgID, after the entries already accepted. */
  function AddTenant(ids: seq<Str>, entry: Str): Result<seq<Str>, TenantFault> {
    var id := Trim(entry);
    if id == [] then Err(EmptyID)
    else if !ValidTenantID(id) then Err(MalformedID)
    else if id in ids then Err(DuplicateID)
    else Ok(ids + [id])
  }

  function AddTenants(entries: seq<Str>): Result<seq<Str>, TenantFault> {
    if entries == [] then Ok([])
    else
      match AddTenants(entries[..|entries| - 1])
      case Err(e) => Err(e)
      case Ok(ids) => AddTenant(ids, entries[|entries| - 1])
  }

  function TenantsOf(values: seq<Str>): Result<seq<Str>, TenantFault> {
    if |values| > 1 then Err(RepeatedHeader) else AddTenants(SplitAll(values, '|'))
  }

  method ParseTenantIDs(values: seq<Str>) returns (r: Result<seq<Str>, TenantFault>)
    ensures r == TenantsOf(values)
  {
    if |values| > 1 {
      return Err(RepeatedHeader);
    }
    var ids: seq<Str> := [];
    for i := 0 to |values|
      invariant AddTenants(SplitAll(values[..i], '|')) == Ok(ids)
    {
      var entries := Split(values[i], '|');
      ghost var before := SplitAll(values[..i], '|');
      assert values[..i + 1][..i] == values[..i];
      assert before + entries[..0] == before;
      for j := 0 to |entries|
        invariant AddTenants(before + entries[..j]) == Ok(ids)
      {
        assert before + entries[..j + 1] == (before + entries[..j]) + [entries[j]];
        TenantsOneMore(before + entries[..j], entries[j]);
        var id := Trim(entries[j]);
        if id == [] || !ValidTenantID(id) || id in ids {
          r := Err(if id == [] then EmptyID else if !ValidTenantID(id) then MalformedID else DuplicateID);
          FirstFaultStays(before, entries, j + 1, values, i, r.error);
          return;
        }
        ids := ids + [id];
      }
      assert before + entries[..|entries|] == before + entries;
    }
    assert values[..|values|] == values;
    return Ok(ids);
  }

  lemma TenantsOneMore(entries: seq<Str>, entry: Str)
    ensures AddTenants(entries + [entry]) ==
      match AddTenants(entries) { case Err(e) => Err(e) case Ok(ids) => AddTenant(ids, entry) }
  {
    assert (entries + [entry])[..|entries|] == entries;
  }

  lemma {:induction false} TenantFaultStays(entries: seq<Str>, more: seq<Str>)
    requires AddTenants(entries).Err?
    ensures AddTenants(entries + more) == AddTenants(entries)
    decreases |more|
  {
    if more == [] {
      assert entries + more == entries;
    } else {
      var n := |more| - 1;
      TenantFaultStays(entries, more[..n]);
      assert entries + more == (entries + more[..n]) + [more[n]];
      TenantsOneMore(entries + more[..n], more[n]);
    }
  }

  lemma FirstFaultStays(before: seq<Str>, entries: seq<Str>, j: nat, values: seq<Str>, i: nat, e: TenantFault)
    requires i < |values| == 1 && j <= |entries|
    requires before == SplitAll(values[..i], '|') && entries == Split(values[i], '|')
    requires AddTenants(before + entries[..j]) == Err(e)
    ensures TenantsOf(values) == Err(e)
  {
    TenantFaultStays(before + entries[..j], entries[j..]);
    assert before + entries[..j] + entries[j..] == before + entries;
    assert values[..|values| - 1] == values[..i];
  }

  // ----- Label policies -----

  /** One entry of X-Prom-Label-Policy; `valid` is PromQL's judgement of a selector. */
  function ParseEntry(entry: Str, valid: Str -> bool): Result<LabelPolicy, PolicyFault> {
    var v := Trim(entry);
    var idx := IndexOf(v, ':');
    if v == [] then Err(EmptyEntry)
    else if idx < 0 then Err(MissingColon)
    else if v[..idx] == [] then Err(EmptyTenant)
    else
      match Unescape(v[idx + 1..])
      case Malformed => Err(BadEscape)
      case Plain(selector) => if valid(selector) then Ok(LabelPolicy(v[..idx], selector)) else Err(BadSelector)
  }

  type EntryParser = Str -> Result<LabelPolicy, PolicyFault>

  function Entries(valid: Str -> bool): EntryParser {
    entry => ParseEntry(entry, valid)
  }

  /** All entries in order, or the first fault. */
  function ParseEntries(entries: seq<Str>, parse: EntryParser): Result<seq<LabelPolicy>, PolicyFault> {
    if entries == [] then Ok([])
    else
      match ParseEntries(entries[..|entries| - 1], parse)
      case Err(e) => Err(e)
      case Ok(ps) =>
        match parse(entries[|entries| - 1])
        case Err(e) => Err(e)
        case Ok(p) => Ok(ps + [p])
  }

  function PoliciesOf(values: seq<Str>, valid: Str -> bool): Result<seq<LabelPolicy>, PolicyFault> {
    ParseEntries(SplitAll(values, ','), Entries(valid))
  }

  lemma EntriesOneMore(entries: seq<Str>, entry: Str, parse: EntryParser)
    ensures ParseEntries(entries + [entry], parse) ==
      match ParseEntries(entries, parse) {
        case Err(e) => Err(e)
        case Ok(ps) => match parse(entry) { case Err(e) => Err(e) case Ok(p) => Ok(ps + [p]) }
      }
  {
    assert (entries + [entry])[..|entries|] == entries;
  }

  lemma {:induction false} PolicyFaultStays(entries: seq<Str>, more: seq<Str>, parse: EntryParser)
    requires ParseEntries(entries, parse).Err?
    ensures ParseEntries(entries + more, parse) == ParseEntries(entries, parse)
    decreases |more|
  {
    if more == [] {
      assert entries + more == entries;
    } else {
      var n := |more| - 1;
      PolicyFaultStays(entries, more[..n], parse);
      assert entries + more == (entries + more[..n]) + [more[n]];
      EntriesOneMore(entries + more[..n], more[n], parse);
    }
  }

  lemma {:induction false} SplitAllExtends(values: seq<Str>, i: nat, sep: Octet)
    requires i <= |values|
    ensures SplitAll(values[..i], sep) <= SplitAll(values, sep)
    decreases |values| - i
  {
    if i == |values| {
      assert values[..i] == values;
    } else {
      assert values[..i + 1][..i] == values[..i];
      SplitAllExtends(values, i + 1, sep);
    }
  }

  /** A fault in a prefix of the entries is the fault of the whole header. */
  lemma PolicyFaultInPrefix(prefix: seq<Str>, all: seq<Str>, parse: EntryParser)
    requires prefix <= all
    requires ParseEntries(prefix, parse).Err?
    ensures ParseEntries(all, parse) == ParseEntries(prefix, parse)
  {
    assert all == prefix + all[|prefix|..];
    PolicyFaultStays(prefix, all[|prefix|..], parse);
  }

  lemma SplitAllNext(values: seq<Str>, i: nat, sep: Octet)
    requires i < |values|
    ensures SplitAll(values[..i + 1], sep) == SplitAll(values[..i], sep) + Split(values[i], sep)
  {
    assert values[..i + 1][..i] == values[..i];
  }

  method ParseLabelPolicies(values: seq<Str>, valid: Str -> bool) returns (r: Result<seq<LabelPolicy>, PolicyFault>)
    ensures r == PoliciesOf(values, valid)
  {
    var parse := Entries(valid);
    r := Ok([]);
    for i := 0 to |values|
      invariant r.Ok?
      invariant ParseEntries(SplitAll(values[..i], ','), parse) == r
    {
      SplitAllNext(values, i, ',');
      r := ParseValue(values[i], parse, r.value, SplitAll(values[..i], ','));
      if r.Err? {
        SplitAllExtends(values, i + 1, ',');
        PolicyFaultInPrefix(SplitAll(values[..i + 1], ','), SplitAll(values, ','), parse);
        return;
      }
    }
    assert values[..|values|] == values;
  }

  /** The inner loop, over the entries of one header value. */
  method ParseValue(value: Str, parse: EntryParser, accepted: seq<LabelPolicy>, ghost before: seq<Str>)
    returns (r: Result<seq<LabelPolicy>, PolicyFault>)
    requires ParseEntries(before, parse) == Ok(accepted)
    ensures r == ParseEntries(before + Split(value, ','), parse)
  {
    var entries := Split(value, ',');
    var policies := accepted;
    assert before + entries[..0] == before;
    for j := 0 to |entries|
      invariant ParseEntries(before + entries[..j], parse) == Ok(policies)
    {
      assert before + entries[..j + 1] == (before + entries[..j]) + [entries[j]];
      EntriesOneMore(before + entries[..j], entries[j], parse);
      match parse(entries[j])
      case Err(e) =>
        assert before + entries[..j + 1] <= before + entries;
        PolicyFaultInPrefix(before + entries[..j + 1], before + entries, parse);
        return Err(e);
      case Ok(p) =>
        policies := policies + [p];
    }
    assert entries[..|entries|] == entries;
    return Ok(policies);
  }

  /** Repeated field lines and one comma-joined line mean the same (section 5.3 of RFC 9110):
      the same policies in the same order, or the same first fault. */
  lemma FieldLinesMayBeJoined(values: seq<Str>, valid: Str -> bool)
    requires values != []
    ensures PoliciesOf(values, valid) == PoliciesOf([Join(values, ',')], valid)
  {
    SplitOfJoin(values, ',');
    SplitAllOne(Join(values, ','), ',');
  }
}
