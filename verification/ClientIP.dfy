/** Right-to-left selection of the client address in X-Forwarded-For, as in
    pkg/middleware/clientip/xff_client_ip_extractor.go. */
module ClientIP {
  import opened Common
  import opened ByteStrings

  datatype Extraction = IP(ip: Str) | Missing | TooShort | InvalidIP

  /** net.SplitHostPort (the host, when there is one) and net.ParseIP's verdict. */
  datatype Net = Net(splitHost: Str -> Option<Str>, isIP: Str -> bool)

  predicate Bracket(c: Octet) {
    c == '[' || c == ']'
  }

  /** strings.Trim with the cut set of both brackets. */
  function TrimBrackets(s: Str): Str {
    if s != [] && Bracket(s[0]) then TrimBrackets(s[1..])
    else if s != [] && Bracket(s[|s| - 1]) then TrimBrackets(s[..|s| - 1])
    else s
  }

  function Normalise(entry: Str, net: Net): Str {
    var ip := Trim(entry);
    match net.splitHost(ip)
    case Some(host) => host
    case None => if |ip| > 0 && ip[0] == '[' && ip[|ip| - 1] == ']' then TrimBrackets(ip) else ip
  }

  predicate ValidFrom(ips: seq<Str>, k: nat, net: Net) {
    forall i :: k <= i < |ips| ==> net.isIP(Normalise(ips[i], net))
  }

  /** The entry with `count` trusted entries to its right, if it and those are addresses. */
  function Select(ips: seq<Str>, count: int, net: Net): Extraction {
    if count < 0 || count > |ips| - 1 then TooShort
    else
      var k := |ips| - count - 1;
      if ValidFrom(ips, k, net) then IP(Normalise(ips[k], net)) else InvalidIP
  }

  function Extract(values: seq<Str>, count: int, net: Net): Extraction {
    if values == [] then Missing else Select(SplitAll(values, ','), count, net)
  }

  method GetClientIP(values: seq<Str>, count: int, net: Net) returns (r: Extraction)
    ensures r == Extract(values, count, net)
  {
    if |values| == 0 {
      return Missing;
    }
    var ips := AllEntries(values);
    if count < 0 || count > |ips| - 1 {
      return TooShort;
    }
    r := Scan(ips, |ips| - count - 1, net);
  }

  method AllEntries(values: seq<Str>) returns (ips: seq<Str>)
    ensures ips == SplitAll(values, ',')
  {
    ips := [];
    for i := 0 to |values|
      invariant ips == SplitAll(values[..i], ',')
    {
      assert values[..i + 1][..i] == values[..i];
      ips := ips + Split(values[i], ',');
    }
    assert values[..|values|] == values;
  }

  /** The right-to-left loop, down to position `ipIdx`. */
  method Scan(ips: seq<Str>, ipIdx: nat, net: Net) returns (r: Extraction)
    requires ipIdx < |ips|
    ensures r == if ValidFrom(ips, ipIdx, net) then IP(Normalise(ips[ipIdx], net)) else InvalidIP
  {
    var ip: Str := [];
    var i := |ips| - 1;
    while i >= ipIdx
      invariant ipIdx - 1 <= i < |ips|
      invariant ValidFrom(ips, i + 1, net)
      invariant i < |ips| - 1 ==> ip == Normalise(ips[i + 1], net)
      decreases i
    {
      ip := NormaliseEntry(ips[i], net);
      if !net.isIP(ip) {
        return InvalidIP;
      }
      i := i - 1;
    }
    return IP(ip);
  }

  method NormaliseEntry(entry: Str, net: Net) returns (ip: Str)
    ensures ip == Normalise(entry, net)
  {
    ip := Trim(entry);
    match net.splitHost(ip) {
      case Some(host) => ip := host;
      case None =>
        if |ip| > 0 && ip[0] == '[' && ip[|ip| - 1] == ']' {
          ip := TrimBrackets(ip);
        }
    }
  }

  /** The address returned is the normalised entry that has exactly `count` entries to its right, when it
      and all of those are addresses; nothing else is ever returned. */
  lemma ExtractsExactly(values: seq<Str>, count: int, net: Net, x: Str)
    ensures Extract(values, count, net) == IP(x) <==> values != [] && StandsBefore(SplitAll(values, ','), count, net, x)
  {
    if values != [] {
      SelectsExactly(SplitAll(values, ','), count, net, x);
    }
  }

  lemma SelectsExactly(entries: seq<Str>, count: int, net: Net, x: Str)
    ensures Select(entries, count, net) == IP(x) <==> StandsBefore(entries, count, net, x)
  {
    if 0 <= count < |entries| {
      var k := |entries| - 1 - count;
      assert StandsAt(entries, k, net, x) <==> x == Normalise(entries[k], net) && ValidFrom(entries, k, net);
    }
  }

  /** Entry `k` reads `x`, and it and all to its right are addresses. */
  ghost predicate StandsAt(entries: seq<Str>, k: nat, net: Net, x: Str)
    requires k < |entries|
  {
    x == Normalise(entries[k], net) && forall i :: k <= i < |entries| ==> net.isIP(Normalise(entries[i], net))
  }

  /** So does the entry with exactly `count` entries to its right. */
  ghost predicate StandsBefore(entries: seq<Str>, count: int, net: Net, x: Str) {
    exists k :: 0 <= k < |entries| && |entries| - 1 - k == count && StandsAt(entries, k, net, x)
  }

  /** Which error comes otherwise. */
  lemma RefusesExactly(values: seq<Str>, count: int, net: Net)
    ensures Extract(values, count, net) == Missing <==> values == []
    ensures Extract(values, count, net) == TooShort <==> values != [] && !(0 <= count < |SplitAll(values, ',')|)
    ensures Extract(values, count, net) == InvalidIP <==>
      var entries := SplitAll(values, ',');
      && values != [] && 0 <= count < |entries|
      && exists i :: |entries| - 1 - count <= i < |entries| && !net.isIP(Normalise(entries[i], net))
  {
  }

  /** The host part if there is one, else the trimmed entry, without brackets if it stands in brackets. */
  lemma NormaliseMeans(entry: Str, net: Net) returns (l: Str, r: Str)
    ensures net.splitHost(Trim(entry)).Some? ==> Normalise(entry, net) == net.splitHost(Trim(entry)).value
    ensures net.splitHost(Trim(entry)).None? ==>
      && Trim(entry) == l + Normalise(entry, net) + r
      && Brackets(l) && Brackets(r)
      && (if Trim(entry) != [] && Trim(entry)[0] == '[' && Trim(entry)[|Trim(entry)| - 1] == ']'
          then BareEnds(Normalise(entry, net)) else l == [] && r == [])
  {
    var ip := Trim(entry);
    l, r := [], [];
    if |ip| > 0 && ip[0] == '[' && ip[|ip| - 1] == ']' {
      l, r := CutBrackets(ip);
    }
  }

  predicate Brackets(s: Str) {
    forall i :: 0 <= i < |s| ==> Bracket(s[i])
  }

  predicate BareEnds(s: Str) {
    s == [] || (!Bracket(s[0]) && !Bracket(s[|s| - 1]))
  }

  lemma {:induction false} CutBrackets(s: Str) returns (l: Str, r: Str)
    ensures s == l + TrimBrackets(s) + r && Brackets(l) && Brackets(r) && BareEnds(TrimBrackets(s))
    decreases |s|
  {
    if s != [] && Bracket(s[0]) {
      l, r := CutBrackets(s[1..]);
      l := [s[0]] + l;
    } else if s != [] && Bracket(s[|s| - 1]) {
      l, r := CutBrackets(s[..|s| - 1]);
      r := r + [s[|s| - 1]];
    } else {
      l, r := [], [];
    }
  }

  /** The answer depends on the last `count + 1` entries alone: whatever stands to their left,
      in the same or in earlier field lines, changes neither the address nor the error. */
  lemma LeftEntriesAreIgnored(left: seq<Str>, ips: seq<Str>, count: int, net: Net)
    requires 0 <= count < |ips|
    ensures Select(left + ips, count, net) == Select(ips, count, net)
  {
    var all := left + ips;
    var k := |ips| - count - 1;
    assert all[|left| + k] == ips[k];
    if ValidFrom(ips, k, net) {
      forall i | |left| + k <= i < |all|
        ensures net.isIP(Normalise(all[i], net))
      {
        assert all[i] == ips[i - |left|];
      }
    }
    if ValidFrom(all, |left| + k, net) {
      forall i | k <= i < |ips|
        ensures net.isIP(Normalise(ips[i], net))
      {
        assert all[i + |left|] == ips[i];
      }
    }
  }

  lemma {:induction false} SplitAllConcat(left: seq<Str>, values: seq<Str>)
    ensures SplitAll(left + values, ',') == SplitAll(left, ',') + SplitAll(values, ',')
    decreases |values|
  {
    if values == [] {
      assert left + values == left;
    } else {
      var n := |values| - 1;
      SplitAllConcat(left, values[..n]);
      assert (left + values)[..|left| + n] == left + values[..n];
      Associative(SplitAll(left, ','), SplitAll(values[..n], ','), Split(values[n], ','));
    }
  }

  lemma PrependedValuesAreIgnored(left: seq<Str>, values: seq<Str>, count: int, net: Net)
    requires values != [] && 0 <= count < |SplitAll(values, ',')|
    ensures Extract(left + values, count, net) == Extract(values, count, net)
  {
    SplitAllConcat(left, values);
    LeftEntriesAreIgnored(SplitAll(left, ','), SplitAll(values, ','), count, net);
  }

  /** Text put in front of the first value, up to a comma, is ignored as well. */
  lemma PrependedTextIsIgnored(text: Str, value: Str, count: int, net: Net)
    requires 0 <= count < |Split(value, ',')|
    ensures Extract([text + [','] + value], count, net) == Extract([value], count, net)
  {
    SplitAtSeparator(text, value, ',');
    SplitAllOne(text + [','] + value, ',');
    SplitAllOne(value, ',');
    LeftEntriesAreIgnored(Split(text, ','), Split(value, ','), count, net);
  }

  /** Repeated field lines and one comma-joined line give the same answer (section 5.3 of RFC 9110). */
  lemma FieldLinesMayBeJoined(values: seq<Str>, count: int, net: Net)
    requires values != []
    ensures Extract(values, count, net) == Extract([Join(values, ',')], count, net)
  {
    SplitOfJoin(values, ',');
    SplitAllOne(Join(values, ','), ',');
  }
}
