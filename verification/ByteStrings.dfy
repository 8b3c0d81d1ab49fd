/** Go strings as byte sequences, with the functions of the strings package that the gateway uses:
    Split and Join on a one-byte separator, TrimSpace and IndexByte. */
module ByteStrings {
  type Octet = c: char | c as int < 256 witness 'a'
  type Str = seq<Octet>

  // ----- Split and Join -----

  function Split(s: Str, sep: Octet): (parts: seq<Str>)
    ensures |parts| >= 1
  {
    if s == [] then
      [[]]
    else
      var rest := Split(s[1..], sep);
      if s[0] == sep then [[]] + rest else [[s[0]] + rest[0]] + rest[1..]
  }

  function Join(parts: seq<Str>, sep: Octet): Str {
    if parts == [] then []
    else if |parts| == 1 then parts[0]
    else parts[0] + [sep] + Join(parts[1..], sep)
  }

  lemma {:induction false} SplitClean(s: Str, sep: Octet)
    requires sep !in s
    ensures Split(s, sep) == [s]
  {
    if s != [] {
      SplitClean(s[1..], sep);
      assert s == [s[0]] + s[1..];
    }
  }

  lemma {:induction false} SplitAtSeparator(a: Str, b: Str, sep: Octet)
    ensures Split(a + [sep] + b, sep) == Split(a, sep) + Split(b, sep)
  {
    var s := a + [sep] + b;
    if a == [] {
      assert s[1..] == b;
    } else {
      assert s[1..] == a[1..] + [sep] + b;
      SplitAtSeparator(a[1..], b, sep);
    }
  }

  /** Joining the pieces gives the string back. */
  lemma {:induction false} JoinOfSplit(s: Str, sep: Octet)
    ensures Join(Split(s, sep), sep) == s
  {
    if s != [] {
      var parts, rest := Split(s, sep), Split(s[1..], sep);
      JoinOfSplit(s[1..], sep);
      assert s == [s[0]] + s[1..];
      if s[0] == sep {
        assert parts[1..] == rest;
      } else {
        assert parts[1..] == rest[1..];
        if |rest| > 1 {
          assert [s[0]] + rest[0] + [sep] + Join(rest[1..], sep) == [s[0]] + (rest[0] + [sep] + Join(rest[1..], sep));
        }
      }
    }
  }

  lemma {:induction false} PiecesAreClean(s: Str, sep: Octet, k: nat)
    requires k < |Split(s, sep)|
    ensures sep !in Split(s, sep)[k]
    ensures forall c :: c in Split(s, sep)[k] ==> c in s
  {
    if s != [] {
      var rest := Split(s[1..], sep);
      if s[0] == sep {
        if k > 0 {
          PiecesAreClean(s[1..], sep, k - 1);
        }
      } else {
        PiecesAreClean(s[1..], sep, k);
        if k == 0 {
          assert Split(s, sep)[0] == [s[0]] + rest[0];
        }
      }
    }
  }

  /** The pieces of several values, in order of appearance. */
  function SplitAll(values: seq<Str>, sep: Octet): seq<Str> {
    if values == [] then [] else SplitAll(values[..|values| - 1], sep) + Split(values[|values| - 1], sep)
  }

  lemma SplitAllOne(value: Str, sep: Octet)
    ensures SplitAll([value], sep) == Split(value, sep)
  {
    var values := [value];
    assert values[..0] == [];
  }

  lemma {:induction false} SplitAllFront(values: seq<Str>, sep: Octet)
    requires values != []
    ensures SplitAll(values, sep) == Split(values[0], sep) + SplitAll(values[1..], sep)
    decreases |values|
  {
    var n := |values| - 1;
    if n == 0 {
      assert values[1..] == [] && values == [values[0]];
      SplitAllOne(values[0], sep);
    } else {
      var init, tail := values[..n], values[1..];
      SplitAllFront(init, sep);
      assert init[1..] == tail[..n - 1];
      Associative(Split(values[0], sep), SplitAll(init[1..], sep), Split(values[n], sep));
    }
  }

  lemma Associative(x: seq<Str>, y: seq<Str>, z: seq<Str>)
    ensures (x + y) + z == x + (y + z)
  {
  }

  /** Several field lines split like the one line that joins them. */
  lemma {:induction false} SplitOfJoin(values: seq<Str>, sep: Octet)
    requires values != []
    ensures Split(Join(values, sep), sep) == SplitAll(values, sep)
  {
    SplitAllFront(values, sep);
    if |values| > 1 {
      SplitOfJoin(values[1..], sep);
      SplitAtSeparator(values[0], Join(values[1..], sep), sep);
    }
  }

  lemma {:induction false} SplitAllClean(values: seq<Str>, sep: Octet)
    requires forall k :: 0 <= k < |values| ==> sep !in values[k]
    ensures SplitAll(values, sep) == values
    decreases |values|
  {
    if values != [] {
      var n := |values| - 1;
      SplitAllClean(values[..n], sep);
      SplitClean(values[n], sep);
      assert values == values[..n] + [values[n]];
    }
  }

  // ----- TrimSpace -----

  predicate AsciiSpace(c: Octet) {
    c in "\t\n\r " || c as int == 0x0b || c as int == 0x0c
  }

  /** The two-byte UTF-8 forms of U+0085 and U+00A0. */
  predicate Space2(a: Octet, b: Octet) {
    a as int == 0xc2 && (b as int == 0x85 || b as int == 0xa0)
  }

  /** The three-byte UTF-8 forms of U+1680, U+2000 to U+200A, U+2028, U+2029, U+202F, U+205F, U+3000. */
  predicate Space3(a: Octet, b: Octet, c: Octet) {
    || (a as int == 0xe1 && b as int == 0x9a && c as int == 0x80)
    || (a as int == 0xe2 && b as int == 0x80 && (0x80 <= c as int <= 0x8a || c as int in {0xa8, 0xa9, 0xaf}))
    || (a as int == 0xe2 && b as int == 0x81 && c as int == 0x9f)
    || (a as int == 0xe3 && b as int == 0x80 && c as int == 0x80)
  }

  /** Length of the white-space rune that `s` starts with; 0 if it starts with none. */
  function SpaceHead(s: Str): (n: nat)
    ensures n <= |s|
  {
    if |s| >= 1 && AsciiSpace(s[0]) then 1
    else if |s| >= 2 && Space2(s[0], s[1]) then 2
    else if |s| >= 3 && Space3(s[0], s[1], s[2]) then 3
    else 0
  }

  /** Length of the white-space rune that `s` ends with; 0 if it ends with none. */
  function SpaceTail(s: Str): (n: nat)
    ensures n <= |s|
  {
    var k := |s|;
    if k >= 1 && AsciiSpace(s[k - 1]) then 1
    else if k >= 2 && Space2(s[k - 2], s[k - 1]) then 2
    else if k >= 3 && Space3(s[k - 3], s[k - 2], s[k - 1]) then 3
    else 0
  }

  function TrimLeft(s: Str): (t: Str)
    ensures SpaceHead(t) == 0
    ensures forall c :: c in t ==> c in s
    decreases |s|
  {
    var n := SpaceHead(s);
    if n == 0 then s else TrimLeft(s[n..])
  }

  function TrimRight(s: Str): (t: Str)
    ensures SpaceTail(t) == 0
    ensures t <= s
    decreases |s|
  {
    var n := SpaceTail(s);
    if n == 0 then s else TrimRight(s[..|s| - n])
  }

  function Trim(s: Str): Str {
    TrimRight(TrimLeft(s))
  }

  predicate Trimmed(s: Str) {
    SpaceHead(s) == 0 && SpaceTail(s) == 0
  }

  /** A prefix of a string that does not start with white space does not either. */
  lemma PrefixKeepsHead(p: Str, s: Str)
    requires p <= s && SpaceHead(s) == 0
    ensures SpaceHead(p) == 0
  {
    if |p| >= 1 {
      assert p[0] == s[0];
    }
    if |p| >= 2 {
      assert p[1] == s[1];
    }
    if |p| >= 3 {
      assert p[2] == s[2];
    }
  }

  lemma TrimTrims(s: Str)
    ensures Trimmed(Trim(s))
    ensures Trimmed(s) ==> Trim(s) == s
    ensures forall c :: c in Trim(s) ==> c in s
  {
    PrefixKeepsHead(Trim(s), TrimLeft(s));
  }

  /** The UTF-8 form of a code point of up to three bytes. */
  function Utf8(r: nat): Str
    requires r < 0x10000
  {
    if r < 0x80 then [r as char]
    else if r < 0x800 then [(0xc0 + r / 0x40) as char, (0x80 + r % 0x40) as char]
    else [(0xe0 + r / 0x1000) as char, (0x80 + r / 0x40 % 0x40) as char, (0x80 + r % 0x40) as char]
  }

  /** Unicode's White_Space property. */
  predicate SpaceRune(r: nat) {
    || 0x09 <= r <= 0x0d || r in {0x20, 0x85, 0xa0, 0x1680, 0x2028, 0x2029, 0x202f, 0x205f, 0x3000}
    || 0x2000 <= r <= 0x200a
  }

  /** The white space that trimming looks for is exactly the code points with that property. */
  lemma SpaceRunes(r: nat)
    requires r < 0x10000
    ensures SpaceRune(r) <==> SpaceHead(Utf8(r)) == |Utf8(r)|
    ensures SpaceRune(r) <==> SpaceTail(Utf8(r)) == |Utf8(r)|
  {
    var s := Utf8(r);
    if r < 0x80 {
      assert s[0] as int == r;
    } else if r < 0x800 {
      assert s[0] as int == 0xc0 + r / 0x40 && s[1] as int == 0x80 + r % 0x40;
    } else {
      assert s[0] as int == 0xe0 + r / 0x1000 && s[1] as int == 0x80 + r / 0x40 % 0x40 && s[2] as int == 0x80 + r % 0x40;
    }
  }

  /** White space from end to end. */
  predicate Spaces(s: Str)
    decreases |s|
  {
    s == [] || (SpaceHead(s) > 0 && Spaces(s[SpaceHead(s)..]))
  }

  lemma {:induction false} MoreSpaces(a: Str, b: Str)
    requires Spaces(a) && Spaces(b)
    ensures Spaces(a + b)
    decreases |a|
  {
    if a == [] {
      assert a + b == b;
    } else {
      var n := SpaceHead(a);
      MoreSpaces(a[n..], b);
      HeadOfLonger(a, b);
      assert (a + b)[n..] == a[n..] + b;
      SpacesFrom(a + b, n);
    }
  }

  lemma SpacesFrom(s: Str, n: nat)
    requires n == SpaceHead(s) > 0 && Spaces(s[n..])
    ensures Spaces(s)
  {
  }

  lemma HeadOfLonger(a: Str, b: Str)
    requires SpaceHead(a) > 0
    ensures SpaceHead(a + b) == SpaceHead(a)
  {
  }

  lemma TailIsSpace(s: Str)
    requires SpaceTail(s) > 0
    ensures Spaces(s[|s| - SpaceTail(s)..])
  {
    var t := s[|s| - SpaceTail(s)..];
    assert SpaceHead(t) == |t|;
    assert t[|t|..] == [];
  }

  lemma {:induction false} CutLeft(s: Str) returns (l: Str)
    ensures s == l + TrimLeft(s) && Spaces(l)
    decreases |s|
  {
    var n := SpaceHead(s);
    if n == 0 {
      l := [];
    } else {
      var rest := CutLeft(s[n..]);
      l := s[..n] + rest;
      PrefixIsSpace(s, n);
      MoreSpaces(s[..n], rest);
      GlueLeft(s, n, rest, TrimLeft(s[n..]));
    }
  }

  lemma GlueLeft(s: Str, n: nat, a: Str, b: Str)
    requires n <= |s| && s[n..] == a + b
    ensures s == s[..n] + a + b
  {
    assert s == s[..n] + s[n..];
  }

  lemma GlueRight(s: Str, n: nat, a: Str, b: Str)
    requires n <= |s| && s[..n] == a + b
    ensures s == a + (b + s[n..])
  {
    assert s == s[..n] + s[n..];
  }

  lemma PrefixIsSpace(s: Str, n: nat)
    requires n == SpaceHead(s) > 0
    ensures Spaces(s[..n])
  {
    assert SpaceHead(s[..n]) == n;
    assert s[..n][n..] == [];
  }

  lemma {:induction false} CutRight(s: Str) returns (r: Str)
    ensures s == TrimRight(s) + r && Spaces(r)
    decreases |s|
  {
    var n := SpaceTail(s);
    if n == 0 {
      r := [];
    } else {
      var k := |s| - n;
      var rest := CutRight(s[..k]);
      r := rest + s[k..];
      TailIsSpace(s);
      MoreSpaces(rest, s[k..]);
      GlueRight(s, k, TrimRight(s[..k]), rest);
    }
  }

  /** Trimming cuts off white space at both ends, all of it and nothing else. */
  lemma TrimCuts(s: Str) returns (l: Str, r: Str)
    ensures s == l + Trim(s) + r && Spaces(l) && Spaces(r)
    ensures Trimmed(Trim(s))
  {
    l := CutLeft(s);
    r := CutRight(TrimLeft(s));
    GlueLeft(s, |l|, Trim(s), r);
    TrimTrims(s);
  }

  // ----- IndexByte -----

  /** Position of the first `c`, or -1. */
  function IndexOf(s: Str, c: Octet): (i: int)
    ensures -1 <= i < |s|
    ensures i == -1 <==> c !in s
    ensures i >= 0 ==> s[i] == c && c !in s[..i]
  {
    if s == [] then -1
    else if s[0] == c then 0
    else
      var i := IndexOf(s[1..], c);
      assert s == [s[0]] + s[1..];
      if i == -1 then -1 else
        assert s[..i + 1] == [s[0]] + s[1..][..i];
        i + 1
  }

  lemma {:induction false} FirstIndex(a: Str, c: Octet, b: Str)
    requires c !in a
    ensures IndexOf(a + [c] + b, c) == |a|
  {
    var s := a + [c] + b;
    if a != [] {
      assert s[1..] == a[1..] + [c] + b;
      FirstIndex(a[1..], c, b);
    }
  }
}
