/** The compiled matcher of pkg/gateway/routes_matcher.go accepts a path exactly when a route
    matches it segment by segment. */
module RouteMatching {
  import opened ByteStrings
  import opened RoutePatterns

  // ----- Segment-wise matching, the simple form -----

  /** A segment that is one whole parameter, {name}. */
  predicate IsParam(seg: Str) {
    |seg| >= 3 && seg[0] == '{' && seg[|seg| - 1] == '}' && forall i :: 0 < i < |seg| - 1 ==> !Brace(seg[i])
  }

  predicate SegmentOk(seg: Str, part: Str) {
    if IsParam(seg) then part != [] else part == seg
  }

  predicate SegmentsMatch(segs: seq<Str>, parts: seq<Str>) {
    |segs| == |parts| && forall i :: 0 <= i < |segs| ==> SegmentOk(segs[i], parts[i])
  }

  predicate RouteMatches(route: Str, path: Str) {
    SegmentsMatch(Split(route, '/'), Split(path, '/'))
  }

  /** Each segment is a parameter or has no opening brace. */
  predicate WholeSegments(segs: seq<Str>) {
    segs != [] && forall k :: 0 <= k < |segs| ==> '/' !in segs[k] && (IsParam(segs[k]) || '{' !in segs[k])
  }

  ghost predicate HasPlaceholder(seg: Str) {
    exists i :: 0 <= i <= |seg| && StartsWithPlaceholder(seg[i..])
  }

  ghost predicate AvoidsPlaceholder(segs: seq<Str>) {
    forall k :: 0 <= k < |segs| && !IsParam(segs[k]) ==> !HasPlaceholder(segs[k])
  }

  // ----- The atoms of a template, segment by segment -----

  function SegmentAtoms(seg: Str): seq<Atom> {
    if IsParam(seg) then [NonSlashes] else AtomsOf(seg)
  }

  function TemplateAtoms(segs: seq<Str>): seq<Atom>
    requires segs != []
  {
    if |segs| == 1 then SegmentAtoms(segs[0])
    else SegmentAtoms(segs[0]) + ([Lit('/')] + TemplateAtoms(segs[1..]))
  }

  lemma {:induction false} PlainPassesThrough(seg: Str, tail: Str)
    requires '{' !in seg
    ensures ReplaceParams(seg + tail) == seg + ReplaceParams(tail)
    decreases |seg|
  {
    if seg == [] {
      assert seg + tail == tail;
    } else {
      assert (seg + tail)[1..] == seg[1..] + tail;
      PlainPassesThrough(seg[1..], tail);
    }
  }

  lemma {:induction false} NameEndsAtBrace(name: Str, tail: Str)
    requires forall i :: 0 <= i < |name| ==> !Brace(name[i])
    ensures NameLen(name + ['}'] + tail) == |name|
  {
    if name != [] {
      assert (name + ['}'] + tail)[1..] == name[1..] + ['}'] + tail;
      NameEndsAtBrace(name[1..], tail);
    }
  }

  lemma ParamBecomesPlaceholder(seg: Str, tail: Str)
    requires IsParam(seg)
    ensures ReplaceParams(seg + tail) == Placeholder() + ReplaceParams(tail)
  {
    var name := seg[1..|seg| - 1];
    var s := seg + tail;
    assert s[1..] == name + ['}'] + tail;
    NameEndsAtBrace(name, tail);
    assert s[|seg|..] == tail;
  }

  lemma {:induction false} AtomsAcrossSlash(a: Str, b: Str)
    ensures AtomsOf(a + ['/'] + b) == AtomsOf(a) + ([Lit('/')] + AtomsOf(b))
    decreases |a|
  {
    var s := a + ['/'] + b;
    NotAcross(a, '/', b);
    if StartsWithPlaceholder(a) {
      assert s[PLACEHOLDER_LENGTH..] == a[PLACEHOLDER_LENGTH..] + ['/'] + b;
      AtomsAcrossSlash(a[PLACEHOLDER_LENGTH..], b);
    } else if a == [] {
      assert s[1..] == b;
    } else {
      assert s[1..] == a[1..] + ['/'] + b;
      AtomsAcrossSlash(a[1..], b);
    }
  }

  lemma AtomsOfPlaceholder()
    ensures AtomsOf(Placeholder()) == [NonSlashes]
  {
    assert StartsWithPlaceholder(Placeholder());
    assert Placeholder()[PLACEHOLDER_LENGTH..] == [];
  }

  /** The text that a segment becomes before quoting. */
  function SegmentText(seg: Str): Str {
    if IsParam(seg) then Placeholder() else seg
  }

  lemma SegmentReplaced(seg: Str, tail: Str)
    requires IsParam(seg) || '{' !in seg
    ensures ReplaceParams(seg + tail) == SegmentText(seg) + ReplaceParams(tail)
    ensures AtomsOf(SegmentText(seg)) == SegmentAtoms(seg)
  {
    if IsParam(seg) {
      ParamBecomesPlaceholder(seg, tail);
      AtomsOfPlaceholder();
    } else {
      PlainPassesThrough(seg, tail);
    }
  }

  lemma {:induction false} AtomsOfTemplate(segs: seq<Str>)
    requires WholeSegments(segs)
    ensures AtomsOf(ReplaceParams(Join(segs, '/'))) == TemplateAtoms(segs)
    decreases |segs|
  {
    if |segs| == 1 {
      AtomsOfLast(segs[0]);
    } else {
      var rest := Join(segs[1..], '/');
      AtomsOfTemplate(segs[1..]);
      AtomsOfFirst(segs[0], rest);
      assert Join(segs, '/') == segs[0] + ['/'] + rest;
    }
  }

  lemma AtomsOfLast(seg: Str)
    requires IsParam(seg) || '{' !in seg
    ensures AtomsOf(ReplaceParams(seg)) == SegmentAtoms(seg)
  {
    SegmentReplaced(seg, []);
    assert seg + [] == seg && SegmentText(seg) + [] == SegmentText(seg);
  }

  lemma AtomsOfFirst(seg: Str, rest: Str)
    requires IsParam(seg) || '{' !in seg
    ensures AtomsOf(ReplaceParams(seg + ['/'] + rest)) == SegmentAtoms(seg) + ([Lit('/')] + AtomsOf(ReplaceParams(rest)))
  {
    FirstReplaced(seg, rest);
    SegmentReplaced(seg, []);
    AtomsAcrossSlash(SegmentText(seg), ReplaceParams(rest));
  }

  lemma FirstReplaced(seg: Str, rest: Str)
    requires IsParam(seg) || '{' !in seg
    ensures ReplaceParams(seg + ['/'] + rest) == SegmentText(seg) + ['/'] + ReplaceParams(rest)
  {
    Regroup(seg, ['/'], rest);
    SegmentReplaced(seg, ['/'] + rest);
    SlashPassesThrough(rest);
    Regroup(SegmentText(seg), ['/'], ReplaceParams(rest));
  }

  lemma Regroup(a: Str, b: Str, c: Str)
    ensures a + b + c == a + (b + c)
  {
  }

  lemma SlashPassesThrough(rest: Str)
    ensures ReplaceParams(['/'] + rest) == ['/'] + ReplaceParams(rest)
  {
    assert (['/'] + rest)[1..] == rest;
  }

  // ----- What the atoms match -----

  function Lits(s: Str): seq<Atom> {
    if s == [] then [] else [Lit(s[0])] + Lits(s[1..])
  }

  lemma {:induction false} PlainAtoms(seg: Str)
    requires !HasPlaceholder(seg)
    ensures AtomsOf(seg) == Lits(seg)
    decreases |seg|
  {
    assert seg[0..] == seg;
    if seg != [] {
      forall i | 0 <= i <= |seg[1..]|
        ensures !StartsWithPlaceholder(seg[1..][i..])
      {
        assert seg[1..][i..] == seg[i + 1..];
      }
      PlainAtoms(seg[1..]);
    }
  }

  lemma {:induction false} MatchLits(s: Str, rest: seq<Atom>, p: Str)
    ensures Matches(Lits(s) + rest, p) <==> s <= p && Matches(rest, p[|s|..])
    decreases |s|
  {
    if s == [] {
      assert Lits(s) + rest == rest && p[0..] == p;
    } else {
      var atoms := Lits(s) + rest;
      assert atoms[0] == Lit(s[0]) && atoms[1..] == Lits(s[1..]) + rest;
      if p != [] && p[0] == s[0] {
        MatchLits(s[1..], rest, p[1..]);
        assert s <= p <==> s[1..] <= p[1..] by {
          assert s == [s[0]] + s[1..] && p == [p[0]] + p[1..];
        }
        if s <= p {
          assert p[1..][|s| - 1..] == p[|s|..];
        }
      }
    }
  }

  /** The first segment of a path against one segment of the template, then the rest. */
  ghost predicate HeadThenRest(seg: Str, rest: seq<Atom>, p: Str, h: Str, q: Str) {
    p == h + ['/'] + q && '/' !in h && SegmentOk(seg, h) && Matches(rest, q)
  }

  lemma PlainHead(seg: Str, rest: seq<Atom>, p: Str)
    requires '/' !in seg && !IsParam(seg) && !HasPlaceholder(seg)
    ensures Matches(SegmentAtoms(seg) + ([Lit('/')] + rest), p) <==> exists h, q :: HeadThenRest(seg, rest, p, h, q)
  {
    var slash := [Lit('/')] + rest;
    PlainAtoms(seg);
    MatchLits(seg, slash, p);
    assert slash[1..] == rest;
    if seg <= p && Matches(slash, p[|seg|..]) {
      var q := p[|seg|..][1..];
      assert p == seg + ['/'] + q;
      assert HeadThenRest(seg, rest, p, seg, q);
    }
    if h, q :| HeadThenRest(seg, rest, p, h, q) {
      assert p[|seg|..] == ['/'] + q;
      assert (['/'] + q)[1..] == q;
    }
  }

  lemma ParamHead(seg: Str, rest: seq<Atom>, p: Str)
    requires IsParam(seg)
    ensures Matches(SegmentAtoms(seg) + ([Lit('/')] + rest), p) <==> exists h, q :: HeadThenRest(seg, rest, p, h, q)
  {
    var slash := [Lit('/')] + rest;
    var atoms := SegmentAtoms(seg) + slash;
    assert atoms[0] == NonSlashes && atoms[1..] == slash && slash[1..] == rest;
    if Matches(atoms, p) {
      var k :| 1 <= k <= |p| && '/' !in p[..k] && Matches(slash, p[k..]);
      ParamCut(seg, rest, p, k);
    }
    if h, q :| HeadThenRest(seg, rest, p, h, q) {
      HeadMatchesParam(seg, rest, p, h, q);
    }
  }

  lemma ParamCut(seg: Str, rest: seq<Atom>, p: Str, k: nat)
    requires IsParam(seg) && 1 <= k <= |p| && '/' !in p[..k] && Matches([Lit('/')] + rest, p[k..])
    ensures exists h, q :: HeadThenRest(seg, rest, p, h, q)
  {
    assert ([Lit('/')] + rest)[1..] == rest;
    CutAt(p, k);
    assert HeadThenRest(seg, rest, p, p[..k], p[k..][1..]);
  }

  lemma CutAt(p: Str, k: nat)
    requires k < |p| && p[k] == '/'
    ensures p == p[..k] + ['/'] + p[k..][1..]
  {
  }

  lemma HeadMatchesParam(seg: Str, rest: seq<Atom>, p: Str, h: Str, q: Str)
    requires IsParam(seg) && HeadThenRest(seg, rest, p, h, q)
    ensures Matches([NonSlashes] + ([Lit('/')] + rest), p)
  {
    var slash := [Lit('/')] + rest;
    var atoms := [NonSlashes] + slash;
    assert atoms[1..] == slash && slash[1..] == rest;
    assert p[..|h|] == h && p[|h|..] == ['/'] + q;
    assert (['/'] + q)[1..] == q;
    assert Matches(slash, p[|h|..]);
  }

  lemma LastSegment(seg: Str, p: Str)
    requires '/' !in seg && (IsParam(seg) || !HasPlaceholder(seg))
    ensures Matches(SegmentAtoms(seg), p) <==> '/' !in p && SegmentOk(seg, p)
  {
    if IsParam(seg) {
      var atoms := SegmentAtoms(seg);
      assert atoms[1..] == [];
      if p != [] && '/' !in p {
        assert p[..|p|] == p && p[|p|..] == [];
      }
      if Matches(atoms, p) {
        var k :| 1 <= k <= |p| && '/' !in p[..k] && Matches([], p[k..]);
        assert p[..k] == p;
      }
    } else {
      PlainAtoms(seg);
      MatchLits(seg, [], p);
      assert Lits(seg) + [] == Lits(seg);
    }
  }

  // ----- Splitting the path -----

  lemma {:induction false} FirstPart(p: Str)
    ensures var parts := Split(p, '/');
      if |parts| == 1 then p == parts[0] && '/' !in p
      else |parts[0]| < |p| && p == parts[0] + ['/'] + p[|parts[0]| + 1..]
           && '/' !in parts[0] && Split(p[|parts[0]| + 1..], '/') == parts[1..]
  {
    if p != [] {
      var parts, rest := Split(p, '/'), Split(p[1..], '/');
      FirstPart(p[1..]);
      if p[0] == '/' {
        assert parts[1..] == rest;
      } else {
        assert parts[0] == [p[0]] + rest[0] && parts[1..] == rest[1..];
        if |rest| > 1 {
          assert p[1..][|rest[0]| + 1..] == p[|parts[0]| + 1..];
        }
      }
    }
  }

  lemma SplitHeadTail(h: Str, q: Str)
    requires '/' !in h
    ensures Split(h + ['/'] + q, '/') == [h] + Split(q, '/')
  {
    SplitAtSeparator(h, q, '/');
    SplitClean(h, '/');
  }

  /** The compiled expression is exactly segment-wise matching. */
  lemma {:induction false} AtomsMatchSegments(segs: seq<Str>, p: Str)
    requires WholeSegments(segs) && AvoidsPlaceholder(segs)
    ensures Matches(TemplateAtoms(segs), p) <==> SegmentsMatch(segs, Split(p, '/'))
    decreases |segs|
  {
    var parts := Split(p, '/');
    FirstPart(p);
    if |segs| == 1 {
      LastSegment(segs[0], p);
      if '/' !in p {
        SplitClean(p, '/');
      }
    } else {
      var rest := TemplateAtoms(segs[1..]);
      if IsParam(segs[0]) {
        ParamHead(segs[0], rest, p);
      } else {
        PlainHead(segs[0], rest, p);
      }
      SegmentsStep(segs, rest, p);
    }
  }

  lemma SegmentsStep(segs: seq<Str>, rest: seq<Atom>, p: Str)
    requires WholeSegments(segs) && AvoidsPlaceholder(segs) && |segs| > 1
    requires rest == TemplateAtoms(segs[1..])
    ensures (exists h, q :: HeadThenRest(segs[0], rest, p, h, q)) <==> SegmentsMatch(segs, Split(p, '/'))
    decreases |segs|, 0
  {
    var parts := Split(p, '/');
    FirstPart(p);
    if h, q :| HeadThenRest(segs[0], rest, p, h, q) {
      SplitHeadTail(h, q);
      AtomsMatchSegments(segs[1..], q);
      assert parts[1..] == Split(q, '/');
      PrependSegment(segs, parts);
    }
    if SegmentsMatch(segs, parts) {
      var h, q := parts[0], p[|parts[0]| + 1..];
      PrependSegment(segs, parts);
      AtomsMatchSegments(segs[1..], q);
      assert HeadThenRest(segs[0], rest, p, h, q);
    }
  }

  lemma PrependSegment(segs: seq<Str>, parts: seq<Str>)
    requires segs != [] && parts != []
    ensures SegmentsMatch(segs, parts) <==> SegmentOk(segs[0], parts[0]) && SegmentsMatch(segs[1..], parts[1..])
  {
    if SegmentOk(segs[0], parts[0]) && SegmentsMatch(segs[1..], parts[1..]) {
      forall i | 0 <= i < |segs|
        ensures SegmentOk(segs[i], parts[i])
      {
        if i > 0 {
          assert segs[i] == segs[1..][i - 1] && parts[i] == parts[1..][i - 1];
        }
      }
    }
    if SegmentsMatch(segs, parts) {
      forall i | 0 <= i < |segs[1..]|
        ensures SegmentOk(segs[1..][i], parts[1..][i])
      {
        assert segs[1..][i] == segs[i + 1] && parts[1..][i] == parts[i + 1];
      }
    }
  }

  // ----- The limit of the placeholder trick -----

  /** A text that the atoms match: the literals themselves, and one x for each class. */
  function Sample(atoms: seq<Atom>): (s: Str)
    ensures |s| == |atoms|
  {
    if atoms == [] then [] else [match atoms[0] { case Lit(c) => c case NonSlashes => 'x' }] + Sample(atoms[1..])
  }

  lemma {:induction false} SampleMatches(atoms: seq<Atom>)
    ensures Matches(atoms, Sample(atoms))
  {
    if atoms != [] {
      var s := Sample(atoms);
      SampleMatches(atoms[1..]);
      assert s[1..] == Sample(atoms[1..]);
      if atoms[0] == NonSlashes {
        assert s[..1] == ['x'];
      }
    }
  }

  lemma {:induction false} SampleConcat(a: seq<Atom>, b: seq<Atom>)
    ensures Sample(a + b) == Sample(a) + Sample(b)
  {
    if a == [] {
      assert a + b == b;
    } else {
      assert (a + b)[1..] == a[1..] + b;
      SampleConcat(a[1..], b);
    }
  }

  lemma {:induction false} SampleOfText(t: Str)
    requires '/' !in t
    ensures '/' !in Sample(AtomsOf(t))
    ensures |Sample(AtomsOf(t))| <= |t|
    ensures HasPlaceholder(t) ==> |Sample(AtomsOf(t))| < |t|
    decreases |t|
  {
    if StartsWithPlaceholder(t) {
      var rest := AtomsOf(t[PLACEHOLDER_LENGTH..]);
      SampleOfText(t[PLACEHOLDER_LENGTH..]);
      SampleConcat([NonSlashes], rest);
      assert Sample([NonSlashes]) == ['x'];
    } else if t != [] {
      SampleOfText(t[1..]);
      SampleConcat([Lit(t[0])], AtomsOf(t[1..]));
      assert Sample([Lit(t[0])]) == [t[0]];
      if HasPlaceholder(t) {
        var i :| 0 <= i <= |t| && StartsWithPlaceholder(t[i..]);
        assert i > 0 by {
          assert t[0..] == t;
        }
        assert t[1..][i - 1..] == t[i..];
      }
    }
  }

  lemma SampleOfSegment(seg: Str)
    requires '/' !in seg
    ensures '/' !in Sample(SegmentAtoms(seg))
  {
    if IsParam(seg) {
      assert Sample([NonSlashes]) == ['x'];
    } else {
      SampleOfText(seg);
    }
  }

  lemma {:induction false} SampleParts(segs: seq<Str>, k: nat)
    requires WholeSegments(segs) && k < |segs|
    ensures var parts := Split(Sample(TemplateAtoms(segs)), '/');
      |parts| == |segs| && parts[k] == Sample(SegmentAtoms(segs[k]))
    decreases |segs|
  {
    var h := Sample(SegmentAtoms(segs[0]));
    SampleOfSegment(segs[0]);
    if |segs| == 1 {
      SplitClean(h, '/');
    } else {
      var rest := TemplateAtoms(segs[1..]);
      SampleParts(segs[1..], if k == 0 then 0 else k - 1);
      SampleConcat(SegmentAtoms(segs[0]), [Lit('/')] + rest);
      SampleConcat([Lit('/')], rest);
      assert Sample([Lit('/')]) == ['/'];
      assert Sample(TemplateAtoms(segs)) == h + ['/'] + Sample(rest);
      SplitHeadTail(h, Sample(rest));
    }
  }

  /** The compiled expression is segment-wise for every path if and only if no literal segment
      contains the placeholder text. */
  lemma CompiledSegmentwiseExactly(segs: seq<Str>)
    requires WholeSegments(segs)
    ensures AvoidsPlaceholder(segs) <==>
      forall p :: Matches(TemplateAtoms(segs), p) <==> SegmentsMatch(segs, Split(p, '/'))
  {
    if AvoidsPlaceholder(segs) {
      forall p
        ensures Matches(TemplateAtoms(segs), p) <==> SegmentsMatch(segs, Split(p, '/'))
      {
        AtomsMatchSegments(segs, p);
      }
    } else {
      var k :| 0 <= k < |segs| && !IsParam(segs[k]) && HasPlaceholder(segs[k]);
      var p := Sample(TemplateAtoms(segs));
      SampleMatches(TemplateAtoms(segs));
      SampleParts(segs, k);
      SampleOfText(segs[k]);
      assert !SegmentOk(segs[k], Split(p, '/')[k]);
    }
  }
}
