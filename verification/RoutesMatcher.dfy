/** The routesMatcher of pkg/gateway/routes_matcher.go: a set of static paths and a list of
    compiled expressions. */
module RoutesMatcher {
  import opened ByteStrings
  import opened RoutePatterns
  import opened RouteMatching

  /** What one added route makes the matcher accept. */
  predicate Accepts(route: Str, path: Str) {
    if '{' !in route then path == route else Matches(AtomsOf(ReplaceParams(route)), path)
  }

  ghost predicate AnyAccepts(routes: seq<Str>, path: Str) {
    exists k :: 0 <= k < |routes| && Accepts(routes[k], path)
  }

  /** Parameters are whole segments; in a route that has some, literals avoid the placeholder text. */
  ghost predicate GoodRoute(route: Str) {
    WholeSegments(Split(route, '/')) && ('{' !in route || AvoidsPlaceholder(Split(route, '/')))
  }

  /** A good route is accepted exactly when it matches segment by segment. */
  lemma AcceptsSegmentwise(route: Str, path: Str)
    requires GoodRoute(route)
    ensures Accepts(route, path) <==> RouteMatches(route, path)
  {
    var segs := Split(route, '/');
    JoinOfSplit(route, '/');
    if '{' in route {
      AtomsOfTemplate(segs);
      AtomsMatchSegments(segs, path);
    } else {
      StaticSegmentwise(route, path);
    }
  }

  /** For routes whose parameters are whole segments, the matcher is segment-wise on every path if
      and only if the route is static or no literal segment contains the placeholder text. */
  lemma SegmentwiseExactly(route: Str)
    requires WholeSegments(Split(route, '/'))
    ensures ('{' !in route || AvoidsPlaceholder(Split(route, '/'))) <==>
      forall p :: Accepts(route, p) <==> RouteMatches(route, p)
  {
    var segs := Split(route, '/');
    if GoodRoute(route) {
      forall p
        ensures Accepts(route, p) <==> RouteMatches(route, p)
      {
        AcceptsSegmentwise(route, p);
      }
    } else {
      JoinOfSplit(route, '/');
      AtomsOfTemplate(segs);
      CompiledSegmentwiseExactly(segs);
      var p :| Matches(TemplateAtoms(segs), p) != SegmentsMatch(segs, Split(p, '/'));
      assert Accepts(route, p) != RouteMatches(route, p);
    }
  }

  /** The placeholder text, as a literal segment beside a parameter: the route then accepts any
      first segment. */
  lemma PlaceholderLiteralMatchesAnything(route: Str, path: Str)
    requires route == Placeholder() + ['/', '{', 'a', '}'] && path == ['x', '/', 'y']
    ensures WholeSegments(Split(route, '/'))
    ensures Accepts(route, path) && !RouteMatches(route, path)
  {
    var lit, param: Str := Placeholder(), ['{', 'a', '}'];
    var segs := [lit, param];
    assert route == lit + ['/'] + param;
    SplitHeadTail(lit, param);
    SplitClean(param, '/');
    assert Split(route, '/') == segs;
    assert segs[1..] == [param];
    assert Join(segs, '/') == route;
    AtomsOfTemplate(segs);
    AtomsOfPlaceholder();
    assert TemplateAtoms(segs) == [NonSlashes] + ([Lit('/')] + [NonSlashes]);
    TwoClassesMatch(path);
    assert path == ['x'] + ['/'] + ['y'];
    SplitHeadTail(['x'], ['y']);
    assert Split(path, '/')[0] == ['x'];
    assert !SegmentOk(segs[0], Split(path, '/')[0]);
  }

  lemma TwoClassesMatch(path: Str)
    requires path == ['x', '/', 'y']
    ensures Matches([NonSlashes] + ([Lit('/')] + [NonSlashes]), path)
  {
    var last := [NonSlashes];
    var atoms := [NonSlashes] + ([Lit('/')] + last);
    assert atoms[1..] == [Lit('/')] + last && atoms[1..][1..] == last;
    assert path[..1] == ['x'] && path[1..] == ['/', 'y'] && path[1..][1..] == ['y'];
    assert ['y'][..1] == ['y'] && ['y'][1..] == [];
    assert last[1..] == [];
    assert Matches(last, path[1..][1..]);
    assert Matches(atoms[1..], path[1..]);
  }

  lemma StaticSegmentwise(route: Str, path: Str)
    requires '{' !in route
    ensures path == route <==> RouteMatches(route, path)
  {
    var segs, parts := Split(route, '/'), Split(path, '/');
    forall k | 0 <= k < |segs|
      ensures !IsParam(segs[k])
    {
      PiecesAreClean(route, '/', k);
    }
    JoinOfSplit(route, '/');
    JoinOfSplit(path, '/');
    if SegmentsMatch(segs, parts) {
      assert forall k :: 0 <= k < |segs| ==> SegmentOk(segs[k], parts[k]);
      assert segs == parts;
    }
  }

  ghost predicate CompiledFrom(routes: seq<Str>, atoms: seq<Atom>) {
    exists r :: r in routes && '{' in r && atoms == AtomsOf(ReplaceParams(r))
  }

  /** The static set and the expressions hold exactly the added routes. */
  ghost predicate Holds(routes: seq<Str>, statics: set<Str>, expressions: seq<seq<Atom>>) {
    && (forall p :: p in statics <==> p in routes && '{' !in p)
    && (forall i :: 0 <= i < |expressions| ==> CompiledFrom(routes, expressions[i]))
    && (forall r :: r in routes && '{' in r ==> AtomsOf(ReplaceParams(r)) in expressions)
  }

  lemma StillCompiled(routes: seq<Str>, path: Str, atoms: seq<Atom>)
    requires CompiledFrom(routes, atoms)
    ensures CompiledFrom(routes + [path], atoms)
  {
    var r :| r in routes && '{' in r && atoms == AtomsOf(ReplaceParams(r));
    assert r in routes + [path];
  }

  lemma AddStatic(routes: seq<Str>, statics: set<Str>, expressions: seq<seq<Atom>>, path: Str)
    requires Holds(routes, statics, expressions) && '{' !in path
    ensures Holds(routes + [path], statics + {path}, expressions)
  {
    forall i | 0 <= i < |expressions|
      ensures CompiledFrom(routes + [path], expressions[i])
    {
      StillCompiled(routes, path, expressions[i]);
    }
  }

  lemma AddParameterized(routes: seq<Str>, statics: set<Str>, expressions: seq<seq<Atom>>, path: Str, atoms: seq<Atom>)
    requires Holds(routes, statics, expressions) && '{' in path && atoms == AtomsOf(ReplaceParams(path))
    ensures Holds(routes + [path], statics, expressions + [atoms])
  {
    var all := expressions + [atoms];
    forall i | 0 <= i < |all|
      ensures CompiledFrom(routes + [path], all[i])
    {
      if i < |expressions| {
        StillCompiled(routes, path, expressions[i]);
      } else {
        assert path in routes + [path];
      }
    }
    forall r | r in routes + [path] && '{' in r
      ensures AtomsOf(ReplaceParams(r)) in all
    {
      if r in routes {
        assert AtomsOf(ReplaceParams(r)) in expressions;
      } else {
        assert all[|expressions|] == atoms;
      }
    }
  }

  class Matcher {
    var staticPaths: set<Str>
    var parameterizedPaths: seq<seq<Atom>>
    ghost var routes: seq<Str>

    ghost predicate Valid()
      reads this
    {
      Holds(routes, staticPaths, parameterizedPaths)
    }

    constructor ()
      ensures Valid() && routes == []
    {
      staticPaths, parameterizedPaths, routes := {}, [], [];
    }

    method AddRoute(path: Str)
      requires Valid()
      modifies this
      ensures Valid()
      ensures routes == old(routes) + [path]
    {
      if '{' !in path {
        AddStatic(routes, staticPaths, parameterizedPaths, path);
        staticPaths := staticPaths + {path};
        routes := routes + [path];
        return;
      }
      TemplateCompiles(path);
      var compiled := Compile(Pattern(path)).value;
      AddParameterized(routes, staticPaths, parameterizedPaths, path, compiled);
      parameterizedPaths := parameterizedPaths + [compiled];
      routes := routes + [path];
    }

    method AddRoutes(more: seq<Str>)
      requires Valid()
      modifies this
      ensures Valid()
      ensures routes == old(routes) + more
    {
      for i := 0 to |more|
        invariant Valid() && routes == old(routes) + more[..i]
      {
        AddRoute(more[i]);
        assert more[..i + 1] == more[..i] + [more[i]];
      }
      assert more[..|more|] == more;
    }

    method Match(path: Str) returns (found: bool)
      requires Valid()
      ensures found <==> AnyAccepts(routes, path)
    {
      if path in staticPaths {
        FoundStatic(routes, staticPaths, parameterizedPaths, path);
        return true;
      }
      for i := 0 to |parameterizedPaths|
        invariant forall j :: 0 <= j < i ==> !Matches(parameterizedPaths[j], path)
      {
        if Matches(parameterizedPaths[i], path) {
          FoundByExpression(routes, parameterizedPaths[i], path);
          return true;
        }
      }
      NotFound(routes, staticPaths, parameterizedPaths, path);
      return false;
    }
  }

  lemma FoundStatic(routes: seq<Str>, statics: set<Str>, expressions: seq<seq<Atom>>, path: Str)
    requires Holds(routes, statics, expressions) && path in statics
    ensures AnyAccepts(routes, path)
  {
    var k :| 0 <= k < |routes| && routes[k] == path;
    assert Accepts(routes[k], path);
  }

  lemma FoundByExpression(routes: seq<Str>, atoms: seq<Atom>, path: Str)
    requires CompiledFrom(routes, atoms) && Matches(atoms, path)
    ensures AnyAccepts(routes, path)
  {
    var r :| r in routes && '{' in r && atoms == AtomsOf(ReplaceParams(r));
    var k :| 0 <= k < |routes| && routes[k] == r;
    assert Accepts(routes[k], path);
  }

  lemma NotFound(routes: seq<Str>, statics: set<Str>, expressions: seq<seq<Atom>>, path: Str)
    requires Holds(routes, statics, expressions) && path !in statics
    requires forall j :: 0 <= j < |expressions| ==> !Matches(expressions[j], path)
    ensures !AnyAccepts(routes, path)
  {
    forall k | 0 <= k < |routes|
      ensures !Accepts(routes[k], path)
    {
      var r := routes[k];
      if '{' in r {
        assert AtomsOf(ReplaceParams(r)) in expressions;
      }
    }
  }

  /** For routes with whole-segment parameters, the matcher finds a path if and only if some added
      route has as many segments, the same literals, and a non-empty part for each parameter. */
  lemma FoundSegmentwise(routes: seq<Str>, path: Str)
    requires forall k :: 0 <= k < |routes| ==> GoodRoute(routes[k])
    ensures AnyAccepts(routes, path) <==> exists k :: 0 <= k < |routes| && RouteMatches(routes[k], path)
  {
    forall k | 0 <= k < |routes|
      ensures Accepts(routes[k], path) <==> RouteMatches(routes[k], path)
    {
      AcceptsSegmentwise(routes[k], path);
    }
  }
}
