/** How pkg/gateway/routes_matcher.go turns a route template into a regular expression: parameters
    become a placeholder, the text is quoted, and the placeholder becomes a character class.  The
    strings are built as the code builds them; the regular expression is then read back. */
module RoutePatterns {
  import opened Common
  import opened ByteStrings

  // ----- Building the pattern -----

  predicate Brace(c: Octet) {
    c == '{' || c == '}'
  }

  /** Length of the longest prefix without braces. */
  function NameLen(s: Str): (n: nat)
    ensures n <= |s|
  {
    if s == [] || Brace(s[0]) then 0 else 1 + NameLen(s[1..])
  }

  /** Length of the parameter that `s` starts with, by the expression \\{[^{}]+\\}; 0 if none. */
  function ParamLen(s: Str): (n: nat)
    ensures n <= |s|
  {
    if s == [] || s[0] != '{' then 0
    else
      var n := NameLen(s[1..]);
      if n > 0 && 1 + n < |s| && s[1 + n] == '}' then n + 2 else 0
  }

  const PLACEHOLDER_LENGTH := 10

  /** The placeholder: ten times the letter X. */
  function Placeholder(): (p: Str)
    ensures |p| == PLACEHOLDER_LENGTH && forall i :: 0 <= i < |p| ==> p[i] == 'X'
  {
    seq(PLACEHOLDER_LENGTH, _ => 'X')
  }

  lemma PlaceholderIs(p: Str)
    requires p == "XXXXXXXXXX"
    ensures Placeholder() == p
  {
  }

  function ReplaceParams(s: Str): Str
    decreases |s|
  {
    var n := ParamLen(s);
    if s == [] then []
    else if n > 0 then Placeholder() + ReplaceParams(s[n..])
    else [s[0]] + ReplaceParams(s[1..])
  }

  predicate Meta(c: Octet) {
    c in {'\\', '.', '+', '*', '?', '(', ')', '|', '[', ']', '{', '}', '^', '$'}
  }

  function QuoteByte(c: Octet): Str {
    if Meta(c) then ['\\', c] else [c]
  }

  /** regexp.QuoteMeta. */
  function QuoteMeta(s: Str): Str {
    if s == [] then [] else QuoteByte(s[0]) + QuoteMeta(s[1..])
  }

  predicate StartsWithPlaceholder(s: Str) {
    |s| >= PLACEHOLDER_LENGTH && forall i :: 0 <= i < PLACEHOLDER_LENGTH ==> s[i] == 'X'
  }

  function Class(): Str {
    ['[', '^', '/', ']', '+']
  }

  /** strings.ReplaceAll of the placeholder by the class. */
  function ReplacePlaceholders(s: Str): Str
    decreases |s|
  {
    if StartsWithPlaceholder(s) then Class() + ReplacePlaceholders(s[PLACEHOLDER_LENGTH..])
    else if s == [] then []
    else [s[0]] + ReplacePlaceholders(s[1..])
  }

  function Pattern(path: Str): Str {
    ReplacePlaceholders(['^'] + QuoteMeta(ReplaceParams(path)) + ['$'])
  }

  // ----- Reading the pattern -----

  datatype Atom = Lit(c: Octet) | NonSlashes

  /** The characters that mean something in a regular expression, by the syntax of RE2. */
  predicate Special(c: Octet) {
    c in "\\.+*?()|[]{}^$"
  }

  /** QuoteMeta quotes exactly those. */
  lemma QuotesSpecial(c: Octet)
    ensures Meta(c) <==> Special(c)
  {
  }

  /** The part of the regular-expression syntax that such patterns use. */
  function ParseBody(s: Str): Option<seq<Atom>>
    decreases |s|
  {
    if s == [] then Some([])
    else if Class() <= s then Prepend(NonSlashes, ParseBody(s[5..]))
    else if s[0] == '\\' && |s| >= 2 && Special(s[1]) then Prepend(Lit(s[1]), ParseBody(s[2..]))
    else if !Special(s[0]) then Prepend(Lit(s[0]), ParseBody(s[1..]))
    else None
  }

  function Prepend(a: Atom, rest: Option<seq<Atom>>): Option<seq<Atom>> {
    if rest.None? then None else Some([a] + rest.value)
  }

  /** The anchored expression: ^ body $. */
  function Compile(p: Str): Option<seq<Atom>> {
    if |p| >= 2 && p[0] == '^' && p[|p| - 1] == '$' then ParseBody(p[1..|p| - 1]) else None
  }

  /** What the expression matches. */
  predicate Matches(atoms: seq<Atom>, p: Str)
    decreases |atoms|
  {
    if atoms == [] then p == []
    else
      match atoms[0]
      case Lit(c) => p != [] && p[0] == c && Matches(atoms[1..], p[1..])
      case NonSlashes => exists k :: 1 <= k <= |p| && '/' !in p[..k] && Matches(atoms[1..], p[k..])
  }

  // ----- Every template compiles -----

  /** The atoms of a template text in which parameters are already placeholders. */
  function AtomsOf(t: Str): seq<Atom>
    decreases |t|
  {
    if StartsWithPlaceholder(t) then [NonSlashes] + AtomsOf(t[PLACEHOLDER_LENGTH..])
    else if t == [] then []
    else [Lit(t[0])] + AtomsOf(t[1..])
  }

  lemma QuotedX(t: Str)
    requires QuoteMeta(t) != [] && QuoteMeta(t)[0] == 'X'
    ensures t != [] && t[0] == 'X' && QuoteMeta(t)[1..] == QuoteMeta(t[1..])
  {
    assert t != [];
    assert QuoteByte(t[0]) == [t[0]];
  }

  /** Leading Xs of quoted text are leading Xs of the text. */
  lemma {:induction false} QuotedXs(t: Str, n: nat)
    requires n <= |QuoteMeta(t)| && forall i :: 0 <= i < n ==> QuoteMeta(t)[i] == 'X'
    ensures n <= |t| && forall i :: 0 <= i < n ==> t[i] == 'X'
    decreases n
  {
    if n > 0 {
      QuotedX(t);
      var q, rest := QuoteMeta(t), QuoteMeta(t[1..]);
      assert rest == q[1..];
      assert forall i :: 0 <= i < n - 1 ==> rest[i] == q[i + 1];
      QuotedXs(t[1..], n - 1);
      assert forall i :: 1 <= i < n ==> t[i] == t[1..][i - 1];
    }
  }

  lemma {:induction false} AfterXs(t: Str, n: nat)
    requires n <= |t| && forall i :: 0 <= i < n ==> t[i] == 'X'
    ensures n <= |QuoteMeta(t)| && QuoteMeta(t)[n..] == QuoteMeta(t[n..])
    decreases n
  {
    if n > 0 {
      AfterXs(t[1..], n - 1);
      var q, rest := QuoteMeta(t), QuoteMeta(t[1..]);
      assert q == ['X'] + rest;
      assert t[1..][n - 1..] == t[n..];
      assert q[n..] == rest[n - 1..];
    }
  }

  lemma {:induction false} XsQuoted(t: Str, n: nat)
    requires n <= |t| && forall i :: 0 <= i < n ==> t[i] == 'X'
    ensures n <= |QuoteMeta(t)| && forall i :: 0 <= i < n ==> QuoteMeta(t)[i] == 'X'
    decreases n
  {
    if n > 0 {
      XsQuoted(t[1..], n - 1);
      assert QuoteMeta(t) == ['X'] + QuoteMeta(t[1..]);
    }
  }

  /** Quoting neither hides nor invents a placeholder. */
  lemma PlaceholderQuoted(t: Str)
    ensures StartsWithPlaceholder(QuoteMeta(t)) <==> StartsWithPlaceholder(t)
    ensures StartsWithPlaceholder(t) ==> QuoteMeta(t)[PLACEHOLDER_LENGTH..] == QuoteMeta(t[PLACEHOLDER_LENGTH..])
  {
    if StartsWithPlaceholder(t) {
      XsQuoted(t, PLACEHOLDER_LENGTH);
      AfterXs(t, PLACEHOLDER_LENGTH);
    }
    if StartsWithPlaceholder(QuoteMeta(t)) {
      QuotedXs(t, PLACEHOLDER_LENGTH);
    }
  }

  lemma {:induction false} BodyParses(t: Str)
    ensures ParseBody(ReplacePlaceholders(QuoteMeta(t))) == Some(AtomsOf(t))
    decreases |t|
  {
    PlaceholderQuoted(t);
    var q := QuoteMeta(t);
    if StartsWithPlaceholder(t) {
      var rest := ReplacePlaceholders(q[PLACEHOLDER_LENGTH..]);
      BodyParses(t[PLACEHOLDER_LENGTH..]);
      assert (Class() + rest)[5..] == rest;
    } else if t != [] {
      var rest := ReplacePlaceholders(QuoteMeta(t[1..]));
      BodyParses(t[1..]);
      StepOver(t);
      ParseByte(t[0], rest);
    }
  }

  /** One text byte passes through the replacement with its quoting. */
  lemma StepOver(t: Str)
    requires t != [] && !StartsWithPlaceholder(t)
    ensures ReplacePlaceholders(QuoteMeta(t)) == QuoteByte(t[0]) + ReplacePlaceholders(QuoteMeta(t[1..]))
  {
    if Meta(t[0]) {
      MetaPassesOver(t[0], QuoteMeta(t[1..]));
    } else {
      PlaceholderQuoted(t);
      assert QuoteMeta(t)[1..] == QuoteMeta(t[1..]);
    }
  }

  lemma MetaPassesOver(c: Octet, rest: Str)
    requires Meta(c)
    ensures ReplacePlaceholders(['\\', c] + rest) == ['\\', c] + ReplacePlaceholders(rest)
  {
    PassOver('\\', [c] + rest);
    PassOver(c, rest);
    assert ['\\', c] + rest == ['\\'] + ([c] + rest);
    assert ['\\', c] + ReplacePlaceholders(rest) == ['\\'] + ([c] + ReplacePlaceholders(rest));
  }

  lemma PassOver(c: Octet, rest: Str)
    requires c != 'X'
    ensures ReplacePlaceholders([c] + rest) == [c] + ReplacePlaceholders(rest)
  {
    var s := [c] + rest;
    assert s[0] == c && s[1..] == rest;
  }

  lemma ParseByte(c: Octet, rest: Str)
    ensures ParseBody(QuoteByte(c) + rest) == Prepend(Lit(c), ParseBody(rest))
  {
    var s := QuoteByte(c) + rest;
    if Meta(c) {
      assert s[0] == '\\' && s[1] == c && s[2..] == rest;
    } else {
      assert s[0] == c && s[1..] == rest;
    }
  }

  lemma {:induction false} ReplaceBefore(a: Str, c: Octet)
    requires c != 'X'
    ensures ReplacePlaceholders(a + [c]) == ReplacePlaceholders(a) + [c]
    decreases |a|
  {
    var s := a + [c];
    if StartsWithPlaceholder(a) {
      ReplaceBefore(a[PLACEHOLDER_LENGTH..], c);
      assert s[PLACEHOLDER_LENGTH..] == a[PLACEHOLDER_LENGTH..] + [c];
      assert StartsWithPlaceholder(s);
    } else {
      assert !StartsWithPlaceholder(s) by {
        NotAcross(a, c, []);
      }
      if a == [] {
        assert s[1..] == [];
      } else {
        ReplaceBefore(a[1..], c);
        assert s[1..] == a[1..] + [c];
      }
    }
  }

  /** A placeholder cannot reach across a byte other than X. */
  lemma NotAcross(a: Str, c: Octet, b: Str)
    requires c != 'X'
    ensures StartsWithPlaceholder(a + [c] + b) <==> StartsWithPlaceholder(a)
  {
    var s := a + [c] + b;
    assert s[|a|] == c;
    assert forall i :: 0 <= i < |a| ==> s[i] == a[i];
  }

  /** The expression built for any template compiles, to the atoms of its text. */
  lemma TemplateCompiles(path: Str)
    ensures Compile(Pattern(path)) == Some(AtomsOf(ReplaceParams(path)))
  {
    var q := QuoteMeta(ReplaceParams(path));
    var body := ReplacePlaceholders(q);
    var s := ['^'] + q + ['$'];
    ReplaceBefore(['^'] + q, '$');
    assert (['^'] + q)[0] == '^';
    assert (['^'] + q)[1..] == q;
    assert ReplacePlaceholders(['^'] + q) == ['^'] + body;
    assert Pattern(path) == ['^'] + body + ['$'];
    assert (['^'] + body + ['$'])[1..|body| + 1] == body;
    BodyParses(ReplaceParams(path));
  }
}
