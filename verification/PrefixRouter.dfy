/** Choosing the route of a request path. */
module PrefixRouter {
  import opened Text
  import opened Ordered

  predicate IsPrefixMatch(route: string, path: string) {
    if route == "/" then true
    else if |path| < |route| then false
    else if path[..|route|] != route then false
    else |route| == |path| || path[|route|] == '/'
  }

  /** One more character in front of some pieces. */
  function Extend(c: char, parts: seq<string>): (r: seq<string>)
    requires parts != []
    ensures r != []
  {
    if c == '/' then [""] + parts else [[c] + parts[0]] + parts[1..]
  }

  /** The pieces of a text between slashes; there is one more than there are slashes. */
  function Split(s: string): (parts: seq<string>)
    ensures parts != []
  {
    if s == "" then [""] else Extend(s[0], Split(s[1..]))
  }

  function Join(parts: seq<string>): string
    requires parts != []
  {
    if |parts| == 1 then parts[0] else parts[0] + ("/" + Join(parts[1..]))
  }

  lemma JoinHead(c: char, parts: seq<string>)
    requires parts != []
    ensures Join([[c] + parts[0]] + parts[1..]) == [c] + Join(parts)
  {
    var q := [[c] + parts[0]] + parts[1..];
    assert q[1..] == parts[1..];
    if |parts| > 1 {
      assert ([c] + parts[0]) + ("/" + Join(parts[1..])) == [c] + (parts[0] + ("/" + Join(parts[1..])));
    }
  }

  /** A text is its pieces joined by slashes. */
  lemma {:induction false} JoinSplit(s: string)
    ensures Join(Split(s)) == s
  {
    if s != "" {
      var rest := Split(s[1..]);
      JoinSplit(s[1..]);
      assert s == [s[0]] + s[1..];
      if s[0] == '/' {
        assert Split(s)[1..] == rest;
        assert "" + ("/" + Join(rest)) == "/" + Join(rest);
      } else {
        JoinHead(s[0], rest);
      }
    }
  }

  lemma {:induction false} JoinConcat(a: seq<string>, b: seq<string>)
    requires a != [] && b != []
    ensures Join(a + b) == Join(a) + ("/" + Join(b))
  {
    if |a| == 1 {
      assert (a + b)[1..] == b;
    } else {
      assert (a + b)[1..] == a[1..] + b;
      JoinConcat(a[1..], b);
      assert a[0] + ("/" + (Join(a[1..]) + ("/" + Join(b)))) == a[0] + ("/" + Join(a[1..])) + ("/" + Join(b));
    }
  }

  lemma SplitInjective(a: string, b: string)
    requires Split(a) == Split(b)
    ensures a == b
  {
    JoinSplit(a);
    JoinSplit(b);
  }

  lemma SplitStep(c: char, s: string)
    ensures Split([c] + s) == Extend(c, Split(s))
  {
    assert ([c] + s)[1..] == s;
  }

  lemma ExtendConcat(c: char, p: seq<string>, q: seq<string>)
    requires p != []
    ensures Extend(c, p + q) == Extend(c, p) + q
  {
    if c == '/' {
      assert [""] + (p + q) == ([""] + p) + q;
    } else {
      assert (p + q)[1..] == p[1..] + q;
      assert [[c] + p[0]] + (p[1..] + q) == ([[c] + p[0]] + p[1..]) + q;
    }
  }

  lemma {:induction false} SplitConcat(a: string, b: string)
    ensures Split(a + ("/" + b)) == Split(a) + Split(b)
  {
    if a == "" {
      assert a + ("/" + b) == ['/'] + b;
      SplitStep('/', b);
    } else {
      var c, d := a[0], a[1..];
      assert a + ("/" + b) == [c] + (d + ("/" + b));
      SplitStep(c, d + ("/" + b));
      SplitConcat(d, b);
      ExtendConcat(c, Split(d), Split(b));
    }
  }

  /** The segments that a route stands for; the route `/` stands for the empty one in front. */
  function Segments(route: string): seq<string> {
    if route == "/" then [""] else Split(route)
  }

  ghost predicate ListPrefix(a: seq<string>, b: seq<string>) {
    |a| <= |b| && b[..|a|] == a
  }

  lemma ExtensionText(route: string, path: string)
    requires |route| < |path| && path[..|route|] == route && path[|route|] == '/'
    ensures path == route + ("/" + path[|route| + 1..])
  {
  }

  lemma ExtensionParts(route: string, path: string, tail: string)
    requires path == route + ("/" + tail)
    ensures |route| < |path| && path[..|route|] == route && path[|route|] == '/'
  {
  }

  lemma SplitOfExtension(route: string, path: string)
    requires |route| < |path| && path[..|route|] == route && path[|route|] == '/'
    ensures ListPrefix(Split(route), Split(path)) && |Split(route)| < |Split(path)|
  {
    var tail := path[|route| + 1..];
    ExtensionText(route, path);
    SplitConcat(route, tail);
    AppendIsLonger(Split(route), Split(tail));
  }

  lemma AppendIsLonger(a: seq<string>, b: seq<string>)
    requires b != []
    ensures ListPrefix(a, a + b) && |a| < |a + b|
  {
  }

  lemma PrefixSplits(a: seq<string>, b: seq<string>)
    requires ListPrefix(a, b)
    ensures b == a + b[|a|..]
  {
  }

  lemma ExtensionOfSplit(route: string, path: string)
    requires |Split(route)| < |Split(path)| && ListPrefix(Split(route), Split(path))
    ensures |route| < |path| && path[..|route|] == route && path[|route|] == '/'
  {
    var parts, all := Split(route), Split(path);
    var more := all[|parts|..];
    PrefixSplits(parts, all);
    JoinSplit(route);
    JoinSplit(path);
    JoinConcat(parts, more);
    ExtensionParts(route, path, Join(more));
  }

  /** A route matches itself, every path that goes on behind it with a slash, and, if it is `/`,
      everything. */
  lemma MatchMeans(route: string, path: string)
    ensures IsPrefixMatch(route, path) <==>
            route == "/" || path == route || exists rest :: path == route + ("/" + rest)
  {
    if IsPrefixMatch(route, path) && route != "/" && path != route {
      ExtensionText(route, path);
    }
    if rest :| path == route + ("/" + rest) {
      ExtensionParts(route, path, rest);
    }
  }

  /** A route other than `/` matches exactly when its pieces are the first pieces of the path. */
  lemma MatchIsSegmentPrefix(route: string, path: string)
    requires route != "/"
    ensures IsPrefixMatch(route, path) <==> ListPrefix(Split(route), Split(path))
  {
    if IsPrefixMatch(route, path) {
      if |route| == |path| {
        assert path == route;
      } else {
        SplitOfExtension(route, path);
      }
    }
    if ListPrefix(Split(route), Split(path)) {
      if |Split(route)| == |Split(path)| {
        assert Split(path) == Split(route);
        SplitInjective(route, path);
      } else {
        ExtensionOfSplit(route, path);
      }
    }
  }

  /** For a path that begins with a slash the route `/` is no exception. */
  lemma MatchIsPrefixOfSegments(route: string, path: string)
    requires path != "" && path[0] == '/'
    ensures IsPrefixMatch(route, path) <==> ListPrefix(Segments(route), Split(path))
  {
    if route == "/" {
      assert Split(path)[..1] == [""];
    } else {
      MatchIsSegmentPrefix(route, path);
    }
  }

  /** The loop over the routing table: a longer match replaces a shorter one. */
  function BestPrefix(routes: seq<string>, path: string): (best: Option<string>)
  {
    if routes == [] then None
    else
      var n := |routes| - 1;
      var best := BestPrefix(routes[..n], path);
      if IsPrefixMatch(routes[n], path) && (best.None? || |routes[n]| > |best.value|)
      then Some(routes[n]) else best
  }

  lemma {:induction false} BestPrefixIsLongest(routes: seq<string>, path: string)
    ensures BestPrefix(routes, path).None? <==> forall r :: r in routes ==> !IsPrefixMatch(r, path)
    ensures var best := BestPrefix(routes, path);
            best.Some? ==> best.value in routes && IsPrefixMatch(best.value, path)
    ensures var best := BestPrefix(routes, path);
            best.Some? ==> forall r :: r in routes && IsPrefixMatch(r, path) ==> |r| <= |best.value|
  {
    if routes != [] {
      var n := |routes| - 1;
      BestPrefixIsLongest(routes[..n], path);
      assert routes == routes[..n] + [routes[n]];
    }
  }

  lemma MatchesAreNested(a: string, b: string, path: string)
    requires path != "" && path[0] == '/'
    requires a != "" && b != "" && |a| <= |b|
    requires IsPrefixMatch(a, path) && IsPrefixMatch(b, path)
    ensures ListPrefix(Segments(a), Segments(b))
    ensures |a| == |b| ==> a == b
    ensures a != b ==> |Segments(a)| < |Segments(b)|
  {
    MatchIsPrefixOfSegments(a, path);
    MatchIsPrefixOfSegments(b, path);
    var p := Split(path);
    assert a == path[..|a|] && b == path[..|b|] by {
      assert path[..1] == "/";
    }
    if a != b {
      assert b != "/" && b[0] == '/';
      if a == "/" {
        SplitStep('/', b[1..]);
        assert b == ['/'] + b[1..];
        assert Split(b)[0] == "";
      } else {
        assert b[|a|] == path[|a|] == '/';
        assert b[..|a|] == a;
        SplitOfExtension(a, b);
      }
    }
  }

  /** For a path that begins with a slash, and whatever the order in which the table is walked,
      the route chosen is the one match with the most segments. */
  lemma BestPrefixIsMostSpecific(routes: seq<string>, path: string, r: string)
    requires path != "" && path[0] == '/' && "" !in routes
    requires r in routes && IsPrefixMatch(r, path)
    ensures var best := BestPrefix(routes, path);
            && best.Some?
            && ListPrefix(Segments(r), Segments(best.value))
            && (r != best.value ==> |Segments(r)| < |Segments(best.value)|)
  {
    BestPrefixIsLongest(routes, path);
    MatchesAreNested(r, BestPrefix(routes, path).value, path);
  }

  // ---------- when the order of the table matters ----------

  ghost predicate SameElements(a: seq<string>, b: seq<string>) {
    forall r :: r in a <==> r in b
  }

  ghost predicate NoLongerMatch(routes: seq<string>, path: string, n: nat) {
    forall r :: r in routes && IsPrefixMatch(r, path) ==> |r| <= n
  }

  /** Two different routes of one length can match only a path that does not begin with a slash: the
      route `/`, and the route that is the path's first character. */
  lemma EqualMatches(a: string, b: string, path: string)
    requires IsPrefixMatch(a, path) && IsPrefixMatch(b, path) && |a| == |b| && a != b
    ensures path != "" && path[0] != '/'
    ensures (a == "/" && b == [path[0]]) || (b == "/" && a == [path[0]])
  {
    var r := if a == "/" then b else a;
    assert path[..|r|] == r;
  }

  /** Both routes that can match at one length do, and no longer one does. */
  ghost predicate Tie(routes: seq<string>, path: string) {
    && path != "" && path[0] != '/'
    && "/" in routes && [path[0]] in routes && IsPrefixMatch([path[0]], path)
    && NoLongerMatch(routes, path, 1)
  }

  /** The first of the longest matches is chosen. */
  lemma {:induction false} BestPrefixIsFirst(routes: seq<string>, path: string, i: nat)
    requires i < |routes| && IsPrefixMatch(routes[i], path)
    requires forall j :: 0 <= j < |routes| && IsPrefixMatch(routes[j], path) ==>
               |routes[j]| <= |routes[i]| && (j < i ==> |routes[j]| < |routes[i]|)
    ensures BestPrefix(routes, path) == Some(routes[i])
    decreases |routes|
  {
    var n := |routes| - 1;
    if i < n {
      BestPrefixIsFirst(routes[..n], path, i);
    } else {
      BestPrefixIsLongest(routes[..n], path);
    }
  }

  lemma TieGoesToTheFirst(routes: seq<string>, path: string, r: string)
    requires Tie(routes, path) && (r == "/" || r == [path[0]])
    ensures SameElements(routes, [r] + routes) && BestPrefix([r] + routes, path) == Some(r)
  {
    forall x ensures x in [r] + routes <==> x in routes {
    }
    BestPrefixIsFirst([r] + routes, path, 0);
  }

  lemma WithoutTie(a: seq<string>, b: seq<string>, path: string)
    requires SameElements(a, b) && BestPrefix(a, path) != BestPrefix(b, path)
    ensures Tie(a, path)
  {
    BestPrefixIsLongest(a, path);
    BestPrefixIsLongest(b, path);
    EqualMatches(BestPrefix(a, path).value, BestPrefix(b, path).value, path);
  }

  /** The choice depends on the order of the table exactly in a tie. */
  lemma OrderMattersInTiesOnly(routes: seq<string>, path: string)
    ensures (forall b :: SameElements(routes, b) ==> BestPrefix(b, path) == BestPrefix(routes, path))
            <==> !Tie(routes, path)
  {
    if Tie(routes, path) {
      TieGoesToTheFirst(routes, path, "/");
      TieGoesToTheFirst(routes, path, [path[0]]);
      assert BestPrefix(["/"] + routes, path) != BestPrefix([[path[0]]] + routes, path);
    } else {
      forall b | SameElements(routes, b) ensures BestPrefix(b, path) == BestPrefix(routes, path) {
        if BestPrefix(b, path) != BestPrefix(routes, path) {
          WithoutTie(routes, b, path);
        }
      }
    }
  }

  lemma BestPrefixIgnoresOrder(a: seq<string>, b: seq<string>, path: string)
    requires SameElements(a, b) && !Tie(a, path)
    ensures BestPrefix(a, path) == BestPrefix(b, path)
  {
    OrderMattersInTiesOnly(a, path);
  }

  lemma LexOfCharacters(c: char, d: char)
    ensures LexLe([c], [d]) <==> c <= d
  {
    assert LexLe([c][1..], [d][1..]);
  }

  lemma OtherMatchesAreNotOne(r: string, path: string)
    requires path != "" && IsPrefixMatch(r, path)
    ensures r != "/" && r != [path[0]] ==> |r| != 1
  {
    if r != "/" {
      assert r == path[..|r|];
    }
  }

  lemma RootIsFirstInTie(keys: seq<string>, path: string)
    requires Sorted(keys) && Tie(keys, path)
    ensures BestPrefix(keys, path) == Some(if path[0] > '/' then "/" else [path[0]])
  {
    var first, second := if path[0] > '/' then "/" else [path[0]], if path[0] > '/' then [path[0]] else "/";
    var i: nat :| i < |keys| && keys[i] == first;
    var k: nat :| k < |keys| && keys[k] == second;
    LexOfCharacters(second[0], first[0]);
    assert second == [second[0]] && first == [first[0]];
    assert i < k;
    forall j | 0 <= j < |keys| && IsPrefixMatch(keys[j], path)
      ensures |keys[j]| <= |keys[i]| && (j < i ==> |keys[j]| < |keys[i]|)
    {
      OtherMatchesAreNotOne(keys[j], path);
    }
    BestPrefixIsFirst(keys, path, i);
  }

  /** In a table in its own order, the route `/` is preferred to another match exactly when that one
      is a single character behind the slash in that order and nothing longer matches. */
  lemma RootBeatsExactRoute(table: set<string>, path: string)
    ensures var keys := SortedKeys(table);
            BestPrefix(keys, path) == Some("/") && (exists r :: r in table - {"/", ""} && IsPrefixMatch(r, path))
            <==> Tie(keys, path) && path[0] > '/'
  {
    var keys := SortedKeys(table);
    BestPrefixIsLongest(keys, path);
    if Tie(keys, path) {
      RootIsFirstInTie(keys, path);
      assert [path[0]] in table - {"/", ""};
    }
    if BestPrefix(keys, path) == Some("/") {
      forall r | r in table - {"/", ""} && IsPrefixMatch(r, path) ensures Tie(keys, path) {
        EqualMatches(r, "/", path);
      }
    }
  }

  /** A real table on which the exact route loses. */
  lemma ExactRouteLoses()
    ensures BestPrefix(SortedKeys({"/", "x"}), "x") == Some("/")
  {
    var keys := SortedKeys({"/", "x"});
    assert "x"[0] == 'x' && ["x"[0]] == "x";
    forall r | r in keys ensures |r| <= 1 {
      assert r in {"/", "x"};
    }
    assert Tie(keys, "x");
    RootIsFirstInTie(keys, "x");
  }

  // ---------- the route with the most segments ----------

  lemma MatchSegments(r: string, path: string)
    requires IsPrefixMatch(r, path)
    ensures r != "/" ==> |Segments(r)| <= |Split(path)| && Segments(r) == Split(path)[..|Segments(r)|]
    ensures r == "/" ==> |Segments(r)| == 1
  {
    if r != "/" {
      MatchIsSegmentPrefix(r, path);
    }
  }

  lemma ShortRoutes(r: string)
    requires |r| <= 1
    ensures |Segments(r)| == 1
  {
    if |r| == 1 {
      assert r == [r[0]] && r[1..] == "";
      assert Split("") == [""] && [""][1..] == [];
    }
  }

  /** A longer match has at least as many segments. */
  lemma LongerHasMoreSegments(a: string, b: string, path: string)
    requires IsPrefixMatch(a, path) && IsPrefixMatch(b, path) && |a| <= |b|
    ensures |Segments(a)| <= |Segments(b)|
  {
    if b == "/" {
      ShortRoutes(a);
    } else if a != "/" && |a| < |b| {
      assert b == path[..|b|] && a == path[..|a|];
      assert b[|a|] == path[|a|] == '/' && b[..|a|] == a;
      SplitOfExtension(a, b);
    } else if a != "/" {
      assert a == path[..|a|] == b;
    }
  }

  lemma {:induction false} FirstPiece(s: string)
    ensures '/' !in Split(s)[0]
    ensures Split(Split(s)[0]) == [Split(s)[0]]
  {
    if s != "" {
      FirstPiece(s[1..]);
      if s[0] != '/' {
        var p := Split(s[1..])[0];
        SplitStep(s[0], p);
        assert Split(s)[0] == [s[0]] + p && [p][1..] == [];
      }
    }
  }

  lemma FirstPieceMatches(path: string)
    ensures Split(path)[0] != "/" && IsPrefixMatch(Split(path)[0], path)
  {
    FirstPiece(path);
    assert Split(path)[..1] == [Split(path)[0]];
    MatchIsSegmentPrefix(Split(path)[0], path);
  }

  lemma EqualSegments(a: string, b: string, path: string)
    requires IsPrefixMatch(a, path) && IsPrefixMatch(b, path) && a != b && |Segments(a)| == |Segments(b)|
    ensures (a == "/" && b == Split(path)[0]) || (b == "/" && a == Split(path)[0])
    ensures |Segments(a)| == 1
  {
    MatchSegments(a, path);
    MatchSegments(b, path);
    if a != "/" && b != "/" {
      SplitInjective(a, b);
    }
    JoinSplit(a);
    JoinSplit(b);
  }

  /** The route `/` and the first piece of the path are both routes, and nothing more specific matches. */
  ghost predicate Contested(routes: seq<string>, path: string) {
    && "/" in routes && Split(path)[0] in routes
    && forall r :: r in routes && IsPrefixMatch(r, path) ==> |Segments(r)| == 1
  }

  ghost predicate MostSegments(routes: seq<string>, path: string, best: string) {
    forall r :: r in routes && IsPrefixMatch(r, path) && r != best ==> |Segments(r)| < |Segments(best)|
  }

  /** For every table and path the route chosen has as many segments as any other match, and it is
      the only one with so many exactly when the choice is not contested. */
  lemma BestPrefixHasMostSegments(routes: seq<string>, path: string)
    requires BestPrefix(routes, path).Some?
    ensures var best := BestPrefix(routes, path).value;
            && (forall r :: r in routes && IsPrefixMatch(r, path) ==> |Segments(r)| <= |Segments(best)|)
            && (MostSegments(routes, path, best) <==> !Contested(routes, path))
  {
    BestPrefixIsLongest(routes, path);
    var best := BestPrefix(routes, path).value;
    forall r | r in routes && IsPrefixMatch(r, path) ensures |Segments(r)| <= |Segments(best)| {
      LongerHasMoreSegments(r, best, path);
    }
    FirstPieceMatches(path);
    forall r | r in routes && IsPrefixMatch(r, path) && r != best && |Segments(r)| == |Segments(best)|
      ensures Contested(routes, path)
    {
      EqualSegments(r, best, path);
      forall x | x in routes && IsPrefixMatch(x, path) ensures |Segments(x)| == 1 {
        assert |Segments(x)| <= |Segments(best)| && Segments(x) != [];
      }
    }
    if Contested(routes, path) {
      var other := if best == "/" then Split(path)[0] else "/";
      assert other in routes && IsPrefixMatch(other, path) && other != best;
    }
  }

  /** The loop itself. */
  method FindBestPrefix(routes: seq<string>, path: string) returns (best: Option<string>)
    ensures best == BestPrefix(routes, path)
  {
    best := None;
    for i := 0 to |routes|
      invariant best == BestPrefix(routes[..i], path)
    {
      assert routes[..i + 1][..i] == routes[..i];
      if IsPrefixMatch(routes[i], path) && (best.None? || |routes[i]| > |best.value|) {
        best := Some(routes[i]);
      }
    }
    assert routes[..|routes|] == routes;
  }
}
