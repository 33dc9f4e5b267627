/** What a configuration loads, statement by statement. */
module LoadedTables {
  import opened Text
  import opened Numbers
  import opened ConfigLexer
  import opened ConfigTree
  import opened ConfigRoundTrip
  import opened RouteTable
  import opened ConfigLoader

  // ---------- statements of a tree ----------

  predicate IsPort(st: Statement) {
    st.tokens != [] && st.tokens[0] == "port"
  }

  /** `location path handler`, with a child block or without; other locations are skipped. */
  predicate IsServed(st: Statement) {
    |st.tokens| == 3 && st.tokens[0] == "location"
  }

  /** A path with a slash at its end, other than `/`, or in quotes. */
  predicate IsBadPath(path: string) {
    |path| >= 2
    && (path[|path| - 1] == '/'
        || (path[0] == '"' && path[|path| - 1] == '"') || (path[0] == '\'' && path[|path| - 1] == '\''))
  }

  ghost predicate ServesTwice(c: Config, i: nat, j: nat) {
    i < j < |c| && IsServed(c[i]) && IsServed(c[j]) && c[i].tokens[1] == c[j].tokens[1]
  }

  /** Some path is bad, or served twice. */
  ghost predicate Clashes(c: Config) {
    || (exists st :: st in c && IsServed(st) && IsBadPath(st.tokens[1]))
    || (exists i: nat, j: nat :: ServesTwice(c, i, j))
  }

  predicate Sets(st: Statement, key: string) {
    |st.tokens| == 2 && st.tokens[0] == key
  }

  /** Each argument is the second token of the first two-token statement for its key. */
  ghost predicate ArgumentsAre(arguments: map<string, string>, body: Config) {
    && (forall k :: k in arguments <==> exists st :: st in body && Sets(st, k))
    && (forall i, k :: 0 <= i < |body| && Sets(body[i], k) && (forall j :: 0 <= j < i ==> !Sets(body[j], k)) ==>
          k in arguments && arguments[k] == body[i].tokens[1])
  }

  /** The table for the served locations; without any, the echo handler at `/`. */
  ghost predicate TableIs(routes: RoutingMap, c: Config) {
    if forall st :: st in c ==> !IsServed(st) then routes == map["/" := RoutingPayload("EchoHandler", map[])]
    else
      && (forall path :: path in routes <==> exists st :: st in c && IsServed(st) && st.tokens[1] == path)
      && (forall st :: st in c && IsServed(st) ==>
            && st.tokens[1] in routes
            && routes[st.tokens[1]].handler == st.tokens[2]
            && ArgumentsAre(routes[st.tokens[1]].arguments, if st.Block? then st.body else []))
  }

  // ---------- groups and counts ----------

  lemma {:induction false} InGroup(c: Config, key: string, st: Statement)
    requires HasKeys(c)
    ensures st in Grouped(c, key) <==> st in c && st.tokens != [] && st.tokens[0] == key
    decreases |c|
  {
    if c != [] {
      assert c[0] in c && forall x :: x in c[1..] ==> x in c;
      InGroup(c[1..], key, st);
      assert st in c <==> st == c[0] || st in c[1..];
    }
  }

  lemma {:induction false} EmptyGroup(c: Config, key: string)
    requires HasKeys(c) && forall st :: st in c ==> st.tokens != [] && st.tokens[0] != key
    ensures Grouped(c, key) == []
    decreases |c|
  {
    if c != [] {
      assert c[0] in c && forall x :: x in c[1..] ==> x in c;
      EmptyGroup(c[1..], key);
    }
  }

  lemma FirstOfGroup(c: Config, key: string, p: nat)
    requires HasKeys(c) && p < |c| && c[p].tokens != [] && c[p].tokens[0] == key
    requires forall i :: 0 <= i < p ==> c[i].tokens != [] && c[i].tokens[0] != key
    ensures Grouped(c, key) != [] && Grouped(c, key)[0] == c[p]
  {
    GroupingIsStable(c, p);
    EmptyGroup(c[..p], key);
  }

  function CountServed(c: Config, path: string): nat {
    if c == [] then 0
    else (if IsServed(c[0]) && c[0].tokens[1] == path then 1 else 0) + CountServed(c[1..], path)
  }

  lemma {:induction false} TimesServedInTree(c: Config, path: string)
    requires HasKeys(c)
    ensures TimesServed(Grouped(c, "location"), path) == CountServed(c, path)
    decreases |c|
  {
    if c != [] {
      assert c[0] in c && forall x :: x in c[1..] ==> x in c;
      TimesServedInTree(c[1..], path);
      assert c[0].tokens[0] == "location" ==> Grouped(c, "location")[1..] == Grouped(c[1..], "location");
    }
  }

  lemma {:induction false} CountedSome(c: Config, path: string)
    ensures CountServed(c, path) > 0 <==> exists st :: st in c && IsServed(st) && st.tokens[1] == path
    decreases |c|
  {
    if c != [] {
      CountedSome(c[1..], path);
      assert forall st :: st in c <==> st == c[0] || st in c[1..];
    }
  }

  lemma {:induction false} CountedIsTwice(c: Config, path: string) returns (i: nat, j: nat)
    requires CountServed(c, path) > 1
    ensures ServesTwice(c, i, j) && c[i].tokens[1] == path
    decreases |c|
  {
    var tail := c[1..];
    if CountServed(tail, path) > 1 {
      i, j := CountedIsTwice(tail, path);
      i, j := i + 1, j + 1;
    } else {
      CountedSome(tail, path);
      var st :| st in tail && IsServed(st) && st.tokens[1] == path;
      var k: nat :| k < |tail| && tail[k] == st;
      i, j := 0, k + 1;
    }
  }

  lemma {:induction false} TwiceIsCounted(c: Config, i: nat, j: nat)
    requires ServesTwice(c, i, j)
    ensures CountServed(c, c[i].tokens[1]) > 1
    decreases |c|
  {
    var path := c[i].tokens[1];
    if i == 0 {
      CountedSome(c[1..], path);
      assert c[j] == c[1..][j - 1] && c[j] in c[1..];
    } else {
      TwiceIsCounted(c[1..], i - 1, j - 1);
    }
  }

  lemma BadPaths(path: string)
    ensures PathAllowed(path) <==> !IsBadPath(path)
  {
  }

  ghost predicate NoneTwice(c: Config) {
    forall i: nat, j: nat :: !ServesTwice(c, i, j)
  }

  lemma ServedOnce(c: Config)
    requires HasKeys(c) && NoneTwice(c)
    ensures forall path :: TimesServed(Grouped(c, "location"), path) <= 1
  {
    hide Grouped;
    hide TimesServed;
    hide CountServed;
    hide ServesTwice;
    forall path ensures TimesServed(Grouped(c, "location"), path) <= 1 {
      TimesServedInTree(c, path);
      if CountServed(c, path) > 1 {
        var i, j := CountedIsTwice(c, path);
        assert false;
      }
    }
  }

  lemma ServedAgain(c: Config, i: nat, j: nat)
    requires HasKeys(c) && ServesTwice(c, i, j)
    ensures !Acceptable(Grouped(c, "location"))
  {
    TwiceIsCounted(c, i, j);
    TimesServedInTree(c, c[i].tokens[1]);
    assert TimesServed(Grouped(c, "location"), c[i].tokens[1]) > 1;
  }

  lemma AllowedPaths(c: Config)
    requires HasKeys(c)
    ensures (forall st :: st in Grouped(c, "location") && IsLocation(st) ==> PathAllowed(st.tokens[1]))
            <==> forall st :: st in c && IsServed(st) ==> !IsBadPath(st.tokens[1])
  {
    hide PathAllowed;
    hide IsBadPath;
    hide Grouped;
    var g := Grouped(c, "location");
    forall st ensures st in g && IsLocation(st) <==> st in c && IsServed(st) {
      InGroup(c, "location", st);
    }
    forall st | st in c && IsServed(st) ensures PathAllowed(st.tokens[1]) <==> !IsBadPath(st.tokens[1]) {
      BadPaths(st.tokens[1]);
    }
  }

  lemma AcceptableTree(c: Config)
    requires HasKeys(c)
    ensures Acceptable(Grouped(c, "location")) <==> !Clashes(c)
  {
    hide PathAllowed;
    hide IsBadPath;
    hide Grouped;
    hide ServesTwice;
    AllowedPaths(c);
    if i: nat, j: nat :| ServesTwice(c, i, j) {
      ServedAgain(c, i, j);
    } else {
      ServedOnce(c);
    }
  }

  // ---------- arguments ----------

  lemma {:induction false} SomeValue(body: Config, key: string)
    ensures FirstValue(body, key).Some? <==> exists st :: st in body && Sets(st, key)
    decreases |body|
  {
    if body != [] {
      SomeValue(body[1..], key);
      if Sets(body[0], key) {
        assert body[0] in body;
      } else if st :| st in body[1..] && Sets(st, key) {
        assert st in body;
      } else {
        assert forall st :: st in body ==> st == body[0] || st in body[1..];
      }
    }
  }

  lemma {:induction false} FirstValueIs(body: Config, key: string, i: nat)
    requires i < |body| && Sets(body[i], key) && forall j :: 0 <= j < i ==> !Sets(body[j], key)
    ensures FirstValue(body, key) == Some(body[i].tokens[1])
    decreases |body|
  {
    if i > 0 {
      assert !Sets(body[0], key);
      FirstValueIs(body[1..], key, i - 1);
    }
  }

  lemma ArgumentsOfBody(arguments: map<string, string>, body: Config)
    requires AreArguments(arguments, body)
    ensures ArgumentsAre(arguments, body)
  {
    hide Sets;
    hide FirstValue;
    forall k ensures k in arguments <==> exists st :: st in body && Sets(st, k) {
      SomeValue(body, k);
    }
    forall i, k | 0 <= i < |body| && Sets(body[i], k) && (forall j :: 0 <= j < i ==> !Sets(body[j], k))
      ensures Sets(body[i], k) && |body[i].tokens| == 2 && k in arguments && arguments[k] == body[i].tokens[1]
    {
      SetsTwo(body[i], k);
      FirstValueIs(body, k, i);
      assert body[i] in body;
    }
  }

  lemma SetsTwo(st: Statement, key: string)
    requires Sets(st, key)
    ensures |st.tokens| == 2
  {
  }

  // ---------- the table ----------

  lemma ServedPayload(p: RoutingPayload, st: Statement)
    requires IsLocation(st) && IsPayload(p, st)
    ensures p.handler == st.tokens[2] && ArgumentsAre(p.arguments, if st.Block? then st.body else [])
  {
    hide ArgumentsAre;
    hide AreArguments;
    ArgumentsOfBody(p.arguments, BodyOf(st));
  }

  lemma TableOfTree(routes: RoutingMap, c: Config)
    requires HasKeys(c)
    requires var g := Grouped(c, "location");
             if NothingServed(g) then routes == DefaultRoutes() else AreRoutes(routes, g)
    ensures TableIs(routes, c)
  {
    hide ArgumentsAre;
    hide AreArguments;
    hide Grouped;
    hide TimesServed;
    hide CountServed;
    hide IsPayload;
    var g := Grouped(c, "location");
    forall path ensures TimesServed(g, path) > 0 <==> exists st :: st in c && IsServed(st) && st.tokens[1] == path {
      TimesServedInTree(c, path);
      CountedSome(c, path);
    }
    forall st ensures st in g && IsLocation(st) <==> st in c && IsServed(st) {
      InGroup(c, "location", st);
    }
    if st :| st in c && IsServed(st) {
      assert TimesServed(g, st.tokens[1]) > 0;
      forall st | st in c && IsServed(st)
        ensures st.tokens[1] in routes && routes[st.tokens[1]].handler == st.tokens[2]
        ensures st.tokens[1] in routes
          && ArgumentsAre(routes[st.tokens[1]].arguments, if st.Block? then st.body else [])
      {
        ServedPayload(routes[st.tokens[1]], st);
      }
    } else {
      assert forall path :: TimesServed(g, path) == 0;
    }
  }

  /** A tree without a port statement is refused. */
  lemma NoPortIsRefused(r: LoadResult, c: Config)
    requires HasKeys(c) && IsLoadResult(r, c) && forall st :: st in c ==> !IsPort(st)
    ensures r == Refused
  {
    EmptyGroup(c, "port");
  }

  /** Otherwise the first port statement decides on the port, and the locations on the table. */
  lemma TreeLoads(r: LoadResult, c: Config, p: nat)
    requires HasKeys(c) && IsLoadResult(r, c)
    requires p < |c| && IsPort(c[p]) && forall i :: 0 <= i < p ==> c[i].tokens != [] && !IsPort(c[i])
    ensures var port := c[p].tokens;
            && (|port| < 2 || !Stoi(port[1]).Number? ==> r == Threw)
            && (|port| >= 2 && Stoi(port[1]).Number? ==>
                 && (Clashes(c) ==> r == Refused)
                 && (!Clashes(c) ==> r.Loaded? && r.port == Stoi(port[1]).value && TableIs(r.routes, c)))
  {
    hide Stoi;
    hide Clashes;
    hide Acceptable;
    hide NothingServed;
    hide AreRoutes;
    hide DefaultRoutes;
    hide TableIs;
    FirstOfGroup(c, "port", p);
    AcceptableTree(c);
    if r.Loaded? {
      TableOfTree(r.routes, c);
    }
  }

  /** A file with a port and one location loads as exactly that. */
  lemma SmallFileLoads(r: LoadResult, port: string, path: string, handler: string, key: string, value: string)
    requires Stoi(port).Number? && !IsBadPath(path)
    requires forall w :: w in [port, path, handler, key, value] ==> Lexable(w)
    requires var c := [Leaf(["port", port]), Block(["location", path, handler], [Leaf([key, value])])];
             IsFileResult(r, ConfigText(c, 0))
    ensures r == Loaded(Stoi(port).value, map[path := RoutingPayload(handler, map[key := value])])
  {
    hide Stoi;
    hide Lexable;
    hide IsLoadResult;
    hide IsBadPath;
    hide TableIs;
    hide Clashes;
    hide ConfigText;
    var p, l := Leaf(["port", port]), Block(["location", path, handler], [Leaf([key, value])]);
    var c := [p, l];
    SmallFileIsPrintable(port, path, handler, key, value);
    ParsePrinted(c, 0);
    assert c[0] == p && c[1] == l;
    TreeLoads(r, c, 0);
    SmallFileHasNoClash(port, path, handler, key, value);
    SmallTable(r.routes, port, path, handler, key, value);
  }

  lemma KeywordsAreLexable()
    ensures Lexable("port") && Lexable("location")
  {
    assert BareWord("port") && BareWord("location");
  }

  lemma SmallFileIsPrintable(port: string, path: string, handler: string, key: string, value: string)
    requires forall w :: w in [port, path, handler, key, value] ==> Lexable(w)
    ensures Printable([Leaf(["port", port]), Block(["location", path, handler], [Leaf([key, value])])])
  {
    hide Lexable;
    KeywordsAreLexable();
    var ws := [port, path, handler, key, value];
    assert ws[0] in ws && ws[1] in ws && ws[2] in ws && ws[3] in ws && ws[4] in ws;
    assert PrintableStatement(Leaf([key, value]));
    assert Printable([Leaf([key, value])]);
    assert PrintableStatement(Leaf(["port", port]));
    assert PrintableStatement(Block(["location", path, handler], [Leaf([key, value])]));
  }

  lemma SmallFileHasNoClash(port: string, path: string, handler: string, key: string, value: string)
    requires !IsBadPath(path)
    ensures !Clashes([Leaf(["port", port]), Block(["location", path, handler], [Leaf([key, value])])])
  {
    hide IsBadPath;
  }

  lemma SmallTable(routes: RoutingMap, port: string, path: string, handler: string, key: string, value: string)
    requires TableIs(routes, [Leaf(["port", port]), Block(["location", path, handler], [Leaf([key, value])])])
    ensures routes == map[path := RoutingPayload(handler, map[key := value])]
  {
    hide ArgumentsAre;
    var p, l := Leaf(["port", port]), Block(["location", path, handler], [Leaf([key, value])]);
    var c := [p, l];
    assert !IsServed(p) && IsServed(l) && c[1] == l && l in c;
    assert forall st :: st in c ==> st == p || st == l;
    SmallArguments(routes[path].arguments, key, value);
    assert forall k :: k in routes <==> k == path;
    assert routes[path] == RoutingPayload(handler, map[key := value]);
  }

  lemma SmallArguments(arguments: map<string, string>, key: string, value: string)
    requires ArgumentsAre(arguments, [Leaf([key, value])])
    ensures arguments == map[key := value]
  {
    var body := [Leaf([key, value])];
    assert body[0] in body && Sets(body[0], key);
    assert forall k :: k in arguments ==> k == key;
  }
}
