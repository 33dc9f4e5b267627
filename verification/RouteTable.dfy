/** The routing table that the start-up code builds from a configuration tree. */
module RouteTable {
  import opened Text
  import opened Numbers
  import opened ConfigTree

  datatype RoutingPayload = RoutingPayload(handler: string, arguments: map<string, string>)

  type RoutingMap = map<string, RoutingPayload>

  /** A loaded payload, a configuration that is turned down, or an exception that leaves the loader. */
  datatype LoadResult = Loaded(port: int, routes: RoutingMap) | Refused | Threw

  ghost predicate HasKeys(c: Config) {
    forall st :: st in c ==> st.tokens != []
  }

  /** The statements whose first token is `key`, in source order. */
  function Grouped(c: Config, key: string): (g: Config)
    requires HasKeys(c)
    ensures forall st :: st in g ==> st in c && st.tokens[0] == key
  {
    if c == [] then []
    else
      assert forall st :: st in c[1..] ==> st in c;
      assert c[0] in c;
      if c[0].tokens[0] == key then [c[0]] + Grouped(c[1..], key) else Grouped(c[1..], key)
  }

  lemma {:induction false} GroupedConcat(a: Config, b: Config, key: string)
    requires HasKeys(a) && HasKeys(b)
    ensures HasKeys(a + b) && Grouped(a + b, key) == Grouped(a, key) + Grouped(b, key)
  {
    if a == [] {
      assert a + b == b;
    } else {
      assert a[0] in a;
      assert (a + b)[0] == a[0] && (a + b)[1..] == a[1..] + b;
      assert forall st :: st in a[1..] ==> st in a;
      GroupedConcat(a[1..], b, key);
    }
  }

  lemma GroupedPush(c: Config, st: Statement, key: string)
    requires HasKeys(c) && st.tokens != []
    ensures HasKeys(c + [st])
    ensures Grouped(c + [st], key) == Grouped(c, key) + (if st.tokens[0] == key then [st] else [])
  {
    GroupedConcat(c, [st], key);
    assert [st][1..] == [];
  }

  /** Grouping loses no statement and keeps the order: a statement is found in the group of its
      key, behind exactly the earlier statements of that key. */
  lemma GroupingIsStable(c: Config, i: nat)
    requires HasKeys(c) && i < |c|
    ensures c[i].tokens != [] && HasKeys(c[..i])
    ensures var key := c[i].tokens[0];
            var place := |Grouped(c[..i], key)|;
            place < |Grouped(c, key)| && Grouped(c, key)[place] == c[i]
            && Grouped(c, key)[..place] == Grouped(c[..i], key)
  {
    assert c[i] in c;
    var key := c[i].tokens[0];
    assert c == c[..i] + ([c[i]] + c[i + 1..]);
    GroupedConcat(c[..i], [c[i]] + c[i + 1..], key);
    assert ([c[i]] + c[i + 1..])[1..] == c[i + 1..];
    assert Grouped([c[i]] + c[i + 1..], key)[0] == c[i];
  }

  // ---------- the arguments of one location ----------

  /** The value of the first two-token statement for `key`. */
  function FirstValue(c: Config, key: string): Option<string> {
    if c == [] then None
    else if |c[0].tokens| == 2 && c[0].tokens[0] == key then Some(c[0].tokens[1])
    else FirstValue(c[1..], key)
  }

  lemma {:induction false} FirstValuePush(c: Config, st: Statement, key: string)
    ensures FirstValue(c + [st], key) ==
            if FirstValue(c, key).Some? then FirstValue(c, key)
            else if |st.tokens| == 2 && st.tokens[0] == key then Some(st.tokens[1]) else None
  {
    if c == [] {
      assert [] + [st] == [st] && [st][1..] == [];
    } else {
      assert (c + [st])[1..] == c[1..] + [st];
      FirstValuePush(c[1..], st, key);
    }
  }

  lemma {:induction false} FirstValueGrouped(c: Config, key: string)
    requires HasKeys(c)
    ensures FirstValue(Grouped(c, key), key) == FirstValue(c, key)
  {
    if c != [] {
      assert c[0] in c && forall st :: st in c[1..] ==> st in c;
      FirstValueGrouped(c[1..], key);
      assert c[0].tokens[0] == key ==> Grouped(c, key)[1..] == Grouped(c[1..], key);
    }
  }

  /** Every key with a two-token statement is mapped to the value of the first such statement. */
  ghost predicate AreArguments(arguments: map<string, string>, body: Config) {
    forall k :: (k in arguments <==> FirstValue(body, k).Some?)
             && (k in arguments ==> FirstValue(body, k) == Some(arguments[k]))
  }

  lemma ArgumentsUnique(a: map<string, string>, b: map<string, string>, body: Config)
    requires AreArguments(a, body) && AreArguments(b, body)
    ensures a == b
  {
    assert forall k :: k in a <==> k in b;
    forall k | k in a ensures a[k] == b[k] {
      assert FirstValue(body, k) == Some(a[k]);
    }
  }

  function BodyOf(st: Statement): Config {
    if st.Block? then st.body else []
  }

  // ---------- the locations ----------

  predicate IsQuoted(text: string) {
    |text| >= 2 && text[0] == text[|text| - 1] && (text[0] == '"' || text[0] == '\'')
  }

  predicate IsLocation(st: Statement) {
    |st.tokens| == 3
  }

  predicate PathAllowed(path: string) {
    !(|path| > 1 && path[|path| - 1] == '/') && !IsQuoted(path)
  }

  /** How many locations are served at `path`. */
  ghost function TimesServed(locations: Config, path: string): nat {
    if locations == [] then 0
    else (if IsLocation(locations[0]) && locations[0].tokens[1] == path then 1 else 0)
         + TimesServed(locations[1..], path)
  }

  ghost predicate Acceptable(locations: Config) {
    && (forall path :: TimesServed(locations, path) <= 1)
    && (forall st :: st in locations && IsLocation(st) ==> PathAllowed(st.tokens[1]))
  }

  ghost predicate IsPayload(p: RoutingPayload, st: Statement)
    requires IsLocation(st)
  {
    p.handler == st.tokens[2] && AreArguments(p.arguments, BodyOf(st))
  }

  /** `routes` has one entry for each three-token location, and no other. */
  ghost predicate AreRoutes(routes: RoutingMap, locations: Config) {
    && (forall path :: path in routes <==> TimesServed(locations, path) > 0)
    && (forall st :: st in locations && IsLocation(st) ==>
          st.tokens[1] in routes && IsPayload(routes[st.tokens[1]], st))
  }

  lemma {:induction false} TimesServedConcat(a: Config, b: Config, path: string)
    ensures TimesServed(a + b, path) == TimesServed(a, path) + TimesServed(b, path)
  {
    if a == [] {
      assert a + b == b;
    } else {
      assert (a + b)[1..] == a[1..] + b;
      TimesServedConcat(a[1..], b, path);
    }
  }

  lemma TimesServedPush(c: Config, st: Statement, path: string)
    ensures TimesServed(c + [st], path) ==
            TimesServed(c, path) + (if IsLocation(st) && st.tokens[1] == path then 1 else 0)
  {
    TimesServedConcat(c, [st], path);
    assert [st][1..] == [];
  }

  lemma {:induction false} TimesServedMember(c: Config, path: string)
    ensures TimesServed(c, path) > 0 <==> exists st :: st in c && IsLocation(st) && st.tokens[1] == path
  {
    if c != [] {
      TimesServedMember(c[1..], path);
      assert forall st :: st in c <==> st == c[0] || st in c[1..];
    }
  }

  lemma RemoveFromMiddle(left: Config, x: Statement, right: Config)
    ensures multiset(left + [x] + right) - multiset{x} == multiset(left + right)
  {
    assert multiset(left + [x] + right) == multiset(left) + multiset{x} + multiset(right);
    assert multiset(left + right) == multiset(left) + multiset(right);
  }

  lemma RemoveOne(a: Config, b: Config, j: nat)
    requires multiset(a) == multiset(b) && a != [] && j < |b| && b[j] == a[0]
    ensures multiset(a[1..]) == multiset(b[..j] + b[j + 1..])
  {
    assert a == [] + [a[0]] + a[1..] && [] + a[1..] == a[1..];
    assert b == b[..j] + [a[0]] + b[j + 1..];
    RemoveFromMiddle([], a[0], a[1..]);
    RemoveFromMiddle(b[..j], a[0], b[j + 1..]);
  }

  /** How often a path is served does not depend on the order of the locations. */
  lemma {:induction false} TimesServedPermuted(a: Config, b: Config, path: string)
    requires multiset(a) == multiset(b)
    ensures TimesServed(a, path) == TimesServed(b, path)
    decreases |a|
  {
    if a == [] {
      assert |multiset(b)| == 0;
      assert b == [];
    } else {
      assert a[0] in multiset(b);
      var j :| 0 <= j < |b| && b[j] == a[0];
      var left, right := b[..j], b[j + 1..];
      assert b == left + ([b[j]] + right);
      RemoveOne(a, b, j);
      TimesServedPermuted(a[1..], left + right, path);
      TimesServedConcat(left, right, path);
      TimesServedConcat(left, [b[j]] + right, path);
      assert ([b[j]] + right)[1..] == right;
    }
  }

  /** Routes are determined by their locations, in whatever order these are written. */
  lemma RoutesUnique(a: RoutingMap, b: RoutingMap, c: Config, d: Config)
    requires multiset(c) == multiset(d)
    requires AreRoutes(a, c) && AreRoutes(b, d)
    ensures a == b
  {
    forall path ensures path in a <==> path in b {
      TimesServedPermuted(c, d, path);
    }
    forall path | path in a ensures a[path] == b[path] {
      TimesServedMember(c, path);
      var st :| st in c && IsLocation(st) && st.tokens[1] == path;
      assert st in multiset(c) && st in d;
      ArgumentsUnique(a[path].arguments, b[path].arguments, BodyOf(st));
    }
  }

  lemma AcceptablePermuted(c: Config, d: Config)
    requires multiset(c) == multiset(d)
    ensures Acceptable(c) <==> Acceptable(d)
  {
    forall path ensures TimesServed(c, path) == TimesServed(d, path) {
      TimesServedPermuted(c, d, path);
    }
    assert forall st :: st in c <==> st in multiset(c);
    assert forall st :: st in d <==> st in multiset(d);
  }

  // ---------- the whole table ----------

  const PORT_KEY := "port"
  const LOCATION_KEY := "location"

  function DefaultRoutes(): RoutingMap {
    map["/" := RoutingPayload("EchoHandler", map[])]
  }

  /** What is read from the first `port` statement; a missing value is an exception too. */
  function PortReading(ports: Config): Reading
    requires ports != []
  {
    if |ports[0].tokens| < 2 then OutOfRange else Stoi(ports[0].tokens[1])
  }

  ghost predicate NothingServed(locations: Config) {
    forall path :: TimesServed(locations, path) == 0
  }

  lemma NothingServedPermuted(c: Config, d: Config)
    requires multiset(c) == multiset(d)
    ensures NothingServed(c) <==> NothingServed(d)
  {
    forall path ensures TimesServed(c, path) == TimesServed(d, path) {
      TimesServedPermuted(c, d, path);
    }
  }

  lemma RoutesNotEmpty(routes: RoutingMap, locations: Config)
    requires AreRoutes(routes, locations) && !NothingServed(locations)
    ensures routes != map[]
  {
    var path :| TimesServed(locations, path) != 0;
    assert path in routes;
  }

  /** The outcome that the loader must have on the tree `c`. */
  ghost predicate IsLoadResult(r: LoadResult, c: Config)
    requires HasKeys(c)
  {
    var ports, locations := Grouped(c, PORT_KEY), Grouped(c, LOCATION_KEY);
    if ports == [] then r == Refused
    else if !PortReading(ports).Number? then r == Threw
    else if !Acceptable(locations) then r == Refused
    else
      && r.Loaded?
      && r.port == PortReading(ports).value
      && (if NothingServed(locations) then r.routes == DefaultRoutes() else AreRoutes(r.routes, locations))
  }

  /** The first statement of a group, if any. */
  function FirstOf(g: Config): Option<Statement> {
    if g == [] then None else Some(g[0])
  }

  /** The outcome depends on the first `port` statement and on the locations as a collection
      only: reordering the statements otherwise changes nothing. A loaded table is never empty. */
  lemma LoadResultDetermined(r: LoadResult, s: LoadResult, c: Config, d: Config)
    requires HasKeys(c) && HasKeys(d) && IsLoadResult(r, c) && IsLoadResult(s, d)
    requires FirstOf(Grouped(c, PORT_KEY)) == FirstOf(Grouped(d, PORT_KEY))
    requires multiset(Grouped(c, LOCATION_KEY)) == multiset(Grouped(d, LOCATION_KEY))
    ensures r == s
    ensures r.Loaded? ==> r.routes != map[]
  {
    var a, b := Grouped(c, LOCATION_KEY), Grouped(d, LOCATION_KEY);
    AcceptablePermuted(a, b);
    NothingServedPermuted(a, b);
    if r.Loaded? && s.Loaded? {
      if NothingServed(a) {
        assert "/" in r.routes;
      } else {
        RoutesUnique(r.routes, s.routes, a, b);
        RoutesNotEmpty(r.routes, a);
      }
    }
  }
}
