/** The start-up code that turns a configuration file into a port and a routing table. */
module ConfigLoader {
  import opened Text
  import opened Numbers
  import opened Ordered
  import opened ConfigTree
  import opened ConfigParser
  import opened ConfigReader
  import opened ConfigObjects
  import opened ConfigRoundTrip
  import opened RouteTable

  type Statements = seq<NginxConfigStatement>

  /** The statement objects stand for the tree `c`. */
  ghost predicate Represents(statements: Statements, c: Config)
    reads *
  {
    && |statements| == |c|
    && forall i :: 0 <= i < |c| ==> statements[i].Valid() && statements[i].Model == c[i]
  }

  /** `groups` holds the statements of every first token that occurs. */
  ghost predicate AreGroups(groups: map<string, Statements>, c: Config)
    requires HasKeys(c)
    reads *
  {
    && (forall k :: k in groups <==> Grouped(c, k) != [])
    && (forall k :: k in groups ==> Represents(groups[k], Grouped(c, k)))
  }

  lemma GroupsPush(groups: map<string, Statements>, c: Config, child: NginxConfigStatement)
    requires HasKeys(c) && AreGroups(groups, c) && child.Valid() && child.Model.tokens != []
    ensures var key := child.Model.tokens[0];
            var group := if key in groups then groups[key] else [];
            HasKeys(c + [child.Model]) && AreGroups(groups[key := group + [child]], c + [child.Model])
  {
    var st := child.Model;
    var key := st.tokens[0];
    var group := if key in groups then groups[key] else [];
    GroupedPush(c, st, key);
    assert Represents(group, Grouped(c, key));
    assert Represents(group + [child], Grouped(c + [st], key));
    var after := groups[key := group + [child]];
    forall k | k != key ensures Grouped(c + [st], k) == Grouped(c, k) {
      GroupedPush(c, st, k);
    }
    forall k | k in after && k != key ensures Represents(after[k], Grouped(c + [st], k)) {
      assert Represents(groups[k], Grouped(c, k));
    }
  }

  /** Looks the statements of one level up by their first token; repeated keys are aggregated. */
  method UnrollOneLevel(statements: Statements, ghost c: Config) returns (result: map<string, Statements>)
    requires Represents(statements, c) && HasKeys(c)
    ensures AreGroups(result, c)
  {
    result := map[];
    for i := 0 to |statements|
      invariant HasKeys(c[..i])
      invariant AreGroups(result, c[..i])
    {
      var child := statements[i];
      assert child.Valid() && child.Model == c[i] && c[i] in c;
      assert c[..i + 1] == c[..i] + [c[i]];
      GroupsPush(result, c[..i], child);
      var firstToken := child.tokens[0];
      if firstToken !in result {
        result := result[firstToken := []];
      }
      result := result[firstToken := result[firstToken] + [child]];
    }
    assert c[..|statements|] == c;
  }

  /** Adds the two-token statements of one key; a key that is present is not overwritten. */
  method AddArguments(arguments: map<string, string>, key: string, stmts: Statements, ghost g: Config)
    returns (result: map<string, string>)
    requires Represents(stmts, g) && key !in arguments
    requires forall st :: st in g ==> st.tokens != [] && st.tokens[0] == key
    ensures result == if FirstValue(g, key).Some? then arguments[key := FirstValue(g, key).value] else arguments
  {
    result := arguments;
    for i := 0 to |stmts|
      invariant result == if FirstValue(g[..i], key).Some?
                          then arguments[key := FirstValue(g[..i], key).value] else arguments
    {
      assert stmts[i].Valid() && stmts[i].Model == g[i] && g[i] in g;
      assert g[..i + 1] == g[..i] + [g[i]];
      FirstValuePush(g[..i], g[i], key);
      var tokens := stmts[i].tokens;
      if |tokens| == 2 && tokens[0] !in result {
        result := result[tokens[0] := tokens[1]];
      }
    }
    assert g[..|stmts|] == g;
  }

  /** The argument map of a location, from its child block. */
  method BuildArguments(block: NginxConfig?, ghost body: Config) returns (arguments: map<string, string>)
    requires if block == null then body == [] else block.Valid() && block.Model == body
    requires HasKeys(body)
    ensures AreArguments(arguments, body)
  {
    var configs: map<string, Statements> := map[];
    if block != null {
      configs := UnrollOneLevel(block.statements, body);
    }
    assert AreGroups(configs, body);
    arguments := map[];
    var keys := SortedKeys(configs.Keys);
    for i := 0 to |keys|
      invariant forall k :: k in arguments <==> k in keys[..i] && FirstValue(body, k).Some?
      invariant forall k :: k in arguments ==> FirstValue(body, k) == Some(arguments[k])
    {
      var key := keys[i];
      FirstValueGrouped(body, key);
      assert key !in keys[..i];
      arguments := AddArguments(arguments, key, configs[key], Grouped(body, key));
      assert keys[..i + 1] == keys[..i] + [key];
    }
    forall k | FirstValue(body, k).Some? ensures k in keys {
      FirstValueGrouped(body, k);
    }
    assert keys[..|keys|] == keys;
  }

  /** One more location statement that is skipped, or served at a new and allowed path. */
  lemma RoutesPush(routes: RoutingMap, c: Config, st: Statement, p: RoutingPayload)
    requires Acceptable(c) && AreRoutes(routes, c)
    requires IsLocation(st) ==> st.tokens[1] !in routes && PathAllowed(st.tokens[1]) && IsPayload(p, st)
    ensures Acceptable(c + [st])
    ensures AreRoutes(if IsLocation(st) then routes[st.tokens[1] := p] else routes, c + [st])
  {
    forall path
      ensures TimesServed(c + [st], path) ==
              TimesServed(c, path) + (if IsLocation(st) && st.tokens[1] == path then 1 else 0)
    {
      TimesServedPush(c, st, path);
    }
    forall s | s in c && IsLocation(s) ensures IsLocation(st) ==> s.tokens[1] != st.tokens[1] {
      TimesServedMember(c, s.tokens[1]);
    }
  }

  /** A path that is not allowed, or served a second time, spoils the whole configuration. */
  lemma NotAcceptable(routes: RoutingMap, c: Config, i: nat)
    requires i < |c| && AreRoutes(routes, c[..i]) && IsLocation(c[i])
    requires c[i].tokens[1] in routes || !PathAllowed(c[i].tokens[1])
    ensures !Acceptable(c)
  {
    var path := c[i].tokens[1];
    if PathAllowed(path) {
      TimesServedPush(c[..i], c[i], path);
      TimesServedConcat(c[..i] + [c[i]], c[i + 1..], path);
      assert c == c[..i] + [c[i]] + c[i + 1..];
    } else {
      assert c[i] in c;
    }
  }

  lemma BodyHasKeys(st: Statement)
    requires WellFormedStatement(st)
    ensures HasKeys(BodyOf(st))
  {
    if st.Block? {
      assert forall s :: s in st.body ==> WellFormedStatement(s);
    }
  }

  method LoadRoutes(locations: Statements, ghost c: Config) returns (ok: bool, routes: RoutingMap)
    requires Represents(locations, c) && WellFormed(c)
    ensures ok == Acceptable(c)
    ensures ok ==> AreRoutes(routes, c)
  {
    routes := map[];
    var servingPaths: set<string> := {};
    for i := 0 to |locations|
      invariant Acceptable(c[..i]) && AreRoutes(routes, c[..i])
      invariant servingPaths == routes.Keys
    {
      var item := locations[i];
      var tokens := item.tokens;
      assert item.Valid() && item.Model == c[i] && c[i] in c && WellFormedStatement(c[i]);
      assert c[..i + 1] == c[..i] + [c[i]];
      if |tokens| != 3 {
        RoutesPush(routes, c[..i], c[i], RoutingPayload("", map[]));
        continue;
      }
      var servingPath := tokens[1];
      if servingPath in servingPaths {
        NotAcceptable(routes, c, i);
        return false, map[];
      }
      if |servingPath| > 1 && servingPath[|servingPath| - 1] == '/' {
        NotAcceptable(routes, c, i);
        return false, map[];
      }
      if IsQuoted(servingPath) {
        NotAcceptable(routes, c, i);
        return false, map[];
      }
      servingPaths := servingPaths + {servingPath};
      BodyHasKeys(c[i]);
      var arguments := BuildArguments(item.childBlock, BodyOf(c[i]));
      var payload := RoutingPayload(tokens[2], arguments);
      RoutesPush(routes, c[..i], c[i], payload);
      routes := routes[servingPath := payload];
    }
    assert c[..|locations|] == c;
    ok := true;
  }

  lemma RoutesEmpty(routes: RoutingMap, locations: Config)
    requires AreRoutes(routes, locations)
    ensures routes == map[] <==> NothingServed(locations)
  {
    if !NothingServed(locations) {
      RoutesNotEmpty(routes, locations);
    } else {
      assert forall path :: path !in routes;
    }
  }

  lemma WellFormedGroup(c: Config, key: string)
    requires WellFormed(c)
    ensures HasKeys(c) && WellFormed(Grouped(c, key))
  {
    assert forall st :: st in c ==> WellFormedStatement(st);
  }

  /** The tree part of the loader. */
  method LoadTree(config: NginxConfig) returns (r: LoadResult)
    requires config.Valid() && WellFormed(config.Model)
    ensures HasKeys(config.Model) && IsLoadResult(r, config.Model)
  {
    ghost var c := config.Model;
    WellFormedGroup(c, LOCATION_KEY);
    assert Represents(config.statements, c);
    var root := UnrollOneLevel(config.statements, c);
    assert AreGroups(root, c);
    if PORT_KEY !in root {
      return Refused;
    }
    var ports := root[PORT_KEY];
    assert Represents(ports, Grouped(c, PORT_KEY));
    if |ports[0].tokens| < 2 {
      return Threw;
    }
    var port := Stoi(ports[0].tokens[1]);
    if !port.Number? {
      return Threw;
    }
    if LOCATION_KEY !in root {
      assert NothingServed([]) && Acceptable([]);
      return Loaded(port.value, DefaultRoutes());
    }
    assert Represents(root[LOCATION_KEY], Grouped(c, LOCATION_KEY));
    var ok, routes := LoadRoutes(root[LOCATION_KEY], Grouped(c, LOCATION_KEY));
    if !ok {
      return Refused;
    }
    RoutesEmpty(routes, Grouped(c, LOCATION_KEY));
    if routes == map[] {
      routes := DefaultRoutes();
    }
    r := Loaded(port.value, routes);
  }

  /** The outcome that the loader must have on a file with this text. */
  ghost predicate IsFileResult(r: LoadResult, text: string) {
    match ParseText(text)
    case None => r == Refused
    case Some(c) => HasKeys(c) && IsLoadResult(r, c)
  }

  /** Parses the text of a configuration file and builds the payload that the server starts with. */
  method ParseConfig(text: string) returns (r: LoadResult)
    ensures IsFileResult(r, text)
  {
    var input := new CharStream(text);
    var config := new NginxConfig();
    var parsed, calls := Parse(input, config);
    assert ParseInto([], text) == ParseText(text);
    if !parsed {
      return Refused;
    }
    ParsedIsPrintable(text);
    PrintableIsWellFormed(config.Model);
    r := LoadTree(config);
  }

  /** A file has one outcome, and reprinting an accepted file at any depth does not change it. */
  lemma ReprintedFileLoadsAlike(text: string, depth: nat, r: LoadResult, s: LoadResult)
    requires ParseText(text).Some?
    requires IsFileResult(r, text)
    requires IsFileResult(s, ConfigText(ParseText(text).value, depth))
    ensures r == s
  {
    NormalForm(text, depth);
    var c := ParseText(text).value;
    LoadResultDetermined(r, s, c, c);
  }
}
