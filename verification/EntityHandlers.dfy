/** The entity handler: create, read, update and delete on the store of its directory. */
module EntityHandlers {
  import opened Text
  import opened Numbers
  import opened Http
  import opened EntityStore
  import opened MutexPools

  /** Entity name and id in a request path. The searches for the second and third slash start
      behind the previous hit; a miss counts as position -1, so that the next search starts at 0. */
  function EntityOf(path: string): (string, string) {
    var first := Find(path, "/", 0);
    var second := Find(path, "/", first + 1);
    var third := Find(path, "/", second + 1);
    if second != NPOS && third != NPOS
    then (path[second + 1..third], path[third + 1..])
    else (path[second + 1..], "")
  }

  function LengthText(body: string): string {
    ToString(|body|)
  }

  function PlainResponse(status: StatusCode, body: string): HttpResponse {
    HttpResponse(status, map["Content-Length" := LengthText(body)], body)
  }

  function JsonResponse(body: string): HttpResponse {
    HttpResponse(OK, map["Content-Type" := "application/json", "Content-Length" := LengthText(body)], body)
  }

  function ErrorResponse(e: StoreError): HttpResponse {
    PlainResponse(if e.NotFound? then NOT_FOUND else BAD_REQUEST, e.message)
  }

  function IdText(id: string): string {
    "{\"id\": \"" + id + "\"}"
  }

  function QuotedIds(ids: seq<string>): string {
    if ids == [] then ""
    else if |ids| == 1 then "\"" + ids[0] + "\""
    else QuotedIds(ids[..|ids| - 1]) + "," + "\"" + ids[|ids| - 1] + "\""
  }

  function ListText(ids: seq<string>): string {
    "[" + QuotedIds(ids) + "]"
  }

  /** The first store access of a POST; the other methods make one access only. */
  function NewId(data: Data, r: HttpRequest): string {
    if r.verb == "POST" then NextId(data, EntityOf(r.path).0) else ""
  }

  function Answer(data: Data, r: Result<Data>, body: string): (Data, HttpResponse) {
    match r
    case Ok(after) => (after, JsonResponse(body))
    case Err(e) => (data, ErrorResponse(e))
  }

  /** The access that reads or changes the entry, and the response. */
  function Access(data: Data, r: HttpRequest, newId: string): (Data, HttpResponse) {
    var (name, id) := EntityOf(r.path);
    if r.verb == "POST" then
      Answer(data, WriteTo(data, name, newId, r.body), IdText(newId))
    else if r.verb == "GET" then
      if id == "" then (data, JsonResponse(ListText(IdsOf(data, name))))
      else
        match ReadFrom(data, name, id)
        case Ok(text) => (data, JsonResponse(text))
        case Err(e) => (data, ErrorResponse(e))
    else if r.verb == "PUT" then
      if id == "" then (data, ErrorResponse(BadUsage("PUT request must specify an ID.")))
      else Answer(data, WriteTo(data, name, id, r.body), IdText(id))
    else if r.verb == "DELETE" then
      if id == "" then (data, ErrorResponse(BadUsage("DELETE request must specify an ID.")))
      else Answer(data, RemoveFrom(data, name, id), "{\"status\": \"deleted\"}")
    else (data, PlainResponse(BAD_REQUEST, "Unsupported HTTP method."))
  }

  /** A request served alone. */
  function Serve(data: Data, r: HttpRequest): (Data, HttpResponse) {
    Access(data, r, NewId(data, r))
  }

  // ---------- what requests do to the store ----------

  lemma SlashAt(s: string, j: int)
    ensures OccursAt(s, "/", j) <==> 0 <= j < |s| && s[j] == '/'
  {
  }

  lemma FindSlash(s: string, from: nat, k: nat)
    requires from <= k < |s| && s[k] == '/' && forall i :: from <= i < k ==> s[i] != '/'
    ensures Find(s, "/", from) == k
  {
    SlashAt(s, k);
    forall j | from <= j < k ensures !OccursAt(s, "/", j) {
      SlashAt(s, j);
    }
    FindIs(s, "/", from, k);
  }

  lemma FindNoSlash(s: string, from: nat)
    requires forall i :: from <= i < |s| ==> s[i] != '/'
    ensures Find(s, "/", from) == NPOS
  {
    var k := Find(s, "/", from);
    SlashAt(s, k);
  }

  lemma EntityWithId(path: string, first: nat, second: nat, third: nat)
    requires first < second < third < |path| && path[first] == path[second] == path[third] == '/'
    requires forall i :: 0 <= i < first || first < i < second || second < i < third ==> path[i] != '/'
    ensures EntityOf(path) == (path[second + 1..third], path[third + 1..])
  {
    hide Find;
    FindSlash(path, 0, first);
    FindSlash(path, first + 1, second);
    FindSlash(path, second + 1, third);
  }

  lemma EntityWithoutId(path: string, first: nat, second: nat)
    requires first < second < |path| && path[first] == path[second] == '/'
    requires forall i :: 0 <= i < first || first < i < second || second < i < |path| ==> path[i] != '/'
    ensures EntityOf(path) == (path[second + 1..], "")
  {
    hide Find;
    FindSlash(path, 0, first);
    FindSlash(path, first + 1, second);
    FindNoSlash(path, second + 1);
  }

  lemma WholePath(path: string)
    ensures path[0..] == path
  {
  }

  lemma EntityWithoutSlash(path: string)
    requires '/' !in path
    ensures EntityOf(path) == (path, "")
  {
    hide Find;
    FindNoSlash(path, 0);
    WholePath(path);
  }

  lemma EntityWithOneSlash(path: string, first: nat)
    requires first < |path| && path[first] == '/'
    requires forall i :: 0 <= i < |path| && i != first ==> path[i] != '/'
    ensures EntityOf(path) == (path, "")
  {
    hide Find;
    FindSlash(path, 0, first);
    FindNoSlash(path, first + 1);
    WholePath(path);
  }

  /** A path with less than two slashes is the entity as a whole: a search that misses starts over. */
  lemma EntityOfShortPath(a: string, b: string)
    requires '/' !in a && '/' !in b
    ensures EntityOf(a) == (a, "") && EntityOf(a + "/" + b) == (a + "/" + b, "")
  {
    hide EntityOf;
    var path := a + "/" + b;
    assert path[|a|] == '/' && forall i :: 0 <= i < |a| ==> path[i] == a[i];
    assert forall i :: |a| < i < |path| ==> path[i] == b[i - |a| - 1];
    EntityWithoutSlash(a);
    EntityWithOneSlash(path, |a|);
  }

  /** In a path with more slashes the entity is what stands between the second one and the third, and
      the id is all that follows the third, slashes included. */
  lemma EntityOfLongPath(a: string, b: string, name: string, id: string)
    requires '/' !in a && '/' !in b && '/' !in name
    ensures EntityOf(a + "/" + b + "/" + name + "/" + id) == (name, id)
    ensures EntityOf(a + "/" + b + "/" + name) == (name, "")
  {
    hide EntityOf;
    var q := a + "/" + b + "/" + name;
    var p := q + "/" + id;
    var first, second, third := |a|, |a| + 1 + |b|, |q|;
    assert q[second + 1..] == name;
    assert p[..third] == q && p[third] == '/' && p[third + 1..] == id;
    assert forall i :: 0 <= i < first ==> q[i] == a[i];
    assert forall i :: first < i < second ==> q[i] == b[i - first - 1];
    assert forall i :: second < i < third ==> q[i] == name[i - second - 1];
    assert forall i :: 0 <= i < third ==> p[i] == q[i];
    assert p[second + 1..third] == name;
    EntityWithId(p, first, second, third);
    EntityWithoutId(q, first, second);
  }

  /** In `/api/name/id` the entity is the second segment and the id is all that follows it. */
  lemma EntityOfPath(api: string, name: string, id: string)
    requires '/' !in api && '/' !in name
    ensures EntityOf("/" + api + "/" + name + "/" + id) == (name, id)
    ensures EntityOf("/" + api + "/" + name) == (name, "")
  {
    hide EntityOf;
    EntityOfLongPath("", api, name, id);
    assert "" + "/" == "/";
  }

  function Request(verb: string, path: string, body: string): HttpRequest {
    HttpRequest(verb, path, "HTTP/1.1", map[], body)
  }

  function Post(path: string, body: string): HttpRequest {
    Request("POST", path, body)
  }

  /** The store after some POSTs of one path, in turn. */
  function PostAll(data: Data, path: string, bodies: seq<string>): Data {
    if bodies == [] then data
    else Serve(PostAll(data, path, bodies[..|bodies| - 1]), Post(path, bodies[|bodies| - 1])).0
  }

  lemma OnePost(data: Data, path: string, body: string)
    requires MaxOf(data, EntityOf(path).0) < INT_MAX
    ensures var name := EntityOf(path).0;
            var id := ToString(MaxOf(data, name) + 1);
            var (after, response) := Serve(data, Post(path, body));
            && response == JsonResponse(IdText(id))
            && !Has(data, name, id)
            && EntriesOf(after, name) == EntriesOf(data, name)[id := body]
            && MaxOf(after, name) == MaxOf(data, name) + 1
  {
    hide MaxOf;
    hide ToString;
    hide EntityOf;
    hide NextId;
    hide ValidId;
    var name := EntityOf(path).0;
    NextIdIsFresh(data, name);
    MaxAfterWrite(data, name, body);
  }

  /** The i-th of some POSTs in a row, from the greatest id m. */
  ghost predicate Stored(before: Entries, after: Entries, m: int, bodies: seq<string>, i: nat)
    requires i < |bodies|
  {
    var id := ToString(m + 1 + i);
    id !in before && id in after && after[id] == bodies[i]
  }

  ghost predicate Keeps(before: Entries, after: Entries) {
    forall id :: id in before ==> id in after && after[id] == before[id]
  }

  lemma StoreOneMore(before: Entries, middle: Entries, after: Entries, m: int, front: seq<string>, body: string)
    requires ToString(m + |front| + 1) !in middle && after == middle[ToString(m + |front| + 1) := body]
    requires Keeps(before, middle)
    requires forall i :: 0 <= i < |front| ==> Stored(before, middle, m, front, i)
    ensures Keeps(before, after)
    ensures forall i :: 0 <= i <= |front| ==> Stored(before, after, m, front + [body], i)
  {
    hide ToString;
    forall i | 0 <= i <= |front| ensures Stored(before, after, m, front + [body], i) {
      if i < |front| {
        assert Stored(before, middle, m, front, i);
      } else {
        assert m + 1 + i == m + |front| + 1;
      }
    }
  }

  /** From the greatest id m, the k-th of some POSTs in a row gets the id m + k: its entry holds its
      body, and every entry that was there before still holds what it held. */
  lemma {:induction false} PostsInARow(data: Data, path: string, bodies: seq<string>)
    requires MaxOf(data, EntityOf(path).0) + |bodies| <= INT_MAX
    ensures var name := EntityOf(path).0;
            var before, after := EntriesOf(data, name), EntriesOf(PostAll(data, path, bodies), name);
            var m := MaxOf(data, name);
            && Keeps(before, after)
            && (forall i :: 0 <= i < |bodies| ==> Stored(before, after, m, bodies, i))
            && MaxOf(PostAll(data, path, bodies), name) == m + |bodies|
    ensures bodies != [] ==>
              Serve(PostAll(data, path, bodies[..|bodies| - 1]), Post(path, bodies[|bodies| - 1])).1
              == JsonResponse(IdText(ToString(MaxOf(data, EntityOf(path).0) + |bodies|)))
    decreases |bodies|
  {
    hide MaxOf;
    hide ToString;
    hide Serve;
    hide EntityOf;
    hide Stored;
    hide EntriesOf;
    hide JsonResponse;
    hide IdText;
    if bodies != [] {
      var name, last := EntityOf(path).0, |bodies| - 1;
      var middle := PostAll(data, path, bodies[..last]);
      PostsInARow(data, path, bodies[..last]);
      OnePost(middle, path, bodies[last]);
      StoreOneMore(EntriesOf(data, name), EntriesOf(middle, name),
                   EntriesOf(PostAll(data, path, bodies), name), MaxOf(data, name), bodies[..last], bodies[last]);
      assert bodies[..last] + [bodies[last]] == bodies;
    }
  }

  // ---------- what one request does for the next ----------

  /** The entry that a request may change, if any. */
  function Target(data: Data, r: HttpRequest): Option<(string, string)> {
    var (name, id) := EntityOf(r.path);
    if r.verb == "POST" then Some((name, NextId(data, name)))
    else if r.verb == "PUT" || r.verb == "DELETE" then Some((name, id))
    else None
  }

  /** A request leaves every entry but its target as it was. */
  lemma ServeChangesOneEntry(data: Data, r: HttpRequest, name: string, id: string)
    requires Target(data, r) != Some((name, id))
    ensures SameEntry(data, Serve(data, r).0, name, id)
  {
    hide EntityOf;
    hide NextId;
    hide WriteTo;
    hide RemoveFrom;
    hide IdsOf;
    hide SameEntry;
    var (n, i) := EntityOf(r.path);
    WriteChangesOneEntry(data, n, if r.verb == "POST" then NextId(data, n) else i, r.body, name, id);
    RemoveChangesOneEntry(data, n, i, name, id);
    NothingChangesNoEntry(data, name, id);
  }

  /** What was put is got, and putting it succeeds exactly when the id reads as a positive int. */
  lemma PutThenGet(data: Data, path: string, body: string)
    requires EntityOf(path).1 != ""
    ensures var (after, response) := Serve(data, Request("PUT", path, body));
            && (response.status == OK <==> ValidId(EntityOf(path).1))
            && (response.status != OK ==> after == data)
            && (response.status == OK ==> Serve(after, Request("GET", path, "")) == (after, JsonResponse(body)))
  {
    hide EntityOf;
    hide ValidId;
    hide NextId;
    hide IdsOf;
    hide ToString;
  }

  /** What was deleted is gone, and deleting it succeeds exactly when it was there. */
  lemma DeleteThenGet(data: Data, path: string)
    requires EntityOf(path).1 != ""
    ensures var (name, id) := EntityOf(path);
            var (after, response) := Serve(data, Request("DELETE", path, ""));
            && (response.status == OK <==> Has(data, name, id))
            && (response.status != OK ==> after == data)
            && Serve(after, Request("GET", path, "")).1.status == NOT_FOUND
  {
    hide EntityOf;
    hide ValidId;
    hide NextId;
    hide IdsOf;
    hide ToString;
  }

  lemma EntriesDecideNextId(a: Data, b: Data, name: string)
    requires EntriesOf(a, name) == EntriesOf(b, name)
    ensures NextId(a, name) == NextId(b, name) && MaxOf(a, name) == MaxOf(b, name)
  {
  }

  lemma DeleteRestores(entries: Entries, middle: Entries, id: string, body: string)
    requires id !in entries && middle == entries[id := body]
    ensures middle - {id} == entries
  {
  }

  lemma DeleteAnswers(data: Data, path: string)
    requires var (name, id) := EntityOf(path);
             id != "" && Has(data, name, id)
    ensures var (name, id) := EntityOf(path);
            EntriesOf(Serve(data, Request("DELETE", path, "")).0, name) == EntriesOf(data, name) - {id}
  {
    hide EntityOf;
    hide NextId;
    hide ToString;
  }

  /** The id of an entry that was posted last is given again once the entry is deleted. */
  lemma DeletedIdIsGivenAgain(data: Data, path: string, body: string, entryPath: string, again: string)
    requires MaxOf(data, EntityOf(path).0) < INT_MAX
    requires EntityOf(entryPath) == (EntityOf(path).0, ToString(MaxOf(data, EntityOf(path).0) + 1))
    ensures var (after, first) := Serve(data, Post(path, body));
            var deleted := Serve(after, Request("DELETE", entryPath, "")).0;
            && EntriesOf(deleted, EntityOf(path).0) == EntriesOf(data, EntityOf(path).0)
            && Serve(deleted, Post(path, again)).1 == first
  {
    hide Serve;
    hide EntityOf;
    hide EntriesOf;
    hide ToString;
    hide MaxOf;
    hide JsonResponse;
    var name, id := EntityOf(path).0, ToString(MaxOf(data, EntityOf(path).0) + 1);
    var after := Serve(data, Post(path, body)).0;
    OnePost(data, path, body);
    DeleteAnswers(after, entryPath);
    DeleteRestores(EntriesOf(data, name), EntriesOf(after, name), id, body);
    var deleted := Serve(after, Request("DELETE", entryPath, "")).0;
    EntriesDecideNextId(deleted, data, name);
    OnePost(deleted, path, again);
  }

  // ---------- where the ids end ----------

  lemma OneMoreDigit(n: nat, d: nat, s: string, t: string)
    requires n > 0 && d < 10 && NatToString(n) == s && t == s + [('0' as int + d) as char]
    ensures NatToString(10 * n + d) == t
  {
    assert (10 * n + d) / 10 == n && (10 * n + d) % 10 == d;
  }

  lemma GreatestIdReads()
    ensures Stoi("2147483647") == Number(INT_MAX)
  {
    hide NatToString;
    hide Stoi;
    TwoReads();
    OneMoreDigit(2, 1, "2", "21");
    OneMoreDigit(21, 4, "21", "214");
    OneMoreDigit(214, 7, "214", "2147");
    OneMoreDigit(2147, 4, "2147", "21474");
    OneMoreDigit(21474, 8, "21474", "214748");
    OneMoreDigit(214748, 3, "214748", "2147483");
    OneMoreDigit(2147483, 6, "2147483", "21474836");
    OneMoreDigit(21474836, 4, "21474836", "214748364");
    OneMoreDigit(214748364, 7, "214748364", "2147483647");
    StoiToString(INT_MAX);
  }

  lemma TwoReads()
    ensures NatToString(2) == "2"
  {
  }

  /** A client can put an entry under the greatest int. Every later POST to the entity is refused, and
      changes nothing. */
  lemma GreatestIdBlocksPosts(data: Data, entryPath: string, body: string, path: string, more: string)
    requires EntityOf(entryPath) == (EntityOf(path).0, "2147483647")
    ensures var (after, stored) := Serve(data, Request("PUT", entryPath, body));
            && stored.status == OK
            && Serve(after, Post(path, more)).0 == after
            && Serve(after, Post(path, more)).1.status == BAD_REQUEST
  {
    hide EntityOf;
    hide NextId;
    hide Stoi;
    hide IdsOf;
    hide ToString;
    GreatestIdReads();
    var after := Serve(data, Request("PUT", entryPath, body)).0;
    var name := EntityOf(path).0;
    assert "2147483647" in EntriesOf(after, name);
    NextIdIsFresh(after, name);
  }

  // ---------- the handler object ----------

  /** A call of the handler: it may have to wait for the mutex, find no mutex, or answer. */
  datatype CallResult = Waits | MutexIsMissing | Answers(response: HttpResponse)

  class EntityHandler {
    const pathPrefix: string
    const baseDir: string
    const pool: MutexPool
    const locks: LockTable
    const fs: MockFilesystem

    constructor (pathPrefix: string, root: string, pool: MutexPool, locks: LockTable, fs: MockFilesystem)
      requires Paired(pool.View())
      modifies pool
      ensures this.baseDir == root && this.pool == pool && this.locks == locks && this.fs == fs
      ensures pool.View() == Inserted(old(pool.View()), root)
    {
      this.pathPrefix, this.baseDir, this.pool, this.locks, this.fs := pathPrefix, root, pool, locks, fs;
      new;
      pool.Insert(root);
    }

    /** Builds a handler from its configuration arguments; `null` is the exception for a missing root,
        which leaves the pool as it was. */
    static method Create(pathPrefix: string, args: map<string, string>, pool: MutexPool, locks: LockTable,
        fs: MockFilesystem)
      returns (handler: EntityHandler?)
      requires Paired(pool.View())
      modifies pool
      ensures handler == null <==> "root" !in args
      ensures handler == null ==> pool.View() == old(pool.View())
      ensures handler != null ==>
                && fresh(handler) && handler.baseDir == args["root"]
                && handler.pool == pool && handler.locks == locks && handler.fs == fs
                && pool.View() == Inserted(old(pool.View()), args["root"])
    {
      handler := null;
      if "root" in args {
        handler := new EntityHandler(pathPrefix, args["root"], pool, locks, fs);
      }
    }

    /** Ends the lifetime of the handler. An empty directory keeps its reference. */
    method Destroy() returns (ok: bool)
      requires Paired(pool.View())
      modifies pool
      ensures baseDir == "" ==> ok && pool.View() == old(pool.View())
      ensures baseDir != "" ==> ok == Erased(old(pool.View()), baseDir).Some?
      ensures baseDir != "" && ok ==> Some(pool.View()) == Erased(old(pool.View()), baseDir)
    {
      ok := true;
      if baseDir != "" {
        ok := pool.Erase(baseDir);
      }
    }

    /** Serves one request, from the request of the mutex to the response. When the mutex is held by
        another call nothing has happened yet; otherwise it is held around the access to the store
        and given back. */
    method HandleRequest(request: HttpRequest) returns (result: CallResult)
      modifies fs, locks
      ensures locks.held == old(locks.held)
      ensures Requested(pool.View(), baseDir).None? ==> result == MutexIsMissing && fs.data == old(fs.data)
      ensures Requested(pool.View(), baseDir).Some? && Requested(pool.View(), baseDir).value in locks.held ==>
                result == Waits && fs.data == old(fs.data)
      ensures Requested(pool.View(), baseDir).Some? && Requested(pool.View(), baseDir).value !in locks.held ==>
                (fs.data, result) == (Serve(old(fs.data), request).0, Answers(Serve(old(fs.data), request).1))
    {
      hide Serve;
      hide Find;
      hide Requested;
      var mutex := pool.Request(baseDir);
      if mutex.None? {
        return MutexIsMissing;
      }
      var free := locks.TryLock(mutex.value);
      if !free {
        return Waits;
      }
      var path := request.path;
      var name, id := "", "";
      var first := Find(path, "/", 0);
      var second := Find(path, "/", first + 1);
      var third := Find(path, "/", second + 1);
      if second != NPOS && third != NPOS {
        name := path[second + 1..third];
        id := path[third + 1..];
      } else {
        name := path[second + 1..];
      }
      assert (name, id) == EntityOf(path);
      var r := CreateReadUpdateDelete(mutex.value, request, name, id);
      locks.Unlock(mutex.value);
      result := Answers(r);
    }

    /** The body of the critical section; errors of the store become responses. */
    method CreateReadUpdateDelete(ghost mutex: MutexId, request: HttpRequest, name: string, id: string)
      returns (response: HttpResponse)
      requires Requested(pool.View(), baseDir) == Some(mutex) && mutex in locks.held
      requires (name, id) == EntityOf(request.path)
      modifies fs
      ensures (fs.data, response) == Serve(old(fs.data), request)
    {
      var body := "";
      if request.verb == "POST" {
        var newId := fs.NextFreeId(name);
        var written := fs.Write(name, newId, request.body);
        if written.Err? {
          return ErrorResponse(written.error);
        }
        return JsonResponse(IdText(newId));
      }
      if request.verb == "GET" {
        if id == "" {
          var ids := fs.ListIds(name);
          body := PrintIds(ids);
          return JsonResponse(body);
        }
        var found := fs.Read(name, id);
        if found.Err? {
          return ErrorResponse(found.error);
        }
        return JsonResponse(found.value);
      }
      if request.verb == "PUT" {
        if id == "" {
          return ErrorResponse(BadUsage("PUT request must specify an ID."));
        }
        var written := fs.Write(name, id, request.body);
        if written.Err? {
          return ErrorResponse(written.error);
        }
        return JsonResponse(IdText(id));
      }
      if request.verb == "DELETE" {
        if id == "" {
          return ErrorResponse(BadUsage("DELETE request must specify an ID."));
        }
        var removed := fs.Remove(name, id);
        if removed.Err? {
          return ErrorResponse(removed.error);
        }
        return JsonResponse("{\"status\": \"deleted\"}");
      }
      response := PlainResponse(BAD_REQUEST, "Unsupported HTTP method.");
    }
  }

  /** The list of ids as JSON; a comma goes behind every id but the last. */
  method PrintIds(ids: seq<string>) returns (text: string)
    ensures text == ListText(ids)
  {
    text := "[";
    for i := 0 to |ids|
      invariant text == "[" + QuotedIds(ids[..i]) + (if 0 < i < |ids| then "," else "")
    {
      assert ids[..i + 1][..i] == ids[..i] && ids[..i + 1][i] == ids[i];
      text := text + "\"" + ids[i] + "\"";
      if i < |ids| - 1 {
        text := text + ",";
      }
    }
    assert ids[..|ids|] == ids;
    text := text + "]";
  }
}
