/** What the entity handler answers, word by word. */
module EntityAnswers {
  import opened Text
  import opened Numbers
  import opened Ordered
  import opened Http
  import opened EntityStore
  import opened EntityHandlers

  // ---------- reading a list of ids ----------

  /** Reads quoted ids up to the closing bracket, from the first quote on. */
  function ReadItems(t: string): Option<seq<string>>
    decreases |t|
  {
    if t == "" || t[0] != '"' then None
    else
      var end := Find(t, "\"", 1);
      if end == NPOS || end + 1 >= |t| then None
      else if t[end + 1..] == "]" then Some([t[1..end]])
      else if t[end + 1] != ',' then None
      else
        var more := ReadItems(t[end + 2..]);
        if more.None? then None else Some([t[1..end]] + more.value)
  }

  /** Reads a JSON array of strings without escapes or blanks. */
  function ReadIds(text: string): Option<seq<string>> {
    if text == "[]" then Some([])
    else if text == "" || text[0] != '[' then None
    else ReadItems(text[1..])
  }

  lemma QuoteAt(s: string, j: int)
    ensures OccursAt(s, "\"", j) <==> 0 <= j < |s| && s[j] == '"'
  {
  }

  lemma ClosingQuote(id: string, s: string)
    requires '"' !in id
    ensures var t := "\"" + id + ("\"" + s);
            Find(t, "\"", 1) == |id| + 1 && t[1..|id| + 1] == id && t[|id| + 2..] == s && t[0] == '"'
  {
    var t := "\"" + id + ("\"" + s);
    QuoteAt(t, |id| + 1);
    forall j | 1 <= j < |id| + 1 ensures !OccursAt(t, "\"", j) {
      QuoteAt(t, j);
      assert t[j] == id[j - 1];
    }
    FindIs(t, "\"", 1, |id| + 1);
  }

  lemma ReadOneItem(id: string)
    requires '"' !in id
    ensures ReadItems("\"" + id + ("\"" + "]")) == Some([id])
  {
    ClosingQuote(id, "]");
  }

  lemma ReadNextItem(id: string, s: string)
    requires '"' !in id && ReadItems(s).Some?
    ensures ReadItems("\"" + id + ("\"" + ("," + s))) == Some([id] + ReadItems(s).value)
  {
    ClosingQuote(id, "," + s);
    var t := "\"" + id + ("\"" + ("," + s));
    assert ("," + s)[0] == ',' && ("," + s)[1..] == s;
    assert t[|id| + 3..] == t[|id| + 2..][1..];
    assert t[|id| + 2] == t[|id| + 2..][0];
  }

  /** The list as it is read, from the front. */
  lemma {:induction false} QuotedIdsFront(ids: seq<string>)
    requires |ids| > 1
    ensures QuotedIds(ids) == "\"" + ids[0] + "\"" + ("," + QuotedIds(ids[1..]))
    decreases |ids|
  {
    var n := |ids| - 1;
    var last := "," + "\"" + ids[n] + "\"";
    if n == 1 {
      assert ids[..1] == [ids[0]] && ids[1..] == [ids[1]];
      assert "," + ("\"" + ids[1] + "\"") == last;
    } else {
      QuotedIdsFront(ids[..n]);
      assert ids[..n][0] == ids[0] && ids[..n][1..] == ids[1..][..n - 1] && ids[1..][n - 1] == ids[n];
      var first, middle := "\"" + ids[0] + "\"", QuotedIds(ids[1..][..n - 1]);
      assert QuotedIds(ids[1..]) == middle + "," + "\"" + ids[n] + "\"";
      Regrouped(first, middle, ids[n]);
    }
  }

  lemma Regrouped(first: string, middle: string, id: string)
    ensures first + ("," + middle) + "," + "\"" + id + "\"" == first + ("," + (middle + "," + "\"" + id + "\""))
  {
  }

  lemma BracketBehind(id: string, more: string)
    ensures ("\"" + id + "\"" + ("," + more)) + "]" == "\"" + id + ("\"" + ("," + (more + "]")))
    ensures ("\"" + id + "\"") + "]" == "\"" + id + ("\"" + "]")
  {
  }

  lemma {:induction false} ItemsAreRead(ids: seq<string>)
    requires ids != [] && forall id :: id in ids ==> '"' !in id
    ensures ReadItems(QuotedIds(ids) + "]") == Some(ids)
    decreases |ids|
  {
    hide ReadItems;
    var id := ids[0];
    assert id in ids;
    if |ids| == 1 {
      ReadOneItem(id);
      BracketBehind(id, "");
      assert ids == [id];
    } else {
      QuotedIdsFront(ids);
      hide QuotedIds;
      ItemsAreRead(ids[1..]);
      ReadNextItem(id, QuotedIds(ids[1..]) + "]");
      BracketBehind(id, QuotedIds(ids[1..]));
      assert [id] + ids[1..] == ids;
    }
  }

  /** Reading a printed list gives the ids back. */
  lemma ListIsRead(ids: seq<string>)
    requires forall id :: id in ids ==> '"' !in id
    ensures ReadIds(ListText(ids)) == Some(ids)
    ensures ListText(ids) != "" && ListText(ids)[0] == '[' && ListText(ids)[|ListText(ids)| - 1] == ']'
  {
    hide ReadItems;
    if ids == [] {
      assert ListText(ids) == "[]";
    } else {
      ItemsAreRead(ids);
      var text := ListText(ids);
      assert text[1..] == QuotedIds(ids) + "]";
      QuotedIdsFromQuote(ids);
      assert text[1] == '"' && "[]"[1] == ']';
    }
  }

  lemma {:induction false} QuotedIdsFromQuote(ids: seq<string>)
    requires ids != []
    ensures QuotedIds(ids) != "" && QuotedIds(ids)[0] == '"'
  {
    if |ids| > 1 {
      QuotedIdsFromQuote(ids[..|ids| - 1]);
    }
  }

  // ---------- the answers ----------

  /** A successful answer, and one that tells an error. */
  function Success(body: string): HttpResponse {
    HttpResponse(OK, map["Content-Type" := "application/json", "Content-Length" := ToString(|body|)], body)
  }

  function Failure(status: StatusCode, body: string): HttpResponse {
    HttpResponse(status, map["Content-Length" := ToString(|body|)], body)
  }

  /** GET without an id lists the ids of the entity, each once and in order. */
  lemma GetListsIds(data: Data, r: HttpRequest, name: string)
    requires r.verb == "GET" && EntityOf(r.path) == (name, "")
    requires name in data ==> forall id :: id in data[name] ==> '"' !in id
    ensures var (after, response) := Serve(data, r);
            && after == data && response == Success(response.body)
            && response.body != ""
            && response.body[0] == '[' && response.body[|response.body| - 1] == ']'
            && ReadIds(response.body).Some?
            && var ids := ReadIds(response.body).value;
               && (forall id :: id in ids <==> name in data && id in data[name])
               && (forall i, j :: 0 <= i < j < |ids| ==> ids[i] != ids[j] && LexLe(ids[i], ids[j]))
  {
    hide EntityOf;
    hide ReadIds;
    hide ListText;
    hide SortedKeys;
    hide ToString;
    hide LexLe;
    ListIsRead(IdsOf(data, name));
  }

  /** GET with an id answers with the text that is stored, or tells that there is none. */
  lemma GetAnswers(data: Data, r: HttpRequest, name: string, id: string)
    requires r.verb == "GET" && EntityOf(r.path) == (name, id) && id != ""
    ensures name in data && id in data[name] ==> Serve(data, r) == (data, Success(data[name][id]))
    ensures !(name in data && id in data[name]) && IsPlain(name) && IsPlain(id) ==>
              Serve(data, r) == (data, Failure(NOT_FOUND, "MockFilesystem: No such entity or ID: " + (name + "/" + id)))
    ensures !(name in data && id in data[name]) ==> Serve(data, r).0 == data && Serve(data, r).1.status == NOT_FOUND
  {
    hide EntityOf;
    hide ToString;
    hide NextId;
  }

  /** A part of a path without slashes. */
  ghost predicate IsPlain(s: string) {
    s != "" && '/' !in s
  }

  /** A store with this text under this name and id, and otherwise as before. */
  ghost predicate HasAsWell(after: Data, data: Data, name: string, id: string, text: string) {
    && name in after && id in after[name] && after[name][id] == text
    && (forall n :: n in data ==> n in after)
    && (forall n :: n in after && n != name ==> n in data && after[n] == data[n])
    && (forall i :: i in after[name] && i != id ==> name in data && i in data[name] && after[name][i] == data[name][i])
    && (name in data ==> forall i :: i in data[name] ==> i in after[name])
  }

  /** PUT stores the body under an id that reads as a positive int, and refuses any other. */
  lemma PutAnswers(data: Data, r: HttpRequest, name: string, id: string)
    requires r.verb == "PUT" && EntityOf(r.path) == (name, id)
    ensures var (after, response) := Serve(data, r);
            && (id != "" && Stoi(id).Number? && Stoi(id).value >= 1 ==>
                  HasAsWell(after, data, name, id, r.body) && response == Success("{\"id\": \"" + id + "\"}"))
            && (id != "" && !(Stoi(id).Number? && Stoi(id).value >= 1) ==>
                  && after == data
                  && response == Failure(BAD_REQUEST, "Invalid id (" + id + "): ID must be a positive integer"))
            && (id == "" ==> after == data && response == Failure(BAD_REQUEST, "PUT request must specify an ID."))
  {
    hide EntityOf;
    hide ToString;
    hide NextId;
    hide Stoi;
  }

  lemma WriteHasAsWell(data: Data, name: string, id: string, text: string)
    ensures HasAsWell(data[name := EntriesOf(data, name)[id := text]], data, name, id, text)
  {
  }

  /** POST stores the body under the successor of the greatest id and tells it. */
  lemma PostAnswers(data: Data, r: HttpRequest, name: string)
    requires r.verb == "POST" && EntityOf(r.path).0 == name
    requires MaxOf(data, name) < 2147483647
    ensures var (after, response) := Serve(data, r);
            var id := ToString(MaxOf(data, name) + 1);
            HasAsWell(after, data, name, id, r.body) && response == Success("{\"id\": \"" + id + "\"}")
  {
    hide EntityOf;
    hide Stoi;
    hide MaxOf;
    hide NextId;
    hide ToString;
    hide HasAsWell;
    NextIdIsFresh(data, name);
    MaxAfterWrite(data, name, r.body);
    WriteHasAsWell(data, name, NextId(data, name), r.body);
  }

  /** The first id of an entity without numbered ids is 1. */
  lemma FirstIdIsOne(data: Data, name: string)
    requires name in data ==> forall i :: i in data[name] ==> !Stoi(i).Number? || Stoi(i).value <= 0
    ensures ToString(MaxOf(data, name) + 1) == "1"
  {
    hide Stoi;
    hide MaxId;
    MaxOfIs(data, name);
    assert ToString(1) == "1";
  }

  /** DELETE takes the entry away, or tells that there is none. */
  lemma DeleteAnswers(data: Data, r: HttpRequest, name: string, id: string)
    requires r.verb == "DELETE" && EntityOf(r.path) == (name, id)
    ensures var (after, response) := Serve(data, r);
            && (id == "" ==> after == data && response == Failure(BAD_REQUEST, "DELETE request must specify an ID."))
            && (id != "" && name in data && id in data[name] ==>
                  after == data[name := data[name] - {id}] && response == Success("{\"status\": \"deleted\"}"))
            && (id != "" && !(name in data && id in data[name]) ==> after == data && response.status == NOT_FOUND)
            && (id != "" && !(name in data && id in data[name]) && IsPlain(name) && IsPlain(id) ==>
                  response == Failure(NOT_FOUND, "MockFilesystem: Could not remove file: " + (name + "/" + id)))
  {
    hide EntityOf;
    hide ToString;
    hide NextId;
  }

  /** Every other method is refused. */
  lemma OthersAreRefused(data: Data, r: HttpRequest)
    requires r.verb != "POST" && r.verb != "GET" && r.verb != "PUT" && r.verb != "DELETE"
    ensures Serve(data, r) == (data, Failure(BAD_REQUEST, "Unsupported HTTP method."))
  {
    hide EntityOf;
    hide ToString;
  }
}
