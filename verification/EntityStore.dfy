/** The store of one base directory: entities by name, entries by id. */
module EntityStore {
  import opened Numbers
  import opened Ordered

  type Entries = map<string, string>
  type Data = map<string, Entries>

  /** The exceptions of the store and of the handler, with their messages. */
  datatype StoreError = NotFound(message: string) | InvalidId(message: string) | BadUsage(message: string)

  datatype Result<+T> = Ok(value: T) | Err(error: StoreError)

  function EntriesOf(data: Data, name: string): Entries {
    if name in data then data[name] else map[]
  }

  /** `name / id`, joined with one slash. */
  function MakeName(name: string, id: string): string {
    if name == "" || id == "" || name[|name| - 1] == '/' || id[0] == '/' then name + id else name + "/" + id
  }

  predicate Has(data: Data, name: string, id: string) {
    id in EntriesOf(data, name)
  }

  /** An id may be written when it reads as a positive number. */
  predicate ValidId(id: string) {
    var r := Stoi(id);
    r.Number? && r.value > 0
  }

  function ReadFrom(data: Data, name: string, id: string): Result<string> {
    if Has(data, name, id) then Ok(data[name][id])
    else Err(NotFound("MockFilesystem: No such entity or ID: " + MakeName(name, id)))
  }

  function WriteTo(data: Data, name: string, id: string, text: string): Result<Data> {
    if ValidId(id) then Ok(data[name := EntriesOf(data, name)[id := text]])
    else Err(InvalidId("Invalid id (" + id + "): ID must be a positive integer"))
  }

  function RemoveFrom(data: Data, name: string, id: string): Result<Data> {
    if Has(data, name, id) then Ok(data[name := data[name] - {id}])
    else Err(NotFound("MockFilesystem: Could not remove file: " + MakeName(name, id)))
  }

  function IdsOf(data: Data, name: string): seq<string> {
    SortedKeys(EntriesOf(data, name).Keys)
  }

  /** The greatest number that an id reads as, and at least zero; ids that are no `int` are ignored. */
  function MaxId(ids: seq<string>): (m: int)
    ensures 0 <= m <= INT_MAX
  {
    if ids == [] then 0
    else
      var m, r := MaxId(ids[..|ids| - 1]), Stoi(ids[|ids| - 1]);
      if r.Number? && r.value > m then r.value else m
  }

  /** Adding one to the greatest `int` wraps around. */
  function Successor(m: int): int {
    if m == INT_MAX then INT_MIN else m + 1
  }

  function NextId(data: Data, name: string): string {
    ToString(Successor(MaxId(IdsOf(data, name))))
  }

  // ---------- fresh ids ----------

  ghost function Elements(ids: seq<string>): (s: set<string>)
    ensures forall id :: id in s <==> id in ids
  {
    set id | id in ids
  }

  ghost predicate IsMaxId(ids: set<string>, m: int) {
    && (forall id :: id in ids && Stoi(id).Number? ==> Stoi(id).value <= m)
    && (m == 0 || exists id :: id in ids && Stoi(id) == Number(m))
  }

  lemma {:induction false} MaxIdIsMax(ids: seq<string>)
    ensures IsMaxId(Elements(ids), MaxId(ids))
  {
    if ids != [] {
      var n := |ids| - 1;
      MaxIdIsMax(ids[..n]);
      assert ids == ids[..n] + [ids[n]];
      var m := MaxId(ids[..n]);
      if m != 0 {
        var id :| id in ids[..n] && Stoi(id) == Number(m);
        assert id in ids;
      }
    }
  }

  lemma MaxIdUnique(ids: set<string>, m: int, n: int)
    requires 0 <= m && 0 <= n && IsMaxId(ids, m) && IsMaxId(ids, n)
    ensures m == n
  {
  }

  /** The greatest id does not depend on the order in which the ids are listed. */
  lemma MaxIdIgnoresOrder(a: seq<string>, b: seq<string>)
    requires forall id :: id in a <==> id in b
    ensures MaxId(a) == MaxId(b)
  {
    MaxIdIsMax(a);
    MaxIdIsMax(b);
    assert Elements(a) == Elements(b);
    MaxIdUnique(Elements(a), MaxId(a), MaxId(b));
  }

  ghost function MaxOf(data: Data, name: string): int {
    MaxId(IdsOf(data, name))
  }

  lemma MaxOfIs(data: Data, name: string)
    ensures IsMaxId(EntriesOf(data, name).Keys, MaxOf(data, name))
  {
    var ids := IdsOf(data, name);
    MaxIdIsMax(ids);
    assert Elements(ids) == EntriesOf(data, name).Keys;
  }

  /** The id that is handed out is new and can be written, exactly when no stored id reads as the
      greatest `int`. */
  lemma NextIdIsFresh(data: Data, name: string)
    ensures ValidId(NextId(data, name)) && !Has(data, name, NextId(data, name))
            <==> forall id :: id in EntriesOf(data, name) ==> Stoi(id) != Number(INT_MAX)
    ensures ValidId(NextId(data, name)) ==> !Has(data, name, NextId(data, name))
    ensures MaxOf(data, name) != INT_MAX ==> NextId(data, name) == ToString(MaxOf(data, name) + 1)
  {
    MaxOfIs(data, name);
    StoiToString(Successor(MaxOf(data, name)));
  }

  /** A successful write of the next id makes it the greatest. */
  lemma MaxAfterWrite(data: Data, name: string, text: string)
    requires MaxOf(data, name) < INT_MAX
    ensures WriteTo(data, name, NextId(data, name), text).Ok?
    ensures var after := WriteTo(data, name, NextId(data, name), text).value;
            MaxOf(after, name) == MaxOf(data, name) + 1
  {
    var m, id := MaxOf(data, name), NextId(data, name);
    StoiToString(m + 1);
    var after := WriteTo(data, name, id, text).value;
    MaxOfIs(data, name);
    MaxOfIs(after, name);
    assert id in EntriesOf(after, name).Keys;
    MaxIdUnique(EntriesOf(after, name).Keys, MaxOf(after, name), m + 1);
  }

  lemma NoIdsOfNothing(data: Data, name: string)
    ensures name !in data ==> IdsOf(data, name) == []
  {
    assert name !in data ==> EntriesOf(data, name).Keys == {};
  }

  // ---------- what is left as it was ----------

  ghost predicate SameEntry(before: Data, after: Data, name: string, id: string) {
    && (Has(after, name, id) <==> Has(before, name, id))
    && (Has(before, name, id) ==> EntriesOf(after, name)[id] == EntriesOf(before, name)[id])
  }

  lemma NothingChangesNoEntry(data: Data, name: string, id: string)
    ensures SameEntry(data, data, name, id)
  {
  }

  lemma WriteChangesOneEntry(data: Data, name: string, id: string, text: string, n: string, i: string)
    ensures WriteTo(data, name, id, text).Ok? && (n, i) != (name, id) ==>
              SameEntry(data, WriteTo(data, name, id, text).value, n, i)
  {
    hide ValidId;
  }

  lemma RemoveChangesOneEntry(data: Data, name: string, id: string, n: string, i: string)
    ensures RemoveFrom(data, name, id).Ok? && (n, i) != (name, id) ==>
              SameEntry(data, RemoveFrom(data, name, id).value, n, i)
  {
    hide MakeName;
  }

  // ---------- the store object ----------

  class MockFilesystem {
    var data: Data

    constructor ()
      ensures data == map[]
    {
      data := map[];
    }

    method Exists(name: string, id: string) returns (found: bool)
      ensures found == Has(data, name, id)
    {
      if name !in data {
        return false;
      }
      found := id in data[name];
    }

    method Read(name: string, id: string) returns (r: Result<string>)
      ensures r == ReadFrom(data, name, id)
    {
      var found := Exists(name, id);
      if !found {
        return Err(NotFound("MockFilesystem: No such entity or ID: " + MakeName(name, id)));
      }
      r := Ok(data[name][id]);
    }

    method Write(name: string, id: string, text: string) returns (r: Result<()>)
      modifies this
      ensures match WriteTo(old(data), name, id, text)
              case Ok(d) => r == Ok(()) && data == d
              case Err(e) => r == Err(e) && data == old(data)
    {
      var reading := Stoi(id);
      if !reading.Number? || reading.value <= 0 {
        return Err(InvalidId("Invalid id (" + id + "): ID must be a positive integer"));
      }
      if name !in data {
        data := data[name := map[]];
      }
      data := data[name := data[name][id := text]];
      r := Ok(());
    }

    method Remove(name: string, id: string) returns (r: Result<()>)
      modifies this
      ensures match RemoveFrom(old(data), name, id)
              case Ok(d) => r == Ok(()) && data == d
              case Err(e) => r == Err(e) && data == old(data)
    {
      var found := Exists(name, id);
      if !found {
        return Err(NotFound("MockFilesystem: Could not remove file: " + MakeName(name, id)));
      }
      data := data[name := data[name] - {id}];
      r := Ok(());
    }

    method ListIds(name: string) returns (ids: seq<string>)
      ensures ids == IdsOf(data, name)
    {
      hide SortedKeys;
      NoIdsOfNothing(data, name);
      ids := [];
      var keys := if name in data then SortedKeys(data[name].Keys) else [];
      assert keys == IdsOf(data, name);
      for i := 0 to |keys|
        invariant ids == keys[..i]
      {
        ids := ids + [keys[i]];
      }
    }

    method NextFreeId(name: string) returns (id: string)
      ensures id == NextId(data, name)
    {
      hide SortedKeys;
      hide Stoi;
      var ids := ListIds(name);
      var maxId := 0;
      for i := 0 to |ids|
        invariant maxId == MaxId(ids[..i])
      {
        assert ids[..i + 1][..i] == ids[..i];
        var r := Stoi(ids[i]);
        if r.Number? && r.value > maxId {
          maxId := r.value;
        }
      }
      assert ids[..|ids|] == ids;
      id := ToString(Successor(maxId));
    }
  }
}
