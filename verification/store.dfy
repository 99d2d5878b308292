/**
 The durable store: the Dexie `tasks` table of src/db.js, whose primary
 key is `id` and which hands its records back in ascending key order.
 */
module Store {
  import opened Wrappers
  import opened Tasks
  import opened Records

  /** Records in strictly ascending id order, hence one per key. */
  predicate Keyed(s: seq<Task>) {
    forall i, j :: 0 <= i < j < |s| ==> s[i].id < s[j].id
  }

  lemma KeyedDistinct(s: seq<Task>)
    requires Keyed(s)
    ensures DistinctIds(s)
  {
  }

  /** What Dexie rejects a write with: `add` under a key already present. */
  datatype StoreError = ConstraintError

  /** Every record of a list has an id above `k`. */
  predicate Above(k: int, s: seq<Task>) {
    forall t :: t in s ==> k < t.id
  }

  /** A record followed by a key-ordered list of higher ids is key-ordered. */
  lemma KeyedCons(t: Task, s: seq<Task>)
    requires Keyed(s) && Above(t.id, s)
    ensures Keyed([t] + s)
  {
    forall i, j | 0 <= i < j < |[t] + s| ensures ([t] + s)[i].id < ([t] + s)[j].id {
      assert ([t] + s)[j] == s[j - 1];
      if i == 0 {
        assert s[j - 1] in s;
      } else {
        assert ([t] + s)[i] == s[i - 1];
      }
    }
  }

  lemma KeyedUncons(s: seq<Task>)
    requires Keyed(s) && s != []
    ensures Keyed(s[1..]) && Above(s[0].id, s[1..])
  {
    forall t | t in s[1..] ensures s[0].id < t.id {
      var j :| 0 <= j < |s[1..]| && s[1..][j] == t;
      assert s[j + 1] == t;
    }
  }

  /** Put a record at its key position in a key-ordered list. */
  function Insert(s: seq<Task>, t: Task): (r: seq<Task>)
    ensures multiset(r) == multiset(s) + multiset{t}
  {
    if s == [] || t.id < s[0].id then [t] + s
    else
      assert s == [s[0]] + s[1..];
      [s[0]] + Insert(s[1..], t)
  }

  lemma MultisetMembers(r: seq<Task>, s: seq<Task>, t: Task)
    requires multiset(r) == multiset(s) + multiset{t}
    ensures forall u :: u in r <==> u in s || u == t
  {
    forall u ensures u in r <==> u in s || u == t {
      assert u in r <==> u in multiset(r);
      assert u in s <==> u in multiset(s);
    }
  }

  lemma {:induction false} InsertKeyed(s: seq<Task>, t: Task)
    requires Keyed(s) && t.id !in IdsOf(s)
    ensures Keyed(Insert(s, t))
  {
    if s == [] || t.id < s[0].id {
      if s != [] {
        KeyedUncons(s);
      }
      KeyedCons(t, s);
    } else {
      KeyedUncons(s);
      IdsOfCons(s[0], s[1..]);
      assert s == [s[0]] + s[1..];
      InsertKeyed(s[1..], t);
      MultisetMembers(Insert(s[1..], t), s[1..], t);
      KeyedCons(s[0], Insert(s[1..], t));
    }
  }

  /**
   `db.tasks.add(record)`: store a new record, or reject with a constraint
   error when its key is taken, leaving the table as it was.
   */
  function Add(s: seq<Task>, t: Task): (r: Result<seq<Task>, StoreError>)
    requires Keyed(s)
    ensures r.Success? <==> t.id !in IdsOf(s)
    ensures r.Success? ==> Keyed(r.value) && multiset(r.value) == multiset(s) + multiset{t}
  {
    if t.id in IdsOf(s) then Failure(ConstraintError)
    else
      InsertKeyed(s, t);
      Success(Insert(s, t))
  }

  /**
   After a successful `add` the table holds the new record under its key
   and every other key keeps its record.
   */
  lemma AddFind(s: seq<Task>, t: Task, k: int)
    requires Keyed(s) && Add(s, t).Success?
    ensures IdsOf(Add(s, t).value) == IdsOf(s) + {t.id}
    ensures Find(Add(s, t).value, t.id) == Some(t)
    ensures k != t.id ==> Find(Add(s, t).value, k) == Find(s, k)
  {
    var r := Add(s, t).value;
    MultisetMembers(r, s, t);
    KeyedDistinct(r);
    KeyedDistinct(s);
    assert t in r;
    FindMember(r, t);
    if k != t.id && k in IdsOf(s) {
      var u := Find(s, k).value;
      FindMember(s, u);
      FindMember(r, u);
    }
  }

  /** `db.tasks.update(id, changes)`: merge the changes into the record under `id`; a missing key changes nothing. */
  function Update(s: seq<Task>, id: int, p: Patch): (r: seq<Task>)
    ensures Keyed(s) ==> Keyed(r)
    ensures IdsOf(r) == IdsOf(s)
  {
    PatchWhereKeepsIds(s, id, p);
    PatchWhere(s, id, p)
  }

  /** After an `update` the key holds the patched record and every other key keeps its record. */
  lemma UpdateFind(s: seq<Task>, id: int, p: Patch, k: int)
    requires Keyed(s)
    ensures Find(Update(s, id, p), id) == if id in IdsOf(s) then Some(Apply(Find(s, id).value, p)) else None
    ensures k != id ==> Find(Update(s, id, p), k) == Find(s, k)
  {
    var r := Update(s, id, p);
    KeyedDistinct(s);
    KeyedDistinct(r);
    if id in IdsOf(s) {
      FindAt(s, id);
      var i :| 0 <= i < |s| && s[i].id == id && Find(s, id) == Some(s[i]);
      FindDistinct(r, i);
    }
    if k != id && k in IdsOf(s) {
      FindAt(s, k);
      var i :| 0 <= i < |s| && s[i].id == k && Find(s, k) == Some(s[i]);
      FindDistinct(r, i);
    }
  }

  /**
   The records the unsynced query is meant to return: those whose synced
   flag is false, in key order. IndexedDB takes no boolean keys, so the
   query on the synced index cannot deliver them as written; this is the
   intended result.
   */
  function Unsynced(s: seq<Task>): (r: seq<Task>)
    ensures forall t :: t in r <==> t in s && !t.synced
  {
    if s == [] then []
    else
      assert s == [s[0]] + s[1..];
      if s[0].synced then Unsynced(s[1..]) else [s[0]] + Unsynced(s[1..])
  }

  lemma {:induction false} UnsyncedKeyed(s: seq<Task>)
    requires Keyed(s)
    ensures Keyed(Unsynced(s))
  {
    if s != [] {
      KeyedUncons(s);
      UnsyncedKeyed(s[1..]);
      if !s[0].synced {
        KeyedCons(s[0], Unsynced(s[1..]));
      }
    }
  }
}
