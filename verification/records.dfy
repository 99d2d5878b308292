/**
 Operations over an ordered list of task records, shared by the store
 (whose table is such a list, kept in key order) and the board columns.
 */
module Records {
  import opened Wrappers
  import opened Tasks

  /** The ids of the records in a list. */
  function IdsOf(s: seq<Task>): set<int> {
    set t | t in s :: t.id
  }

  /** No id occurs twice in the list. */
  predicate DistinctIds(s: seq<Task>) {
    forall i, j :: 0 <= i < j < |s| ==> s[i].id != s[j].id
  }

  lemma IdsOfCons(t: Task, s: seq<Task>)
    ensures IdsOf([t] + s) == {t.id} + IdsOf(s)
  {
    assert forall u :: u in [t] + s <==> u == t || u in s;
  }

  lemma IdsOfSnoc(s: seq<Task>, t: Task)
    ensures IdsOf(s + [t]) == IdsOf(s) + {t.id}
  {
    assert forall u :: u in s + [t] <==> u in s || u == t;
  }

  /** Appending a record with a fresh id keeps a list without repeats. */
  lemma DistinctSnoc(s: seq<Task>, t: Task)
    requires DistinctIds(s) && t.id !in IdsOf(s)
    ensures DistinctIds(s + [t])
  {
    forall i, j | 0 <= i < j < |s + [t]| ensures (s + [t])[i].id != (s + [t])[j].id {
      assert (s + [t])[i] == s[i];
      if j == |s| {
        assert s[i] in s;
      } else {
        assert (s + [t])[j] == s[j];
      }
    }
  }

  /** `Array.prototype.find` by id: the first record carrying `id`, if any. */
  function Find(s: seq<Task>, id: int): (r: Option<Task>)
    ensures r.None? <==> id !in IdsOf(s)
    ensures r.Some? ==> r.value in s && r.value.id == id
    ensures r.Some? ==> exists i :: 0 <= i < |s| && s[i] == r.value && id !in IdsOf(s[..i])
  {
    if s == [] then None
    else
      IdsOfCons(s[0], s[1..]);
      assert s == [s[0]] + s[1..];
      if s[0].id == id then
        assert s[..0] == [];
        Some(s[0])
      else
        var r := Find(s[1..], id);
        FirstPastHead(s, id, r);
        r
  }

  /** A first match in the tail, behind a head that does not match, is a first match in the list. */
  lemma FirstPastHead(s: seq<Task>, id: int, r: Option<Task>)
    requires s != [] && s[0].id != id
    requires r.Some? ==> exists i :: 0 <= i < |s[1..]| && s[1..][i] == r.value && id !in IdsOf(s[1..][..i])
    ensures r.Some? ==> exists i :: 0 <= i < |s| && s[i] == r.value && id !in IdsOf(s[..i])
  {
    if r.Some? {
      var i :| 0 <= i < |s[1..]| && s[1..][i] == r.value && id !in IdsOf(s[1..][..i]);
      assert s[..i + 1] == [s[0]] + s[1..][..i];
      IdsOfCons(s[0], s[1..][..i]);
    }
  }

  /** In a list without repeated ids, `Find` returns the one record with that id. */
  lemma {:induction false} FindDistinct(s: seq<Task>, i: int)
    requires DistinctIds(s) && 0 <= i < |s|
    ensures Find(s, s[i].id) == Some(s[i])
  {
    if i > 0 {
      assert s[i] == s[1..][i - 1];
      FindDistinct(s[1..], i - 1);
    }
  }

  /** In a list without repeated ids, `Find` returns each member under its own id. */
  lemma FindMember(s: seq<Task>, t: Task)
    requires DistinctIds(s) && t in s
    ensures Find(s, t.id) == Some(t)
  {
    var i :| 0 <= i < |s| && s[i] == t;
    FindDistinct(s, i);
  }

  /**
   The record with a given id in a list without repeated ids: the `Find`
   result, whatever position it sits at.
   */
  lemma FindAt(s: seq<Task>, id: int)
    requires DistinctIds(s) && id in IdsOf(s)
    ensures exists i :: 0 <= i < |s| && s[i].id == id && Find(s, id) == Some(s[i])
  {
    var t :| t in s && t.id == id;
    var i :| 0 <= i < |s| && s[i] == t;
    FindDistinct(s, i);
  }

  /**
   The edit's map over a column: every record carrying `id` gets the patch,
   every other record is kept, in place.
   */
  function PatchWhere(s: seq<Task>, id: int, p: Patch): (r: seq<Task>)
    ensures |r| == |s|
    ensures forall i :: 0 <= i < |s| ==> r[i].id == s[i].id
    ensures forall i :: 0 <= i < |s| && s[i].id != id ==> r[i] == s[i]
    ensures forall i :: 0 <= i < |s| && s[i].id == id ==> r[i] == Apply(s[i], p)
  {
    seq(|s|, i requires 0 <= i < |s| => if s[i].id == id then Apply(s[i], p) else s[i])
  }

  lemma PatchWhereKeepsIds(s: seq<Task>, id: int, p: Patch)
    ensures IdsOf(PatchWhere(s, id, p)) == IdsOf(s)
    ensures DistinctIds(s) ==> DistinctIds(PatchWhere(s, id, p))
  {
    var r := PatchWhere(s, id, p);
    forall k | k in IdsOf(s) ensures k in IdsOf(r) {
      var i :| 0 <= i < |s| && s[i].id == k;
      assert r[i] in r;
    }
    forall k | k in IdsOf(r) ensures k in IdsOf(s) {
      var i :| 0 <= i < |r| && r[i].id == k;
      assert s[i] in s;
    }
  }

  /** Filtering by id: the list with every record carrying `id` dropped, order kept. */
  function Without(s: seq<Task>, id: int): (r: seq<Task>)
    ensures |r| <= |s|
    ensures forall t :: t in r <==> t in s && t.id != id
  {
    if s == [] then []
    else
      assert s == [s[0]] + s[1..];
      if s[0].id == id then Without(s[1..], id) else [s[0]] + Without(s[1..], id)
  }

  /**
   Filtering keeps the survivors in their order: in a list without repeats
   that holds `id`, filtering cuts exactly the one record carrying it.
   */
  lemma WithoutSplice(s: seq<Task>, id: int)
    requires DistinctIds(s) && id in IdsOf(s)
    ensures exists j :: 0 <= j < |s| && s[j].id == id && Without(s, id) == s[..j] + s[j + 1..]
  {
    var j :| 0 <= j < |s| && s[j].id == id;
    WithoutAt(s, j);
  }

  /** The position form of `WithoutSplice`. */
  lemma {:induction false} WithoutAt(s: seq<Task>, j: int)
    requires DistinctIds(s) && 0 <= j < |s|
    ensures Without(s, s[j].id) == s[..j] + s[j + 1..]
  {
    var id := s[j].id;
    DistinctUncons(s);
    IdsOfCons(s[0], s[1..]);
    assert s == [s[0]] + s[1..];
    if j == 0 {
      WithoutAbsent(s[1..], id);
      assert s[..0] + s[1..] == s[1..];
    } else {
      assert s[1..][j - 1] == s[j];
      WithoutAt(s[1..], j - 1);
      SpliceCons(s, j);
    }
  }

  /** Cutting position `j > 0` of a list is keeping its head and cutting position `j - 1` of its tail. */
  lemma SpliceCons(s: seq<Task>, j: int)
    requires 0 < j < |s|
    ensures s[..j] + s[j + 1..] == [s[0]] + (s[1..][..j - 1] + s[1..][j..])
  {
    assert s[..j] == [s[0]] + s[1..][..j - 1];
    assert s[j + 1..] == s[1..][j..];
  }

  /** Filtering distributes over concatenation, so the survivors keep their relative order. */
  lemma {:induction false} WithoutConcat(s: seq<Task>, t: seq<Task>, id: int)
    ensures Without(s + t, id) == Without(s, id) + Without(t, id)
  {
    if s == [] {
      assert s + t == t;
    } else {
      var u := s + t;
      assert u[0] == s[0] && u[1..] == s[1..] + t;
      assert s == [s[0]] + s[1..];
      WithoutConcat(s[1..], t, id);
      if s[0].id != id {
        calc {
          Without(u, id);
          [s[0]] + Without(s[1..] + t, id);
          [s[0]] + (Without(s[1..], id) + Without(t, id));
          ([s[0]] + Without(s[1..], id)) + Without(t, id);
        }
      }
    }
  }

  lemma WithoutIds(s: seq<Task>, id: int)
    ensures IdsOf(Without(s, id)) == IdsOf(s) - {id}
  {
  }

  /** A non-empty list has at least its head's id. */
  lemma HeadIdListed(s: seq<Task>)
    ensures s != [] ==> s[0].id in IdsOf(s)
  {
    if s != [] {
      assert s[0] in s;
    }
  }

  /** A list without repeats is its head followed by a tail without repeats that lacks the head's id. */
  lemma DistinctUncons(s: seq<Task>)
    requires s != []
    ensures DistinctIds(s) <==> DistinctIds(s[1..]) && s[0].id !in IdsOf(s[1..])
  {
    if DistinctIds(s) {
      forall t | t in s[1..] ensures t.id != s[0].id {
        var j :| 0 <= j < |s[1..]| && s[1..][j] == t;
        assert s[j + 1] == t;
      }
    }
    if DistinctIds(s[1..]) && s[0].id !in IdsOf(s[1..]) {
      forall i, j | 0 <= i < j < |s| ensures s[i].id != s[j].id {
        assert s[j] == s[1..][j - 1];
        if i > 0 {
          assert s[i] == s[1..][i - 1];
        } else {
          assert s[j] in s[1..];
        }
      }
    }
  }

  /** Dropping an id keeps a list without repeats. */
  lemma {:induction false} WithoutDistinct(s: seq<Task>, id: int)
    requires DistinctIds(s)
    ensures DistinctIds(Without(s, id))
  {
    if s != [] {
      DistinctUncons(s);
      WithoutDistinct(s[1..], id);
      var rest := Without(s[1..], id);
      if s[0].id != id {
        WithoutIds(s[1..], id);
        assert [s[0]] + rest == Without(s, id);
        assert ([s[0]] + rest)[1..] == rest;
        DistinctUncons([s[0]] + rest);
      }
    }
  }

  /** Dropping an id that is absent changes nothing. */
  lemma {:induction false} WithoutAbsent(s: seq<Task>, id: int)
    requires id !in IdsOf(s)
    ensures Without(s, id) == s
  {
    if s != [] {
      IdsOfCons(s[0], s[1..]);
      assert s == [s[0]] + s[1..];
      WithoutAbsent(s[1..], id);
    }
  }

  /** The id occurs at most once in the list; other ids may repeat. */
  predicate AtMostOnce(s: seq<Task>, id: int) {
    forall i, j :: 0 <= i < j < |s| && s[i].id == id ==> s[j].id != id
  }

  lemma AtMostOnceUncons(s: seq<Task>, id: int)
    requires s != [] && AtMostOnce(s, id)
    ensures AtMostOnce(s[1..], id)
    ensures s[0].id == id ==> id !in IdsOf(s[1..])
  {
    forall i, j | 0 <= i < j < |s[1..]| && s[1..][i].id == id ensures s[1..][j].id != id {
      assert s[1..][i] == s[i + 1] && s[1..][j] == s[j + 1];
    }
    if s[0].id == id {
      forall t | t in s[1..] ensures t.id != id {
        var j :| 0 <= j < |s[1..]| && s[1..][j] == t;
        assert s[j + 1] == t;
      }
    }
  }

  /** Dropping an id that occurs once removes exactly one entry. */
  lemma {:induction false} WithoutOne(s: seq<Task>, id: int)
    requires AtMostOnce(s, id) && id in IdsOf(s)
    ensures |Without(s, id)| == |s| - 1
  {
    AtMostOnceUncons(s, id);
    IdsOfCons(s[0], s[1..]);
    assert s == [s[0]] + s[1..];
    if s[0].id == id {
      WithoutAbsent(s[1..], id);
    } else {
      WithoutOne(s[1..], id);
    }
  }
}
