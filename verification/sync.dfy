/**
 `syncTasksToServer`: one pass over a snapshot of the unsynced records,
 pushing each to `/api/tasks` and marking it synced when the request
 resolves. The network is an oracle: the i-th push of the pass meets the
 i-th outcome.
 */
module Sync {
  import opened Wrappers
  import opened Tasks
  import opened Records
  import opened Store
  import opened Consistency

  /** How a `fetch` settles: any HTTP response resolves it, a network error rejects it. */
  datatype Outcome = Resolved | Rejected

  /** The request method the push uses. */
  datatype Verb = POST | DELETE

  /** One request of a pass: its method and the record sent as its body. */
  datatype Push = Push(verb: Verb, body: Task)

  /** Tombstones are pushed as deletions, every other record as a creation. */
  function VerbFor(t: Task): (v: Verb)
    ensures v == DELETE <==> t.deleted
  {
    if t.deleted then DELETE else POST
  }

  /** The change a resolved push writes: synced becomes true, nothing else. */
  const SyncedPatch := Patch(None, None, None, None, None, Some(true))

  /** The ids whose push, among the first `n` of the pass, resolved. */
  function ResolvedIds(snapshot: seq<Task>, network: seq<Outcome>, n: nat): set<int>
    requires n <= |snapshot| && n <= |network|
  {
    set j | 0 <= j < n && network[j] == Resolved :: snapshot[j].id
  }

  /** The ids whose push rejected. */
  function RejectedIds(snapshot: seq<Task>, network: seq<Outcome>): set<int>
    requires |snapshot| == |network|
  {
    set j | 0 <= j < |snapshot| && network[j] == Rejected :: snapshot[j].id
  }

  /**
   The pass: push every record of the unsynced snapshot once, in key order,
   with DELETE for tombstones and POST otherwise; after a resolved push patch
   only that record's synced flag to true, after a rejected one leave it and
   go on. Returns the table after the pass and the requests made.
   */
  method SyncTasksToServer(store: seq<Task>, network: seq<Outcome>) returns (store': seq<Task>, pushes: seq<Push>)
    requires Keyed(store)
    requires |network| == |Unsynced(store)|
    ensures |pushes| == |Unsynced(store)|
    ensures forall i :: 0 <= i < |pushes| ==>
      pushes[i] == Push(VerbFor(Unsynced(store)[i]), Unsynced(store)[i])
    ensures forall i :: 0 <= i < |pushes| ==> (pushes[i].verb == DELETE <==> pushes[i].body.deleted)
    ensures forall i, j :: 0 <= i < j < |pushes| ==> pushes[i].body.id != pushes[j].body.id
    ensures |store'| == |store|
    ensures forall i :: 0 <= i < |store| ==>
      store'[i] == if store[i].id in ResolvedIds(Unsynced(store), network, |network|)
                   then store[i].(synced := true) else store[i]
    ensures IdsOf(Unsynced(store')) == RejectedIds(Unsynced(store), network)
    ensures (forall j :: 0 <= j < |network| ==> network[j] == Resolved) ==> Unsynced(store') == []
  {
    var snapshot := Unsynced(store);
    store', pushes := store, [];
    var i := 0;
    while i < |snapshot|
      invariant 0 <= i <= |snapshot|
      invariant |pushes| == i
      invariant forall j :: 0 <= j < i ==> pushes[j] == Push(VerbFor(snapshot[j]), snapshot[j])
      invariant MarkedUpTo(store, store', snapshot, network, i)
    {
      var task := snapshot[i];
      var push := Push(VerbFor(task), task);
      assert forall j :: 0 <= j < i + 1 ==> (pushes + [push])[j] == Push(VerbFor(snapshot[j]), snapshot[j]) by {
        forall j | 0 <= j < i + 1 ensures (pushes + [push])[j] == Push(VerbFor(snapshot[j]), snapshot[j]) {
          if j < i {
            assert (pushes + [push])[j] == pushes[j];
          }
        }
      }
      pushes := pushes + [push];
      var next := if network[i] == Resolved then Update(store', task.id, SyncedPatch) else store';
      MarkStep(store, store', snapshot, network, i);
      store' := next;
      i := i + 1;
    }
    PassEnds(store, store', pushes, network);
  }

  /** What the pass has done once every record of the snapshot is pushed. */
  lemma PassEnds(store: seq<Task>, store': seq<Task>, pushes: seq<Push>, network: seq<Outcome>)
    requires Keyed(store) && |network| == |Unsynced(store)| && |pushes| == |network|
    requires forall j :: 0 <= j < |pushes| ==> pushes[j] == Push(VerbFor(Unsynced(store)[j]), Unsynced(store)[j])
    requires MarkedUpTo(store, store', Unsynced(store), network, |network|)
    ensures forall i :: 0 <= i < |pushes| ==> (pushes[i].verb == DELETE <==> pushes[i].body.deleted)
    ensures forall i, j :: 0 <= i < j < |pushes| ==> pushes[i].body.id != pushes[j].body.id
    ensures PassResult(store, store', network)
    ensures IdsOf(Unsynced(store')) == RejectedIds(Unsynced(store), network)
    ensures (forall j :: 0 <= j < |network| ==> network[j] == Resolved) ==> Unsynced(store') == []
  {
    var snapshot := Unsynced(store);
    UnsyncedKeyed(store);
    forall j | 0 <= j < |pushes| ensures pushes[j].body == snapshot[j] && (pushes[j].verb == DELETE <==> pushes[j].body.deleted) {
      assert pushes[j] == Push(VerbFor(snapshot[j]), snapshot[j]);
    }
    RemainingAreRejected(store, store', network);
  }

  /** After the first `n` pushes, exactly the records whose push resolved carry synced true. */
  predicate MarkedUpTo(store: seq<Task>, store': seq<Task>, snapshot: seq<Task>, network: seq<Outcome>, n: nat)
    requires n <= |snapshot| && n <= |network|
  {
    && |store'| == |store|
    && forall k :: 0 <= k < |store| ==>
         store'[k] == if store[k].id in ResolvedIds(snapshot, network, n) then store[k].(synced := true) else store[k]
  }

  /** One push of the pass: a resolved push marks its record, a rejected one changes nothing. */
  lemma MarkStep(store: seq<Task>, store': seq<Task>, snapshot: seq<Task>, network: seq<Outcome>, i: nat)
    requires i < |snapshot| && i < |network| && MarkedUpTo(store, store', snapshot, network, i)
    ensures MarkedUpTo(store, if network[i] == Resolved then Update(store', snapshot[i].id, SyncedPatch) else store',
                       snapshot, network, i + 1)
  {
    var id := snapshot[i].id;
    assert ResolvedIds(snapshot, network, i + 1) ==
      ResolvedIds(snapshot, network, i) + (if network[i] == Resolved then {id} else {});
    if network[i] == Resolved {
      var next := Update(store', id, SyncedPatch);
      forall k | 0 <= k < |store| ensures next[k] == if store[k].id in ResolvedIds(snapshot, network, i + 1)
                                                    then store[k].(synced := true) else store[k] {
        assert next[k] == if store'[k].id == id then Apply(store'[k], SyncedPatch) else store'[k];
      }
    }
  }

  /**
   A pass changes nothing but synced flags, so the table keeps its key order
   and, by `SyncConsistent`, a board consistent with it stays consistent.
   */
  lemma PassKeepsKeys(store: seq<Task>, store': seq<Task>, network: seq<Outcome>)
    requires Keyed(store) && |network| == |Unsynced(store)| && PassResult(store, store', network)
    ensures SameButSynced(store, store') && Keyed(store')
  {
    SameButSyncedKeyed(store, store');
  }

  /** The table as a pass leaves it, given the outcomes its pushes met. */
  ghost predicate PassResult(store: seq<Task>, store': seq<Task>, network: seq<Outcome>)
    requires |network| == |Unsynced(store)|
  {
    && |store'| == |store|
    && forall i :: 0 <= i < |store| ==>
         store'[i] == if store[i].id in ResolvedIds(Unsynced(store), network, |network|)
                      then store[i].(synced := true) else store[i]
  }

  /** After the pass the unsynced records are exactly those whose push rejected. */
  lemma RemainingAreRejected(store: seq<Task>, store': seq<Task>, network: seq<Outcome>)
    requires Keyed(store) && |network| == |Unsynced(store)| && PassResult(store, store', network)
    ensures IdsOf(Unsynced(store')) == RejectedIds(Unsynced(store), network)
    ensures (forall j :: 0 <= j < |network| ==> network[j] == Resolved) ==> Unsynced(store') == []
  {
    RemainingWereRejected(store, store', network);
    RejectedRemain(store, store', network);
    HeadIdListed(Unsynced(store'));
    if forall j :: 0 <= j < |network| ==> network[j] == Resolved {
      assert RejectedIds(Unsynced(store), network) == {};
    }
  }

  lemma RemainingWereRejected(store: seq<Task>, store': seq<Task>, network: seq<Outcome>)
    requires Keyed(store) && |network| == |Unsynced(store)| && PassResult(store, store', network)
    ensures IdsOf(Unsynced(store')) <= RejectedIds(Unsynced(store), network)
  {
    forall id | id in IdsOf(Unsynced(store')) ensures id in RejectedIds(Unsynced(store), network) {
      var t :| t in Unsynced(store') && t.id == id;
      var k :| 0 <= k < |store'| && store'[k] == t;
      StillUnsynced(store, store', network, k);
    }
  }

  /** A record still unsynced after the pass was unsynced before it, and its push rejected. */
  lemma StillUnsynced(store: seq<Task>, store': seq<Task>, network: seq<Outcome>, k: int)
    requires |network| == |Unsynced(store)| && PassResult(store, store', network)
    requires 0 <= k < |store'| && !store'[k].synced
    ensures store'[k].id in RejectedIds(Unsynced(store), network)
  {
    var snapshot := Unsynced(store);
    var resolved := ResolvedIds(snapshot, network, |network|);
    var id := store[k].id;
    assert id !in resolved && store'[k] == store[k];
    assert store[k] in snapshot;
    var j :| 0 <= j < |snapshot| && snapshot[j] == store[k];
    assert network[j] == Resolved ==> id in resolved;
  }

  lemma RejectedRemain(store: seq<Task>, store': seq<Task>, network: seq<Outcome>)
    requires Keyed(store) && |network| == |Unsynced(store)| && PassResult(store, store', network)
    ensures RejectedIds(Unsynced(store), network) <= IdsOf(Unsynced(store'))
  {
    var snapshot := Unsynced(store);
    UnsyncedKeyed(store);
    forall id | id in RejectedIds(snapshot, network) ensures id in IdsOf(Unsynced(store')) {
      var j :| 0 <= j < |snapshot| && network[j] == Rejected && snapshot[j].id == id;
      RejectedStays(store, store', network, j);
    }
  }

  /** The record of a rejected push is left as it was, so it is still unsynced after the pass. */
  lemma RejectedStays(store: seq<Task>, store': seq<Task>, network: seq<Outcome>, j: int)
    requires |network| == |Unsynced(store)| && PassResult(store, store', network)
    requires Keyed(Unsynced(store)) && 0 <= j < |network| && network[j] == Rejected
    ensures Unsynced(store)[j].id in IdsOf(Unsynced(store'))
  {
    var snapshot := Unsynced(store);
    var id := snapshot[j].id;
    assert snapshot[j] in store;
    var k :| 0 <= k < |store| && store[k] == snapshot[j];
    assert forall j' :: 0 <= j' < |snapshot| && snapshot[j'].id == id ==> j' == j;
    assert id !in ResolvedIds(snapshot, network, |network|);
    assert store'[k] in Unsynced(store');
  }
}
