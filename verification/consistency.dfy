/**
 How the board kept in React state relates to the table. After a load,
 and after every mutation made from the board, each column holds exactly
 the live records whose status selects it, once each, and each card
 equals its stored record except perhaps in its synced flag.
 */
module Consistency {
  import opened Wrappers
  import opened Tasks
  import opened Records
  import opened Store
  import opened Boards
  import opened Text
  import opened Mutations

  /** The stored record under `id` is live and its status selects column `c`. */
  predicate PlacedIn(store: seq<Task>, id: int, c: Column) {
    match Find(store, id)
    case None => false
    case Some(r) => Live(r) && Placement(r.status) == Some(c)
  }

  /** A card in column `c` shows its stored record, which may differ from it only in `synced`. */
  predicate Shows(store: seq<Task>, t: Task, c: Column) {
    PlacedIn(store, t.id, c) && Find(store, t.id).value.(synced := t.synced) == t
  }

  /** A column holds each record placed in it exactly once, and nothing else. */
  ghost predicate ColumnMatches(store: seq<Task>, col: seq<Task>, c: Column) {
    && DistinctIds(col)
    && (forall i :: 0 <= i < |col| ==> Shows(store, col[i], c))
    && (forall id :: PlacedIn(store, id, c) ==> id in IdsOf(col))
  }

  ghost predicate Consistent(store: seq<Task>, board: Board) {
    Keyed(store) && forall c :: ColumnMatches(store, board.Col(c), c)
  }

  /** On a consistent board a record's card sits in one column at most. */
  lemma ColumnsDisjoint(store: seq<Task>, board: Board, id: int, c: Column, d: Column)
    requires Consistent(store, board) && id in IdsOf(board.Col(c)) && id in IdsOf(board.Col(d))
    ensures c == d
  {
    assert ColumnMatches(store, board.Col(c), c) && ColumnMatches(store, board.Col(d), d);
    ColumnIdsStored(store, board.Col(c), c);
    ColumnIdsStored(store, board.Col(d), d);
    PlacedOnce(store, id, c, d);
  }

  /** On a consistent board no card is a tombstone. */
  lemma TombstonesHidden(store: seq<Task>, board: Board, c: Column, t: Task)
    requires Consistent(store, board) && t in board.Col(c)
    ensures !t.deleted
  {
    var col := board.Col(c);
    assert ColumnMatches(store, col, c);
    var i :| 0 <= i < |col| && col[i] == t;
    assert Shows(store, col[i], c);
  }

  /** A record is placed in one column at most. */
  lemma PlacedOnce(store: seq<Task>, id: int, c: Column, d: Column)
    requires PlacedIn(store, id, c) && PlacedIn(store, id, d)
    ensures c == d
  {
  }

  /** Every card of a matching column is a stored id. */
  lemma ColumnIdsStored(store: seq<Task>, col: seq<Task>, c: Column)
    requires ColumnMatches(store, col, c)
    ensures forall id :: id in IdsOf(col) ==> id in IdsOf(store) && PlacedIn(store, id, c)
  {
    forall id | id in IdsOf(col) ensures id in IdsOf(store) && PlacedIn(store, id, c) {
      var i :| 0 <= i < |col| && col[i].id == id;
      assert Shows(store, col[i], c);
    }
  }

  /**
   A column none of whose cards carries `id` still matches after a change
   that leaves every other key alone and does not place `id` in it.
   */
  lemma FrameColumn(store: seq<Task>, store': seq<Task>, col: seq<Task>, c: Column, id: int)
    requires ColumnMatches(store, col, c)
    requires forall k :: k != id ==> Find(store', k) == Find(store, k)
    requires id !in IdsOf(col) && !PlacedIn(store', id, c)
    ensures ColumnMatches(store', col, c)
  {
    forall i | 0 <= i < |col| ensures Shows(store', col[i], c) {
      assert Shows(store, col[i], c);
      assert col[i] in col;
    }
    forall k | PlacedIn(store', k, c) ensures k in IdsOf(col) {
      assert PlacedIn(store, k, c);
    }
  }

  /** A load that does not throw builds a board consistent with the table. */
  lemma LoadConsistent(store: seq<Task>)
    requires Keyed(store) && !Unplaceable(store)
    ensures Consistent(store, Load(store))
  {
    GroupFails(store);
    KeyedDistinct(store);
    var b := Group(store).value;
    forall c ensures ColumnMatches(store, b.Col(c), c) {
      var col := b.Col(c);
      GroupKeyed(store, c);
      KeyedDistinct(col);
      forall i | 0 <= i < |col| ensures Shows(store, col[i], c) {
        GroupPlaces(store, c, col[i]);
        assert col[i] in multiset(col);
        assert col[i] in multiset(store);
        FindMember(store, col[i]);
      }
      forall id | PlacedIn(store, id, c) ensures id in IdsOf(col) {
        var r := Find(store, id).value;
        GroupPlaces(store, c, r);
        assert r in multiset(store);
        assert r in multiset(col);
        assert r in col;
      }
    }
  }

  /** Appending a card that shows its (only changed) record keeps a column matching. */
  lemma AppendColumn(store: seq<Task>, store': seq<Task>, col: seq<Task>, c: Column, t: Task)
    requires ColumnMatches(store, col, c)
    requires forall k :: k != t.id ==> Find(store', k) == Find(store, k)
    requires t.id !in IdsOf(col) && Shows(store', t, c)
    ensures ColumnMatches(store', col + [t], c)
  {
    var col' := col + [t];
    DistinctSnoc(col, t);
    IdsOfSnoc(col, t);
    forall i | 0 <= i < |col'| ensures Shows(store', col'[i], c) {
      if i < |col| {
        assert col'[i] == col[i] && col[i] in col;
        assert Shows(store, col[i], c);
      }
    }
    forall k | PlacedIn(store', k, c) ensures k in IdsOf(col') {
      if k != t.id {
        assert PlacedIn(store, k, c);
      }
    }
  }

  /** Dropping the cards of an id that is no longer placed in a column keeps it matching. */
  lemma RemoveFromColumn(store: seq<Task>, store': seq<Task>, col: seq<Task>, c: Column, id: int)
    requires ColumnMatches(store, col, c)
    requires forall k :: k != id ==> Find(store', k) == Find(store, k)
    requires !PlacedIn(store', id, c)
    ensures ColumnMatches(store', Without(col, id), c)
  {
    var col' := Without(col, id);
    WithoutDistinct(col, id);
    WithoutIds(col, id);
    forall i | 0 <= i < |col'| ensures Shows(store', col'[i], c) {
      assert col'[i] in col';
      var i0 :| 0 <= i0 < |col| && col[i0] == col'[i];
      assert Shows(store, col[i0], c);
    }
    forall k | PlacedIn(store', k, c) ensures k in IdsOf(col') {
      assert PlacedIn(store, k, c);
    }
  }

  /**
   Patching the cards of an id with the same patch as its stored record,
   when the patch leaves status and tombstone alone, keeps a column matching.
   */
  lemma PatchColumn(store: seq<Task>, store': seq<Task>, col: seq<Task>, c: Column, id: int, p: Patch)
    requires ColumnMatches(store, col, c)
    requires forall k :: k != id ==> Find(store', k) == Find(store, k)
    requires Find(store', id) == if id in IdsOf(store) then Some(Apply(Find(store, id).value, p)) else None
    requires p.status.None? && p.deleted.None?
    ensures ColumnMatches(store', PatchWhere(col, id, p), c)
  {
    var col' := PatchWhere(col, id, p);
    PatchWhereKeepsIds(col, id, p);
    forall k ensures PlacedIn(store', k, c) == PlacedIn(store, k, c) {
    }
    forall i | 0 <= i < |col'| ensures Shows(store', col'[i], c) {
      assert Shows(store, col[i], c);
    }
    forall k | PlacedIn(store', k, c) ensures k in IdsOf(col') {
      assert PlacedIn(store, k, c);
    }
  }

  /** Creating a record from a consistent state, under a fresh id, keeps the state consistent. */
  lemma CreateConsistent(app: App, modal: Modal, now: int)
    requires Consistent(app.store, app.board) && modal.mode.Adding? && now !in IdsOf(app.store)
    requires !AllWhitespace(modal.title) && !AllWhitespace(modal.description)
    ensures Submit(app, modal, now).Success?
    ensures Consistent(Submit(app, modal, now).value.store, Submit(app, modal, now).value.board)
  {
    CreateAppends(app, modal, now, now);
    var next := Submit(app, modal, now).value;
    forall k | k != now ensures Find(next.store, k) == Find(app.store, k) {
      CreateAppends(app, modal, now, k);
    }
    AppendedConsistent(app.store, app.board, next.store, next.board, modal.column, NewRecord(modal, now));
  }

  /** Storing one new live record and appending it to the column it selects keeps the state consistent. */
  lemma AppendedConsistent(store: seq<Task>, board: Board, store': seq<Task>, board': Board, c: Column, rec: Task)
    requires Consistent(store, board) && Keyed(store') && rec.id !in IdsOf(store)
    requires forall k :: k != rec.id ==> Find(store', k) == Find(store, k)
    requires Find(store', rec.id) == Some(rec) && Live(rec) && Placement(rec.status) == Some(c)
    requires board'.Col(c) == board.Col(c) + [rec]
    requires forall d :: d != c ==> board'.Col(d) == board.Col(d)
    ensures Consistent(store', board')
  {
    forall d ensures ColumnMatches(store', board'.Col(d), d) {
      assert ColumnMatches(store, board.Col(d), d);
      ColumnIdsStored(store, board.Col(d), d);
      if d == c {
        AppendColumn(store, store', board.Col(d), d, rec);
      } else {
        FrameColumn(store, store', board.Col(d), d, rec.id);
      }
    }
  }

  /**
   An edit made from the card's own column (the modal names the column the
   edited card sits in, if it is on the board) keeps the state consistent.
   */
  lemma EditConsistent(app: App, modal: Modal, now: int)
    requires Consistent(app.store, app.board) && modal.mode.Editing?
    requires forall d :: modal.mode.taskId in IdsOf(app.board.Col(d)) ==> d == modal.column
    requires !AllWhitespace(modal.title) && !AllWhitespace(modal.description)
    ensures Submit(app, modal, now).Success?
    ensures Consistent(Submit(app, modal, now).value.store, Submit(app, modal, now).value.board)
  {
    var id, c := modal.mode.taskId, modal.column;
    var p := EditPatch(Trim(modal.title), Trim(modal.description), modal.priority);
    SubmitEdits(app, modal, now);
    var next := Submit(app, modal, now).value;
    PatchedConsistent(app.store, app.board, next.store, next.board, c, id, p);
  }

  /**
   Patching a record's texts and flags in the table and the cards carrying
   its id in the one column that may hold them keeps the state consistent.
   */
  lemma PatchedConsistent(store: seq<Task>, board: Board, store': seq<Task>, board': Board, c: Column, id: int, p: Patch)
    requires Consistent(store, board) && p.status.None? && p.deleted.None?
    requires forall d :: id in IdsOf(board.Col(d)) ==> d == c
    requires store' == Update(store, id, p)
    requires board' == board.With(c, PatchWhere(board.Col(c), id, p))
    ensures Consistent(store', board')
  {
    UpdateFind(store, id, p, id);
    forall k | k != id ensures Find(store', k) == Find(store, k) {
      UpdateFind(store, id, p, k);
    }
    forall d ensures ColumnMatches(store', board'.Col(d), d) {
      assert ColumnMatches(store, board.Col(d), d);
      if d == c {
        PatchColumn(store, store', board.Col(d), d, id, p);
      } else {
        assert PlacedIn(store', id, d) == PlacedIn(store, id, d);
        FrameColumn(store, store', board.Col(d), d, id);
      }
    }
  }

  /** Every drop on a consistent state keeps it consistent. */
  lemma DropConsistent(app: App, drag: Option<Drag>, to: Column)
    requires Consistent(app.store, app.board)
    ensures Consistent(Drop(app, drag, to).store, Drop(app, drag, to).board)
  {
    if drag.Some? && drag.value.column != to && drag.value.taskId in IdsOf(app.board.Col(drag.value.column)) {
      var from, id := drag.value.column, drag.value.taskId;
      MoveConsistent(app, from, id, to);
    }
  }

  lemma MoveConsistent(app: App, from: Column, id: int, to: Column)
    requires Consistent(app.store, app.board)
    requires from != to && id in IdsOf(app.board.Col(from))
    ensures Consistent(Drop(app, Some(Drag(from, id)), to).store, Drop(app, Some(Drag(from, id)), to).board)
  {
    var colFrom := app.board.Col(from);
    DropMoves(app, from, id, to, id);
    var next := Drop(app, Some(Drag(from, id)), to);
    forall k | k != id ensures Find(next.store, k) == Find(app.store, k) {
      DropMoves(app, from, id, to, k);
    }
    var card := Find(colFrom, id).value;
    FindAt(colFrom, id);
    var j :| 0 <= j < |colFrom| && colFrom[j].id == id && card == colFrom[j];
    assert ColumnMatches(app.store, colFrom, from);
    MovedConsistent(app.store, app.board, next.store, next.board, from, to, card);
  }

  /**
   Restating a card's record with a new status, removing the card from its
   column and appending it, restated, to the new column keeps the state consistent.
   */
  lemma MovedConsistent(store: seq<Task>, board: Board, store': seq<Task>, board': Board, from: Column, to: Column, card: Task)
    requires Consistent(store, board) && Keyed(store') && from != to
    requires card in board.Col(from)
    requires forall k :: k != card.id ==> Find(store', k) == Find(store, k)
    requires Find(store', card.id) == Some(Find(store, card.id).value.(status := Named(to), synced := false))
    requires board'.Col(from) == Without(board.Col(from), card.id)
    requires board'.Col(to) == board.Col(to) + [card.(status := Named(to))]
    requires forall e :: e != from && e != to ==> board'.Col(e) == board.Col(e)
    ensures Consistent(store', board')
  {
    var j :| 0 <= j < |board.Col(from)| && board.Col(from)[j] == card;
    assert Shows(store, card, from);
    var moved := card.(status := Named(to));
    assert Shows(store', moved, to);
    forall d ensures ColumnMatches(store', board'.Col(d), d) {
      MovedColumn(store, board, store', board', from, to, moved, d);
    }
  }

  /** One column after a move: the source loses the card, the target gains it, the third is framed. */
  lemma MovedColumn(store: seq<Task>, board: Board, store': seq<Task>, board': Board, from: Column, to: Column, moved: Task, d: Column)
    requires Consistent(store, board)
    requires from != to && moved.id in IdsOf(board.Col(from))
    requires forall k :: k != moved.id ==> Find(store', k) == Find(store, k)
    requires Shows(store', moved, to)
    requires board'.Col(from) == Without(board.Col(from), moved.id)
    requires board'.Col(to) == board.Col(to) + [moved]
    requires forall e :: e != from && e != to ==> board'.Col(e) == board.Col(e)
    ensures ColumnMatches(store', board'.Col(d), d)
  {
    var id, col := moved.id, board.Col(d);
    assert ColumnMatches(store, col, d);
    assert d != to ==> !PlacedIn(store', id, d);
    if d == from {
      RemoveFromColumn(store, store', col, d, id);
    } else {
      ColumnIdsStored(store, col, d);
      ColumnIdsStored(store, board.Col(from), from);
      assert id in IdsOf(col) ==> PlacedIn(store, id, d) && PlacedIn(store, id, from);
      assert id !in IdsOf(col);
      if d == to {
        AppendColumn(store, store', col, d, moved);
      } else {
        FrameColumn(store, store', col, d, id);
      }
    }
  }

  /**
   A soft delete made from the card's own column (the column handed in is
   the one the card sits in, if it is on the board) keeps the state consistent.
   */
  lemma DeleteConsistent(app: App, column: Column, id: int)
    requires Consistent(app.store, app.board)
    requires forall d :: id in IdsOf(app.board.Col(d)) ==> d == column
    ensures Consistent(Delete(app, column, id).store, Delete(app, column, id).board)
  {
    DeleteTombstones(app, column, id, id);
    var next := Delete(app, column, id);
    forall k | k != id ensures Find(next.store, k) == Find(app.store, k) {
      DeleteTombstones(app, column, id, k);
    }
    forall d ensures ColumnMatches(next.store, next.board.Col(d), d) {
      if d == column {
        RemoveFromColumn(app.store, next.store, app.board.Col(d), d, id);
      } else {
        FrameColumn(app.store, next.store, app.board.Col(d), d, id);
      }
    }
  }

  /** Two tables that differ at most in synced flags, position by position. */
  predicate SameButSynced(store: seq<Task>, store': seq<Task>) {
    |store'| == |store| && forall i :: 0 <= i < |store| ==> store'[i].(synced := store[i].synced) == store[i]
  }

  lemma {:induction false} FindSameButSynced(store: seq<Task>, store': seq<Task>, k: int)
    requires SameButSynced(store, store')
    ensures Find(store', k).None? <==> Find(store, k).None?
    ensures Find(store', k).Some? ==> Find(store', k).value.(synced := Find(store, k).value.synced) == Find(store, k).value
  {
    if store != [] {
      assert store'[0].(synced := store[0].synced) == store[0];
      assert SameButSynced(store[1..], store'[1..]) by {
        forall i | 0 <= i < |store[1..]| ensures store'[1..][i].(synced := store[1..][i].synced) == store[1..][i] {
          assert store'[1..][i] == store'[i + 1] && store[1..][i] == store[i + 1];
        }
      }
      FindSameButSynced(store[1..], store'[1..], k);
    }
  }

  /** Changing nothing but synced flags keeps the state consistent: the board never reads them. */
  lemma SyncConsistent(store: seq<Task>, store': seq<Task>, board: Board)
    requires Consistent(store, board) && SameButSynced(store, store')
    ensures Consistent(store', board)
  {
    SameButSyncedKeyed(store, store');
    forall c ensures ColumnMatches(store', board.Col(c), c) {
      SyncColumn(store, store', board.Col(c), c);
    }
  }

  /** Synced flags do not take part in key order. */
  lemma SameButSyncedKeyed(store: seq<Task>, store': seq<Task>)
    requires Keyed(store) && SameButSynced(store, store')
    ensures Keyed(store')
  {
    forall i, j | 0 <= i < j < |store'| ensures store'[i].id < store'[j].id {
      assert store'[i].id == store[i].id && store'[j].id == store[j].id;
    }
  }

  /** Synced flags do not take part in placement, nor in what a card shows. */
  lemma SyncColumn(store: seq<Task>, store': seq<Task>, col: seq<Task>, c: Column)
    requires ColumnMatches(store, col, c) && SameButSynced(store, store')
    ensures ColumnMatches(store', col, c)
  {
    forall k ensures PlacedIn(store', k, c) == PlacedIn(store, k, c) {
      FindSameButSynced(store, store', k);
    }
    forall i | 0 <= i < |col| ensures Shows(store', col[i], c) {
      assert Shows(store, col[i], c);
      FindSameButSynced(store, store', col[i].id);
    }
  }

  /** A column without repeated ids has as many cards as ids. */
  lemma {:induction false} DistinctCard(col: seq<Task>)
    requires DistinctIds(col)
    ensures |IdsOf(col)| == |col|
  {
    if col != [] {
      DistinctUncons(col);
      IdsOfCons(col[0], col[1..]);
      assert col == [col[0]] + col[1..];
      DistinctCard(col[1..]);
    }
  }

  /** The ids of a matching column are exactly the ids placed in it. */
  lemma ColumnIds(store: seq<Task>, col: seq<Task>, c: Column)
    requires ColumnMatches(store, col, c)
    ensures IdsOf(col) == LiveIn(store, c)
  {
    ColumnIdsStored(store, col, c);
    forall id | id in LiveIn(store, c) ensures id in IdsOf(col) {
      assert PlacedIn(store, id, c);
    }
  }

  /** The ids of live stored records whose status selects column `c`. */
  function LiveIn(store: seq<Task>, c: Column): set<int> {
    set id | id in IdsOf(store) && PlacedIn(store, id, c)
  }

  /**
   The board a session has built and the one a reload would build hold,
   column by column, the same ids the same number of times, and each card
   equals the reloaded card of its id except perhaps in its synced flag.
   Their order may differ: a load orders each column by id.
   */
  lemma ReloadAgrees(store: seq<Task>, board: Board, c: Column)
    requires Consistent(store, board) && !Unplaceable(store)
    ensures IdsOf(board.Col(c)) == IdsOf(Load(store).Col(c))
    ensures |board.Col(c)| == |Load(store).Col(c)|
    ensures forall i :: 0 <= i < |board.Col(c)| ==>
      && Find(Load(store).Col(c), board.Col(c)[i].id).Some?
      && Find(Load(store).Col(c), board.Col(c)[i].id).value.(synced := board.Col(c)[i].synced) == board.Col(c)[i]
  {
    LoadConsistent(store);
    var col, col' := board.Col(c), Load(store).Col(c);
    ColumnIds(store, col, c);
    ColumnIds(store, col', c);
    DistinctCard(col);
    DistinctCard(col');
    forall i | 0 <= i < |col|
      ensures Find(col', col[i].id).Some? && Find(col', col[i].id).value.(synced := col[i].synced) == col[i]
    {
      assert col[i] in col;
      assert Shows(store, col[i], c);
      FindAt(col', col[i].id);
      var j :| 0 <= j < |col'| && col'[j].id == col[i].id && Find(col', col[i].id) == Some(col'[j]);
      assert Shows(store, col'[j], c);
    }
  }

  /** The live stored records the board can show: those whose status names a column. */
  function Showable(store: seq<Task>): set<int> {
    set id | id in IdsOf(store) && Live(Find(store, id).value) && Placement(Find(store, id).value.status).Some?
  }

  /** The showable records split into the three columns' records, which never overlap. */
  lemma ShowableSplits(store: seq<Task>)
    ensures Showable(store) == LiveIn(store, Todo) + LiveIn(store, InProgress) + LiveIn(store, Done)
    ensures LiveIn(store, Todo) * LiveIn(store, InProgress) == {}
    ensures (LiveIn(store, Todo) + LiveIn(store, InProgress)) * LiveIn(store, Done) == {}
  {
    forall id | id in Showable(store)
      ensures id in LiveIn(store, Todo) + LiveIn(store, InProgress) + LiveIn(store, Done)
    {
      assert id in IdsOf(store) && Live(Find(store, id).value) && Placement(Find(store, id).value.status).Some?;
      var c := Placement(Find(store, id).value.status).value;
      assert PlacedIn(store, id, c);
      assert id in LiveIn(store, c);
      match c
      case Todo => assert id in LiveIn(store, Todo);
      case InProgress => assert id in LiveIn(store, InProgress);
      case Done => assert id in LiveIn(store, Done);
    }
  }

  /**
   On a consistent board the counters count the table: the total is the
   number of live records, the other two the live records in progress and
   done.
   */
  lemma CountersMatchStore(store: seq<Task>, board: Board)
    requires Consistent(store, board)
    ensures Count(board).total == |Showable(store)|
    ensures Count(board).inProgress == |LiveIn(store, InProgress)|
    ensures Count(board).completed == |LiveIn(store, Done)|
  {
    ColumnCount(store, board, Todo);
    ColumnCount(store, board, InProgress);
    ColumnCount(store, board, Done);
    ShowableCount(store);
  }

  lemma ShowableCount(store: seq<Task>)
    ensures |Showable(store)| == |LiveIn(store, Todo)| + |LiveIn(store, InProgress)| + |LiveIn(store, Done)|
  {
    ShowableSplits(store);
    var t, p, d := LiveIn(store, Todo), LiveIn(store, InProgress), LiveIn(store, Done);
    assert |t + p| == |t| + |p|;
    assert |t + p + d| == |t + p| + |d|;
  }

  lemma ColumnCount(store: seq<Task>, board: Board, c: Column)
    requires Consistent(store, board)
    ensures |board.Col(c)| == |LiveIn(store, c)|
  {
    ColumnIds(store, board.Col(c), c);
    DistinctCard(board.Col(c));
  }

  /** The example's table loads as the example's board. */
  lemma ReorderStart()
    ensures var a := Task(1, "a", "x", High, Named(Todo), false, true);
            var b := Task(2, "b", "y", Low, Named(Done), false, true);
            Load([a, b]) == Board([a], [], [b])
  {
    var a := Task(1, "a", "x", High, Named(Todo), false, true);
    var b := Task(2, "b", "y", Low, Named(Done), false, true);
    assert [a, b][..1] == [a];
    assert [a][..0] == [];
    assert Group([]) == Some(Empty);
    assert Placement(a.status) == Some(Todo);
    assert Empty.With(Todo, Empty.Col(Todo) + [a]) == Board([a], [], []);
    assert Group([a]) == Some(Board([a], [], []));
  }

  /** Dragging the older card onto done appends it behind the newer one and marks only the record unsynced. */
  lemma ReorderMove()
    ensures var a := Task(1, "a", "x", High, Named(Todo), false, true);
            var b := Task(2, "b", "y", Low, Named(Done), false, true);
            var moved := a.(status := Named(Done));
            Drop(App([a, b], Board([a], [], [b])), Some(Drag(Todo, 1)), Done)
              == App([moved.(synced := false), b], Board([], [], [b, moved]))
  {
    var a := Task(1, "a", "x", High, Named(Todo), false, true);
    var b := Task(2, "b", "y", Low, Named(Done), false, true);
    var moved := a.(status := Named(Done));
    assert Find([a], 1) == Some(a);
    assert Update([a, b], 1, MovePatch(Done)) == [moved.(synced := false), b];
  }

  /** Reloading after the move puts the older card first. */
  lemma ReorderReload()
    ensures var moved := Task(1, "a", "x", High, Named(Done), false, false);
            var b := Task(2, "b", "y", Low, Named(Done), false, true);
            Load([moved, b]).done == [moved, b]
  {
    var moved := Task(1, "a", "x", High, Named(Done), false, false);
    var b := Task(2, "b", "y", Low, Named(Done), false, true);
    assert [moved, b][..1] == [moved];
    assert [moved][..0] == [];
    assert Group([]) == Some(Empty);
    assert Placement(moved.status) == Some(Done);
    assert Empty.With(Done, Empty.Col(Done) + [moved]) == Board([], [], [moved]);
    assert Group([moved]) == Some(Board([], [], [moved]));
  }

  /**
   Order is where a session board and a reload part ways: after dragging
   the older card of two onto the newer one's column, the session shows it
   last, a reload shows it first (by id), and the session card still carries
   the synced flag it had before the move.
   */
  lemma MoveThenReloadReorders()
    ensures var a := Task(1, "a", "x", High, Named(Todo), false, true);
            var b := Task(2, "b", "y", Low, Named(Done), false, true);
            var start := App([a, b], Board([a], [], [b]));
            var next := Drop(start, Some(Drag(Todo, 1)), Done);
            && start.board == Load(start.store)
            && next.board.done == [b, a.(status := Named(Done))]
            && Load(next.store).done == [a.(status := Named(Done), synced := false), b]
  {
    ReorderStart();
    ReorderMove();
    ReorderReload();
  }
}
