/**
 The four board mutations of src/App.js as transitions of the pair
 (durable table, board): modal submit in add and in edit mode, the drop
 that moves a card between columns, and the soft delete.
 */
module Mutations {
  import opened Wrappers
  import opened Tasks
  import opened Records
  import opened Store
  import opened Boards
  import opened Text

  /** The state the mutations act on: the `tasks` table and the board held in React state. */
  datatype App = App(store: seq<Task>, board: Board)

  /** `modal.mode`, with the card being edited in edit mode. */
  datatype Mode = Adding | Editing(taskId: int)

  /** The modal's fields at the moment it is submitted. */
  datatype Modal = Modal(mode: Mode, column: Column, title: string, description: string, priority: Priority)

  /** Why a submit changes nothing: one of the two validation alerts, or the table refusing a taken key. */
  datatype SubmitError = MissingTitle | MissingDescription | IdTaken

  /** The fields an edit writes: the three text fields, and the record becomes unsynced. */
  function EditPatch(title: string, description: string, priority: Priority): Patch {
    Patch(Some(title), Some(description), Some(priority), None, None, Some(false))
  }

  /** The fields a move writes. */
  function MovePatch(c: Column): Patch {
    Patch(None, None, None, Some(Named(c)), None, Some(false))
  }

  /** The fields a soft delete writes. */
  const DeletePatch := Patch(None, None, None, None, Some(true), Some(false))

  /**
   `handleModalSubmit`: trim both text fields and stop if either is empty;
   in add mode store a new unsynced record under the id `now` (the source's
   `Date.now()`) and append it to the modal's column; in edit mode patch the
   record and the matching card of the modal's column in place.
   */
  function Submit(app: App, modal: Modal, now: int): (r: Result<App, SubmitError>)
    requires Keyed(app.store)
    ensures r == Failure(MissingTitle) <==> AllWhitespace(modal.title)
    ensures r == Failure(MissingDescription) <==> !AllWhitespace(modal.title) && AllWhitespace(modal.description)
    ensures r == Failure(IdTaken) <==>
      !AllWhitespace(modal.title) && !AllWhitespace(modal.description) && modal.mode.Adding? && now in IdsOf(app.store)
  {
    TrimBlankIffAllWhitespace(modal.title);
    TrimBlankIffAllWhitespace(modal.description);
    var title, description := Trim(modal.title), Trim(modal.description);
    if title == [] then Failure(MissingTitle)
    else if description == [] then Failure(MissingDescription)
    else
      var c := modal.column;
      match modal.mode
      case Adding =>
        var t := Task(now, title, description, modal.priority, Named(c), false, false);
        (match Add(app.store, t)
         case Failure(_) => Failure(IdTaken)
         case Success(store) => Success(App(store, app.board.With(c, app.board.Col(c) + [t]))))
      case Editing(id) =>
        var p := EditPatch(title, description, modal.priority);
        Success(App(Update(app.store, id, p), app.board.With(c, PatchWhere(app.board.Col(c), id, p))))
  }

  /** The record an add-mode submit creates. */
  function NewRecord(modal: Modal, now: int): Task {
    Task(now, Trim(modal.title), Trim(modal.description), modal.priority, Named(modal.column), false, false)
  }

  /**
   Creating with a fresh id stores exactly one new record, holding the
   trimmed texts, the modal's column as status, not deleted and unsynced;
   the card is appended to that column and the other columns are kept.
   */
  lemma CreateAppends(app: App, modal: Modal, now: int, k: int)
    requires Keyed(app.store) && modal.mode.Adding? && now !in IdsOf(app.store)
    requires !AllWhitespace(modal.title) && !AllWhitespace(modal.description)
    ensures Submit(app, modal, now).Success?
    ensures var next := Submit(app, modal, now).value;
      && Keyed(next.store)
      && IdsOf(next.store) == IdsOf(app.store) + {now}
      && Find(next.store, now) == Some(NewRecord(modal, now))
      && (k != now ==> Find(next.store, k) == Find(app.store, k))
      && next.board.Col(modal.column) == app.board.Col(modal.column) + [NewRecord(modal, now)]
      && forall d :: d != modal.column ==> next.board.Col(d) == app.board.Col(d)
  {
    TrimBlankIffAllWhitespace(modal.title);
    TrimBlankIffAllWhitespace(modal.description);
    AddFind(app.store, NewRecord(modal, now), k);
  }

  /** A record as an edit-mode submit leaves it: new texts and priority, unsynced, all else kept. */
  function Edited(t: Task, modal: Modal): Task {
    t.(title := Trim(modal.title), description := Trim(modal.description), priority := modal.priority, synced := false)
  }

  /**
   Editing patches only the title, description, priority and synced flag of
   the record under the edited id, leaving its id, status and tombstone
   alone, and touches no other record.
   */
  lemma EditPatchesStore(app: App, modal: Modal, now: int, k: int)
    requires Keyed(app.store) && modal.mode.Editing?
    requires !AllWhitespace(modal.title) && !AllWhitespace(modal.description)
    ensures Submit(app, modal, now).Success?
    ensures var next, id := Submit(app, modal, now).value, modal.mode.taskId;
      && Keyed(next.store)
      && IdsOf(next.store) == IdsOf(app.store)
      && Find(next.store, id) == (if id in IdsOf(app.store) then Some(Edited(Find(app.store, id).value, modal)) else None)
      && (k != id ==> Find(next.store, k) == Find(app.store, k))
  {
    SubmitEdits(app, modal, now);
    EditedStore(app.store, modal, k);
  }

  /** The store half of an edit, stated on the table alone. */
  lemma EditedStore(store: seq<Task>, modal: Modal, k: int)
    requires Keyed(store) && modal.mode.Editing?
    ensures var id, p := modal.mode.taskId, EditPatch(Trim(modal.title), Trim(modal.description), modal.priority);
      && Keyed(Update(store, id, p))
      && IdsOf(Update(store, id, p)) == IdsOf(store)
      && Find(Update(store, id, p), id) == (if id in IdsOf(store) then Some(Edited(Find(store, id).value, modal)) else None)
      && (k != id ==> Find(Update(store, id, p), k) == Find(store, k))
  {
    var id, p := modal.mode.taskId, EditPatch(Trim(modal.title), Trim(modal.description), modal.priority);
    UpdateFind(store, id, p, k);
  }

  /** An edit-mode submit with non-blank texts writes the edit patch to the store and the column. */
  lemma SubmitEdits(app: App, modal: Modal, now: int)
    requires Keyed(app.store) && modal.mode.Editing?
    requires !AllWhitespace(modal.title) && !AllWhitespace(modal.description)
    ensures var id, p, c := modal.mode.taskId, EditPatch(Trim(modal.title), Trim(modal.description), modal.priority), modal.column;
      Submit(app, modal, now) == Success(App(Update(app.store, id, p), app.board.With(c, PatchWhere(app.board.Col(c), id, p))))
  {
    TrimBlankIffAllWhitespace(modal.title);
    TrimBlankIffAllWhitespace(modal.description);
  }

  /**
   On the board an edit changes only the cards carrying the edited id in
   the modal's column, each in its own position; other columns are kept.
   */
  lemma EditPatchesBoard(app: App, modal: Modal, now: int)
    requires Keyed(app.store) && modal.mode.Editing?
    requires !AllWhitespace(modal.title) && !AllWhitespace(modal.description)
    ensures Submit(app, modal, now).Success?
    ensures var next, id, col := Submit(app, modal, now).value, modal.mode.taskId, app.board.Col(modal.column);
      && |next.board.Col(modal.column)| == |col|
      && (forall i :: 0 <= i < |col| ==>
            next.board.Col(modal.column)[i] == if col[i].id == id then Edited(col[i], modal) else col[i])
      && forall d :: d != modal.column ==> next.board.Col(d) == app.board.Col(d)
  {
    SubmitEdits(app, modal, now);
    EditedColumn(app.board.Col(modal.column), modal);
  }

  /** The board half of an edit, stated on the one column alone. */
  lemma EditedColumn(col: seq<Task>, modal: Modal)
    requires modal.mode.Editing?
    ensures var id, p := modal.mode.taskId, EditPatch(Trim(modal.title), Trim(modal.description), modal.priority);
      && |PatchWhere(col, id, p)| == |col|
      && forall i :: 0 <= i < |col| ==> PatchWhere(col, id, p)[i] == if col[i].id == id then Edited(col[i], modal) else col[i]
  {
    var id, p := modal.mode.taskId, EditPatch(Trim(modal.title), Trim(modal.description), modal.priority);
    var col' := PatchWhere(col, id, p);
    forall i | 0 <= i < |col| && col[i].id == id ensures col'[i] == Edited(col[i], modal) {
      assert Apply(col[i], p) == Edited(col[i], modal);
    }
  }

  /** `dragInfo`: the column and id of the card being dragged. */
  datatype Drag = Drag(column: Column, taskId: int)

  /**
   The `onDrop` handler of column `to`: without a drag, onto the card's own
   column, or when the card is no longer in its column, nothing happens;
   otherwise the card leaves its column, joins the end of `to` with its new
   status, and the table records the status and that the record is unsynced.
   */
  function Drop(app: App, drag: Option<Drag>, to: Column): App {
    match drag
    case None => app
    case Some(d) =>
      if d.column == to then app
      else
        match Find(app.board.Col(d.column), d.taskId)
        case None => app
        case Some(task) =>
          var moved := task.(status := Named(to));
          var board := app.board.With(d.column, Without(app.board.Col(d.column), d.taskId));
          App(Update(app.store, task.id, MovePatch(to)), board.With(to, board.Col(to) + [moved]))
  }

  /** A drop with nothing dragged, onto the same column, or of a card not in its column, changes nothing. */
  lemma DropNoOp(app: App, drag: Option<Drag>, to: Column)
    requires || drag.None?
             || (drag.Some? && drag.value.column == to)
             || (drag.Some? && drag.value.taskId !in IdsOf(app.board.Col(drag.value.column)))
    ensures Drop(app, drag, to) == app
  {
  }

  /**
   A real move takes the card out of its source column, leaving the other
   cards there in their order, appends it with status `to` to the target,
   keeps the third column, and patches only the status and synced flag of
   the stored record.
   */
  lemma DropMoves(app: App, from: Column, id: int, to: Column, k: int)
    requires Keyed(app.store) && from != to && id in IdsOf(app.board.Col(from))
    ensures var next, card := Drop(app, Some(Drag(from, id)), to), Find(app.board.Col(from), id).value;
      && id !in IdsOf(next.board.Col(from))
      && (forall t :: t in next.board.Col(from) <==> t in app.board.Col(from) && t.id != id)
      && (DistinctIds(app.board.Col(from)) ==>
            exists j :: 0 <= j < |app.board.Col(from)| && app.board.Col(from)[j].id == id
                     && next.board.Col(from) == app.board.Col(from)[..j] + app.board.Col(from)[j + 1..])
      && next.board.Col(to) == app.board.Col(to) + [card.(status := Named(to))]
      && (forall d :: d != from && d != to ==> next.board.Col(d) == app.board.Col(d))
      && Keyed(next.store)
      && IdsOf(next.store) == IdsOf(app.store)
      && Find(next.store, id) == (if id in IdsOf(app.store)
                                  then Some(Find(app.store, id).value.(status := Named(to), synced := false))
                                  else None)
      && (k != id ==> Find(next.store, k) == Find(app.store, k))
  {
    var col, card := app.board.Col(from), Find(app.board.Col(from), id).value;
    var board := app.board.With(from, Without(col, id));
    assert Drop(app, Some(Drag(from, id)), to)
        == App(Update(app.store, id, MovePatch(to)), board.With(to, board.Col(to) + [card.(status := Named(to))]));
    WithoutIds(col, id);
    if DistinctIds(col) {
      WithoutSplice(col, id);
    }
    UpdateFind(app.store, id, MovePatch(to), k);
  }

  /** Moving a card between columns keeps the total count, when the source column holds that id at most once. */
  lemma DropKeepsTotal(app: App, drag: Option<Drag>, to: Column)
    requires drag.Some? ==> AtMostOnce(app.board.Col(drag.value.column), drag.value.taskId)
    ensures Count(Drop(app, drag, to).board).total == Count(app.board).total
  {
    if drag.Some? && drag.value.column != to && drag.value.taskId in IdsOf(app.board.Col(drag.value.column)) {
      WithoutOne(app.board.Col(drag.value.column), drag.value.taskId);
    }
  }

  /**
   `handleDelete(column, taskId)`: tombstone the stored record and mark it
   unsynced, and drop the card from that one column.
   */
  function Delete(app: App, column: Column, id: int): App {
    App(Update(app.store, id, DeletePatch), app.board.With(column, Without(app.board.Col(column), id)))
  }

  /**
   A soft delete keeps the record in the table, now deleted and unsynced and
   otherwise the same, removes the card from the given column only, leaving
   the other cards there in their order, and touches no other record.
   */
  lemma DeleteTombstones(app: App, column: Column, id: int, k: int)
    requires Keyed(app.store)
    ensures var next := Delete(app, column, id);
      && Keyed(next.store)
      && IdsOf(next.store) == IdsOf(app.store)
      && Find(next.store, id) == (if id in IdsOf(app.store)
                                  then Some(Find(app.store, id).value.(deleted := true, synced := false))
                                  else None)
      && (k != id ==> Find(next.store, k) == Find(app.store, k))
      && (forall t :: t in next.board.Col(column) <==> t in app.board.Col(column) && t.id != id)
      && id !in IdsOf(next.board.Col(column))
      && (id !in IdsOf(app.board.Col(column)) ==> next.board.Col(column) == app.board.Col(column))
      && (DistinctIds(app.board.Col(column)) && id in IdsOf(app.board.Col(column)) ==>
            exists j :: 0 <= j < |app.board.Col(column)| && app.board.Col(column)[j].id == id
                     && next.board.Col(column) == app.board.Col(column)[..j] + app.board.Col(column)[j + 1..])
      && forall d :: d != column ==> next.board.Col(d) == app.board.Col(d)
  {
    WithoutIds(app.board.Col(column), id);
    if id in IdsOf(app.board.Col(column)) {
      if DistinctIds(app.board.Col(column)) {
        WithoutSplice(app.board.Col(column), id);
      }
    } else {
      WithoutAbsent(app.board.Col(column), id);
    }
    UpdateFind(app.store, id, DeletePatch, k);
  }
}
