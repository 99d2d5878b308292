/**
 The task record kept in the board's durable store (the `tasks` table of
 src/db.js) and the partial-field patches that Dexie's `update` merges into it.
 */
module Tasks {
  import opened Wrappers

  /** The three board columns, keyed 'todo', 'inProgress' and 'done' in the source. */
  datatype Column = Todo | InProgress | Done

  /** The values offered by the modal's priority select. */
  datatype Priority = High | Medium | Low

  /** A status string that is neither falsy nor one of the three column keys. */
  type OtherName = s: string | s !in {"", "todo", "inProgress", "done"} witness "archived"

  /**
   The `status` field of a stored record: missing (or any falsy value),
   naming one of the columns, or holding some other string.
   */
  datatype Status = Absent | Named(column: Column) | Unrecognised(name: OtherName)

  datatype Task = Task(
    id: int,
    title: string,
    description: string,
    priority: Priority,
    status: Status,
    deleted: bool,
    synced: bool)

  /** A record that has not been soft-deleted. */
  predicate Live(t: Task) {
    !t.deleted
  }

  /**
   The column `task.status || 'todo'` selects when a record is grouped;
   None when the status names no column, where the grouping throws.
   */
  function Placement(s: Status): (r: Option<Column>)
    ensures r.None? <==> s.Unrecognised?
    ensures s.Named? ==> r == Some(s.column)
    ensures s.Absent? ==> r == Some(Todo)
  {
    match s
    case Absent => Some(Todo)
    case Named(c) => Some(c)
    case Unrecognised(_) => None
  }

  /** The set of fields named in one `update(id, changes)` call; None leaves a field alone. */
  datatype Patch = Patch(
    title: Option<string>,
    description: Option<string>,
    priority: Option<Priority>,
    status: Option<Status>,
    deleted: Option<bool>,
    synced: Option<bool>)

  /** Merge the named fields of a patch into a record; the key is never patched. */
  function Apply(t: Task, p: Patch): (r: Task)
    ensures r.id == t.id
    ensures p == Patch(None, None, None, None, None, None) ==> r == t
  {
    Task(
      t.id,
      if p.title.Some? then p.title.value else t.title,
      if p.description.Some? then p.description.value else t.description,
      if p.priority.Some? then p.priority.value else t.priority,
      if p.status.Some? then p.status.value else t.status,
      if p.deleted.Some? then p.deleted.value else t.deleted,
      if p.synced.Some? then p.synced.value else t.synced)
  }
}
