/**
 The board: the three ordered columns the app keeps in React state, the
 grouping that rebuilds them from the store on load, and the counters
 shown above them.
 */
module Boards {
  import opened Wrappers
  import opened Tasks
  import opened Records
  import opened Store

  datatype Board = Board(todo: seq<Task>, inProgress: seq<Task>, done: seq<Task>) {

    /** `tasks[column]` */
    function Col(c: Column): seq<Task> {
      match c
      case Todo => todo
      case InProgress => inProgress
      case Done => done
    }

    /** Replace one column, keep the other two. */
    function With(c: Column, s: seq<Task>): (b: Board)
      ensures b.Col(c) == s
      ensures forall d :: d != c ==> b.Col(d) == Col(d)
    {
      match c
      case Todo => this.(todo := s)
      case InProgress => this.(inProgress := s)
      case Done => this.(done := s)
    }
  }

  /** The board before anything is loaded, and after a failed load. */
  const Empty := Board([], [], [])

  /** How many times a record occurs in a list. */
  function Occurrences(s: seq<Task>, t: Task): nat {
    multiset(s)[t]
  }

  /** Some live record's status names no column. */
  predicate Unplaceable(tasks: seq<Task>) {
    exists i :: 0 <= i < |tasks| && Live(tasks[i]) && Placement(tasks[i].status) == None
  }

  /**
   The load's grouping: walk the records in key order, skip tombstones, and
   append every other record to the column its status selects, starting from
   three empty columns. None when a live record's status names no column,
   since there is then no column to append to and the load throws.
   */
  function Group(tasks: seq<Task>): Option<Board> {
    if tasks == [] then Some(Empty)
    else
      var pre, t := tasks[..|tasks| - 1], tasks[|tasks| - 1];
      match Group(pre)
      case None => None
      case Some(b) =>
        if t.deleted then Some(b)
        else
          match Placement(t.status)
          case None => None
          case Some(c) => Some(b.With(c, b.Col(c) + [t]))
  }

  /** The grouping throws exactly when some live record cannot be placed. */
  lemma {:induction false} GroupFails(tasks: seq<Task>)
    ensures Group(tasks).None? <==> Unplaceable(tasks)
  {
    if tasks != [] {
      var pre, t := tasks[..|tasks| - 1], tasks[|tasks| - 1];
      GroupFails(pre);
      if Unplaceable(pre) {
        var i :| 0 <= i < |pre| && Live(pre[i]) && Placement(pre[i].status) == None;
        assert tasks[i] == pre[i];
      }
      if Unplaceable(tasks) {
        var i :| 0 <= i < |tasks| && Live(tasks[i]) && Placement(tasks[i].status) == None;
        if i < |pre| {
          assert tasks[i] == pre[i];
        }
      }
    }
  }

  /**
   A successful grouping puts each live record into the column its status
   selects, as often as it occurs in the input, and nothing else anywhere.
   */
  lemma {:induction false} GroupPlaces(tasks: seq<Task>, c: Column, t: Task)
    requires Group(tasks).Some?
    ensures Occurrences(Group(tasks).value.Col(c), t) ==
            if Live(t) && Placement(t.status) == Some(c) then Occurrences(tasks, t) else 0
  {
    if tasks != [] {
      var pre, last := tasks[..|tasks| - 1], tasks[|tasks| - 1];
      assert tasks == pre + [last];
      assert multiset(tasks) == multiset(pre) + multiset{last};
      assert Occurrences(tasks, t) == Occurrences(pre, t) + if last == t then 1 else 0;
      GroupPlaces(pre, c, t);
      var b := Group(pre).value;
      var col := Group(tasks).value.Col(c);
      if last.deleted {
        assert col == b.Col(c);
      } else {
        var d := Placement(last.status).value;
        assert Group(tasks).value == b.With(d, b.Col(d) + [last]);
        if d == c {
          assert col == b.Col(c) + [last];
          assert multiset(col) == multiset(b.Col(c)) + multiset{last};
        } else {
          assert col == b.Col(c);
        }
      }
    }
  }

  /** The columns a load builds keep the store's ascending key order. */
  lemma {:induction false} GroupKeyed(tasks: seq<Task>, c: Column)
    requires Keyed(tasks) && Group(tasks).Some?
    ensures Keyed(Group(tasks).value.Col(c))
  {
    if tasks != [] {
      var pre, t := tasks[..|tasks| - 1], tasks[|tasks| - 1];
      assert tasks == pre + [t];
      assert Keyed(pre);
      GroupKeyed(pre, c);
      var col := Group(pre).value.Col(c);
      if Live(t) && Placement(t.status) == Some(c) {
        assert Group(tasks).value.Col(c) == col + [t];
        forall u | u in col ensures u.id < t.id {
          GroupPlaces(pre, c, u);
          assert u in multiset(col);
          assert u in multiset(pre);
          var j :| 0 <= j < |pre| && pre[j] == u;
          assert tasks[j] == u;
        }
        KeyedSnoc(col, t);
      } else if Live(t) {
        assert Group(tasks).value.Col(c) == col;
      }
    }
  }

  lemma KeyedSnoc(s: seq<Task>, t: Task)
    requires Keyed(s) && forall u :: u in s ==> u.id < t.id
    ensures Keyed(s + [t])
  {
    forall i, j | 0 <= i < j < |s + [t]| ensures (s + [t])[i].id < (s + [t])[j].id {
      assert (s + [t])[i] == s[i];
      if j == |s| {
        assert s[i] in s;
      } else {
        assert (s + [t])[j] == s[j];
      }
    }
  }

  /** `loadTasks`: the board after the mount-time load; a throwing grouping leaves it empty. */
  function Load(store: seq<Task>): (b: Board)
    ensures Unplaceable(store) ==> b == Empty
  {
    GroupFails(store);
    match Group(store)
    case Some(b) => b
    case None => Empty
  }

  datatype Counters = Counters(total: nat, inProgress: nat, completed: nat)

  /** The figures over the board: every card, the in-progress cards and the done cards. */
  function Count(b: Board): Counters {
    Counters(|b.todo| + |b.inProgress| + |b.done|, |b.inProgress|, |b.done|)
  }
}
