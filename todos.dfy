/**
  The todo list held by the TodoList component and its toggle-complete
  handler. The list is nullable (it is `null` until it has been loaded) and is
  mirrored into the browser's local-storage slot under the key "todos".
 */
module Todos {

  /** A nullable value: `None` stands for JavaScript `null` (or an absent storage key). */
  datatype Option<+T> = None | Some(value: T)

  /** The three fields of a todo record that the component reads. */
  datatype Todo = Todo(id: string, title: string, isCompleted: bool)

  /** The list that `todos.map(...)` builds in toggleComplete: every record whose
      id equals `id` has its completion flag negated, every other record is kept. */
  function ToggleList(list: seq<Todo>, id: string): (r: seq<Todo>)
    ensures |r| == |list|
    decreases list
  {
    if list == [] then []
    else
      var t := list[0];
      [if t.id == id then t.(isCompleted := !t.isCompleted) else t] + ToggleList(list[1..], id)
  }

  /** No two records of the list share an id. */
  predicate UniqueIds(list: seq<Todo>) {
    forall i, j :: 0 <= i < j < |list| ==> list[i].id != list[j].id
  }

  /** What toggling does at one index: id and title are kept, and the flag is
      negated exactly when the record's id is the argument. */
  lemma {:induction false} ToggleAt(list: seq<Todo>, id: string, i: nat)
    requires i < |list|
    ensures ToggleList(list, id)[i].id == list[i].id
    ensures ToggleList(list, id)[i].title == list[i].title
    ensures ToggleList(list, id)[i].isCompleted == (list[i].isCompleted != (list[i].id == id))
  {
    if i > 0 {
      ToggleAt(list[1..], id, i - 1);
    }
  }

  /** Toggling keeps the length, and the id and title at every index, so the
      order of the records is unchanged. */
  lemma {:induction false} ToggleKeepsShape(list: seq<Todo>, id: string)
    ensures |ToggleList(list, id)| == |list|
    ensures forall i :: 0 <= i < |list| ==>
              ToggleList(list, id)[i].id == list[i].id && ToggleList(list, id)[i].title == list[i].title
  {
    forall i | 0 <= i < |list|
      ensures ToggleList(list, id)[i].id == list[i].id && ToggleList(list, id)[i].title == list[i].title
    {
      ToggleAt(list, id, i);
    }
  }

  /** Exactly the records with the given id change, and each of them only in
      its completion flag, which is negated. */
  lemma {:induction false} ToggleExactEffect(list: seq<Todo>, id: string)
    ensures forall i :: 0 <= i < |list| ==>
              (ToggleList(list, id)[i] == list[i] <==> list[i].id != id)
    ensures forall i :: 0 <= i < |list| && list[i].id == id ==>
              ToggleList(list, id)[i] == list[i].(isCompleted := !list[i].isCompleted)
  {
    forall i | 0 <= i < |list|
      ensures ToggleList(list, id)[i] == list[i] <==> list[i].id != id
      ensures list[i].id == id ==> ToggleList(list, id)[i] == list[i].(isCompleted := !list[i].isCompleted)
    {
      ToggleAt(list, id, i);
    }
  }

  /** Toggling an id that no record carries gives back the same list, and only then. */
  lemma {:induction false} ToggleMissingIdNoOp(list: seq<Todo>, id: string)
    ensures ToggleList(list, id) == list <==> forall i :: 0 <= i < |list| ==> list[i].id != id
  {
    ToggleExactEffect(list, id);
    if forall i :: 0 <= i < |list| ==> list[i].id != id {
      assert forall i :: 0 <= i < |list| ==> ToggleList(list, id)[i] == list[i];
    }
  }

  /** Toggling the same id twice restores the original list. */
  lemma {:induction false} ToggleInvolution(list: seq<Todo>, id: string)
    ensures ToggleList(ToggleList(list, id), id) == list
  {
    var once := ToggleList(list, id);
    forall i | 0 <= i < |list|
      ensures ToggleList(once, id)[i] == list[i]
    {
      ToggleAt(list, id, i);
      ToggleAt(once, id, i);
    }
  }

  /** When ids are unique and record `k` carries the id, the toggled list differs
      from the original at index `k` and nowhere else. */
  lemma ToggleUniqueChangesOne(list: seq<Todo>, id: string, k: nat)
    requires UniqueIds(list)
    requires k < |list| && list[k].id == id
    ensures forall i :: 0 <= i < |list| ==> (ToggleList(list, id)[i] != list[i] <==> i == k)
  {
    ToggleExactEffect(list, id);
    forall i | 0 <= i < |list| && i != k
      ensures list[i].id != id
    {
      if i < k { assert list[i].id != list[k].id; }
      else { assert list[k].id != list[i].id; }
    }
  }

  /** Toggling keeps the ids unique. */
  lemma ToggleKeepsUniqueIds(list: seq<Todo>, id: string)
    requires UniqueIds(list)
    ensures UniqueIds(ToggleList(list, id))
  {
    ToggleKeepsShape(list, id);
  }

  /** The state the TodoList component works on: the list held by its parent
      (`todos`, set through `setTodos`) and the local-storage "todos" slot
      (`stored`), whose JSON text is abstracted to the list it encodes. */
  class TodoList {
    var todos: Option<seq<Todo>>
    var stored: Option<seq<Todo>>

    constructor (todos: Option<seq<Todo>>, stored: Option<seq<Todo>>)
      ensures this.todos == todos && this.stored == stored
    {
      this.todos := todos;
      this.stored := stored;
    }

    /** The mirror holds exactly the in-memory list. */
    predicate Mirrored()
      reads this
    {
      todos.Some? && stored == todos
    }

    /** toggleComplete: on a non-null list, replace the list with the toggled
        one and write the same list to storage; on a null list do nothing. */
    method ToggleComplete(id: string)
      modifies this
      ensures old(todos).None? ==> todos == old(todos) && stored == old(stored)
      ensures old(todos).Some? ==> todos == Some(ToggleList(old(todos).value, id))
      ensures old(todos).Some? ==> Mirrored()
    {
      if todos.Some? {
        var updated := ToggleList(todos.value, id);
        todos := Some(updated);
        stored := Some(updated);
      }
    }
  }

  /** Clicking the same checkbox twice: both the list and the mirror end equal
      to the list the component started with. */
  method ToggleTwice(list: seq<Todo>, stored: Option<seq<Todo>>, id: string)
    returns (after: Option<seq<Todo>>, mirror: Option<seq<Todo>>)
    ensures after == Some(list) && mirror == Some(list)
  {
    var c := new TodoList(Some(list), stored);
    c.ToggleComplete(id);
    c.ToggleComplete(id);
    ToggleInvolution(list, id);
    after, mirror := c.todos, c.stored;
  }
}
