/**
  The task store as the server keeps it: one record list and one id counter,
  changed in place by the request handlers. Each handler is proved to make
  the transition that module Todos gives for it, and to keep the ids
  well formed.
 */
module Store {
  import opened Wrappers
  import opened JsBuiltins
  import Todos

  class TodoStore {
    var todos: seq<Todos.Todo>
    var nextId: int

    function State(): Todos.Snapshot
      reads this
    {
      Todos.Snapshot(todos, nextId)
    }

    ghost predicate Valid()
      reads this
    {
      Todos.WellFormed(State())
    }

    /** The three seed records and the counter at 4. */
    constructor ()
      ensures State() == Todos.Seed
      ensures Valid()
    {
      todos := Todos.Seed.todos;
      nextId := Todos.Seed.nextId;
      Todos.SeedWellFormed();
    }

    /** GET /api/items: every record, in insertion order. */
    method List() returns (r: seq<Todos.Todo>)
      ensures r == todos
    {
      r := todos;
    }

    /** `todos.findIndex(todo => todo.id === key)`, a linear scan from the front. */
    method FindIndex(key: Option<int>) returns (i: int)
      ensures -1 <= i < |todos|
      ensures i == -1 ==> Todos.NoMatch(todos, key)
      ensures i != -1 ==> Todos.Matches(todos[i], key)
      ensures i != -1 ==> forall k :: 0 <= k < i ==> !Todos.Matches(todos[k], key)
      ensures i == Todos.Find(todos, key)
    {
      var n := 0;
      while n < |todos|
        invariant 0 <= n <= |todos|
        invariant forall k :: 0 <= k < n ==> !Todos.Matches(todos[k], key)
      {
        if Todos.Matches(todos[n], key) {
          return n;
        }
        n := n + 1;
      }
      return -1;
    }

    /** POST /api/items */
    method Create(text: Option<string>) returns (r: Todos.Result<Todos.Todo>)
      requires Valid()
      modifies this
      ensures Todos.Step(State(), r) == Todos.Create(old(State()), text)
      ensures Valid()
    {
      Todos.CreateKeepsWellFormed(State(), text);
      if Todos.TextMissing(text) {
        return Todos.Err(Todos.TextRequired);
      }
      var t := Todos.Todo(nextId, Trim(text.value), false);
      nextId := nextId + 1;
      todos := todos + [t];
      r := Todos.Ok(t);
    }

    /** PUT /api/items/:id */
    method Update(id: string, patch: Todos.Patch) returns (r: Todos.Result<Todos.Todo>)
      requires Valid()
      modifies this
      ensures Todos.Step(State(), r) == Todos.Update(old(State()), id, patch)
      ensures Valid()
    {
      Todos.UpdateKeepsWellFormed(State(), id, patch);
      var i := FindIndex(ParseInt(id));
      if i == -1 {
        return Todos.Err(Todos.NotFound);
      }
      var t := Todos.Merge(todos[i], patch);
      todos := todos[i := t];
      r := Todos.Ok(t);
    }

    /** DELETE /api/items/:id; the reply carries the removed record. */
    method Delete(id: string) returns (r: Todos.Result<Todos.Todo>)
      requires Valid()
      modifies this
      ensures Todos.Step(State(), r) == Todos.Delete(old(State()), id)
      ensures Valid()
    {
      Todos.DeleteKeepsWellFormed(State(), id);
      var i := FindIndex(ParseInt(id));
      if i == -1 {
        return Todos.Err(Todos.NotFound);
      }
      var deleted := todos[i];
      todos := todos[..i] + todos[i + 1..];
      r := Todos.Ok(deleted);
    }
  }
}
