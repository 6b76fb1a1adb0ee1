/** The task table and the statements that change it. */
module Todos {
  import opened Text

  datatype Todo = Todo(id: nat, uid: string, summary: Option<string>, description: Option<string>,
                       labels: seq<string>, completed: bool)

  /** A uid is unique only within one calendar, so a statement by uid may touch more rows. */
  predicate DistinctUids(rows: seq<Todo>) {
    forall i, j :: 0 <= i < j < |rows| ==> rows[i].uid != rows[j].uid
  }

  function Relabelled(rows: seq<Todo>, uid: string, labels: seq<string>): (r: seq<Todo>)
    ensures |r| == |rows|
    ensures forall i :: 0 <= i < |rows| ==> r[i] == if rows[i].uid == uid then rows[i].(labels := labels) else rows[i]
  {
    if rows == [] then []
    else [if rows[0].uid == uid then rows[0].(labels := labels) else rows[0]] + Relabelled(rows[1..], uid, labels)
  }

  function Described(rows: seq<Todo>, uid: string, text: string): (r: seq<Todo>)
    ensures |r| == |rows|
    ensures forall i :: 0 <= i < |rows| ==>
      r[i] == if rows[i].uid == uid then rows[i].(description := Some(text)) else rows[i]
  {
    if rows == [] then []
    else [if rows[0].uid == uid then rows[0].(description := Some(text)) else rows[0]] + Described(rows[1..], uid, text)
  }

  function WithoutUid(rows: seq<Todo>, uid: string): (r: seq<Todo>)
    ensures forall t :: t in r <==> t in rows && t.uid != uid
  {
    if rows == [] then []
    else (if rows[0].uid == uid then [] else [rows[0]]) + WithoutUid(rows[1..], uid)
  }

  function Open(rows: seq<Todo>): (r: seq<Todo>)
    ensures forall t :: t in r <==> t in rows && !t.completed
  {
    if rows == [] then [] else (if rows[0].completed then [] else [rows[0]]) + Open(rows[1..])
  }

  class Store {
    var todos: seq<Todo>
    /** Labels proposed for a task but kept hidden. */
    var candidates: set<(string, string)>

    constructor (todos: seq<Todo>)
      ensures this.todos == todos && candidates == {}
    {
      this.todos, candidates := todos, {};
    }

    /** `update_todo` with labels: every row of the uid gets them, every other row and every
        other field stays, and so does the order. */
    method SetLabels(uid: string, labels: seq<string>)
      modifies `todos
      ensures |todos| == |old(todos)|
      ensures forall i :: 0 <= i < |todos| ==>
        && todos[i] == old(todos)[i].(labels := todos[i].labels)
        && todos[i].labels == if old(todos)[i].uid == uid then labels else old(todos)[i].labels
    {
      todos := Relabelled(todos, uid, labels);
    }

    /** `update_todo` with a description, likewise. */
    method SetDescription(uid: string, text: string)
      modifies `todos
      ensures |todos| == |old(todos)|
      ensures forall i :: 0 <= i < |todos| ==>
        && todos[i] == old(todos)[i].(description := todos[i].description)
        && todos[i].description == if old(todos)[i].uid == uid then Some(text) else old(todos)[i].description
    {
      todos := Described(todos, uid, text);
    }

    /** `delete_todo`: exactly the rows of the uid are gone; cut before any row, the table is
        what is left of its first part and then what is left of its second. */
    method Delete(uid: string)
      modifies `todos
      ensures forall t :: t in todos <==> t in old(todos) && t.uid != uid
      ensures forall i :: 0 <= i <= |old(todos)| ==>
        todos == WithoutUid(old(todos)[..i], uid) + WithoutUid(old(todos)[i..], uid)
    {
      forall i | 0 <= i <= |todos|
        ensures WithoutUid(todos, uid) == WithoutUid(todos[..i], uid) + WithoutUid(todos[i..], uid)
      {
        WithoutUidConcat(todos[..i], todos[i..], uid);
        assert todos[..i] + todos[i..] == todos;
      }
      todos := WithoutUid(todos, uid);
    }
  }

  lemma {:induction false} WithoutUidConcat(a: seq<Todo>, b: seq<Todo>, uid: string)
    ensures WithoutUid(a + b, uid) == WithoutUid(a, uid) + WithoutUid(b, uid)
  {
    if a == [] {
      assert a + b == b;
    } else {
      assert (a + b)[1..] == a[1..] + b;
      WithoutUidConcat(a[1..], b, uid);
    }
  }

  /** A delete takes the rows of its uid out of their places and leaves all others in theirs. */
  lemma WithoutUidAt(a: seq<Todo>, t: Todo, b: seq<Todo>, uid: string)
    ensures WithoutUid(a + [t] + b, uid)
         == WithoutUid(a, uid) + (if t.uid == uid then [] else [t]) + WithoutUid(b, uid)
    ensures WithoutUid([], uid) == []
  {
    hide WithoutUid;
    WithoutUidConcat(a + [t], b, uid);
    WithoutUidConcat(a, [t], uid);
    WithoutUidOne(t, uid);
  }

  lemma WithoutUidOne(t: Todo, uid: string)
    ensures WithoutUid([t], uid) == if t.uid == uid then [] else [t]
    ensures WithoutUid([], uid) == []
  {
    assert [t][1..] == [];
  }
}
