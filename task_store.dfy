/** An in-memory task store: a list of task records and a monotonic id
    counter, with create, list, get, update and delete.  The store is
    modelled as an object whose two fields the operations change in place;
    each scan of the list is a loop proved against a specification function
    on the sequence of records, and the lemmas below say what those
    functions mean. */
module TaskStore {

  datatype Option<T> = None | Some(value: T)

  /** The request payload of create and update: the title, an optional
      description (absent by default) and the completion flag (false by
      default). */
  datatype TaskCreate = TaskCreate(title: string, description: Option<string> := None, completed: bool := false)

  /** A stored task record. */
  datatype Task = Task(id: int, title: string, description: Option<string>, completed: bool)

  /** The record `t` with its three payload fields replaced by those of `p`;
      its id is kept. */
  function Patched(t: Task, p: TaskCreate): Task
  {
    t.(title := p.title, description := p.description, completed := p.completed)
  }

  /** Some record of `s` carries the id `id`. */
  predicate HasId(s: seq<Task>, id: int)
  {
    exists i :: 0 <= i < |s| && s[i].id == id
  }

  /** `k` is the position of the first record of `s` that carries `id`. */
  predicate FirstAt(s: seq<Task>, id: int, k: int)
  {
    0 <= k < |s| && s[k].id == id && forall j :: 0 <= j < k ==> s[j].id != id
  }

  /** The store invariant: every id lies in [1, next) and ids strictly
      increase along the list (so no id occurs twice). */
  predicate WellFormed(s: seq<Task>, next: int)
  {
    1 <= next &&
    (forall i :: 0 <= i < |s| ==> 1 <= s[i].id < next) &&
    (forall i, j :: 0 <= i < j < |s| ==> s[i].id < s[j].id)
  }

  // ---------------------------------------------------------------------
  // Lookup: the first record whose id matches.

  function Find(s: seq<Task>, id: int): (r: Option<Task>)
    ensures r.Some? ==> r.value in s && r.value.id == id
  {
    if s == [] then None
    else if s[0].id == id then Some(s[0])
    else Find(s[1..], id)
  }

  /** Lookup finds a record exactly when one carries the id, and what it
      finds is a record of the list with that id. */
  lemma {:induction false} FindSpec(s: seq<Task>, id: int)
    ensures Find(s, id).Some? <==> HasId(s, id)
    ensures Find(s, id).Some? ==> Find(s, id).value.id == id && Find(s, id).value in s
  {
    if s != [] && s[0].id != id {
      FindSpec(s[1..], id);
      if HasId(s, id) {
        var i :| 0 <= i < |s| && s[i].id == id;
        assert s[1..][i - 1].id == id;
      }
    }
  }

  /** Lookup returns the first record that carries the id. */
  lemma {:induction false} FindFirst(s: seq<Task>, id: int, k: int)
    requires FirstAt(s, id, k)
    ensures Find(s, id) == Some(s[k])
  {
    if k > 0 {
      assert s[0].id != id;
      FindFirst(s[1..], id, k - 1);
    }
  }

  /** In a well-formed store the record with a given id is the one lookup
      returns. */
  lemma FindInStore(s: seq<Task>, next: int, k: int)
    requires WellFormed(s, next) && 0 <= k < |s|
    ensures Find(s, s[k].id) == Some(s[k])
  {
    FindFirst(s, s[k].id, k);
  }

  // ---------------------------------------------------------------------
  // Update: the first record whose id matches gets the new payload.

  function UpdateFirst(s: seq<Task>, id: int, p: TaskCreate): (r: seq<Task>)
    ensures |r| == |s|
    ensures forall k :: 0 <= k < |s| ==> r[k].id == s[k].id
  {
    if s == [] then []
    else if s[0].id == id then [Patched(s[0], p)] + s[1..]
    else [s[0]] + UpdateFirst(s[1..], id, p)
  }

  /** Updating where the first match is at `k` patches that record in place
      and leaves every other one as it was. */
  lemma {:induction false} UpdateFirstAt(s: seq<Task>, id: int, p: TaskCreate, k: int)
    requires FirstAt(s, id, k)
    ensures UpdateFirst(s, id, p) == s[k := Patched(s[k], p)]
  {
    if k > 0 {
      assert s[0].id != id;
      UpdateFirstAt(s[1..], id, p, k - 1);
      assert s[1..][k - 1 := Patched(s[k], p)] == s[k := Patched(s[k], p)][1..];
    }
  }

  /** Updating an id that no record carries changes nothing. */
  lemma {:induction false} UpdateFirstAbsent(s: seq<Task>, id: int, p: TaskCreate)
    requires !HasId(s, id)
    ensures UpdateFirst(s, id, p) == s
  {
    if s != [] {
      assert s[0].id != id;
      assert !HasId(s[1..], id) by {
        forall i | 0 <= i < |s[1..]| ensures s[1..][i].id != id {
          assert s[1..][i] == s[i + 1];
        }
      }
      UpdateFirstAbsent(s[1..], id, p);
    }
  }

  /** In a well-formed store, update replaces exactly the title, description
      and completion flag of the record with that id (keeping its id and
      position) and leaves every other record unchanged. */
  lemma UpdateInStore(s: seq<Task>, next: int, id: int, p: TaskCreate)
    requires WellFormed(s, next)
    ensures |UpdateFirst(s, id, p)| == |s|
    ensures forall k :: 0 <= k < |s| && s[k].id == id ==>
              UpdateFirst(s, id, p)[k] == Task(id, p.title, p.description, p.completed)
    ensures forall k :: 0 <= k < |s| && s[k].id != id ==> UpdateFirst(s, id, p)[k] == s[k]
  {
    if HasId(s, id) {
      var k :| 0 <= k < |s| && s[k].id == id;
      assert FirstAt(s, id, k);
      UpdateFirstAt(s, id, p, k);
    } else {
      UpdateFirstAbsent(s, id, p);
    }
  }

  /** Update keeps the store invariant with the same counter. */
  lemma UpdateKeepsWellFormed(s: seq<Task>, next: int, id: int, p: TaskCreate)
    requires WellFormed(s, next)
    ensures WellFormed(UpdateFirst(s, id, p), next)
  {
  }

  // ---------------------------------------------------------------------
  // Delete: the list rebuilt without the records whose id matches.

  function Without(s: seq<Task>, id: int): (r: seq<Task>)
    ensures |r| <= |s|
    ensures forall k :: 0 <= k < |r| ==> r[k].id != id
  {
    if s == [] then []
    else if s[0].id == id then Without(s[1..], id)
    else [s[0]] + Without(s[1..], id)
  }

  /** A record survives delete exactly when it was stored and carries
      another id. */
  lemma {:induction false} WithoutMembers(s: seq<Task>, id: int)
    ensures forall t :: t in Without(s, id) <==> t in s && t.id != id
  {
    if s != [] {
      WithoutMembers(s[1..], id);
      assert s == [s[0]] + s[1..];
    }
  }

  /** After delete no record carries the id. */
  lemma WithoutRemovesId(s: seq<Task>, id: int)
    ensures !HasId(Without(s, id), id)
  {
    WithoutMembers(s, id);
  }

  /** Once an id is deleted, lookup of it finds nothing. */
  lemma FindAfterDelete(s: seq<Task>, id: int)
    ensures Find(Without(s, id), id) == None
  {
    WithoutRemovesId(s, id);
    FindSpec(Without(s, id), id);
  }

  /** Filtering distributes over concatenation. */
  lemma {:induction false} WithoutAppend(a: seq<Task>, b: seq<Task>, id: int)
    ensures Without(a + b, id) == Without(a, id) + Without(b, id)
  {
    if a != [] {
      WithoutAppend(a[1..], b, id);
      assert (a + b)[1..] == a[1..] + b;
    } else {
      assert a + b == b;
    }
  }

  /** Filtering out an id that no record carries changes nothing. */
  lemma {:induction false} WithoutAbsent(s: seq<Task>, id: int)
    requires !HasId(s, id)
    ensures Without(s, id) == s
  {
    if s != [] {
      assert s[0].id != id;
      assert !HasId(s[1..], id) by {
        forall i | 0 <= i < |s[1..]| ensures s[1..][i].id != id {
          assert s[1..][i] == s[i + 1];
        }
      }
      WithoutAbsent(s[1..], id);
      assert s == [s[0]] + s[1..];
    }
  }

  /** Deleting the only record with its id removes just that record and
      keeps the records before and after it in their order. */
  lemma WithoutKeepsOrder(a: seq<Task>, x: Task, b: seq<Task>)
    requires !HasId(a, x.id) && !HasId(b, x.id)
    ensures Without(a + [x] + b, x.id) == a + b
  {
    WithoutAppend(a + [x], b, x.id);
    WithoutAppend(a, [x], x.id);
    WithoutAbsent(a, x.id);
    WithoutAbsent(b, x.id);
  }

  /** In a well-formed store, delete of a stored id shortens the list by one
      and keeps the remaining records in their order. */
  lemma DeleteInStore(s: seq<Task>, next: int, k: int)
    requires WellFormed(s, next) && 0 <= k < |s|
    ensures Without(s, s[k].id) == s[..k] + s[k + 1..]
    ensures |Without(s, s[k].id)| == |s| - 1
  {
    var id := s[k].id;
    assert !HasId(s[..k], id) by {
      forall i | 0 <= i < k ensures s[..k][i].id != id { }
    }
    var after := s[k + 1..];
    assert !HasId(after, id) by {
      forall i | 0 <= i < |after| ensures after[i].id != id {
        assert after[i] == s[k + 1 + i];
      }
    }
    WithoutKeepsOrder(s[..k], s[k], s[k + 1..]);
    assert s[..k] + [s[k]] + s[k + 1..] == s;
  }

  /** The records after the first of a well-formed list are well formed. */
  lemma TailWellFormed(s: seq<Task>, next: int)
    requires WellFormed(s, next) && s != []
    ensures WellFormed(s[1..], next)
    ensures forall t :: t in s[1..] ==> s[0].id < t.id
  {
    var rest := s[1..];
    forall i, j | 0 <= i < j < |rest| ensures rest[i].id < rest[j].id {
      assert rest[i] == s[i + 1] && rest[j] == s[j + 1];
    }
    forall t | t in rest ensures s[0].id < t.id {
      var m :| 0 <= m < |rest| && rest[m] == t;
      assert s[m + 1] == t;
    }
  }

  /** A record with a smaller id than all of a well-formed list may go in
      front of it. */
  lemma ConsWellFormed(x: Task, r: seq<Task>, next: int)
    requires WellFormed(r, next) && 1 <= x.id < next
    requires forall t :: t in r ==> x.id < t.id
    ensures WellFormed([x] + r, next)
  {
    var s := [x] + r;
    forall i, j | 0 <= i < j < |s| ensures s[i].id < s[j].id {
      assert s[j] == r[j - 1] && s[j] in r;
      if i > 0 { assert s[i] == r[i - 1]; }
    }
  }

  /** Delete keeps the store invariant with the same counter. */
  lemma {:induction false} WithoutKeepsWellFormed(s: seq<Task>, next: int, id: int)
    requires WellFormed(s, next)
    ensures WellFormed(Without(s, id), next)
  {
    if s != [] {
      TailWellFormed(s, next);
      WithoutKeepsWellFormed(s[1..], next, id);
      if s[0].id != id {
        WithoutMembers(s[1..], id);
        ConsWellFormed(s[0], Without(s[1..], id), next);
      }
    }
  }

  // ---------------------------------------------------------------------
  // Create: a new record with the counter's value, at the end of the list.

  /** Appending a record with the counter's value and advancing the counter
      keeps the store invariant. */
  lemma AppendKeepsWellFormed(s: seq<Task>, next: int, p: TaskCreate)
    requires WellFormed(s, next)
    ensures WellFormed(s + [Task(next, p.title, p.description, p.completed)], next + 1)
  {
  }

  /** A record just created is what lookup returns for its id. */
  lemma FindAfterAppend(s: seq<Task>, next: int, p: TaskCreate)
    requires WellFormed(s, next)
    ensures Find(s + [Task(next, p.title, p.description, p.completed)], next)
            == Some(Task(next, p.title, p.description, p.completed))
  {
    var t := Task(next, p.title, p.description, p.completed);
    FindFirst(s + [t], next, |s|);
  }

  // ---------------------------------------------------------------------
  // The store object.

  class Store {
    var tasks: seq<Task>
    var nextId: nat
    /** The ids handed out so far, live or deleted. */
    ghost var issued: set<int>

    ghost predicate Valid()
      reads this
    {
      WellFormed(tasks, nextId) &&
      (forall i :: i in issued ==> i < nextId) &&
      (forall k :: 0 <= k < |tasks| ==> tasks[k].id in issued)
    }

    /** A fresh store: no records, and the counter at 1. */
    constructor ()
      ensures Valid()
      ensures tasks == [] && nextId == 1 && issued == {}
    {
      tasks := [];
      nextId := 1;
      issued := {};
    }

    /** Gives the new record the counter's value as id, appends it at the end
        and advances the counter by one; the id was never handed out before. */
    method Create(p: TaskCreate) returns (r: Task)
      requires Valid()
      modifies this
      ensures Valid()
      ensures r == Task(old(nextId), p.title, p.description, p.completed)
      ensures r.id !in old(issued) && issued == old(issued) + {r.id}
      ensures tasks == old(tasks) + [r]
      ensures nextId == old(nextId) + 1
    {
      r := Task(nextId, p.title, p.description, p.completed);
      AppendKeepsWellFormed(tasks, nextId, p);
      tasks := tasks + [r];
      nextId := nextId + 1;
      issued := issued + {r.id};
    }

    /** Every stored record, in list (creation) order: ids strictly increase
        along the result. */
    method All() returns (r: seq<Task>)
      requires Valid()
      ensures |r| == |tasks|
      ensures forall k :: 0 <= k < |r| ==> r[k] == tasks[k]
      ensures forall i, j :: 0 <= i < j < |r| ==> r[i].id < r[j].id
    {
      r := tasks;
    }

    /** Scans the list for the id; returns the first matching record, or
        None when no record has it.  Changes nothing. */
    method Get(id: int) returns (r: Option<Task>)
      ensures r == Find(tasks, id)
      ensures r.Some? <==> HasId(tasks, id)
      ensures r.Some? ==> r.value.id == id && r.value in tasks
    {
      FindSpec(tasks, id);
      var i := 0;
      while i < |tasks|
        invariant 0 <= i <= |tasks|
        invariant forall j :: 0 <= j < i ==> tasks[j].id != id
      {
        if tasks[i].id == id {
          FindFirst(tasks, id, i);
          return Some(tasks[i]);
        }
        i := i + 1;
      }
      return None;
    }

    /** Scans the list for the id; on a match replaces that record's title,
        description and completion flag in place and returns it, otherwise
        returns None and changes nothing.  The counter is untouched. */
    method Update(id: int, p: TaskCreate) returns (r: Option<Task>)
      requires Valid()
      modifies this
      ensures Valid()
      ensures r.Some? <==> HasId(old(tasks), id)
      ensures r.Some? ==> r.value == Task(id, p.title, p.description, p.completed) && r == Find(tasks, id)
      ensures tasks == UpdateFirst(old(tasks), id, p)
      ensures r.None? ==> tasks == old(tasks)
      ensures nextId == old(nextId) && issued == old(issued)
    {
      UpdateKeepsWellFormed(tasks, nextId, id, p);
      var i := 0;
      while i < |tasks|
        invariant 0 <= i <= |tasks|
        invariant tasks == old(tasks) && nextId == old(nextId) && issued == old(issued)
        invariant forall j :: 0 <= j < i ==> tasks[j].id != id
      {
        if tasks[i].id == id {
          UpdateFirstAt(tasks, id, p, i);
          tasks := tasks[i := Patched(tasks[i], p)];
          FindInStore(tasks, nextId, i);
          return Some(tasks[i]);
        }
        i := i + 1;
      }
      UpdateFirstAbsent(tasks, id, p);
      return None;
    }

    /** Scans the list for the id; on a match rebuilds the list without the
        records carrying it and returns true, otherwise returns false and
        changes nothing.  The counter is untouched. */
    method Delete(id: int) returns (b: bool)
      requires Valid()
      modifies this
      ensures Valid()
      ensures b <==> HasId(old(tasks), id)
      ensures tasks == Without(old(tasks), id)
      ensures !HasId(tasks, id)
      ensures b ==> |tasks| == |old(tasks)| - 1
      ensures !b ==> tasks == old(tasks)
      ensures nextId == old(nextId) && issued == old(issued)
    {
      var i := 0;
      while i < |tasks|
        invariant 0 <= i <= |tasks|
        invariant tasks == old(tasks) && nextId == old(nextId) && issued == old(issued)
        invariant forall j :: 0 <= j < i ==> tasks[j].id != id
      {
        if tasks[i].id == id {
          DeleteInStore(tasks, nextId, i);
          WithoutKeepsWellFormed(tasks, nextId, id);
          WithoutRemovesId(tasks, id);
          tasks := Without(tasks, id);
          return true;
        }
        i := i + 1;
      }
      WithoutAbsent(tasks, id);
      return false;
    }
  }

  /** The life cycle of a store on a short run of requests: ids count up
      from 1 and a deleted id is not handed out again. */
  method Scenario()
  {
    var store := new Store();
    var a := store.Create(TaskCreate("A"));
    assert a == Task(1, "A", None, false);
    var b := store.Create(TaskCreate("B", completed := true));
    assert b.id == 2;
    assert store.tasks == [a, b];
    DeleteInStore(store.tasks, store.nextId, 0);
    var removed := store.Delete(1);
    assert removed;
    var got := store.Get(1);
    assert got == None;
    var all := store.All();
    assert all == [b];
    var updated := store.Update(2, TaskCreate("B2", completed := false));
    assert updated == Some(Task(2, "B2", None, false)) by { assert all[0].id == 2; }
    var c := store.Create(TaskCreate("C"));
    assert c.id == 3;
  }
}
