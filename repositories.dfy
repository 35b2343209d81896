/** The task store: TaskRepository's contract, stated on its one implementation,
    InMemoryTaskRepository, whose ArrayList becomes a sequence field. Indices here
    are zero-based. */
module Repositories {
  import opened Wrappers
  import opened Tasks

  /** No two stored tasks share an id. */
  predicate DistinctIds(s: seq<Task>) {
    forall i, j :: 0 <= i < j < |s| ==> s[i].id != s[j].id
  }

  /** Some stored task has this id. */
  predicate HasId(s: seq<Task>, id: string) {
    exists i :: 0 <= i < |s| && s[i].id == id
  }

  /** The position of the first task with this id, or -1: what List.indexOf yields,
      since Task.equals compares ids only. */
  function IndexOfId(s: seq<Task>, id: string): (k: int)
    ensures -1 <= k < |s|
    ensures k >= 0 ==> s[k].id == id && forall j :: 0 <= j < k ==> s[j].id != id
    ensures k < 0 <==> !HasId(s, id)
  {
    if s == [] then -1
    else if s[0].id == id then 0
    else
      var k := IndexOfId(s[1..], id);
      assert forall j :: 1 <= j < |s| ==> s[j] == s[1..][j - 1];
      if k < 0 then -1 else k + 1
  }

  /** Reference definition of save: replace the first task with the same id where it
      stands, or append when there is none. */
  function Upsert(s: seq<Task>, t: Task): (r: seq<Task>)
  {
    if s == [] then [t]
    else if s[0].id == t.id then [t] + s[1..]
    else [s[0]] + Upsert(s[1..], t)
  }

  /** Saving a task whose id is stored replaces that entry in place. */
  lemma {:induction false} UpsertExisting(s: seq<Task>, t: Task)
    requires IndexOfId(s, t.id) >= 0
    ensures Upsert(s, t) == s[IndexOfId(s, t.id) := t]
  {
    if s[0].id != t.id {
      UpsertExisting(s[1..], t);
    }
  }

  /** Saving a task with a new id appends it. */
  lemma {:induction false} UpsertNew(s: seq<Task>, t: Task)
    requires IndexOfId(s, t.id) < 0
    ensures Upsert(s, t) == s + [t]
  {
    if s != [] {
      assert IndexOfId(s[1..], t.id) < 0;
      UpsertNew(s[1..], t);
    }
  }

  /** After save, looking the saved id up finds exactly the saved task. */
  lemma {:induction false} UpsertThenFind(s: seq<Task>, t: Task)
    ensures IndexOfId(Upsert(s, t), t.id) >= 0
    ensures Upsert(s, t)[IndexOfId(Upsert(s, t), t.id)] == t
  {
    if s != [] && s[0].id != t.id {
      UpsertThenFind(s[1..], t);
      assert Upsert(s, t)[1..] == Upsert(s[1..], t);
    }
  }

  /** save moves no other id: each is found at the same position as before. */
  lemma {:induction false} UpsertKeepsOtherIds(s: seq<Task>, t: Task, id: string)
    requires id != t.id
    ensures IndexOfId(Upsert(s, t), id) == IndexOfId(s, id)
  {
    if s != [] && s[0].id != t.id {
      UpsertKeepsOtherIds(s[1..], t, id);
      assert Upsert(s, t)[1..] == Upsert(s[1..], t);
    }
  }

  /** save never duplicates an id. */
  lemma {:induction false} UpsertKeepsIdsDistinct(s: seq<Task>, t: Task)
    requires DistinctIds(s)
    ensures DistinctIds(Upsert(s, t))
  {
    var k := IndexOfId(s, t.id);
    if k >= 0 {
      UpsertExisting(s, t);
    } else {
      UpsertNew(s, t);
    }
  }

  /** s without its element at i: the elements before i stay put, those after move down one. */
  function RemoveAt(s: seq<Task>, i: int): (r: seq<Task>)
    requires 0 <= i < |s|
    ensures |r| == |s| - 1
    ensures forall j :: 0 <= j < i ==> r[j] == s[j]
    ensures forall j :: i <= j < |r| ==> r[j] == s[j + 1]
  {
    s[..i] + s[i + 1..]
  }

  /** Removing at i loses exactly the task at i. */
  lemma RemoveAtMultiset(s: seq<Task>, i: int)
    requires 0 <= i < |s|
    ensures multiset(RemoveAt(s, i)) + multiset{s[i]} == multiset(s)
  {
    assert s == s[..i] + [s[i]] + s[i + 1..];
  }

  /** Reference definition of deleteById: drop the first task with this id, if any. */
  function RemoveFirstId(s: seq<Task>, id: string): (r: seq<Task>)
  {
    if s == [] then []
    else if s[0].id == id then s[1..]
    else [s[0]] + RemoveFirstId(s[1..], id)
  }

  /** Removing the first match by id is removing at IndexOfId. */
  lemma RemoveFirstIdAt(s: seq<Task>, id: string)
    requires IndexOfId(s, id) >= 0
    ensures RemoveFirstId(s, id) == s[..IndexOfId(s, id)] + s[IndexOfId(s, id) + 1..]
  {
    RemoveFirstMatch(s, id, IndexOfId(s, id));
  }

  /** RemoveFirstId drops the element at k when k is the first position holding the id. */
  lemma {:induction false} RemoveFirstMatch(s: seq<Task>, id: string, k: int)
    requires 0 <= k < |s| && s[k].id == id
    requires forall j :: 0 <= j < k ==> s[j].id != id
    ensures RemoveFirstId(s, id) == s[..k] + s[k + 1..]
  {
    if k == 0 {
      assert s[..0] + s[1..] == s[1..];
    } else {
      var t := s[1..];
      assert forall j :: 0 <= j < k - 1 ==> t[j] == s[j + 1];
      RemoveFirstMatch(t, id, k - 1);
      assert [s[0]] + t[..k - 1] == s[..k];
      assert t[k..] == s[k + 1..];
    }
  }

  /** Without a match, deleting by id removes nothing. */
  lemma {:induction false} RemoveFirstIdMissing(s: seq<Task>, id: string)
    requires !HasId(s, id)
    ensures RemoveFirstId(s, id) == s
  {
    if s != [] {
      assert !HasId(s[1..], id) by {
        forall j | 0 <= j < |s[1..]| ensures s[1..][j].id != id { assert s[1..][j] == s[j + 1]; }
      }
      RemoveFirstIdMissing(s[1..], id);
    }
  }

  /** Deleting keeps ids distinct. */
  lemma RemoveAtKeepsIdsDistinct(s: seq<Task>, i: int)
    requires DistinctIds(s) && 0 <= i < |s|
    ensures DistinctIds(RemoveAt(s, i))
  {
  }

  /** With distinct ids, the task at position i is the one its id leads to. */
  lemma DistinctIdsIndex(s: seq<Task>, i: int)
    requires DistinctIds(s) && 0 <= i < |s|
    ensures IndexOfId(s, s[i].id) == i
  {
  }

  /** With distinct ids, a task deleted by id is gone afterwards. */
  lemma DeletedIdIsGone(s: seq<Task>, id: string)
    requires DistinctIds(s) && HasId(s, id)
    ensures !HasId(RemoveAt(s, IndexOfId(s, id)), id)
  {
  }

  /** InMemoryTaskRepository: an ordered list of tasks, insertion order being display order. */
  class InMemoryTaskRepository {
    var tasks: seq<Task>

    /** Only save inserts, and it never duplicates an id. */
    ghost predicate Valid()
      reads this
    {
      DistinctIds(tasks)
    }

    constructor ()
      ensures Valid() && tasks == []
    {
      tasks := [];
    }

    /** save: rejects null; otherwise upserts by id and returns the argument. */
    method Save(task: Option<Task>) returns (r: Result<Task>)
      requires Valid()
      modifies this
      ensures Valid()
      ensures task.None? ==> r == Err("Task cannot be null") && tasks == old(tasks)
      ensures task.Some? ==> r == Ok(task.value) && tasks == Upsert(old(tasks), task.value)
      ensures task.Some? && HasId(old(tasks), task.value.id) ==>
                tasks == old(tasks)[IndexOfId(old(tasks), task.value.id) := task.value]
      ensures task.Some? && !HasId(old(tasks), task.value.id) ==> tasks == old(tasks) + [task.value]
    {
      if task.None? {
        return Err("Task cannot be null");
      }
      var t := task.value;
      UpsertKeepsIdsDistinct(tasks, t);
      var existing := FindById(Some(t.id));
      if existing.Some? {
        var index := IndexOfId(tasks, existing.value.id);
        UpsertExisting(tasks, t);
        tasks := tasks[index := t];
      } else {
        UpsertNew(tasks, t);
        tasks := tasks + [t];
      }
      return Ok(t);
    }

    /** findById: null finds nothing; otherwise the first task with that id, if any. */
    function FindById(id: Option<string>): (r: Option<Task>)
      reads this
      ensures r.Some? <==> id.Some? && HasId(tasks, id.value)
      ensures r.Some? ==> r.value.id == id.value && r.value == tasks[IndexOfId(tasks, id.value)]
    {
      if id.None? then None
      else
        var k := IndexOfId(tasks, id.value);
        if k < 0 then None else Some(tasks[k])
    }

    /** findByIndex: the task at a zero-based position, or nothing when out of bounds. */
    function FindByIndex(index: int): (r: Option<Task>)
      reads this
      ensures r.Some? <==> 0 <= index < |tasks|
      ensures r.Some? ==> r.value == tasks[index]
    {
      if index < 0 || index >= |tasks| then None else Some(tasks[index])
    }

    /** findAll: the whole list in insertion order. The list is a copy: adding or
        removing tasks later does not change it. */
    function FindAll(): (r: seq<Task>)
      reads this
      ensures |r| == |tasks| && forall i :: 0 <= i < |r| ==> r[i] == tasks[i]
    {
      tasks
    }

    /** deleteById: removes the first task with that id and reports whether it did. */
    method DeleteById(id: Option<string>) returns (deleted: bool)
      requires Valid()
      modifies this
      ensures Valid()
      ensures deleted <==> id.Some? && HasId(old(tasks), id.value)
      ensures deleted ==> tasks == RemoveAt(old(tasks), IndexOfId(old(tasks), id.value))
                          && !HasId(tasks, id.value)
      ensures !deleted ==> tasks == old(tasks)
      ensures id.Some? ==> tasks == RemoveFirstId(old(tasks), id.value)
    {
      var found := FindById(id);
      if found.None? {
        if id.Some? { RemoveFirstIdMissing(tasks, id.value); }
        return false;
      }
      var k := IndexOfId(tasks, found.value.id);
      RemoveFirstIdAt(tasks, id.value);
      assert RemoveFirstId(tasks, id.value) == RemoveAt(tasks, k);
      RemoveAtKeepsIdsDistinct(tasks, k);
      DeletedIdIsGone(tasks, id.value);
      tasks := RemoveAt(tasks, k);
      return true;
    }

    /** deleteByIndex: removes the task at a zero-based position, if there is one. */
    method DeleteByIndex(index: int) returns (deleted: bool)
      requires Valid()
      modifies this
      ensures Valid()
      ensures deleted <==> 0 <= index < |old(tasks)|
      ensures deleted ==> tasks == RemoveAt(old(tasks), index)
      ensures !deleted ==> tasks == old(tasks)
    {
      if index < 0 || index >= |tasks| {
        return false;
      }
      RemoveAtKeepsIdsDistinct(tasks, index);
      tasks := RemoveAt(tasks, index);
      return true;
    }

    /** count: the number of stored tasks. */
    function Count(): (n: nat)
      reads this
      ensures n == |tasks|
    {
      |tasks|
    }

    /** existsById: whether findById finds something. */
    function ExistsById(id: Option<string>): (b: bool)
      reads this
      ensures b <==> id.Some? && HasId(tasks, id.value)
    {
      FindById(id).Some?
    }
  }
}
