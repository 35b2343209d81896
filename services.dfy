/** The task lifecycle service: TaskService's contract, stated on its one implementation,
    TaskServiceImpl. Every index here is one-based; the service translates it to the
    store's zero-based positions. */
module Services {
  import opened Wrappers
  import opened JavaStrings
  import opened Tasks
  import opened Repositories

  /** The message of the IllegalArgumentException thrown for a null repository. */
  const RepositoryNullError: string := "TaskRepository cannot be null"

  class TaskServiceImpl {
    const repository: InMemoryTaskRepository

    ghost predicate Valid()
      reads repository
    {
      repository.Valid()
    }

    /** The part of the Java constructor that runs once the null check has passed. */
    constructor (repository: InMemoryTaskRepository)
      ensures this.repository == repository
    {
      this.repository := repository;
    }

    /** new TaskServiceImpl(repository): a null repository is rejected. */
    static method Make(repository: InMemoryTaskRepository?) returns (r: Result<TaskServiceImpl>)
      ensures repository == null ==> r == Err(RepositoryNullError)
      ensures repository != null ==> r.Ok? && fresh(r.value) && r.value.repository == repository
    {
      if repository == null {
        return Err(RepositoryNullError);
      }
      var service := new TaskServiceImpl(repository);
      return Ok(service);
    }

    /** createTask(name, description): builds a task (which may throw on an invalid
        name) and saves it. The id stands for the UUID the constructor draws, so it is
        one the store does not hold yet. */
    method CreateTask(name: Option<string>, description: Option<string>, id: string) returns (r: Result<Task>)
      requires Valid()
      requires !HasId(repository.tasks, id)
      modifies repository
      ensures Valid()
      ensures r.Ok? <==> ValidName(name)
      ensures r.Err? ==> r.message == NameError && repository.tasks == old(repository.tasks)
      ensures r.Ok? ==> && r.value == Task(id, Trim(name.value), NormalizeDescription(description), false)
                        && repository.tasks == old(repository.tasks) + [r.value]
    {
      var task := NewTask(id, name, description);
      if task.Err? {
        return Err(task.message);
      }
      r := repository.Save(Some(task.value));
    }

    /** createTask(name): the same as createTask(name, ""). */
    method CreateTaskNamed(name: Option<string>, id: string) returns (r: Result<Task>)
      requires Valid()
      requires !HasId(repository.tasks, id)
      modifies repository
      ensures Valid()
      ensures r.Ok? <==> ValidName(name)
      ensures r.Err? ==> r.message == NameError && repository.tasks == old(repository.tasks)
      ensures r.Ok? ==> && r.value == Task(id, Trim(name.value), "", false)
                        && repository.tasks == old(repository.tasks) + [r.value]
    {
      r := CreateTask(name, Some(""), id);
    }

    /** getAllTasks: the store's list, in order. */
    function GetAllTasks(): (r: seq<Task>)
      reads repository
      ensures |r| == |repository.tasks| && forall i :: 0 <= i < |r| ==> r[i] == repository.tasks[i]
    {
      repository.FindAll()
    }

    /** getTaskById: the store's lookup by id. */
    function GetTaskById(id: Option<string>): (r: Option<Task>)
      reads repository
      ensures r.Some? <==> id.Some? && HasId(repository.tasks, id.value)
      ensures r.Some? ==> r.value.id == id.value
      ensures r.Some? ==> r.value == repository.tasks[IndexOfId(repository.tasks, id.value)]
    {
      repository.FindById(id)
    }

    /** getTaskByIndex: the task at a one-based index, nothing for 0, negatives and
        indices past the end. */
    function GetTaskByIndex(index: int): (r: Option<Task>)
      reads repository
      ensures r.Some? <==> 1 <= index <= |repository.tasks|
      ensures r.Some? ==> r.value == repository.tasks[index - 1]
    {
      repository.FindByIndex(index - 1)
    }

    /** removeTask(id): deletes by id and reports whether something was deleted. */
    method RemoveTask(id: Option<string>) returns (removed: bool)
      requires Valid()
      modifies repository
      ensures Valid()
      ensures removed <==> id.Some? && HasId(old(repository.tasks), id.value)
      ensures removed ==> repository.tasks == RemoveAt(old(repository.tasks), IndexOfId(old(repository.tasks), id.value))
      ensures !removed ==> repository.tasks == old(repository.tasks)
    {
      removed := repository.DeleteById(id);
    }

    /** removeTaskByIndex: deletes the task at a one-based index, if there is one. */
    method RemoveTaskByIndex(index: int) returns (removed: bool)
      requires Valid()
      modifies repository
      ensures Valid()
      ensures removed <==> 1 <= index <= |old(repository.tasks)|
      ensures removed ==> repository.tasks == RemoveAt(old(repository.tasks), index - 1)
      ensures !removed ==> repository.tasks == old(repository.tasks)
    {
      removed := repository.DeleteByIndex(index - 1);
    }

    /** completeTask: marks the task with this id completed and saves it back, in place;
        false, with nothing changed, when there is no such task. */
    method CompleteTask(id: Option<string>) returns (completed: bool)
      requires Valid()
      modifies repository
      ensures Valid()
      ensures completed <==> id.Some? && HasId(old(repository.tasks), id.value)
      ensures completed ==>
                var k := IndexOfId(old(repository.tasks), id.value);
                repository.tasks == old(repository.tasks)[k := old(repository.tasks)[k].(completed := true)]
      ensures !completed ==> repository.tasks == old(repository.tasks)
    {
      var taskOptional := repository.FindById(id);
      if taskOptional.Some? {
        var task := MarkAsCompleted(taskOptional.value);
        var saved := repository.Save(Some(task));
        return true;
      }
      return false;
    }

    /** updateTask: renames and re-describes the task at a one-based index and saves it
        back. A rejected name is caught and reported as false, before anything changed. */
    method UpdateTask(index: int, newName: Option<string>, newDescription: Option<string>) returns (updated: bool)
      requires Valid()
      modifies repository
      ensures Valid()
      ensures updated <==> 1 <= index <= |old(repository.tasks)| && ValidName(newName)
      ensures updated ==>
                var t := old(repository.tasks)[index - 1];
                repository.tasks == old(repository.tasks)[index - 1 :=
                  t.(name := Trim(newName.value), description := NormalizeDescription(newDescription))]
      ensures !updated ==> repository.tasks == old(repository.tasks)
    {
      var taskOptional := GetTaskByIndex(index);
      if taskOptional.Some? {
        var renamed := SetName(taskOptional.value, newName);
        if renamed.Err? {
          return false;
        }
        var task := SetDescription(renamed.value, newDescription);
        DistinctIdsIndex(repository.tasks, index - 1);
        var saved := repository.Save(Some(task));
        return true;
      }
      return false;
    }

    /** getTaskCount: the number of stored tasks. */
    function GetTaskCount(): (n: nat)
      reads repository
      ensures n == |repository.tasks|
    {
      repository.Count()
    }
  }
}
