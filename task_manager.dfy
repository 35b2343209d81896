/** The TaskManager facade: resolves a one-based index once through the service, performs
    the operation, and reports the outcome through exactly one presenter call. */
module TaskManagement {
  import opened Wrappers
  import opened JavaStrings
  import opened Tasks
  import opened Repositories
  import opened Services
  import opened Presentation

  const ServiceNullError: string := "TaskService cannot be null"
  const PresenterNullError: string := "TaskPresenter cannot be null"
  const UpdateFailed: string := "Failed to update task. Name cannot be empty."
  const UpdateSucceeded: string := "Task updated successfully"

  /** The error shown when no task stands at a one-based index. */
  function NotFoundMessage(index: int): (m: string)
    ensures |m| > 24 && m[..24] == "Task not found at index "
    ensures index >= 0 ==> DigitsValue(m[24..]) == index
    ensures index < 0 ==> m[24] == '-' && DigitsValue(m[25..]) == -index
    ensures (m[24] == '-') <==> index < 0
    ensures forall i :: (if index < 0 then 25 else 24) <= i < |m| ==> '0' <= m[i] <= '9'
    ensures |m| > (if index < 0 then 25 else 24)
    ensures m[if index < 0 then 25 else 24] == '0' ==> index == 0
  {
    IntToStringRoundTrip(index);
    var m := "Task not found at index " + IntToString(index);
    assert m[24..] == IntToString(index);
    m
  }

  class TaskManager {
    const service: TaskServiceImpl
    const presenter: Presenter

    ghost predicate Valid()
      reads service.repository
    {
      service.Valid()
    }

    /** The part of the Java constructor that runs once both null checks have passed. */
    constructor (service: TaskServiceImpl, presenter: Presenter)
      ensures this.service == service && this.presenter == presenter
    {
      this.service := service;
      this.presenter := presenter;
    }

    /** new TaskManager(service, presenter): the service is checked first, then the presenter. */
    static method Make(service: TaskServiceImpl?, presenter: Presenter?) returns (r: Result<TaskManager>)
      ensures service == null ==> r == Err(ServiceNullError)
      ensures service != null && presenter == null ==> r == Err(PresenterNullError)
      ensures service != null && presenter != null ==>
                r.Ok? && fresh(r.value) && r.value.service == service && r.value.presenter == presenter
    {
      if service == null {
        return Err(ServiceNullError);
      }
      if presenter == null {
        return Err(PresenterNullError);
      }
      var manager := new TaskManager(service, presenter);
      return Ok(manager);
    }

    /** addTask(name, description): creates the task and reports it by its stored
        (trimmed) name, or reports the validation message and adds nothing. */
    method AddTask(taskName: Option<string>, description: Option<string>, id: string)
      requires Valid()
      requires !HasId(service.repository.tasks, id)
      modifies service.repository, presenter
      ensures Valid()
      ensures ValidName(taskName) ==>
                && service.repository.tasks == old(service.repository.tasks)
                     + [Task(id, Trim(taskName.value), NormalizeDescription(description), false)]
                && presenter.events == old(presenter.events) + [Success("Task added: " + Trim(taskName.value))]
      ensures !ValidName(taskName) ==>
                && service.repository.tasks == old(service.repository.tasks)
                && presenter.events == old(presenter.events) + [Error(NameError)]
    {
      var created := service.CreateTask(taskName, description, id);
      match created
      case Ok(task) =>
        presenter.DisplaySuccess("Task added: " + task.name);
      case Err(message) =>
        presenter.DisplayError(message);
    }

    /** addTask(name): the same as addTask(name, ""). */
    method AddTaskNamed(taskName: Option<string>, id: string)
      requires Valid()
      requires !HasId(service.repository.tasks, id)
      modifies service.repository, presenter
      ensures Valid()
      ensures ValidName(taskName) ==>
                && service.repository.tasks == old(service.repository.tasks) + [Task(id, Trim(taskName.value), "", false)]
                && presenter.events == old(presenter.events) + [Success("Task added: " + Trim(taskName.value))]
      ensures !ValidName(taskName) ==>
                && service.repository.tasks == old(service.repository.tasks)
                && presenter.events == old(presenter.events) + [Error(NameError)]
    {
      AddTask(taskName, Some(""), id);
    }

    /** listTasks: hands the full list, in order, to the presenter in one call. */
    method ListTasks()
      requires Valid()
      modifies presenter
      ensures presenter.events == old(presenter.events) + [TasksShown(service.repository.tasks)]
    {
      var tasks := service.GetAllTasks();
      presenter.DisplayTasks(tasks);
    }

    /** removeTask: looks the index up, removes that task and names it in the success
        message; with no task there, reports not-found. The "Failed to remove task."
        branch is unreachable: a successful lookup means the removal succeeds. */
    method RemoveTask(index: int)
      requires Valid()
      modifies service.repository, presenter
      ensures Valid()
      ensures 1 <= index <= |old(service.repository.tasks)| ==>
                && service.repository.tasks == RemoveAt(old(service.repository.tasks), index - 1)
                && presenter.events == old(presenter.events)
                     + [Success("Task removed: " + old(service.repository.tasks)[index - 1].name)]
      ensures !(1 <= index <= |old(service.repository.tasks)|) ==>
                && service.repository.tasks == old(service.repository.tasks)
                && presenter.events == old(presenter.events) + [Error(NotFoundMessage(index))]
    {
      var task := service.GetTaskByIndex(index);
      if task.Some? {
        var taskName := task.value.name;
        var removed := service.RemoveTaskByIndex(index);
        if removed {
          presenter.DisplaySuccess("Task removed: " + taskName);
        } else {
          // Java displays "Failed to remove task." here; the lookup above succeeded,
          // so the removal cannot fail.
          assert false;
        }
      } else {
        presenter.DisplayError(NotFoundMessage(index));
      }
    }

    /** completeTask: looks the index up, completes that task by its id and reports it
        by name; with no task there, reports not-found. The "Failed to complete task."
        branch is unreachable, for the same reason as in RemoveTask. */
    method CompleteTask(index: int)
      requires Valid()
      modifies service.repository, presenter
      ensures Valid()
      ensures 1 <= index <= |old(service.repository.tasks)| ==>
                var t := old(service.repository.tasks)[index - 1];
                && service.repository.tasks == old(service.repository.tasks)[index - 1 := t.(completed := true)]
                && presenter.events == old(presenter.events) + [Success("Task completed: " + t.name)]
      ensures !(1 <= index <= |old(service.repository.tasks)|) ==>
                && service.repository.tasks == old(service.repository.tasks)
                && presenter.events == old(presenter.events) + [Error(NotFoundMessage(index))]
    {
      var task := service.GetTaskByIndex(index);
      if task.Some? {
        DistinctIdsIndex(service.repository.tasks, index - 1);
        var completed := service.CompleteTask(Some(task.value.id));
        if completed {
          presenter.DisplaySuccess("Task completed: " + task.value.name);
        } else {
          // Java displays "Failed to complete task." here; the lookup above found the
          // task, so completing it by its id cannot fail.
          assert false;
        }
      } else {
        presenter.DisplayError(NotFoundMessage(index));
      }
    }

    /** editTask: with no task at the index, reports not-found; otherwise updates it,
        reporting success, or the fixed empty-name failure when the name is rejected. */
    method EditTask(index: int, newName: Option<string>, newDescription: Option<string>)
      requires Valid()
      modifies service.repository, presenter
      ensures Valid()
      ensures !(1 <= index <= |old(service.repository.tasks)|) ==>
                && service.repository.tasks == old(service.repository.tasks)
                && presenter.events == old(presenter.events) + [Error(NotFoundMessage(index))]
      ensures 1 <= index <= |old(service.repository.tasks)| && !ValidName(newName) ==>
                && service.repository.tasks == old(service.repository.tasks)
                && presenter.events == old(presenter.events) + [Error(UpdateFailed)]
      ensures 1 <= index <= |old(service.repository.tasks)| && ValidName(newName) ==>
                var t := old(service.repository.tasks)[index - 1];
                && service.repository.tasks == old(service.repository.tasks)[index - 1 :=
                     t.(name := Trim(newName.value), description := NormalizeDescription(newDescription))]
                && presenter.events == old(presenter.events) + [Success(UpdateSucceeded)]
    {
      var task := service.GetTaskByIndex(index);
      if task.Some? {
        var updated := service.UpdateTask(index, newName, newDescription);
        if updated {
          presenter.DisplaySuccess(UpdateSucceeded);
        } else {
          presenter.DisplayError(UpdateFailed);
        }
      } else {
        presenter.DisplayError(NotFoundMessage(index));
      }
    }

    /** getTaskCount: the service's count. */
    function GetTaskCount(): (n: nat)
      reads service.repository
      ensures n == |service.repository.tasks|
    {
      service.GetTaskCount()
    }
  }
}
