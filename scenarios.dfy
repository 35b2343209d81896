/** Client code that uses only the contracts above, replaying the behaviours the
    project's unit tests describe. */
module Scenarios {
  import opened Wrappers
  import opened Tasks
  import opened Repositories
  import opened Services
  import opened Presentation
  import opened TaskManagement

  /** For a store [A, B]: index 1 gives A, 2 gives B, 0 and 3 give nothing. */
  method OneBasedLookup() {
    var repository := new InMemoryTaskRepository();
    var service := new TaskServiceImpl(repository);
    TrimmedNameIsValid("Task 1");
    TrimmedNameIsValid("Task 2");
    var a := service.CreateTask(Some("Task 1"), Some("Description 1"), "id-1");
    var b := service.CreateTask(Some("Task 2"), None, "id-2");
    assert a.Ok? && b.Ok?;
    assert service.GetTaskByIndex(1) == Some(a.value);
    assert service.GetTaskByIndex(2) == Some(b.value);
    assert service.GetTaskByIndex(0).None? && service.GetTaskByIndex(3).None?;
    assert b.value.description == "";
  }

  /** Creating with an empty, blank or null name fails and leaves the count alone. */
  method InvalidNamesAreRejected() {
    var repository := new InMemoryTaskRepository();
    var service := new TaskServiceImpl(repository);
    var empty := service.CreateTask(Some(""), Some("d"), "id-1");
    var blank := service.CreateTask(Some(" \t "), Some("d"), "id-2");
    var absent := service.CreateTaskNamed(None, "id-3");
    assert empty.Err? && blank.Err? && absent.Err?;
    assert service.GetTaskCount() == 0;
  }

  /** Completing twice succeeds twice and leaves the task completed. */
  method CompleteTwice() {
    var repository := new InMemoryTaskRepository();
    var service := new TaskServiceImpl(repository);
    TrimmedNameIsValid("Test Task");
    var t := service.CreateTaskNamed(Some("Test Task"), "id-1");
    assert t.Ok? && repository.tasks == [t.value];
    assert HasId(repository.tasks, "id-1") by { assert repository.tasks[0].id == "id-1"; }
    var first := service.CompleteTask(Some("id-1"));
    assert HasId(repository.tasks, "id-1") by { assert repository.tasks[0].id == "id-1"; }
    var second := service.CompleteTask(Some("id-1"));
    assert first && second;
    assert service.GetTaskByIndex(1).value.completed;
    var missing := service.CompleteTask(Some("non-existent-id"));
    assert !missing;
  }

  /** An empty name is refused by updateTask and the original name survives. */
  method UpdateWithEmptyName() {
    var repository := new InMemoryTaskRepository();
    var service := new TaskServiceImpl(repository);
    TrimmedNameIsValid("Original Task");
    var t := service.CreateTask(Some("Original Task"), Some("Description"), "id-1");
    var updated := service.UpdateTask(1, Some(""), Some("Description"));
    assert !updated;
    assert service.GetTaskByIndex(1).value.name == "Original Task";
  }

  /** Removing index 1 from an empty store fails and changes nothing. */
  method RemoveFromEmpty() {
    var repository := new InMemoryTaskRepository();
    var service := new TaskServiceImpl(repository);
    var removed := service.RemoveTaskByIndex(1);
    assert !removed && service.GetTaskCount() == 0;
  }

  /** The list findAll returns is a copy: a task saved afterwards does not appear in it. */
  method SnapshotIsIndependent() {
    var repository := new InMemoryTaskRepository();
    var first := Task("id-1", "Task 1", "", false);
    var saved := repository.Save(Some(first));
    var snapshot := repository.FindAll();
    saved := repository.Save(Some(Task("id-2", "Task 2", "", false)));
    assert snapshot == [first] && repository.Count() == 2;
  }

  /** Through the facade: "Buy milk" edited at index 1 becomes "Buy bread", "urgent". */
  method EditBuyMilk() {
    var repository := new InMemoryTaskRepository();
    var service := new TaskServiceImpl(repository);
    var presenter := new Presenter();
    var manager := new TaskManager(service, presenter);
    TrimmedNameIsValid("Buy milk");
    TrimmedNameIsValid("Buy bread");
    manager.AddTaskNamed(Some("Buy milk"), "id-1");
    manager.EditTask(1, Some("Buy bread"), Some("urgent"));
    var t := service.GetTaskByIndex(1);
    assert t.Some? && t.value.name == "Buy bread" && t.value.description == "urgent";
    assert "Task added: " + "Buy milk" == "Task added: Buy milk";
    assert presenter.events == [Success("Task added: Buy milk"), Success("Task updated successfully")];
  }
}
