# Task manager core, modelled in Dafny

This project models the task-lifecycle layer of a small, single-user, in-memory task
tracker. The layer has four parts:

- the `Task` entity: an opaque id, a name that must be non-blank and is stored trimmed, a
  description that is never null, and a completion flag;
- the store, `InMemoryTaskRepository`: an ordered list of tasks. `save` upserts by id.
  Lookups and deletes go by id or by zero-based position;
- the service, `TaskServiceImpl`: it validates on creation, translates one-based indices to
  zero-based ones, completes by id, and reports a rejected rename as `false`;
- the facade, `TaskManager`: it resolves a one-based index once, calls the service, and
  reports each outcome through exactly one presenter call.

Files:

- `wrappers.dfy`: `Option` (a nullable Java reference, an `Optional`) and `Result` (a value, or
  an `IllegalArgumentException` with its message).
- `java_strings.dfy`: `String.trim` (it strips characters up to U+0020 at both ends),
  `Integer.toString` and `String.hashCode`.
- `tasks.dfy`: module `Tasks`. `Task` is a datatype. Each Java setter is a function that
  returns the updated value.
- `repositories.dfy`: module `Repositories`, with class `InMemoryTaskRepository` over a
  `seq<Task>` field. Next to it are the reference definitions of what `save` and
  `deleteById` do to a list (`Upsert`, `RemoveFirstId`) and the lemmas about them.
- `services.dfy`: module `Services`, with class `TaskServiceImpl` over the repository.
- `presentation.dfy`: the presenter as an event log (`Success`, `Error`, `Info`,
  `TasksShown`, `TaskShown`), one event per call.
- `task_manager.dfy`: module `TaskManagement`, with class `TaskManager`.
- `scenarios.dfy`: client methods that replay the unit tests' scenarios against the contracts.
  Examples: the one-based lookup on `[A, B]`, completing twice, editing "Buy milk", and a
  `findAll` copy that a later save does not extend.

The store's invariant, `InMemoryTaskRepository.Valid`, says the stored ids are pairwise
distinct. The constructor establishes it and every mutating method keeps it: `save` is the
only way in, and it upserts. The service relies on this invariant to show that
`updateTask` and `completeTask` rewrite the task at the position that was looked up.

The two interfaces, `TaskRepository` and `TaskService`, have no code. Their documented
contracts (zero-based versus one-based indices, boolean delete results, `existsById`,
`count`, `save` returning the saved task) are stated as the postconditions of the
implementing classes. `TaskManager` holds a `TaskServiceImpl`. That is why the model can prove
that the facade's "Failed to remove task." and "Failed to complete task." branches are never
taken: each is an `assert false` in a branch shown to be dead.

A Java constructor that throws on a null collaborator becomes a static factory, `Make`, that
returns `Err` with the same message. The Dafny constructor is the part that runs after the
checks.

## Model

| member | source | states |
|---|---|---|
| JavaStrings.Trim | src/main/java/com/example/taskmanager/models/Task.java:46-49 | The trimmed name is a slice of the input that starts after its leading blanks (characters at most U+0020). Only blanks follow it. It is empty exactly when the input is blank throughout, and otherwise it starts and ends with a non-blank. |
| JavaStrings.TrimIdempotent | src/main/java/com/example/taskmanager/models/Task.java:49 | Trimming an already trimmed name changes nothing. |
| JavaStrings.TrimmedIsFixed | src/main/java/com/example/taskmanager/models/Task.java:49 | A string with no blank at either end is its own trim. |
| JavaStrings.IntToString | src/main/java/com/example/taskmanager/TaskManager.java:86 | The index in the not-found message is written in decimal without leading zeros (a first digit '0' only for 0). It has a leading '-' exactly when the index is negative, and all other characters are digits. |
| JavaStrings.NatToStringRoundTrip | src/main/java/com/example/taskmanager/TaskManager.java:86 | Reading back the digits written for a non-negative number gives that number. |
| JavaStrings.IntToStringRoundTrip | src/main/java/com/example/taskmanager/TaskManager.java:104 | For every int, the digits after the optional '-' read back to the number's magnitude: the message names exactly the index that was passed, negative ones included. |
| JavaStrings.StringHashBits | src/main/java/com/example/taskmanager/models/Task.java:100-102 | String.hashCode's value is the 32-bit wrapped polynomial h = 31*h + c, always in the unsigned 32-bit range. |
| Tasks.ValidateName | src/main/java/com/example/taskmanager/models/Task.java:45-50 | It succeeds exactly when the name is non-null and has a non-blank character, and then yields the trimmed name, which is non-empty and trimmed. Otherwise it fails with "Task name cannot be null or empty". |
| Tasks.ValidateNameIdempotent | src/main/java/com/example/taskmanager/models/Task.java:45-50 | A name that has been validated once validates again to itself. |
| Tasks.TrimmedNameIsValid | src/main/java/com/example/taskmanager/models/Task.java:45-50 | A non-empty trimmed name is accepted and stored unchanged. |
| Tasks.NormalizeDescription | src/main/java/com/example/taskmanager/models/Task.java:27 | A null description becomes "". Any other description is kept verbatim. |
| Tasks.NewTask | src/main/java/com/example/taskmanager/models/Task.java:24-43 | Both constructors reject an invalid name with the validation message. Otherwise the task has the given id, the trimmed name, the coalesced description and `completed = false`. The UUID-drawing constructor is this function applied to the drawn id. |
| Tasks.SetName | src/main/java/com/example/taskmanager/models/Task.java:60-62 | An invalid name fails, and no updated task exists, so the old name stays. A valid name replaces only the name, by its trim; the id, description and flag are kept. |
| Tasks.SetDescription | src/main/java/com/example/taskmanager/models/Task.java:68-70 | null sets "". Anything else is stored verbatim. No other field changes. |
| Tasks.SetCompleted | src/main/java/com/example/taskmanager/models/Task.java:76-78 | The flag becomes the argument, in either direction. No other field changes. |
| Tasks.MarkAsCompleted | src/main/java/com/example/taskmanager/models/Task.java:83-85 | The flag becomes true. No other field changes. |
| Tasks.MarkAsCompletedIdempotent | src/main/java/com/example/taskmanager/models/Task.java:83-85 | Completing twice is completing once. Only setCompleted(false) undoes it. |
| Tasks.OperationsPreserveIdentity | src/main/java/com/example/taskmanager/models/Task.java:13 | No setter changes the id, and none leaves an empty or untrimmed name. |
| Tasks.Equals | src/main/java/com/example/taskmanager/models/Task.java:87-97 | A task equals itself (the `this == o` shortcut), never equals null, and any task it equals has the same hash code. |
| Tasks.HashCode | src/main/java/com/example/taskmanager/models/Task.java:99-102 | hashCode is Objects.hash(id), that is 31 + id.hashCode() in 32-bit arithmetic: a Java int. |
| Tasks.EqualityIsById | src/main/java/com/example/taskmanager/models/Task.java:88-102 | Two tasks are equal exactly when their ids are equal, whatever their other fields. Null is never equal. Equality is symmetric, and equal tasks hash equally. |
| Repositories.IndexOfId | src/main/java/com/example/taskmanager/repositories/InMemoryTaskRepository.java:45-52 | It gives the position of the first task with the id, or -1 exactly when no stored task has it: the first match of the stream filter, and List.indexOf under id equality. |
| Repositories.UpsertExisting | src/main/java/com/example/taskmanager/repositories/InMemoryTaskRepository.java:34-38 | If the id is already stored, save replaces that entry at its position. |
| Repositories.UpsertNew | src/main/java/com/example/taskmanager/repositories/InMemoryTaskRepository.java:39-40 | If the id is new, save appends the task at the end. |
| Repositories.UpsertThenFind | src/main/java/com/example/taskmanager/repositories/InMemoryTaskRepository.java:34-41 | After save, a lookup of the saved id finds exactly the saved task. |
| Repositories.UpsertKeepsOtherIds | src/main/java/com/example/taskmanager/repositories/InMemoryTaskRepository.java:34-41 | save moves no other id: every other id is found at the same position as before. |
| Repositories.UpsertKeepsIdsDistinct | src/main/java/com/example/taskmanager/repositories/InMemoryTaskRepository.java:34-40 | If the stored ids are pairwise distinct before save, they are still distinct after it. |
| Repositories.RemoveAt | src/main/java/com/example/taskmanager/repositories/InMemoryTaskRepository.java:79 | Removing position i leaves one task fewer. The tasks before i stay where they are, and the tasks after i move down one in the same order. |
| Repositories.RemoveFirstIdAt | src/main/java/com/example/taskmanager/repositories/InMemoryTaskRepository.java:68-72 | When the id is stored, deleteById's result is the list with the element at IndexOfId cut out, the rest kept in order. |
| Repositories.RemoveFirstMatch | src/main/java/com/example/taskmanager/repositories/InMemoryTaskRepository.java:68-72 | Deleting by id cuts out exactly the element at the first position holding the id. |
| Repositories.RemoveFirstIdMissing | src/main/java/com/example/taskmanager/repositories/InMemoryTaskRepository.java:69-71 | When no stored task has the id, deleteById removes nothing. |
| Repositories.RemoveAtMultiset | src/main/java/com/example/taskmanager/repositories/InMemoryTaskRepository.java:79 | Removing position i loses exactly the task at i, and no other task is lost or added. |
| Repositories.RemoveAtKeepsIdsDistinct | src/main/java/com/example/taskmanager/repositories/InMemoryTaskRepository.java:75-81 | Deleting keeps the stored ids distinct. |
| Repositories.DistinctIdsIndex | src/main/java/com/example/taskmanager/services/TaskServiceImpl.java:85-93 | When ids are distinct, the id of the task at position i leads back to position i. So re-saving the task looked up by index rewrites that same position. |
| Repositories.DeletedIdIsGone | src/main/java/com/example/taskmanager/repositories/InMemoryTaskRepository.java:68-72 | When ids are distinct, no task with the id is left after deleteById. |
| Repositories.InMemoryTaskRepository.constructor | src/main/java/com/example/taskmanager/repositories/InMemoryTaskRepository.java:23-25 | The store starts empty, and the invariant holds. |
| Repositories.InMemoryTaskRepository.Save | src/main/java/com/example/taskmanager/repositories/InMemoryTaskRepository.java:28-42 | null fails with "Task cannot be null" and the store is unchanged. Otherwise the list becomes Upsert(old list, task) and the argument is returned: replaced in place when its id was stored, appended otherwise. The ids stay distinct. |
| Repositories.InMemoryTaskRepository.FindById | src/main/java/com/example/taskmanager/repositories/InMemoryTaskRepository.java:45-52 | It is present exactly when the id is non-null and stored, and then it is the first stored task with that id. |
| Repositories.InMemoryTaskRepository.FindByIndex | src/main/java/com/example/taskmanager/repositories/InMemoryTaskRepository.java:55-60 | It is present exactly when 0 <= index < count, and then it is the task at that zero-based position. |
| Repositories.InMemoryTaskRepository.FindAll | src/main/java/com/example/taskmanager/repositories/InMemoryTaskRepository.java:63-65 | It returns every stored task in insertion order. The list is a copy: tasks added or removed later do not change it. |
| Repositories.InMemoryTaskRepository.DeleteById | src/main/java/com/example/taskmanager/repositories/InMemoryTaskRepository.java:68-72 | It returns true exactly when the id is non-null and stored. Then the first match is removed, the other tasks keep their order, and the id is gone. Otherwise nothing changes. |
| Repositories.InMemoryTaskRepository.DeleteByIndex | src/main/java/com/example/taskmanager/repositories/InMemoryTaskRepository.java:75-81 | It returns true exactly when 0 <= index < count, and then removes only that element. Out of bounds, it returns false and nothing changes. |
| Repositories.InMemoryTaskRepository.Count | src/main/java/com/example/taskmanager/repositories/InMemoryTaskRepository.java:84-86 | It is the number of stored tasks. |
| Repositories.InMemoryTaskRepository.ExistsById | src/main/java/com/example/taskmanager/repositories/InMemoryTaskRepository.java:89-91 | It is true exactly when the id is non-null and some stored task has it, which is when findById is present. |
| Services.TaskServiceImpl.constructor | src/main/java/com/example/taskmanager/services/TaskServiceImpl.java:31 | It keeps the given repository. |
| Services.TaskServiceImpl.Make | src/main/java/com/example/taskmanager/services/TaskServiceImpl.java:27-32 | A null repository fails with "TaskRepository cannot be null". Otherwise it returns a new service over that repository. |
| Services.TaskServiceImpl.CreateTask | src/main/java/com/example/taskmanager/services/TaskServiceImpl.java:35-38 | An invalid name fails with the validation message and leaves the store untouched. A valid name appends exactly Task(id, trim(name), coalesced description, false), so the count rises by one and the id can be found. |
| Services.TaskServiceImpl.CreateTaskNamed | src/main/java/com/example/taskmanager/services/TaskServiceImpl.java:41-43 | It behaves as createTask(name, ""). |
| Services.TaskServiceImpl.GetAllTasks | src/main/java/com/example/taskmanager/services/TaskServiceImpl.java:46-48 | It returns the store's list, in order. |
| Services.TaskServiceImpl.GetTaskById | src/main/java/com/example/taskmanager/services/TaskServiceImpl.java:51-53 | It is present exactly when the id is non-null and stored, and then it is the first stored task with that id. |
| Services.TaskServiceImpl.GetTaskByIndex | src/main/java/com/example/taskmanager/services/TaskServiceImpl.java:56-59 | It is present exactly when 1 <= index <= count, and then it is the task at index - 1. Indices 0, negative and past the end give nothing. |
| Services.TaskServiceImpl.RemoveTask | src/main/java/com/example/taskmanager/services/TaskServiceImpl.java:62-64 | It returns true exactly when the id is stored, and then removes its first occurrence. Otherwise nothing changes. |
| Services.TaskServiceImpl.RemoveTaskByIndex | src/main/java/com/example/taskmanager/services/TaskServiceImpl.java:67-70 | It returns true exactly when 1 <= index <= count, and then removes the task at index - 1. Otherwise nothing changes. |
| Services.TaskServiceImpl.CompleteTask | src/main/java/com/example/taskmanager/services/TaskServiceImpl.java:73-82 | It returns true exactly when the id is stored. Then only that task's flag becomes true, in place, so a repeat call returns true as well. An absent id returns false and changes nothing. |
| Services.TaskServiceImpl.UpdateTask | src/main/java/com/example/taskmanager/services/TaskServiceImpl.java:85-99 | It returns true exactly when 1 <= index <= count and the name is valid. Then the task at index - 1 gets trim(name) and the coalesced description, keeping its id, flag and position. Otherwise it returns false and nothing changes. |
| Services.TaskServiceImpl.GetTaskCount | src/main/java/com/example/taskmanager/services/TaskServiceImpl.java:102-104 | It is the number of stored tasks. |
| Presentation.Presenter.DisplayTask | src/main/java/com/example/taskmanager/presentation/TaskPresenter.java:21 | It logs one TaskShown event. |
| Presentation.Presenter.DisplayTasks | src/main/java/com/example/taskmanager/presentation/TaskPresenter.java:28 | It logs one TasksShown event carrying the list. |
| Presentation.Presenter.DisplaySuccess | src/main/java/com/example/taskmanager/presentation/TaskPresenter.java:35 | It logs one Success event carrying the message. |
| Presentation.Presenter.DisplayError | src/main/java/com/example/taskmanager/presentation/TaskPresenter.java:42 | It logs one Error event carrying the message. |
| Presentation.Presenter.DisplayInfo | src/main/java/com/example/taskmanager/presentation/TaskPresenter.java:49 | It logs one Info event carrying the message. |
| Presentation.Presenter.constructor | src/main/java/com/example/taskmanager/presentation/TaskPresenter.java:13 | It starts with an empty log. |
| TaskManagement.NotFoundMessage | src/main/java/com/example/taskmanager/TaskManager.java:86 | The message is "Task not found at index " followed by the index in decimal. A '-' comes first exactly when the index is negative. Every character after that is a digit, with no leading zero unless the index is 0. The digits read back to the index's magnitude. The same message is used at lines 104 and 124. |
| TaskManagement.TaskManager.constructor | src/main/java/com/example/taskmanager/TaskManager.java:35-36 | It keeps the given service and presenter. |
| TaskManagement.TaskManager.Make | src/main/java/com/example/taskmanager/TaskManager.java:28-37 | A null service fails with "TaskService cannot be null". Then a null presenter fails with "TaskPresenter cannot be null". Otherwise it returns a new facade over both. |
| TaskManagement.TaskManager.AddTask | src/main/java/com/example/taskmanager/TaskManager.java:54-61 | With a valid name, the task is appended and exactly one Success("Task added: " + trimmed name) is emitted. With an invalid name, nothing is added and exactly one Error with the validation message is emitted. |
| TaskManagement.TaskManager.AddTaskNamed | src/main/java/com/example/taskmanager/TaskManager.java:44-46 | It behaves as addTask(name, ""). |
| TaskManagement.TaskManager.ListTasks | src/main/java/com/example/taskmanager/TaskManager.java:66-69 | It makes one displayTasks call carrying the full current list, in order. The store is untouched. |
| TaskManagement.TaskManager.RemoveTask | src/main/java/com/example/taskmanager/TaskManager.java:76-88 | In range, it removes the task at index - 1 and emits exactly one Success naming that task. It never emits "Failed to remove task.". Out of range, it emits exactly one "Task not found at index N" error and the store is unchanged. |
| TaskManagement.TaskManager.CompleteTask | src/main/java/com/example/taskmanager/TaskManager.java:95-106 | In range, only the looked-up task's flag becomes true (completed by its id) and exactly one "Task completed: " + name is emitted. It never emits "Failed to complete task.". Out of range, it emits the not-found error and nothing changes. |
| TaskManagement.TaskManager.EditTask | src/main/java/com/example/taskmanager/TaskManager.java:115-126 | Out of range, it emits the not-found error. In range with a rejected name, the store is unchanged and it emits "Failed to update task. Name cannot be empty.". Otherwise it updates name and description at index - 1 and emits "Task updated successfully". There is exactly one event in each case. |
| TaskManagement.TaskManager.GetTaskCount | src/main/java/com/example/taskmanager/TaskManager.java:133-135 | It is the number of stored tasks. |

## Left out

- The interfaces `TaskRepository` and `TaskService` are not separate abstractions. Their contracts sit on the concrete classes, and `TaskManager` holds a `TaskServiceImpl`. A different service, such as the mock in TaskManagerTest, cannot be plugged in.
- `Task` is a value, not a mutable object. The service re-saves the updated value, which has the same effect as Java's in-place mutation followed by `save`. The only setter that can fail throws before it assigns anything. Aliasing between a Task handed out and the stored one is therefore not modelled. In Java the results of `findAll`, `getTaskByIndex` and `createTask` hold the stored Task objects themselves. A later `completeTask` or `updateTask` therefore shows through an older `findAll` list or a task handed out earlier, and calling a setter on such a task changes the store. Here those results are values and keep the state they had when returned.
- `UUID.randomUUID()` is randomness. The new id is a parameter of `CreateTask`, `CreateTaskNamed`, `AddTask` and `AddTaskNamed`, with the precondition that no stored task has it.
- Task ids are non-null strings. The three-argument Java constructor also accepts a null id, and `findById` would then throw a NullPointerException while scanning past that task. This is not modelled.
- `equals` between a Task and an object of another class is not modelled: the other argument is a Task or null.
- `StringHashBits` hashes Dafny characters, which are Unicode scalar values. Java hashes UTF-16 code units, so ids with characters outside the Basic Multilingual Plane hash differently.
- Java `int` is 32-bit. Indices and counts here are unbounded integers, so the wrap-around of `index - 1` at `Integer.MIN_VALUE` is not modelled. The wrapped value is out of bounds anyway.
- `findAll` returns an unmodifiable copy of the list in Java. Here it returns a sequence value, which cannot be modified, so the `UnsupportedOperationException` on modification does not exist.
- `Task.toString`, the console presenter's formatting, the interactive menu in `Main`, and the object wiring in `ApplicationFactory` are I/O and wiring, not task logic.
