/** The presenter the facade reports to. Rendering is not modelled: the presenter keeps
    the log of the calls it received, one event per call. */
module Presentation {
  import opened Tasks

  datatype Event =
    | TaskShown(task: Task, index: int)
    | TasksShown(tasks: seq<Task>)
    | Success(message: string)
    | Error(message: string)
    | Info(message: string)

  class Presenter {
    var events: seq<Event>

    constructor ()
      ensures events == []
    {
      events := [];
    }

    method DisplayTask(task: Task, index: int)
      modifies this
      ensures events == old(events) + [TaskShown(task, index)]
    {
      events := events + [TaskShown(task, index)];
    }

    method DisplayTasks(tasks: seq<Task>)
      modifies this
      ensures events == old(events) + [TasksShown(tasks)]
    {
      events := events + [TasksShown(tasks)];
    }

    method DisplaySuccess(message: string)
      modifies this
      ensures events == old(events) + [Success(message)]
    {
      events := events + [Success(message)];
    }

    method DisplayError(message: string)
      modifies this
      ensures events == old(events) + [Error(message)]
    {
      events := events + [Error(message)];
    }

    method DisplayInfo(message: string)
      modifies this
      ensures events == old(events) + [Info(message)]
    {
      events := events + [Info(message)];
    }
  }
}
