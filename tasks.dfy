/** The Task entity: an opaque id, a validated name, a description that is never null,
    and a completion flag. Java mutates a Task object in place through its setters;
    here a Task is a value and each setter returns the updated value. */
module Tasks {
  import opened Wrappers
  import opened JavaStrings

  datatype Task = Task(id: string, name: string, description: string, completed: bool)

  /** The message of the IllegalArgumentException thrown by name validation. */
  const NameError: string := "Task name cannot be null or empty"

  /** A name is acceptable when it is not null and holds at least one non-blank character. */
  predicate ValidName(name: Option<string>) {
    name.Some? && exists i :: 0 <= i < |name.value| && !IsBlank(name.value[i])
  }

  /** The name a task may hold: non-empty and already trimmed. */
  predicate WellFormed(t: Task) {
    t.name != [] && IsTrimmed(t.name)
  }

  /** validateName: rejects null and blank names, otherwise yields the trimmed name. */
  function ValidateName(name: Option<string>): (r: Result<string>)
    ensures r.Ok? <==> ValidName(name)
    ensures r.Ok? ==> r.value == Trim(name.value) && r.value != [] && IsTrimmed(r.value)
    ensures r.Err? ==> r.message == NameError
  {
    if name.None? || Trim(name.value) == [] then Err(NameError) else Ok(Trim(name.value))
  }

  /** A name that passed validation passes again unchanged. */
  lemma {:induction false} ValidateNameIdempotent(name: Option<string>)
    requires ValidateName(name).Ok?
    ensures ValidateName(Some(ValidateName(name).value)) == ValidateName(name)
  {
    TrimIdempotent(name.value);
  }

  /** A non-empty trimmed name is valid and is stored as it is. */
  lemma TrimmedNameIsValid(name: string)
    requires name != [] && IsTrimmed(name)
    ensures ValidName(Some(name)) && Trim(name) == name
  {
  }

  /** The null-coalescing rule for descriptions: null becomes the empty string. */
  function NormalizeDescription(description: Option<string>): (r: string)
    ensures description.Some? ==> r == description.value
    ensures description.None? ==> r == ""
  {
    match description
    case Some(d) => d
    case None => ""
  }

  /** Both Java constructors. The one that draws a random UUID is this one applied to
      the id that was drawn; the other one stores the given id verbatim. */
  function NewTask(id: string, name: Option<string>, description: Option<string>): (r: Result<Task>)
    ensures r.Ok? <==> ValidName(name)
    ensures r.Err? ==> r.message == NameError
    ensures r.Ok? ==> && r.value.id == id
                      && r.value.name == Trim(name.value)
                      && r.value.description == NormalizeDescription(description)
                      && !r.value.completed
                      && WellFormed(r.value)
  {
    match ValidateName(name)
    case Err(msg) => Err(msg)
    case Ok(n) => Ok(Task(id, n, NormalizeDescription(description), false))
  }

  /** setName: fails with the validation message, or replaces only the name by its trim. */
  function SetName(t: Task, name: Option<string>): (r: Result<Task>)
    ensures r.Ok? <==> ValidName(name)
    ensures r.Err? ==> r.message == NameError
    ensures r.Ok? ==> && r.value.name == Trim(name.value)
                      && WellFormed(r.value)
                      && r.value.id == t.id
                      && r.value.description == t.description
                      && r.value.completed == t.completed
  {
    match ValidateName(name)
    case Err(msg) => Err(msg)
    case Ok(n) => Ok(t.(name := n))
  }

  /** setDescription: replaces only the description; null becomes "". */
  function SetDescription(t: Task, description: Option<string>): (r: Task)
    ensures description.Some? ==> r.description == description.value
    ensures description.None? ==> r.description == ""
    ensures r.id == t.id && r.name == t.name && r.completed == t.completed
  {
    t.(description := NormalizeDescription(description))
  }

  /** setCompleted: sets the flag to the argument, in either direction. */
  function SetCompleted(t: Task, completed: bool): (r: Task)
    ensures r.completed == completed
    ensures r.id == t.id && r.name == t.name && r.description == t.description
  {
    t.(completed := completed)
  }

  /** markAsCompleted: the flag becomes true and nothing else changes. */
  function MarkAsCompleted(t: Task): (r: Task)
    ensures r.completed
    ensures r.id == t.id && r.name == t.name && r.description == t.description
  {
    t.(completed := true)
  }

  /** Completing twice is completing once, and undoing it needs setCompleted(false). */
  lemma MarkAsCompletedIdempotent(t: Task)
    ensures MarkAsCompleted(MarkAsCompleted(t)) == MarkAsCompleted(t)
    ensures SetCompleted(MarkAsCompleted(t), false) == SetCompleted(t, false)
  {
  }

  /** No operation changes the id, and none can leave a task with an invalid name. */
  lemma {:induction false} OperationsPreserveIdentity(t: Task, name: Option<string>, description: Option<string>, b: bool)
    requires WellFormed(t)
    ensures SetName(t, name).Ok? ==> SetName(t, name).value.id == t.id && WellFormed(SetName(t, name).value)
    ensures SetDescription(t, description).id == t.id && WellFormed(SetDescription(t, description))
    ensures SetCompleted(t, b).id == t.id && WellFormed(SetCompleted(t, b))
    ensures MarkAsCompleted(t).id == t.id && WellFormed(MarkAsCompleted(t))
  {
  }

  /** equals: a non-null Task is equal to this one exactly when the ids are equal. */
  predicate Equals(t: Task, other: Option<Task>)
    ensures other == Some(t) ==> Equals(t, other)
    ensures other.None? ==> !Equals(t, other)
    ensures Equals(t, other) ==> HashCode(t) == HashCode(other.value)
  {
    other.Some? && other.value.id == t.id
  }

  /** hashCode: Objects.hash(id), that is 31 + id.hashCode() in 32-bit arithmetic. */
  function HashCode(t: Task): (h: int)
    ensures -TwoTo31 <= h < TwoTo31
  {
    ToInt32((31 + StringHashBits(t.id)) % TwoTo32)
  }

  /** Equality and hashing look at the id alone: name, description and completion
      never matter, and equal tasks hash equally. */
  lemma EqualityIsById(a: Task, b: Task)
    ensures Equals(a, Some(b)) <==> a.id == b.id
    ensures !Equals(a, None)
    ensures Equals(a, Some(b)) ==> HashCode(a) == HashCode(b)
    ensures Equals(a, Some(b)) == Equals(b, Some(a))
  {
  }
}
