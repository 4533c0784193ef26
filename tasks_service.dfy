/**
 * `TasksService` (src/infra/modules/tasks/tasks.service.ts): task CRUD for
 * one owner. Every read is filtered by the owner, and update and delete
 * first look the task up the same way, so no owner can see or change a task
 * of another.
 */
module Tasks {
  import opened Wrappers
  import opened Db
  import opened TaskSchemas

  const TaskNotFoundMessage := "Task not found"

  datatype TaskError =
    | TaskNotFound                      // thrown as TaskNotFoundMessage
    | StoreFailure(cause: StoreError)   // thrown by the database

  /** The message of the error the service throws itself; database errors carry their own. */
  function ErrorMessage(e: TaskError): (m: Option<string>)
    ensures m.Some? <==> e == TaskNotFound
    ensures e == TaskNotFound ==> m == Some("Task not found")
  {
    if e == TaskNotFound then Some(TaskNotFoundMessage) else None
  }

  /** The task with this id exists and belongs to `owner`. */
  predicate Owns(tasks: map<Id, Task>, owner: Id, id: Id)
  {
    id in tasks && tasks[id].userId == owner
  }

  /** The part of the table that belongs to `owner`. */
  function OwnedBy(tasks: map<Id, Task>, owner: Id): (r: map<Id, Task>)
    ensures forall k :: k in r <==> Owns(tasks, owner, k)
    ensures forall k :: k in r ==> k in tasks && r[k] == tasks[k]
  {
    map k | k in tasks && tasks[k].userId == owner :: tasks[k]
  }

  /** The task `createTask` inserts: the data, not completed, owned by `owner`. */
  function NewTask(owner: Id, data: CreateTaskData, id: Id, now: int): Task
  {
    Task(id, data.title, false, owner, now)
  }

  /** A task with the supplied fields of an update replaced. */
  function Patch(t: Task, data: UpdateTaskData): (r: Task)
    ensures r.id == t.id && r.userId == t.userId && r.createdAt == t.createdAt
    ensures r.title == (if data.title.Some? then data.title.value else t.title)
    ensures r.completed == (if data.completed.Some? then data.completed.value else t.completed)
  {
    var title := if data.title.Some? then data.title.value else t.title;
    var completed := if data.completed.Some? then data.completed.value else t.completed;
    t.(title := title, completed := completed)
  }

  /** The operations that change the table, each performed by some owner. */
  datatype Op =
    | Create(fields: CreateTaskData, id: Id, now: int)
    | Update(id: Id, changes: UpdateTaskData)
    | Delete(id: Id)

  /** The table after `owner` performs `op`. */
  function Apply(tasks: map<Id, Task>, owner: Id, op: Op): (r: map<Id, Task>)
    ensures forall k :: k in tasks && k !in r ==> Owns(tasks, owner, k)
    ensures forall k :: k in r && k !in tasks ==> r[k].userId == owner && r[k].completed == false
    ensures forall k :: k in tasks && k in r && r[k] != tasks[k] ==> Owns(tasks, owner, k) && r[k].userId == owner
  {
    match op
    case Create(data, id, now) => if id in tasks then tasks else tasks[id := NewTask(owner, data, id, now)]
    case Update(id, data) => if Owns(tasks, owner, id) then tasks[id := Patch(tasks[id], data)] else tasks
    case Delete(id) => if Owns(tasks, owner, id) then tasks - {id} else tasks
  }

  /** The table after a sequence of operations, each by its own owner. */
  function Run(tasks: map<Id, Task>, steps: seq<(Id, Op)>): map<Id, Task>
    decreases |steps|
  {
    if steps == [] then tasks else Run(Apply(tasks, steps[0].0, steps[0].1), steps[1..])
  }

  /** Operations keep every task filed under its own id. */
  lemma ApplyKeepsWellFormed(tasks: map<Id, Task>, owner: Id, op: Op)
    requires TasksWellFormed(tasks)
    ensures TasksWellFormed(Apply(tasks, owner, op))
  {
  }

  /** An update touches at most the one task, and only when `owner` owns it. */
  lemma UpdateFrame(tasks: map<Id, Task>, owner: Id, id: Id, data: UpdateTaskData)
    ensures var after := Apply(tasks, owner, Update(id, data));
            && after.Keys == tasks.Keys
            && (forall k :: k in tasks && k != id ==> after[k] == tasks[k])
            && (Owns(tasks, owner, id) ==> after[id] == Patch(tasks[id], data))
            && (!Owns(tasks, owner, id) ==> after == tasks)
  {
  }

  /** A delete removes exactly the one task when `owner` owns it, and nothing otherwise. */
  lemma DeleteFrame(tasks: map<Id, Task>, owner: Id, id: Id)
    ensures var after := Apply(tasks, owner, Delete(id));
            && after.Keys == (if Owns(tasks, owner, id) then tasks.Keys - {id} else tasks.Keys)
            && (forall k :: k in after ==> after[k] == tasks[k])
  {
  }

  /** One owner's operation leaves every other owner's tasks exactly as they were. */
  lemma ApplyKeepsOthers(tasks: map<Id, Task>, actor: Id, op: Op, other: Id)
    requires actor != other
    ensures OwnedBy(Apply(tasks, actor, op), other) == OwnedBy(tasks, other)
  {
  }

  /** No sequence of operations by other owners changes what `owner` has. */
  lemma {:induction false} OthersCannotTouch(tasks: map<Id, Task>, steps: seq<(Id, Op)>, owner: Id)
    requires forall i :: 0 <= i < |steps| ==> steps[i].0 != owner
    ensures OwnedBy(Run(tasks, steps), owner) == OwnedBy(tasks, owner)
    decreases |steps|
  {
    if steps != [] {
      ApplyKeepsOthers(tasks, steps[0].0, steps[0].1, owner);
      OthersCannotTouch(Apply(tasks, steps[0].0, steps[0].1), steps[1..], owner);
      assert OwnedBy(Run(Apply(tasks, steps[0].0, steps[0].1), steps[1..]), owner)
          == OwnedBy(Apply(tasks, steps[0].0, steps[0].1), owner);
    }
  }

  class TasksService {
    const userId: Id
    const tasks: TaskTable

    constructor (userId: Id, tasks: TaskTable)
      ensures this.userId == userId && this.tasks == tasks
    {
      this.userId := userId;
      this.tasks := tasks;
    }

    /** `getTask(id)`: the task only if both its id and its owner match. */
    method GetTask(id: Id) returns (r: Option<Task>)
      ensures r.Some? <==> Owns(tasks.byId, userId, id)
      ensures r.Some? ==> r.value == tasks.byId[id]
    {
      if id in tasks.byId && tasks.byId[id].userId == userId {
        r := Some(tasks.byId[id]);
      } else {
        r := None;
      }
    }

    /** `getTasks()`: exactly the tasks of this owner. */
    method GetTasks() returns (r: set<Task>)
      requires tasks.Valid()
      ensures forall t :: t in r <==> t.id in tasks.byId && tasks.byId[t.id] == t && t.userId == userId
    {
      r := set k | k in tasks.byId && tasks.byId[k].userId == userId :: tasks.byId[k];
    }

    /** `createTask(data)`: inserts one task owned by this owner. */
    method CreateTask(data: CreateTaskData, id: Id, now: int) returns (r: Result<Task, TaskError>)
      requires tasks.Valid()
      modifies tasks
      ensures tasks.Valid()
      ensures r == (if id in old(tasks.byId) then Failure(StoreFailure(UniqueConstraintFailed))
                    else Success(NewTask(userId, data, id, now)))
      ensures tasks.byId == Apply(old(tasks.byId), userId, Create(data, id, now))
      ensures forall o :: o != userId ==> OwnedBy(tasks.byId, o) == OwnedBy(old(tasks.byId), o)
    {
      if id in tasks.byId {
        return Failure(StoreFailure(UniqueConstraintFailed));
      }
      var task := NewTask(userId, data, id, now);
      tasks.byId := tasks.byId[id := task];
      r := Success(task);
      forall o | o != userId
        ensures OwnedBy(tasks.byId, o) == OwnedBy(old(tasks.byId), o)
      {
        ApplyKeepsOthers(old(tasks.byId), userId, Create(data, id, now), o);
      }
    }

    /** `updateTask(id, data)`: fails with "Task not found" unless this owner owns the task. */
    method UpdateTask(id: Id, data: UpdateTaskData) returns (r: Result<Task, TaskError>)
      requires tasks.Valid()
      modifies tasks
      ensures tasks.Valid()
      ensures r == (if Owns(old(tasks.byId), userId, id) then Success(Patch(old(tasks.byId)[id], data))
                    else Failure(TaskNotFound))
      ensures tasks.byId == Apply(old(tasks.byId), userId, Update(id, data))
      ensures forall o :: o != userId ==> OwnedBy(tasks.byId, o) == OwnedBy(old(tasks.byId), o)
    {
      var task := GetTask(id);
      if task.None? {
        return Failure(TaskNotFound);
      }
      var updated := Patch(tasks.byId[id], data);
      tasks.byId := tasks.byId[id := updated];
      r := Success(updated);
      forall o | o != userId
        ensures OwnedBy(tasks.byId, o) == OwnedBy(old(tasks.byId), o)
      {
        ApplyKeepsOthers(old(tasks.byId), userId, Update(id, data), o);
      }
    }

    /** `deleteTask(id)`: fails with "Task not found" unless this owner owns the task. */
    method DeleteTask(id: Id) returns (r: Outcome<TaskError>)
      requires tasks.Valid()
      modifies tasks
      ensures tasks.Valid()
      ensures r == (if Owns(old(tasks.byId), userId, id) then Pass else Fail(TaskNotFound))
      ensures tasks.byId == Apply(old(tasks.byId), userId, Delete(id))
      ensures forall o :: o != userId ==> OwnedBy(tasks.byId, o) == OwnedBy(old(tasks.byId), o)
    {
      var task := GetTask(id);
      if task.None? {
        return Fail(TaskNotFound);
      }
      tasks.byId := tasks.byId - {id};
      r := Pass;
      forall o | o != userId
        ensures OwnedBy(tasks.byId, o) == OwnedBy(old(tasks.byId), o)
      {
        ApplyKeepsOthers(old(tasks.byId), userId, Delete(id), o);
      }
    }
  }
}
