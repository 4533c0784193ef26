/**
 * The task schemas (src/infra/schemas/task.ts): what a request body or path
 * must look like, the data the service receives once zod has parsed it
 * (unknown keys dropped), and what a client is shown of a task.
 */
module TaskSchemas {
  import opened Wrappers
  import opened Json
  import JsString
  import Db

  const CreateTitleMin: nat := 3
  const UpdateTitleMin: nat := 1

  /** The parsed body of `createTaskSchema`. */
  datatype CreateTaskData = CreateTaskData(title: string)

  /** The parsed body of `updateTaskSchema`: `None` where the key was absent. */
  datatype UpdateTaskData = UpdateTaskData(title: Option<string>, completed: Option<bool>)

  /** `createTaskSchema.parse(body)`. */
  function ParseCreateTask(body: Value): (r: Option<CreateTaskData>)
    ensures r.Some? <==> body.Obj? && "title" in body.fields && IsStringMin(body.fields["title"], CreateTitleMin)
    ensures r.Some? ==> r.value.title == body.fields["title"].s
  {
    if body.Obj? && "title" in body.fields && IsStringMin(body.fields["title"], CreateTitleMin)
    then Some(CreateTaskData(body.fields["title"].s))
    else None
  }

  predicate ValidUpdateTitle(v: Value) { IsStringMin(v, UpdateTitleMin) }

  predicate ValidCompleted(v: Value) { v.Bool? }

  /** `updateTaskSchema.parse(body)`: both keys optional. */
  function ParseUpdateTask(body: Value): (r: Option<UpdateTaskData>)
    ensures r.Some? <==> body.Obj? && OptionalField(body.fields, "title", ValidUpdateTitle)
                                   && OptionalField(body.fields, "completed", ValidCompleted)
    ensures r.Some? ==> && (r.value.title.Some? <==> "title" in body.fields)
                        && (r.value.title.Some? ==> Str(r.value.title.value) == body.fields["title"])
                        && (r.value.completed.Some? <==> "completed" in body.fields)
                        && (r.value.completed.Some? ==> Bool(r.value.completed.value) == body.fields["completed"])
  {
    if body.Obj? && OptionalField(body.fields, "title", ValidUpdateTitle)
                 && OptionalField(body.fields, "completed", ValidCompleted)
    then
      Some(UpdateTaskData(
        if "title" in body.fields then Some(body.fields["title"].s) else None,
        if "completed" in body.fields then Some(body.fields["completed"].b) else None))
    else None
  }

  /** `taskParamsSchema.parse(params)`: the path carries a string id. */
  function ParseTaskParams(params: Value): (r: Option<Db.Id>)
    ensures r.Some? <==> params.Obj? && "id" in params.fields && params.fields["id"].Str?
    ensures r.Some? ==> r.value == params.fields["id"].s
  {
    if params.Obj? && "id" in params.fields && params.fields["id"].Str?
    then Some(params.fields["id"].s)
    else None
  }

  /** The path `/tasks/:id` carries any string id, the empty one included, and it parses back to itself. */
  lemma TaskParamsRoundTrip(id: Db.Id)
    ensures ParseTaskParams(Obj(map["id" := Str(id)])) == Some(id)
  {
  }

  /** A body a client sends to create a task. */
  function CreateBody(d: CreateTaskData): Value
  {
    Obj(map["title" := Str(d.title)])
  }

  /** A body a client sends to update a task, carrying only the fields it sets. */
  function UpdateBody(d: UpdateTaskData): Value
  {
    var withTitle := if d.title.Some? then map["title" := Str(d.title.value)] else map[];
    Obj(if d.completed.Some? then withTitle["completed" := Bool(d.completed.value)] else withTitle)
  }

  /** A create body is accepted exactly when its title has at least three UTF-16 code units, and parses back to itself. */
  lemma CreateBodyRoundTrip(d: CreateTaskData)
    ensures ParseCreateTask(CreateBody(d)) == (if JsString.Utf16Length(d.title) >= CreateTitleMin then Some(d) else None)
  {
  }

  /** An update body is accepted exactly when a title it carries is non-empty, and parses back to itself. */
  lemma UpdateBodyRoundTrip(d: UpdateTaskData)
    ensures ParseUpdateTask(UpdateBody(d))
            == (if d.title.None? || JsString.Utf16Length(d.title.value) >= UpdateTitleMin then Some(d) else None)
  {
  }

  /** An update body with neither key is accepted and changes nothing. */
  lemma EmptyUpdateAccepted()
    ensures ParseUpdateTask(Obj(map[])) == Some(UpdateTaskData(None, None))
  {
  }

  /** An update body whose title is the empty string is rejected. */
  lemma EmptyUpdateTitleRejected(body: Value)
    requires body.Obj? && "title" in body.fields && body.fields["title"] == Str("")
    ensures ParseUpdateTask(body) == None
  {
  }

  /** The record the database returns for a task. */
  function TaskRecord(t: Db.Task): Value
  {
    Obj(map["id" := Str(t.id), "title" := Str(t.title), "completed" := Bool(t.completed),
            "userId" := Str(t.userId), "createdAt" := Num(t.createdAt)])
  }

  /** `getTaskSchema`: what a client is shown of a task. */
  function TaskView(t: Db.Task): (v: Value)
    ensures v.Obj? && v.fields.Keys == {"id", "title", "completed"}
    ensures v.fields["id"] == Str(t.id) && v.fields["title"] == Str(t.title) && v.fields["completed"] == Bool(t.completed)
  {
    Obj(map["id" := Str(t.id), "title" := Str(t.title), "completed" := Bool(t.completed)])
  }

  /** `getTaskSchema` as the serializer applies it: check the three keys and keep only them. */
  function SerializeTask(v: Value): (r: Option<Value>)
    ensures r.Some? <==> v.Obj? && "id" in v.fields && v.fields["id"].Str?
                                && "title" in v.fields && v.fields["title"].Str?
                                && "completed" in v.fields && v.fields["completed"].Bool?
    ensures r.Some? ==> && r.value.Obj? && r.value.fields.Keys == {"id", "title", "completed"}
                        && r.value.fields["id"] == v.fields["id"]
                        && r.value.fields["title"] == v.fields["title"]
                        && r.value.fields["completed"] == v.fields["completed"]
  {
    if v.Obj? && "id" in v.fields && v.fields["id"].Str?
              && "title" in v.fields && v.fields["title"].Str?
              && "completed" in v.fields && v.fields["completed"].Bool?
    then Some(Obj(map["id" := v.fields["id"], "title" := v.fields["title"], "completed" := v.fields["completed"]]))
    else None
  }

  /** Serializing a task record yields its view: the owner and the creation time are not sent. */
  lemma SerializedRecordIsView(t: Db.Task)
    ensures SerializeTask(TaskRecord(t)) == Some(TaskView(t))
    ensures forall owner, time :: TaskView(t.(userId := owner, createdAt := time)) == TaskView(t)
  {
  }

  /** `getTasksResponseSchema`: `{tasks: [view, ...]}`. */
  function TasksResponse(ts: seq<Db.Task>): (v: Value)
    ensures v.Obj? && v.fields.Keys == {"tasks"} && v.fields["tasks"].Arr?
    ensures |v.fields["tasks"].items| == |ts|
    ensures forall i :: 0 <= i < |ts| ==> v.fields["tasks"].items[i] == TaskView(ts[i])
  {
    Obj(map["tasks" := Arr(seq(|ts|, i requires 0 <= i < |ts| => TaskView(ts[i])))])
  }
}
