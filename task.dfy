/** The task record shown in each row of the list. */
module Tasks {
  import opened Json

  /** `struct Task`: four strings, always present. */
  datatype Task = Task(task: string, title: string, description: string, colorCode: string)

  /** The JSON keys `Task(json:)` reads, and the field each one fills. */
  function FieldOf(t: Task, key: string): string
  {
    match key
    case "task" => t.task
    case "title" => t.title
    case "description" => t.description
    case "colorCode" => t.colorCode
    case _ => ""
  }

  predicate IsTaskKey(key: string)
  {
    key == "task" || key == "title" || key == "description" || key == "colorCode"
  }

  /** `Task(json:)`: each field holds the `stringValue` under its own key. */
  function TaskFromJson(json: Json): (t: Task)
    ensures forall key :: IsTaskKey(key) ==> FieldOf(t, key) == StringValueAt(json, key)
  {
    Task(StringValueAt(json, "task"), StringValueAt(json, "title"),
         StringValueAt(json, "description"), StringValueAt(json, "colorCode"))
  }

  /** The JSON object a server would send for `t`. */
  function TaskToJson(t: Task): (json: Json)
    ensures json.Object? && json.fields.Keys == {"task", "title", "description", "colorCode"}
  {
    Object(map["task" := Str(t.task), "title" := Str(t.title),
               "description" := Str(t.description), "colorCode" := Str(t.colorCode)])
  }

  /** Each of the four fields is the string under its key, and "" when the key
      is missing, the value is not a string, or the document is not an object. */
  lemma TaskFieldFromJson(json: Json, key: string)
    requires IsTaskKey(key)
    ensures json.Object? && key in json.fields && json.fields[key].Str? ==>
              FieldOf(TaskFromJson(json), key) == json.fields[key].s
    ensures !(json.Object? && key in json.fields && json.fields[key].Str?) ==>
              FieldOf(TaskFromJson(json), key) == ""
  {
  }

  /** An object with none of the four keys gives the all-empty task. */
  lemma MissingKeysGiveEmptyTask(fields: map<string, Json>)
    requires forall key :: IsTaskKey(key) ==> key !in fields
    ensures TaskFromJson(Object(fields)) == Task("", "", "", "")
  {
    assert IsTaskKey("task") && IsTaskKey("title");
    assert IsTaskKey("description") && IsTaskKey("colorCode");
  }

  /** Reading a task back from its JSON object gives the task. */
  lemma TaskJsonRoundTrip(t: Task)
    ensures TaskFromJson(TaskToJson(t)) == t
  {
  }
}
