/** The list screen: the task collections it holds, the handlers that
    replace them, the rows it shows, and the login step that starts a load. */
module Screen {
  import opened Json
  import opened Tasks
  import opened TaskFilter
  import opened HexColor

  /** How a network request completed: with a parsed JSON body, or with a
      transport or JSON-decoding failure. No status code is validated, so an
      HTTP error answer whose body is JSON is a `Success` with that body. */
  datatype Response = Success(body: Json) | Failure

  /** What happens after the login request: fetch the tasks with the bearer
      token, or dismiss the progress indicator and stop. */
  datatype AfterLogin = FetchTasks(token: string) | Stop

  /** The login completion handler: a fetch starts exactly when the login
      succeeded and its body holds a string under "token". */
  function LoginCompleted(response: Response): (next: AfterLogin)
    ensures next.FetchTasks? <==>
              response.Success? && response.body.Object? &&
              "token" in response.body.fields && response.body.fields["token"].Str?
    ensures next.FetchTasks? ==> next.token == response.body.fields["token"].s
  {
    match response
    case Failure => Stop
    case Success(body) =>
      match StringAt(body, "token")
      case Some(token) => FetchTasks(token)
      case None => Stop
  }

  /** What one table cell shows. */
  datatype Cell = Cell(text: string, detailText: string, backgroundColor: Rgba)

  class ViewController {
    var tasks: seq<Task>
    var filteredTasks: seq<Task>
    var isSearching: bool

    /** The screen starts with no tasks and not searching. */
    constructor ()
      ensures tasks == [] && filteredTasks == [] && !isSearching
    {
      tasks := [];
      filteredTasks := [];
      isSearching := false;
    }

    /** The sequence the table's rows are read from. */
    function RowSource(): (r: seq<Task>)
      reads this
      ensures isSearching ==> r == filteredTasks
      ensures !isSearching ==> r == tasks
    {
      if isSearching then filteredTasks else tasks
    }

    /** `tableView(_:numberOfRowsInSection:)`: the length of the row source. */
    function NumberOfRows(): (n: nat)
      reads this
      ensures n == |RowSource()|
      ensures isSearching ==> n == |filteredTasks|
      ensures !isSearching ==> n == |tasks|
    {
      if isSearching then |filteredTasks| else |tasks|
    }

    /** `tableView(_:cellForRowAt:)`: every row below the row count is in
        bounds of the sequence it is read from, and its cell shows that task's
        title, description and decoded colour. */
    method CellForRowAt(row: nat) returns (cell: Cell)
      requires row < NumberOfRows()
      ensures cell.text == RowSource()[row].title
      ensures cell.detailText == RowSource()[row].description
      ensures cell.backgroundColor == Decode(RowSource()[row].colorCode)
      ensures IsOpaqueByteColor(cell.backgroundColor)
    {
      var task := if isSearching then filteredTasks[row] else tasks[row];
      cell := Cell(task.title, task.description, Decode(task.colorCode));
    }

    /** `parseData(json:)`: `tasks` is rebuilt with one task per element of
        the array, in order; `filteredTasks` becomes a copy of it and the
        search mode is kept. */
    method ParseData(json: Json)
      modifies this
      ensures |tasks| == |Elements(json)|
      ensures forall i :: 0 <= i < |tasks| ==> tasks[i] == TaskFromJson(Elements(json)[i])
      ensures filteredTasks == tasks
      ensures isSearching == old(isSearching)
    {
      var items := Elements(json);
      tasks := [];
      var i := 0;
      while i < |items|
        invariant 0 <= i <= |items|
        invariant |tasks| == i
        invariant forall k :: 0 <= k < i ==> tasks[k] == TaskFromJson(items[k])
        invariant isSearching == old(isSearching)
      {
        tasks := tasks + [TaskFromJson(items[i])];
        i := i + 1;
      }
      filteredTasks := tasks;
    }

    /** The completion handler of the task fetch: a successful response is
        parsed; on failure the previous lists stay as they were. */
    method FetchCompleted(response: Response)
      modifies this
      ensures response.Success? ==>
                |tasks| == |Elements(response.body)| &&
                (forall i :: 0 <= i < |tasks| ==> tasks[i] == TaskFromJson(Elements(response.body)[i])) &&
                filteredTasks == tasks
      ensures response.Failure? ==> tasks == old(tasks) && filteredTasks == old(filteredTasks)
      ensures isSearching == old(isSearching)
    {
      match response
      case Success(body) => ParseData(body);
      case Failure =>
    }

    /** `filterContentForSearchText(_:)`: `filteredTasks` becomes the tasks
        matching the text, in order; nothing else changes. */
    method FilterContentForSearchText(searchText: string)
      modifies this`filteredTasks
      ensures filteredTasks == Filter(tasks, searchText)
    {
      filteredTasks := Filter(tasks, searchText);
    }

    /** `searchBar(_:textDidChange:)`: clearing the text leaves search mode
        and shows the full list again, untouched; any other text enters
        search mode and shows the tasks matching it. */
    method SearchTextDidChange(searchText: string)
      modifies this`isSearching, this`filteredTasks
      ensures isSearching == (searchText != [])
      ensures searchText == [] ==> filteredTasks == old(filteredTasks) && RowSource() == tasks
      ensures searchText != [] ==> filteredTasks == Filter(tasks, searchText)
      ensures searchText != [] ==> RowSource() == Filter(tasks, searchText)
    {
      if searchText == [] {
        isSearching := false;
      } else {
        isSearching := true;
        FilterContentForSearchText(searchText);
      }
    }

    /** `reader(_:didScanResult:)`: the scanned value filters the list but the
        search mode is left as it was, so outside search mode the rows still
        come from the full list. */
    method DidScanResult(value: string)
      modifies this`filteredTasks
      ensures filteredTasks == Filter(tasks, value)
      ensures RowSource() == if isSearching then Filter(tasks, value) else tasks
    {
      FilterContentForSearchText(value);
    }

    /** The scan handler as the search bar it writes to implies: a scanned
        value is treated exactly like typed text, so a non-empty value is
        always what the rows show. */
    method DidScanResultAsTyped(value: string)
      modifies this`isSearching, this`filteredTasks
      ensures value != [] ==> isSearching && RowSource() == Filter(tasks, value)
      ensures value == [] ==> !isSearching && RowSource() == tasks
    {
      SearchTextDidChange(value);
    }
  }

  /** A login answer without a token never leads to a fetch, so the screen
      keeps its empty list. */
  lemma MissingTokenStops(fields: map<string, Json>)
    requires "token" !in fields
    ensures LoginCompleted(Success(Object(fields))) == Stop
  {
  }
}
