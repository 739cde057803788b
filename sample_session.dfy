/** An example session on a list of one task, titled "Paint wall": the task
    as the server sends it, the searches run on it, and two runs of the
    screen. */
module SampleSession {
  import opened Text
  import opened Json
  import opened Tasks
  import opened TaskFilter
  import opened HexColor
  import opened Screen

  /** The task as the server sends it. */
  const PaintWallJson := Object(map["title" := Str("Paint wall"), "description" := Str(""),
                                    "task" := Str("T1"), "colorCode" := Str("#fff")])

  /** The parsed task. */
  const PaintWall := Task("T1", "Paint wall", "", "#fff")

  lemma PaintWallParsed()
    ensures TaskFromJson(PaintWallJson) == PaintWall
  {
  }

  /** "#fff" is opaque white. */
  lemma PaintWallIsWhite()
    ensures Decode(PaintWall.colorCode) == Rgba(255, 255, 255, 255)
  {
    assert ShortHexString(15, 15, 15) == "#fff";
    DecodeShortHexString(15, 15, 15);
  }

  /** The example task's fields, lower-cased. */
  lemma PaintWallLowercased()
    ensures Lowercased(PaintWall.title) == "paint wall" && Lowercased(PaintWall.description) == ""
    ensures Lowercased(PaintWall.task) == "t1" && Lowercased(PaintWall.colorCode) == "#fff"
  {
  }

  /** "wall" occurs in the task's lower-cased title. */
  lemma WallMatchesPaintWall()
    ensures Matches(PaintWall, "wall")
  {
    PaintWallLowercased();
    var w := Lowercased("wall");
    assert w == "wall";
    var l := Lowercased(PaintWall.title);
    assert l[6..10] == w;
    ContainsAt(l, w, 6);
    MatchesByTitle(PaintWall, "wall");
  }

  /** "wall" finds the task. */
  lemma WallFindsPaintWall()
    ensures Filter([PaintWall], "wall") == [PaintWall]
  {
    WallMatchesPaintWall();
    FilterKeepsAllMatching([PaintWall], "wall");
  }

  /** "ZZZ" finds nothing: no lower-cased field holds a 'z'. */
  lemma ZzzFindsNothing()
    ensures Filter([PaintWall], "ZZZ") == []
  {
    var z := Lowercased("ZZZ");
    assert z == "zzz";
    PaintWallLowercased();
    forall key | IsTaskKey(key)
      ensures !Contains(Lowercased(FieldOf(PaintWall, key)), z)
    {
      assert 'z' !in Lowercased(FieldOf(PaintWall, key));
    }
    FilterNoneMatching([PaintWall], "ZZZ");
  }

  /** One session: a token, one task fetched, and searches for "wall" and
      "ZZZ", then the search text cleared and "ZZZ" scanned. */
  method PaintWallSession()
  {
    var next := LoginCompleted(Success(Object(map["token" := Str("abc")])));
    assert next == FetchTasks("abc");

    var screen := new ViewController();
    screen.FetchCompleted(Success(Array([PaintWallJson])));
    PaintWallParsed();
    assert screen.tasks == [PaintWall];
    assert screen.NumberOfRows() == 1;

    var cell := screen.CellForRowAt(0);
    PaintWallIsWhite();
    assert cell == Cell("Paint wall", "", Rgba(255, 255, 255, 255));

    WallFindsPaintWall();
    ZzzFindsNothing();
    screen.SearchTextDidChange("wall");
    assert screen.RowSource() == [PaintWall];
    screen.SearchTextDidChange("ZZZ");
    assert screen.RowSource() == [];
    screen.SearchTextDidChange("");
    assert screen.RowSource() == [PaintWall];

    screen.DidScanResultAsTyped("ZZZ");
    assert screen.RowSource() == [];
  }

  /** Scanning "ZZZ" outside search mode, as the handler is written: the
      filtered list is empty, yet the table still shows the one task. */
  method ScanOutsideSearchShowsAllTasks() returns (screen: ViewController)
    ensures !screen.isSearching && screen.tasks == [PaintWall]
    ensures screen.filteredTasks == Filter(screen.tasks, "ZZZ") == []
    ensures screen.RowSource() == [PaintWall]
  {
    screen := new ViewController();
    screen.ParseData(Array([PaintWallJson]));
    PaintWallParsed();
    ZzzFindsNothing();
    screen.DidScanResult("ZZZ");
  }
}
