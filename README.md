# Task list screen: a Dafny model

This project models the logic inside the single-screen iOS task list. The screen logs in to a REST service and fetches a JSON array of tasks. It keeps the tasks in two collections, `tasks` and `filteredTasks`, and shows one of them in a table. The user can narrow the list by typing in a search bar or by scanning a QR code whose payload becomes the query. Each row's background colour comes from the task's hex colour code.

The model is split by component:

- `text.dfy` (`Text`): lower-casing (`Lowercased`) and substring search (`Contains`). `ContainsIff` proves `Contains` equal to "occurs at some position".
- `json.dfy` (`Json`): the parts of a SwiftyJSON value the screen reads, namely `json[key].string`, `json[key].stringValue` and array iteration.
- `task.dfy` (`Tasks`): the `Task` record and `Task(json:)`.
- `filter.dfy` (`TaskFilter`):
  - `Select` is Swift's `Array.filter` with its closure as a parameter.
  - `Matches` is the closure from `filterContentForSearchText`.
  - `Filter` is the two combined.
- `hex_color.dfy` (`HexColor`): the integer part of `UIColor(hexString:)`. It trims, scans a hex prefix, and takes the 12-bit, 24-bit or fallback branch. Two encoders (`LongHexString`, `ShortHexString`) are its inverse in the round-trip lemmas.
- `view_controller.dfy` (`Screen`):
  - the `ViewController` class, with the fields `tasks`, `filteredTasks` and `isSearching`, and its data-source and event-handler methods;
  - the login completion step.
- `sample_session.dfy` (`SampleSession`): an example on a one-task list. It parses the task, runs the searches for "wall" and "ZZZ", plays a whole session on the screen, and gives the counterexample for the finding below.

Table reloads, the progress indicator and the main-queue hop do nothing in the model.

Points about the code that a reader might not expect:

- `trimmingCharacters(in:)` cuts non-alphanumeric characters off the two ends only. A `#` in the middle stays and stops the hex scan (`Trim`).
- For other characters, the scanner reads the longest hex-digit prefix and ignores the rest. So a trimmed three-character `"1zz"` scans as 1 and gives blue 17. Only a trimmed string that does not start with a hex digit always decodes to black (`DecodeNoLeadingDigit`).
- The decoder ignores case: `"#FFF"` and `"#fff"` give the same colour (`DecodeIgnoresCase`).
- Requests are not validated, so an HTTP error answer whose body is JSON still reaches `parseData` as a success.
- The QR handler filters but does not enter search mode (see Findings).

## Model

| member | source | states |
|---|---|---|
| Text.Lower | Project.swift:101-104 | an upper-case letter becomes the same letter in lower case, every other character is kept, and no upper-case letter is produced |
| Text.Lowercased | Project.swift:101-104 | `lowercased()` keeps the length, lowers each character, and leaves no upper-case letter |
| Text.LowercasedIdempotent | Project.swift:101-104 | lower-casing an already lower-cased string changes nothing |
| Text.Contains | Project.swift:101-104 | `contains`: the empty needle is contained everywhere; a contained needle is no longer than the text and its first character occurs in the text |
| Text.ContainsIff | Project.swift:101-104 | `contains` holds exactly when the needle occurs at some position of the text |
| Text.ContainsAt | Project.swift:101-104 | a needle found at some position is contained |
| Json.StringAt | Project.swift:49 | `.string` gives a value exactly when the document is an object holding a string under the key, and that value is the string |
| Json.StringValueAt | Project.swift:172-175 | `.stringValue` is the string under the key, and "" when there is none |
| Json.Elements | Project.swift:87 | iterating an array visits its items in order; any other document yields nothing |
| Tasks.TaskFromJson | Project.swift:171-176 | `init(json:)`: the field under each of the four task keys holds the `stringValue` of that key |
| Tasks.TaskFieldFromJson | Project.swift:171-176 | each field is the string under its key, and "" when the key is missing, the value is not a string, or the document is not an object |
| Tasks.MissingKeysGiveEmptyTask | Project.swift:171-176 | an object with none of the four keys gives the all-empty task |
| Tasks.TaskJsonRoundTrip | Project.swift:165-176 | reading a task from the JSON object written for it gives the same task |
| TaskFilter.Select | Project.swift:100-105 | `filter` keeps no more elements than it is given, and every kept element satisfies the closure |
| TaskFilter.KeptPositions | Project.swift:100-105 | the positions the closure accepts, in ascending order, are exactly the accepted ones |
| TaskFilter.SelectKeepsPositions | Project.swift:100-105 | the k-th kept element is the element at the k-th accepted position, so the result is an order-preserving subsequence |
| TaskFilter.SelectMembership | Project.swift:100-105 | an element is kept iff it is in the input and the closure accepts it |
| TaskFilter.SelectConcat | Project.swift:100-105 | filtering a concatenation is the concatenation of the filtered parts |
| TaskFilter.SelectIdempotent | Project.swift:100-105 | filtering a filtered sequence again with the same closure changes nothing |
| TaskFilter.SelectAgreeing | Project.swift:100-105 | closures that agree on every element keep the same elements |
| TaskFilter.SelectAll | Project.swift:100-105 | when every element is accepted, the whole input is kept in order |
| TaskFilter.SelectNone | Project.swift:100-105 | when no element is accepted, nothing is kept |
| TaskFilter.Matches | Project.swift:100-105 | the closure accepts a task exactly when, for one of the four task keys, the lower-cased query is contained in the lower-cased field under that key |
| TaskFilter.MatchesByTitle | Project.swift:101 | a query contained in the lower-cased title is a match |
| TaskFilter.Filter | Project.swift:99-105 | the filtered list has no more tasks than the full list, and every task in it matches the query in some field, ignoring case |
| TaskFilter.FilterMembership | Project.swift:100-105 | a task is in the filtered list iff it is in the list and the lower-cased query occurs in its lower-cased title, description, task or colour code |
| TaskFilter.FilterIgnoresQueryCase | Project.swift:100-105 | two queries that lower-case to the same string select the same tasks |
| TaskFilter.FilterIdempotent | Project.swift:99-105 | filtering the filtered list again with the same query changes nothing |
| TaskFilter.FilterKeepsAllMatching | Project.swift:99-105 | when every task matches, the filtered list is the full list |
| TaskFilter.FilterNoneMatching | Project.swift:99-105 | when no task matches, the filtered list is empty |
| HexColor.IsAlphanumeric | Project.swift:181 | a character is alphanumeric exactly when it is a digit or lower-cases to a letter; every hex digit is alphanumeric |
| HexColor.LeadingCount | Project.swift:181 | the counted front characters are all non-alphanumeric and the next one is alphanumeric |
| HexColor.TrailingCount | Project.swift:181 | the counted back characters are all non-alphanumeric and the one before them is alphanumeric |
| HexColor.Trim | Project.swift:181 | the trimmed string is the slice of the input after the leading non-alphanumerics, everything after it is non-alphanumeric, and it starts and ends with an alphanumeric |
| HexColor.TrimMarked | Project.swift:181 | a marker such as `#` in front of alphanumerics is trimmed away and nothing else is |
| HexColor.DigitValue | Project.swift:183 | a hex digit of either case has a value below 16 |
| HexColor.DigitValueIgnoresCase | Project.swift:181-183 | lower-casing a character changes neither whether it is alphanumeric, nor whether it is a hex digit, nor its digit value |
| HexColor.HexDigit | Project.swift:183 | the digit written for a value below 16 is a hex digit that scans back to that value |
| HexColor.HexValue | Project.swift:183 | a string of n hex digits spells a number below 16^n |
| HexColor.DigitPrefixLength | Project.swift:183 | the longest hex-digit prefix: all of its characters are hex digits and the next one is not |
| HexColor.ScanHex | Project.swift:182-183 | the scanned integer is below 16 to the power of the length of the hex-digit prefix |
| HexColor.ScanHexAllDigits | Project.swift:183 | a string made only of hex digits is scanned whole |
| HexColor.HexValueThree | Project.swift:183 | three hex digits spell d0 * 256 + d1 * 16 + d2 |
| HexColor.HexValueSix | Project.swift:183 | six hex digits spell the three bytes their digit pairs spell |
| HexColor.TwelveBit | Project.swift:188 | the 12-bit branch is opaque, and a value below 4096 gives components in 0..255 |
| HexColor.TwentyFourBit | Project.swift:190 | the 24-bit branch is opaque, and a value below 2^24 gives components in 0..255 |
| HexColor.TwelveBitNibbles | Project.swift:187-188 | the 12-bit branch's shifts and masks recover the three nibbles, each times 17 |
| HexColor.TwentyFourBitBytes | Project.swift:189-190 | the 24-bit branch's shifts and masks recover the three bytes |
| HexColor.Decode | Project.swift:180-193 | alpha is always 255; every component is in 0..255; a trimmed length other than 3 or 6 gives (255, 0, 0, 0) |
| HexColor.DecodeTwelveBit | Project.swift:181-188 | three trimmed hex digits give r, g, b = digit * 17 |
| HexColor.DecodeTwentyFourBit | Project.swift:181-190 | six trimmed hex digits give r, g, b as the three bytes they spell |
| HexColor.DecodeNoLeadingDigit | Project.swift:181-193 | a trimmed string that does not start with a hex digit decodes to opaque black at any length |
| HexColor.DecodeLongHexString | Project.swift:180-190 | decoding `#rrggbb` written from an opaque byte colour gives that colour back |
| HexColor.DecodeShortHexString | Project.swift:180-188 | decoding `#rgb` gives each digit value times 17 |
| HexColor.TrimCaseAlike | Project.swift:181 | strings that lower-case alike trim to strings that lower-case alike |
| HexColor.DecodeCaseAlike | Project.swift:180-193 | strings that lower-case alike decode to the same colour |
| HexColor.DecodeIgnoresCase | Project.swift:180-193 | a colour code and its lower-cased form decode to the same colour |
| Screen.LoginCompleted | Project.swift:44-58 | a fetch starts exactly when the login succeeded and its body holds a string token, and it uses that token; otherwise loading stops |
| Screen.MissingTokenStops | Project.swift:49-54 | a login answer without a token key leads to no fetch |
| Screen.ViewController.constructor | Project.swift:11-13 | the screen starts with both lists empty and search mode off |
| Screen.ViewController.RowSource | Project.swift:132-139 | the rows come from `filteredTasks` in search mode and from `tasks` otherwise |
| Screen.ViewController.NumberOfRows | Project.swift:132-134 | the row count is the length of the sequence the cells are read from: `filteredTasks` in search mode, otherwise `tasks` |
| Screen.ViewController.CellForRowAt | Project.swift:136-146 | every row below the row count is in bounds, and its cell shows that task's title, description and decoded, opaque colour |
| Screen.ViewController.ParseData | Project.swift:84-97 | `tasks` is rebuilt with exactly one task per array element, in order; `filteredTasks` equals `tasks`; search mode is unchanged |
| Screen.ViewController.FetchCompleted | Project.swift:72-82 | a successful fetch is parsed as above; a failed one leaves both lists as they were; search mode is unchanged |
| Screen.ViewController.FilterContentForSearchText | Project.swift:99-108 | `filteredTasks` becomes the filtered list for the text; `tasks` and search mode are not touched |
| Screen.ViewController.SearchTextDidChange | Project.swift:150-158 | empty text leaves search mode and leaves `filteredTasks` as it was, so the rows are the full list; other text enters search mode and the rows are the filtered list |
| Screen.ViewController.DidScanResult | Project.swift:114-119 | `filteredTasks` becomes the filtered list for the scanned value and search mode is unchanged, so outside search mode the rows are still the full list |
| Screen.ViewController.DidScanResultAsTyped | Project.swift:114-119 | corrected scan handler: a scanned value acts like typed text, so a non-empty value always puts the filtered list on screen |
| SampleSession.PaintWallParsed | Project.swift:171-176 | the example task object parses to the task ("T1", "Paint wall", "", "#fff") |
| SampleSession.PaintWallIsWhite | Project.swift:180-188 | the colour code "#fff" decodes to opaque white (255, 255, 255, 255) |
| SampleSession.PaintWallLowercased | Project.swift:101-104 | the example task's fields lower-case to "paint wall", "", "t1" and "#fff" |
| SampleSession.WallMatchesPaintWall | Project.swift:100-105 | the query "wall" matches the example task through its title |
| SampleSession.WallFindsPaintWall | Project.swift:99-105 | filtering the one-task list by "wall" keeps the task |
| SampleSession.ZzzFindsNothing | Project.swift:99-105 | filtering the one-task list by "ZZZ" gives the empty list |
| SampleSession.ScanOutsideSearchShowsAllTasks | Project.swift:114-119 | as written, scanning "ZZZ" outside search mode leaves `filteredTasks` empty while the rows still show the one task |

`SampleSession.PaintWallSession` is a client of these contracts. It logs in with a token, fetches the one task, checks the row's title and white background, searches for "wall", "ZZZ" and "" in turn, and then scans "ZZZ" with the corrected handler.

## Findings

| source | as written | input that shows it | evidently intended | confidence | as-written member | corrected member |
|---|---|---|---|---|---|---|
| Project.swift:114-119 | the QR handler writes the scanned value into the search bar and filters `filteredTasks`, but never sets `isSearching`; the table reads `tasks` while `isSearching` is false (line 133) | search mode off, `tasks` = [the "Paint wall" task], scanned value "ZZZ": the search bar shows "ZZZ" and `filteredTasks` is empty, but the table still shows the task | a scanned value behaves like text typed into the search bar, so its matches are what the table shows | likely; not executed | SampleSession.ScanOutsideSearchShowsAllTasks (over Screen.ViewController.DidScanResult) | Screen.ViewController.DidScanResultAsTyped |

## Left out

- Network I/O (Project.swift:25-83): Alamofire requests, headers, credentials, URLs and callbacks are not modelled. A completed request is a `Response` value.
  - The login completion is `LoginCompleted`.
  - The fetch completion is `ViewController.FetchCompleted`.
  - The `URL(string:)` guards always succeed on their constant URLs, so they are not modelled.
- UI plumbing: `viewDidLoad`, the outlets, `SVProgressHUD`, `tableView.reloadData`, `DispatchQueue.main.async`, the QR reader controller (`scanQRCode`, `readerDidCancel`) and `searchBarSearchButtonClicked`. Reloads have no effect in the model. Because `searchBar.text = result.value` (line 117) only changes what the bar displays, it is not modelled.
- Floating-point colour (Project.swift:195): the division into `CGFloat` is not modelled. `Decode` stops at the integer `(a, r, g, b)`.
- Concurrency: two overlapping loads racing to set the list are not modelled. Each completion is one atomic method call.
- Text.Lower: ASCII only. Swift's `lowercased()` applies full Unicode case mapping.
- HexColor.IsAlphanumeric: ASCII letters and digits only. `CharacterSet.alphanumerics` covers all Unicode letters, marks and numbers.
- HexColor.ScanHex: the optional `0x`/`0X` prefix that `scanHexInt64` accepts is not modelled. A trimmed `"0x1"` scans as 0 here, not 1. Leading whitespace is not skipped either; it cannot occur, because the trimmed string starts with an alphanumeric. The 64-bit overflow is not modelled. Only values of at most six digits are ever used, and those are far below 2^64.
- HexColor.Decode: `hex.count` counts Swift grapheme clusters. The model counts characters.
- Tasks.TaskFromJson: SwiftyJSON's `stringValue` turns numbers and booleans into their text. Here every non-string value gives "".
- Json.Elements: `for (_, value) in json` over a top-level JSON object visits its values in dictionary order. Here only arrays yield elements, and any other document yields none. So when the server answers with a JSON object, for example an HTTP error body (no status code is validated), the source makes one task per value and the model makes none.
- Empty query: in the model, `Contains(h, "")` holds for every `h`. Whether Swift's `contains("")` is true depends on the library, so no contract states `Filter(ts, "")`. The QR path can pass an empty value (line 118).
