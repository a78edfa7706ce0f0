# Flight trajectory replay — Dafny model

This project models the frame builder of the flight-trajectory replay tool.
The tool reads a CSV log of flight positions (Time, Flight, Latitude,
Longitude, Altitude, Flight Type, Depart, Arrival). For a sequence of frame
indices it draws, for every flight, a dashed trail through the flight's
positions seen so far and a marker at its latest position, with a tooltip.
Two entry points share this logic:

- `ScreenMapping.print_map` in `temp_wrk.py`, called from the GUI. It keeps the
  last `.csv` of the chosen paths and walks the frames with stride 5. The
  loop body ends in `break`, so only frame 0 is shown.
- The script body of `BackEnd.py`. It keeps the last `.csv` of the directory
  listing and turns characters 3..10 of its name (`YYYYMMDD`) into
  `DD-MM-YYYY`. It then shows one map per row index, with stride 1.

Modules:

- `Wrappers`: `Option` and `Result`.
- `FlightLog`: the log row, the choice of the last `.csv` path, and the
  flight list in order of first appearance (`unique()`).
- `Trajectory`: a flight's rows cut at a frame, the drawn vertices, the colour
  cycle, the tooltip text and a parser that reads it back, the layers of a
  flight and of a frame, `range`, the folium map as a class whose `Add`
  appends a layer, and the time-counter `DivIcon` as a class whose html the
  loop rewrites.
- `ScreenMapping`: `create_folium_map` and `print_map`.
- `BackEnd`: the date in the file name and the script body.

The model follows the code as written:

- The frame cut `gdf.loc[gdf["Flight"] == f].iloc[:t + 1]` takes the first
  t+1 rows of each flight, in file order. It is not a cut at row t of the
  whole table (`Trajectory.PerFlightCut` shows the difference on four rows).
- `df.sort_values(...)` and `gdf[:30]` compute values that are thrown away.
  The table is replayed in file order and with all its rows.
- `print_map` shows a single frame, the one at index 0, because of the `break`.
- The time-counter marker is added to a map that is replaced at the top of
  the loop, before anything is shown. No shown map carries the counter. The
  model keeps the `DivIcon` html as state and returns its final value in
  `Playback.counter`, apart from the maps shown.
- With no `.csv` path, the code fails with an unbound name. The model returns
  `Failure(NoCsvFile)`. In `BackEnd.py`, a date part that is not an
  8-ASCII-digit calendar date stops the script with `Failure(BadDate(...))`.
  pandas is more lenient in a few cases, which "## Left out" lists.

Coordinates and times are kept as the text of the CSV fields. The directory
listing and the CSV reader are parameters: `read` maps a file name to its rows.

## Model

| member | source | states |
|---|---|---|
| FlightLog.LastCsv | temp_wrk.py:22-38 | None exactly when no path ends in `.csv`; otherwise a path that ends in `.csv` with no `.csv` path after it |
| FlightLog.LoadLastCsv | BackEnd.py:10-14 | the loop over the listing ends holding the last `.csv` name and that file's rows, or nothing when there is no `.csv` name |
| FlightLog.Distinct | temp_wrk.py:50 | the result holds the same values as the input, each once, in the order of their first occurrence |
| FlightLog.UniqueFlightsExactlyOnce | BackEnd.py:25 | a flight is listed if and only if some row has it, and it is listed exactly once |
| FlightLog.UniqueFlightsFirstSeenOrder | temp_wrk.py:50 | flights are listed in the order of their first row in the file |
| Trajectory.RowsOfMembers | temp_wrk.py:76 | the `Flight == f` selection holds a row if and only if the table holds it and its flight is f |
| Trajectory.RowsOfPrefix | temp_wrk.py:76 | the selection keeps file order: selecting on the first n rows of the table gives a prefix of the whole selection |
| Trajectory.RowsOfCount | temp_wrk.py:76 | the selection has as many rows as f occurs in the Flight column |
| Trajectory.RowsOfNonEmpty | temp_wrk.py:92 | a flight taken from the table has at least one row, so `iloc[-1]` exists |
| Trajectory.SubsetIsFlightPrefix | temp_wrk.py:76 | the frame-t subset is a prefix of the flight's rows, of length min(t+1, row count), holding only rows of f |
| Trajectory.SubsetGrows | BackEnd.py:55 | a later frame only extends each flight's subset |
| Trajectory.SubsetNonEmpty | BackEnd.py:66-67 | for a listed flight the subset is non-empty and its last row is the flight's (t+1)-th row, or its last row |
| Trajectory.PerFlightCut | temp_wrk.py:76-89 | on rows a1, b1, a2, a3, frame 1 holds a1 and a2 of flight a and draws its line; flight b has only a marker |
| Trajectory.Points | temp_wrk.py:79 | one vertex per subset row, in order, each the row's (latitude, longitude) |
| Trajectory.ColorCycle | temp_wrk.py:85 | each colour comes from the six-colour list and repeats every six flights; two flights share a colour if and only if their positions agree modulo 6 |
| Trajectory.TooltipText | temp_wrk.py:96-103 | the tooltip is the six bold labels and fields in order, joined by `<br>` |
| Trajectory.TooltipRoundTrip | BackEnd.py:70-75 | the tooltip parses back into the six fields when no field contains '<' |
| Trajectory.FlightLayersShape | temp_wrk.py:76-112 | a flight draws a line if and only if it has two or more points; the line runs through the subset's points in colour i; then it draws one marker at the last subset row, with that row's tooltip and fill colour i |
| Trajectory.FirstRowIsFirstInFile | temp_wrk.py:92 | a flight's first selected row, where its frame-0 marker sits, is the row where its Flight value first occurs in the file |
| Trajectory.FirstFrameMarkersOnly | temp_wrk.py:70-112 | frame 0 has no lines and one marker per flight, at the flight's first row, in flight order |
| Trajectory.FinalFrameHoldsEveryRow | BackEnd.py:47-58 | at the last index each flight's subset is all of its rows, and the subsets together hold every row of the table exactly once |
| Trajectory.FlightLayersShowRow | temp_wrk.py:79-112 | every row of a flight's subset is shown by one of its layers: a vertex of the line, or the marker when the subset is that single row |
| Trajectory.FinalFrameDrawsRow | BackEnd.py:47-84 | the final frame has a layer that shows the position of any given row, as a line vertex or as the marker |
| Trajectory.Range | temp_wrk.py:70 | `range(start, stop, step)`: empty if and only if start >= stop; starts at start; steps by step; stays below stop; covers the interval |
| Trajectory.RangeByOne | BackEnd.py:47 | with step 1 the range is every index from start to stop - 1 once, in increasing order |
| Trajectory.FoliumMap.constructor | BackEnd.py:51 | a new map has the given centre, zoom and tiles and no layers |
| Trajectory.FoliumMap.Add | temp_wrk.py:105-112 | `add_to` appends the layer after the map's existing layers |
| Trajectory.DivIcon.constructor | temp_wrk.py:59-61 | the counter starts with the given html |
| Trajectory.AddFlight | temp_wrk.py:76-112 | the body of the flight loop appends exactly that flight's layers (line if more than one point, then the marker) to the map's layers |
| Trajectory.RenderFrame | temp_wrk.py:75-112 | the flight loop appends exactly the frame's layers, flight by flight, to the map's existing layers |
| ScreenMapping.CreateFoliumMap | temp_wrk.py:8-15 | a fresh map centred on Japan at zoom 5 with dark tiles, with no layers |
| ScreenMapping.ShowFrames | temp_wrk.py:52-126 | an empty table shows nothing; otherwise exactly one map is shown, frame 0, and the counter holds the first row's time |
| ScreenMapping.PrintMap | temp_wrk.py:20-126 | fails if and only if no path ends in `.csv`; otherwise shows the frames of the last `.csv` file's rows |
| BackEnd.DateSlice | BackEnd.py:16 | the slice has eight characters if and only if the name has at least 11; it is then the name's characters 3 to 10 |
| BackEnd.FormatDate | BackEnd.py:19 | succeeds if and only if the text is one of the 8-ASCII-digit calendar dates pandas accepts; the result is `DD-MM-YYYY`; otherwise the error names the text |
| BackEnd.DateRoundTrip | BackEnd.py:19 | formatting a date can be undone and gives a well-formed `DD-MM-YYYY` text |
| BackEnd.FormattedDateRoundTrip | BackEnd.py:19 | every `DD-MM-YYYY` text of a real date is the formatting of its `YYYYMMDD` reading |
| BackEnd.DrawFrame | BackEnd.py:50-84 | a fresh map with the frame's layers renders to the frame's map |
| BackEnd.ShowFrames | BackEnd.py:28-93 | one map per row index, in order, the t-th being frame t; the counter ends at the last row's time |
| BackEnd.Run | BackEnd.py:10-93 | no `.csv` gives NoCsvFile; a bad date gives BadDate; otherwise the formatted date and one frame per row of the last `.csv` file |

## Left out

- `temp_run.py` (the Qt window, file dialog and web view) is outside this model; the paths chosen there are the `filePaths` parameter.
- Reading and parsing the CSV (`pd.read_csv`) is the `read` parameter; read errors and malformed lines are not modelled.
- Trajectory.RowsOfNonEmpty, Trajectory.SubsetNonEmpty: hold for every listed flight, because the model's Flight field is always a text equal to itself. pandas reads an empty Flight cell, or one holding a token such as `NA`, `NaN` or `null`, as NaN. `unique()` still lists NaN, but `gdf["Flight"] == NaN` selects no row. So `subset_gdf.iloc[-1]` raises IndexError and no map is shown. Missing Flight values are not modelled.
- `os.listdir` order is platform-defined; it is the `listing` parameter.
- Latitude, longitude and time are kept as the CSV text. The float conversion, shapely `Point` internals and the `strftime` of the counter time are not modelled, including the literal `.S` that `'%H:%M:%S.S'` leaves in the counter in `BackEnd.py`.
- `pd.to_datetime` of the Time column is not modelled; a malformed time is not an error in this model.
- HTML rendering (`_repr_html_`, `setHtml`, `display`, `clear_output`), the icon size and the counter marker's location are not modelled; a shown map is its `MapView` record.
- `time.sleep` between frames is left out: timing is not observable in the model.
- BackEnd.FormatDate: models only texts of eight ASCII digits. Outside that form it rejects two kinds of text that pandas' strptime fallback for `%Y%m%d` accepts. One is a day written as a space and a digit 1-9: `202103 5` is read as 2021-03-05 and printed `05-03-2021`. The other is a year written with non-ASCII decimal digits. Accepting the padded day would break `BackEnd.DateRoundTrip`, because the output is then not a rearrangement of the input. The model also accepts every four-digit year, but pandas rejects dates outside the range its Timestamp can hold. As whole dates that range is 1677-09-22 to 2262-04-11. Its smallest value falls on 1677-09-21 after midnight, so that day is rejected too. The model does not check this range.
- Trajectory.TooltipRoundTrip: holds only when no field contains '<'; the tooltip text itself does not escape such fields.
