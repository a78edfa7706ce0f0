/**
 * `ScreenMapping.print_map`: load the last CSV of the chosen files, then walk
 * the frame loop with stride 5, which leaves after its first frame.
 */
module ScreenMapping {
  import opened Wrappers
  import opened FlightLog
  import opened Trajectory

  /** print_map stops before any frame when no chosen file ends in `.csv`:
      the table variable is never bound. */
  datatype MapError = NoCsvFile

  const TIME_INTERVAL: nat := 5

  /** `create_folium_map`: a new map at the fixed centre, zoom and tiles. */
  method CreateFoliumMap() returns (m: FoliumMap)
    ensures fresh(m)
    ensures m.View() == MapView(MAP_CENTER, ZOOM_START, TILES, [])
  {
    m := new FoliumMap(MAP_CENTER, ZOOM_START, TILES);
  }

  /** The frame loop of print_map over the table `gdf`: frame indices
      0, 5, 10, ... below the table length, left after the first body, so
      with a non-empty table exactly one map is shown, the one of frame 0. */
  method ShowFrames(gdf: seq<Row>) returns (p: Playback)
    ensures p.shown == (if gdf == [] then [] else [FrameMap(gdf, UniqueFlights(gdf), 0)])
    ensures p.counter == (if gdf == [] then COUNTER_INITIAL else CounterHtml(gdf[0].time))
  {
    var uniqueFlights := UniqueFlights(gdf);
    var timeCounter := new DivIcon(COUNTER_INITIAL);
    var shown: seq<MapView> := [];
    var frames := Range(0, |gdf|, TIME_INTERVAL);
    for k := 0 to |frames|
      invariant k == 0 && shown == [] && timeCounter.html == COUNTER_INITIAL
    {
      var t := frames[k];
      var flightMap := CreateFoliumMap();
      RenderFrame(flightMap, gdf, uniqueFlights, t);
      assert flightMap.View() == FrameMap(gdf, uniqueFlights, t);
      timeCounter.html := CounterHtml(gdf[t].time);
      shown := shown + [flightMap.View()];
      // The loop is left after its first frame; the stride is never taken.
      break;
    }
    p := Playback(shown, timeCounter.html);
  }

  /** The whole of print_map. `read` stands for reading a CSV file into its
      rows; each map shown in the web view is one entry of `shown`. */
  method PrintMap(filePaths: seq<string>, read: string -> seq<Row>) returns (r: Result<Playback, MapError>)
    ensures LastCsv(filePaths).None? <==> r == Failure(NoCsvFile)
    ensures r.Success? ==>
      var rows := read(LastCsv(filePaths).value);
      && r.value.shown == (if rows == [] then [] else [FrameMap(rows, UniqueFlights(rows), 0)])
      && r.value.counter == (if rows == [] then COUNTER_INITIAL else CounterHtml(rows[0].time))
  {
    var loaded := LoadLastCsv(filePaths, read);
    if loaded.None? {
      return Failure(NoCsvFile);
    }
    var df := loaded.value.rows;
    // The sorted copy and the `gdf[:30]` slice are computed and dropped, so
    // the table is iterated in file order, with every row.
    var gdf := df;
    var playback := ShowFrames(gdf);
    return Success(playback);
  }
}
