/**
 * The BackEnd script: load the last CSV of the directory listing, turn the
 * `YYYYMMDD` part of its name into `DD-MM-YYYY`, then show one map per row
 * index, in order.
 */
module BackEnd {
  import opened Wrappers
  import opened FlightLog
  import opened Trajectory

  /** How the script stops before its frame loop: no CSV in the listing
      (the file name is never bound), or a date part pandas cannot parse. */
  datatype ScriptError = NoCsvFile | BadDate(dateStr: string)

  /** What the script leaves behind: the formatted date and the maps shown. */
  datatype Replay = Replay(formattedDate: string, playback: Playback)

  const TIME_INTERVAL: nat := 1

  // ----- the date in the file name -----

  /** Python's `file_name[3:11]`, whose bounds are clipped to the name. */
  function DateSlice(fileName: string): (d: string)
    ensures |d| == 8 <==> |fileName| >= 11
    ensures |fileName| >= 11 ==> fileName == fileName[..3] + d + fileName[11..]
  {
    fileName[Min(3, |fileName|)..Min(11, |fileName|)]
  }

  predicate IsDigit(c: char)
  {
    '0' <= c <= '9'
  }

  predicate AllDigits(s: string)
  {
    forall k :: 0 <= k < |s| ==> IsDigit(s[k])
  }

  /** The decimal value of a digit string. */
  function Number(s: string): nat
    requires AllDigits(s)
  {
    if s == [] then 0
    else 10 * Number(s[..|s| - 1]) + (s[|s| - 1] as int - '0' as int)
  }

  predicate IsLeapYear(y: nat)
  {
    y % 4 == 0 && (y % 100 != 0 || y % 400 == 0)
  }

  function DaysInMonth(y: nat, m: nat): nat
    requires 1 <= m <= 12
  {
    if m == 2 then (if IsLeapYear(y) then 29 else 28)
    else if m == 4 || m == 6 || m == 9 || m == 11 then 30
    else 31
  }

  /** The eight-ASCII-digit dates `pd.to_datetime(d, format='%Y%m%d')`
      accepts: eight digits naming a month and a day that exists in it
      (Gregorian calendar). */
  predicate IsCalendarDate(d: string)
  {
    && |d| == 8
    && AllDigits(d)
    && var m, day := Number(d[4..6]), Number(d[6..]);
    && 1 <= m <= 12
    && 1 <= day <= DaysInMonth(Number(d[..4]), m)
  }

  /** `pd.to_datetime(d, format='%Y%m%d').strftime('%d-%m-%Y')` on the
      eight-ASCII-digit dates; every other text is rejected. */
  function FormatDate(d: string): (r: Result<string, ScriptError>)
    ensures r.Success? <==> IsCalendarDate(d)
    ensures r.Failure? ==> r.error == BadDate(d)
    ensures r.Success? ==> |r.value| == 10 && r.value[2] == '-' && r.value[5] == '-'
  {
    if IsCalendarDate(d) then Success(d[6..8] + "-" + d[4..6] + "-" + d[..4])
    else Failure(BadDate(d))
  }

  /** `DD-MM-YYYY` read back as `YYYYMMDD`. */
  function UnformatDate(s: string): string
    requires |s| == 10
  {
    s[6..10] + s[3..5] + s[..2]
  }

  /** A `DD-MM-YYYY` text of a real date. */
  predicate IsFormattedDate(s: string)
  {
    |s| == 10 && s[2] == '-' && s[5] == '-' && IsCalendarDate(UnformatDate(s))
  }

  /** Formatting only rearranges the eight characters: it can be undone. */
  lemma DateRoundTrip(d: string)
    requires IsCalendarDate(d)
    ensures IsFormattedDate(FormatDate(d).value)
    ensures UnformatDate(FormatDate(d).value) == d
  {
    var s := FormatDate(d).value;
    assert UnformatDate(s) == d[..4] + d[4..6] + d[6..8];
    assert d == d[..4] + d[4..6] + d[6..8];
  }

  /** Every `DD-MM-YYYY` text of a real date is the formatting of exactly one
      `YYYYMMDD` text. */
  lemma FormattedDateRoundTrip(s: string)
    requires IsFormattedDate(s)
    ensures FormatDate(UnformatDate(s)) == Success(s)
  {
    var d := UnformatDate(s);
    assert d[6..8] == s[..2] && d[4..6] == s[3..5] && d[..4] == s[6..10];
    assert s == s[..2] + "-" + s[3..5] + "-" + s[6..10];
  }

  // ----- the script body -----

  /** One frame of the loop: `folium.Map` at the fixed view, then the
      flights' layers added to it. */
  method DrawFrame(rows: seq<Row>, flights: seq<FlightId>, t: nat) returns (view: MapView)
    requires forall f :: f in flights ==> f in FlightColumn(rows)
    ensures view == FrameMap(rows, flights, t)
  {
    var flightMap := new FoliumMap(MAP_CENTER, ZOOM_START, TILES);
    RenderFrame(flightMap, rows, flights, t);
    view := flightMap.View();
  }

  /** The maps of frames 0 .. n-1, in order. */
  function Frames(rows: seq<Row>, flights: seq<FlightId>, n: nat): (r: seq<MapView>)
    requires forall f :: f in flights ==> f in FlightColumn(rows)
    ensures |r| == n
  {
    if n == 0 then [] else Frames(rows, flights, n - 1) + [FrameMap(rows, flights, n - 1)]
  }

  /** The t-th of the first n maps is the map of frame t. */
  lemma {:induction false} FramesAt(rows: seq<Row>, flights: seq<FlightId>, n: nat)
    requires forall f :: f in flights ==> f in FlightColumn(rows)
    ensures forall t :: 0 <= t < n ==> Frames(rows, flights, n)[t] == FrameMap(rows, flights, t)
  {
    if n > 0 {
      FramesAt(rows, flights, n - 1);
    }
  }

  /** The frame loop over the table `gdf` with stride 1: every row index is
      visited once, in increasing order, and frame t is the t-th map shown;
      the counter is left at the time of the last row. */
  method ShowFrames(gdf: seq<Row>) returns (p: Playback)
    ensures |p.shown| == |gdf|
    ensures forall t :: 0 <= t < |gdf| ==> p.shown[t] == FrameMap(gdf, UniqueFlights(gdf), t)
    ensures p.counter == (if gdf == [] then COUNTER_INITIAL else CounterHtml(gdf[|gdf| - 1].time))
  {
    var uniqueFlights := UniqueFlights(gdf);
    assert forall f :: f in uniqueFlights ==> f in FlightColumn(gdf);
    var timeCounter := new DivIcon(COUNTER_INITIAL);
    var shown: seq<MapView> := [];
    var frames := Range(0, |gdf|, TIME_INTERVAL);
    RangeByOne(0, |gdf|);
    for k := 0 to |frames|
      invariant shown == Frames(gdf, uniqueFlights, k)
      invariant timeCounter.html == if k == 0 then COUNTER_INITIAL else CounterHtml(gdf[k - 1].time)
    {
      var t := frames[k];
      var view := DrawFrame(gdf, uniqueFlights, t);
      timeCounter.html := CounterHtml(gdf[t].time);
      shown := shown + [view];
    }
    FramesAt(gdf, uniqueFlights, |gdf|);
    p := Playback(shown, timeCounter.html);
  }

  /** The script. `listing` is the directory listing in the order the
      platform returns it and `read` stands for reading a CSV file into its
      rows. */
  method Run(listing: seq<string>, read: string -> seq<Row>) returns (r: Result<Replay, ScriptError>)
    ensures LastCsv(listing).None? ==> r == Failure(NoCsvFile)
    ensures LastCsv(listing).Some? && FormatDate(DateSlice(LastCsv(listing).value)).Failure? ==>
      r == Failure(BadDate(DateSlice(LastCsv(listing).value)))
    ensures LastCsv(listing).Some? && FormatDate(DateSlice(LastCsv(listing).value)).Success? ==> r.Success?
    ensures r.Success? ==>
      var name := LastCsv(listing).value;
      var rows := read(name);
      && FormatDate(DateSlice(name)) == Success(r.value.formattedDate)
      && |r.value.playback.shown| == |rows|
      && (forall t :: 0 <= t < |rows| ==> r.value.playback.shown[t] == FrameMap(rows, UniqueFlights(rows), t))
      && r.value.playback.counter == (if rows == [] then COUNTER_INITIAL else CounterHtml(rows[|rows| - 1].time))
  {
    var loaded := LoadLastCsv(listing, read);
    if loaded.None? {
      return Failure(NoCsvFile);
    }
    var fileName, df := loaded.value.name, loaded.value.rows;
    var dateStr := DateSlice(fileName);
    var formatted := FormatDate(dateStr);
    if formatted.Failure? {
      return Failure(formatted.error);
    }
    // As in print_map, the sorted copy and `gdf[:30]` are dropped.
    var gdf := df;
    var playback := ShowFrames(gdf);
    return Success(Replay(formatted.value, playback));
  }
}
