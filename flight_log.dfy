/**
 * The flight log: one CSV table of position rows, the choice of which CSV
 * file is loaded, and the flight identifiers in first-seen order.
 */
module FlightLog {
  import opened Wrappers

  /** The text of one CSV cell. Nothing in the replay computes on a cell:
      coordinates and times are copied into draw commands and labels. */
  type Text = string
  type FlightId = string
  type Coord = string

  /** One CSV row, with the eight positional columns
      Time, Flight, Latitude, Longitude, Altitude, Flight Type, Depart, Arrival. */
  datatype Row = Row(
    time: Text,
    flight: FlightId,
    latitude: Coord,
    longitude: Coord,
    altitude: Text,
    flightType: Text,
    depart: Text,
    arrival: Text)

  /** A loaded table together with the name of the file it came from. */
  datatype CsvFile = CsvFile(name: string, rows: seq<Row>)

  const CSV_SUFFIX: string := ".csv"

  /** Python's `name.endswith(".csv")`: case-sensitive, on the whole name. */
  predicate EndsWithCsv(name: string)
  {
    |name| >= |CSV_SUFFIX| && name[|name| - |CSV_SUFFIX|..] == CSV_SUFFIX
  }

  /** The path a loop over `paths` that reloads on every `.csv` name is left
      holding: the last one, or None when no name ends in `.csv`. */
  function LastCsv(paths: seq<string>): (r: Option<string>)
    ensures r.None? <==> forall i :: 0 <= i < |paths| ==> !EndsWithCsv(paths[i])
    ensures r.Some? ==>
      exists i :: 0 <= i < |paths| && paths[i] == r.value && EndsWithCsv(paths[i]) &&
        forall j :: i < j < |paths| ==> !EndsWithCsv(paths[j])
  {
    if paths == [] then None
    else if EndsWithCsv(paths[|paths| - 1]) then Some(paths[|paths| - 1])
    else
      var r := LastCsv(paths[..|paths| - 1]);
      assert forall j :: 0 <= j < |paths| - 1 ==> paths[..|paths| - 1][j] == paths[j];
      r
  }

  /** The file loop: every name ending in `.csv` is read and replaces the table
      (and the file name) read before it. Reading is the parameter `read`. */
  method LoadLastCsv(paths: seq<string>, read: string -> seq<Row>) returns (loaded: Option<CsvFile>)
    ensures loaded.None? <==> LastCsv(paths).None?
    ensures loaded.Some? ==>
      loaded.value.name == LastCsv(paths).value && loaded.value.rows == read(loaded.value.name)
  {
    loaded := None;
    for k := 0 to |paths|
      invariant loaded.None? <==> LastCsv(paths[..k]).None?
      invariant loaded.Some? ==>
        loaded.value.name == LastCsv(paths[..k]).value && loaded.value.rows == read(loaded.value.name)
    {
      assert paths[..k + 1][..k] == paths[..k];
      if EndsWithCsv(paths[k]) {
        loaded := Some(CsvFile(paths[k], read(paths[k])));
      }
    }
    assert paths[..|paths|] == paths;
  }

  /** The Flight column of the table, in row order. */
  function FlightColumn(rows: seq<Row>): (c: seq<FlightId>)
    ensures |c| == |rows|
    ensures forall i :: 0 <= i < |rows| ==> c[i] == rows[i].flight
  {
    seq(|rows|, i requires 0 <= i < |rows| => rows[i].flight)
  }

  /** True when no value occurs twice in `s`. */
  predicate NoDuplicates<T(==)>(s: seq<T>)
  {
    forall i, j :: 0 <= i < j < |s| ==> s[i] != s[j]
  }

  /** The position of the first occurrence of `x` in `s`. */
  function FirstIndex<T(==)>(s: seq<T>, x: T): (k: nat)
    requires x in s
    ensures k < |s| && s[k] == x && x !in s[..k]
  {
    if s[0] == x then 0
    else
      var k := FirstIndex(s[1..], x);
      assert s[..k + 1] == [s[0]] + s[1..][..k];
      k + 1
  }

  /** Any position holding `x` with no `x` before it is the first index. */
  lemma FirstIndexUnique<T>(s: seq<T>, x: T, k: nat)
    requires k < |s| && s[k] == x && x !in s[..k]
    ensures FirstIndex(s, x) == k
  {
  }

  /** Extending a sequence does not move the first index of a value already in it. */
  lemma FirstIndexInPrefix<T>(s: seq<T>, n: nat, x: T)
    requires n <= |s| && x in s[..n]
    ensures FirstIndex(s, x) == FirstIndex(s[..n], x)
  {
    var k := FirstIndex(s[..n], x);
    assert s[..n][..k] == s[..k];
    FirstIndexUnique(s, x, k);
  }

  /** The distinct values of `s`, each once, in order of first occurrence
      (what `pandas.Series.unique` returns). */
  function Distinct(s: seq<FlightId>): (r: seq<FlightId>)
    ensures forall x :: x in r <==> x in s
    ensures NoDuplicates(r)
    ensures forall i, j :: 0 <= i < j < |r| ==> FirstIndex(s, r[i]) < FirstIndex(s, r[j])
  {
    if s == [] then []
    else
      var n := |s| - 1;
      var d := Distinct(s[..n]);
      assert s == s[..n] + [s[n]];
      forall y | y in d
        ensures FirstIndex(s, y) == FirstIndex(s[..n], y) < n
      {
        FirstIndexInPrefix(s, n, y);
      }
      if s[n] in d then d
      else
        FirstIndexUnique(s, s[n], n);
        d + [s[n]]
  }

  /** `df["Flight"].unique().tolist()`. */
  function UniqueFlights(rows: seq<Row>): (u: seq<FlightId>)
  {
    Distinct(FlightColumn(rows))
  }

  /** In a sequence without duplicates each member occurs exactly once. */
  lemma {:induction false} NoDuplicatesOnce<T>(s: seq<T>, x: T)
    requires NoDuplicates(s) && x in s
    ensures multiset(s)[x] == 1
  {
    assert s == [s[0]] + s[1..];
    if s[0] == x {
      assert x !in s[1..] by {
        forall j | 1 <= j < |s| ensures s[j] != x { }
      }
    } else {
      NoDuplicatesOnce(s[1..], x);
    }
  }

  /** Every flight of the table is listed exactly once, and nothing else is. */
  lemma UniqueFlightsExactlyOnce(rows: seq<Row>)
    ensures forall f :: f in UniqueFlights(rows) <==> exists i :: 0 <= i < |rows| && rows[i].flight == f
    ensures forall f :: f in UniqueFlights(rows) ==> multiset(UniqueFlights(rows))[f] == 1
  {
    var u := UniqueFlights(rows);
    var c := FlightColumn(rows);
    forall f | f in u
      ensures multiset(u)[f] == 1
    {
      NoDuplicatesOnce(u, f);
    }
    forall f | f in u
      ensures exists i :: 0 <= i < |rows| && rows[i].flight == f
    {
      var i :| 0 <= i < |c| && c[i] == f;
      assert rows[i].flight == f;
    }
    forall f | exists i :: 0 <= i < |rows| && rows[i].flight == f
      ensures f in u
    {
      var i :| 0 <= i < |rows| && rows[i].flight == f;
      assert c[i] == f;
    }
  }

  /** The flights appear in order of their first row in the file. */
  lemma UniqueFlightsFirstSeenOrder(rows: seq<Row>, i: nat, j: nat)
    requires i < j < |UniqueFlights(rows)|
    ensures FirstIndex(FlightColumn(rows), UniqueFlights(rows)[i])
          < FirstIndex(FlightColumn(rows), UniqueFlights(rows)[j])
  {
  }
}
