/**
 * The script body of preprocess.py (lines 98-117): load the export, drop
 * the private columns, look up every row's `Lokation` and write its
 * coordinates into `Latitude` and `Longitude`, then save the table.
 *
 * The loop walks `df.iterrows()`, which reads the rows as they were when
 * the loop started, while `df.at` writes into the live frame.  A
 * `NameError` from `fetch_coordinates` ends the script at that row: the
 * final `to_csv` is never reached and nothing is written.
 */
module Driver {
  import opened Wrappers
  import opened Frames
  import opened Loader
  import opened Geocoding

  /** The columns removed before anything is saved (preprocess.py:102). */
  const PrivateColumns: set<string> := {"Mailadresse", "Kolonne 16"}

  /** `row.get(name)` seen through `isinstance(_, str)`: the text of the
      row's one cell under `name`; no text when that cell holds no string,
      when there is no such column (`get` returns `None`) or when there are
      several (`get` returns a Series). */
  function TextIn(t: Table, k: nat, name: string): Option<string>
    requires WellFormed(t) && k < t.height
  {
    var names := Names(t.columns);
    if Count(names, name) != 1 then None
    else match t.columns[IndexOf(names, name)].values[k]
      case Str(s) => Some(s)
      case _ => None
  }

  /** `event.get('Lokation')` as `fetch_coordinates` sees it. */
  function AddressOf(t: Table, k: nat): Address
    requires WellFormed(t) && k < t.height
  {
    TextIn(t, k, "Lokation")
  }

  /** What `fetch_coordinates` gives for each row of `t0`, in row order. */
  function Lookups(t0: Table, g: Geocoder): (fs: seq<Fetched>)
    requires WellFormed(t0)
    ensures |fs| == t0.height
  {
    seq(t0.height, k requires 0 <= k < t0.height => FetchCoordinates(AddressOf(t0, k), g))
  }

  /** The body of the loop for one row that did not raise. */
  function Visit(t: Table, k: nat, f: Fetched): (r: Table)
    requires WellFormed(t) && k < t.height
    ensures WellFormed(r) && r.height == t.height
  {
    if f.Coordinates? then
      SetCell(SetCell(t, k, "Latitude", Number(f.latitude)), k, "Longitude", Number(f.longitude))
    else t
  }

  /** The frame after the first `n` rows of `t0` were visited, row `k`
      having looked up `fs[k]`. */
  function Enriched(t0: Table, fs: seq<Fetched>, n: nat): (t: Table)
    requires WellFormed(t0) && |fs| == t0.height && n <= t0.height
    ensures WellFormed(t) && t.height == t0.height
  {
    if n == 0 then t0 else Visit(Enriched(t0, fs, n - 1), n - 1, fs[n - 1])
  }

  /** Two frames read the same text under `name` in row `k` when the second
      keeps the first's columns in place under the same names, holds the
      same row-`k` cell in each column called `name`, and adds only columns
      with other names. */
  lemma TextInAgree(t: Table, r: Table, k: nat, name: string)
    requires WellFormed(t) && WellFormed(r) && k < t.height && k < r.height
    requires |t.columns| <= |r.columns|
    requires forall j :: 0 <= j < |t.columns| ==> r.columns[j].name == t.columns[j].name
    requires forall j :: |t.columns| <= j < |r.columns| ==> r.columns[j].name != name
    requires forall j :: 0 <= j < |t.columns| && t.columns[j].name == name ==>
      r.columns[j].values[k] == t.columns[j].values[k]
    ensures TextIn(r, k, name) == TextIn(t, k, name)
  {
    var a, b := Names(t.columns), Names(r.columns);
    var more := b[|a|..];
    assert b == a + more;
    assert name !in more by {
      forall i | 0 <= i < |more| ensures more[i] != name {
        assert more[i] == r.columns[|a| + i].name;
      }
    }
    CountConcat(a, more, name);
  }

  /** `df.at` under another name leaves what every row holds under `name`
      as it was. */
  lemma SetCellKeepsText(t: Table, i: nat, other: string, v: Cell, k: nat, name: string)
    requires WellFormed(t) && i < t.height && k < t.height && other != name
    ensures TextIn(SetCell(t, i, other, v), k, name) == TextIn(t, k, name)
  {
    TextInAgree(t, SetCell(t, i, other, v), k, name);
  }

  /** The rows `iterrows` hands out and the live frame agree on every
      address however far the loop has got: reading `Lokation` from the
      snapshot taken when the loop started is the same as reading it from
      the frame being written. */
  lemma EnrichedKeepsAddress(t0: Table, fs: seq<Fetched>, n: nat, k: nat)
    requires WellFormed(t0) && |fs| == t0.height && n <= t0.height && k < t0.height
    ensures AddressOf(Enriched(t0, fs, n), k) == AddressOf(t0, k)
  {
    var t := Enriched(t0, fs, n);
    EnrichedColumns(t0, fs, n);
    forall j | 0 <= j < |t0.columns| && t0.columns[j].name == "Lokation"
      ensures t.columns[j].values[k] == t0.columns[j].values[k]
    {
      EnrichedCell(t0, fs, n, j, k);
    }
    TextInAgree(t0, t, k, "Lokation");
  }

  /** The first position at or after `i` whose lookup raised, or `|fs|`
      when none did. */
  function Halt(fs: seq<Fetched>, i: nat): (h: nat)
    requires i <= |fs|
    ensures i <= h <= |fs|
    ensures forall k :: i <= k < h ==> !fs[k].NameErrorRaised?
    ensures h < |fs| ==> fs[h].NameErrorRaised?
    decreases |fs| - i
  {
    if i == |fs| then i
    else if fs[i].NameErrorRaised? then i
    else Halt(fs, i + 1)
  }

  /** The position where the walk stops is determined by its two properties. */
  lemma {:induction false} HaltIs(fs: seq<Fetched>, i: nat, h: nat)
    requires i <= h <= |fs|
    requires forall k :: i <= k < h ==> !fs[k].NameErrorRaised?
    requires h < |fs| ==> fs[h].NameErrorRaised?
    ensures Halt(fs, i) == h
    decreases h - i
  {
    if i < h {
      HaltIs(fs, i + 1, h);
    }
  }

  /** The live frame `df` of the script: its columns change under `df.at`. */
  class DataFrame {
    var columns: seq<Column>
    var height: nat

    function Value(): Table
      reads this
    {
      Table(columns, height)
    }

    ghost predicate Valid()
      reads this
    {
      WellFormed(Value())
    }

    constructor (t: Table)
      requires WellFormed(t)
      ensures Valid() && Value() == t
    {
      columns := t.columns;
      height := t.height;
    }

    /** `df.at[i, name] = v` */
    method SetAt(i: nat, name: string, v: Cell)
      requires Valid() && i < height
      modifies this
      ensures Valid() && Value() == SetCell(old(Value()), i, name, v)
    {
      var r := SetCell(Value(), i, name, v);
      columns := r.columns;
      height := r.height;
    }
  }

  /** preprocess.py:107-112 for one row: write the coordinates found, if any. */
  method VisitRow(df: DataFrame, index: nat, coordinates: Fetched)
    requires df.Valid() && index < df.height
    modifies df
    ensures df.Valid() && df.Value() == Visit(old(df.Value()), index, coordinates)
  {
    if coordinates.Coordinates? {
      df.SetAt(index, "Latitude", Number(coordinates.latitude));
      df.SetAt(index, "Longitude", Number(coordinates.longitude));
    }
  }

  /** The loop at preprocess.py:104-114.  It reports whether it ran to the
      end; when it stops early the frame holds what the rows before the
      raising one wrote. */
  method EnrichRows(df: DataFrame, g: Geocoder) returns (completed: bool)
    requires df.Valid()
    modifies df
    ensures df.Valid()
    ensures var fs := Lookups(old(df.Value()), g);
      && (completed <==> Halt(fs, 0) == |fs|)
      && df.Value() == Enriched(old(df.Value()), fs, Halt(fs, 0))
  {
    var rows := df.Value();
    ghost var fs := Lookups(rows, g);
    var index := 0;
    while index < rows.height
      invariant index <= rows.height
      invariant df.Valid() && df.Value() == Enriched(rows, fs, index)
      invariant index <= Halt(fs, 0)
    {
      var address := AddressOf(rows, index);
      var coordinates := FetchCoordinates(address, g);
      assert coordinates == fs[index];
      if coordinates.NameErrorRaised? {
        assert Halt(fs, 0) == index;
        return false;
      }
      VisitRow(df, index, coordinates);
      index := index + 1;
    }
    assert Halt(fs, 0) == rows.height;
    return true;
  }

  /** The table the enrichment loop starts from. */
  function Kept(src: ReadOutcome, parse: DateParser): (t: Table)
    requires src.Parsed? ==> WellFormed(src.frame)
    ensures WellFormed(t)
  {
    Drop(LoadData(src, parse), PrivateColumns)
  }

  /** The file `events_with_coordinates.csv` receives: the enriched table, or
      nothing when a lookup raised. */
  function Output(src: ReadOutcome, parse: DateParser, g: Geocoder): Option<Table>
    requires src.Parsed? ==> WellFormed(src.frame)
  {
    Written(Kept(src, parse), g)
  }

  /** What the loop and the final save make of the table `kept`. */
  function Written(kept: Table, g: Geocoder): Option<Table>
    requires WellFormed(kept)
  {
    var fs := Lookups(kept, g);
    if Halt(fs, 0) == |fs| then Some(Enriched(kept, fs, |fs|)) else None
  }

  /** The whole script, with the read of `events.csv`, the date parser and
      the geocoder given as parameters. */
  method Run(src: ReadOutcome, parse: DateParser, g: Geocoder) returns (written: Option<Table>)
    requires src.Parsed? ==> WellFormed(src.frame)
    ensures written == Output(src, parse, g)
  {
    var loaded := LoadData(src, parse);
    var kept := Drop(loaded, PrivateColumns);
    var df := new DataFrame(kept);
    var completed := EnrichRows(df, g);
    if completed {
      written := Some(df.Value());
    } else {
      written := None;
    }
  }

  /** What cell (`j`, `k`) of a column called `name` holds once `n` rows
      were visited: the coordinate found for row `k` in `Latitude` and
      `Longitude`, and otherwise what `t0` held there (missing in a column
      `t0` did not have). */
  function Expected(t0: Table, fs: seq<Fetched>, n: nat, name: string, j: nat, k: nat): Cell
    requires WellFormed(t0) && |fs| == t0.height && k < t0.height
  {
    if k < n && fs[k].Coordinates? && name == "Latitude" then Number(fs[k].latitude)
    else if k < n && fs[k].Coordinates? && name == "Longitude" then Number(fs[k].longitude)
    else CellOrNull(t0, j, k)
  }

  /** The frame after `n` visited rows: the columns of `t0` in place,
      followed by exactly the `AddedNames` of `t0` once a row below `n`
      found coordinates and by nothing before, and every cell as
      `Expected` says. */
  ghost predicate EnrichedShape(t0: Table, fs: seq<Fetched>, n: nat, t: Table)
    requires WellFormed(t0) && |fs| == t0.height && n <= t0.height
  {
    && WellFormed(t) && t.height == t0.height
    && NamesAfter(t0, fs, n, t)
    && CellsAsExpected(t0, fs, n, t)
  }

  /** Whether one of the first `n` rows found coordinates. */
  ghost predicate AnyFound(fs: seq<Fetched>, n: nat)
    requires n <= |fs|
  {
    exists k :: 0 <= k < n && fs[k].Coordinates?
  }

  /** The names `df.at` appends to a frame with column names `names` when
      it writes `Latitude` and then `Longitude`: each one, in that order,
      unless the frame already has it. */
  function AddedNames(names: seq<string>): seq<string> {
    (if "Latitude" in names then [] else ["Latitude"]) + (if "Longitude" in names then [] else ["Longitude"])
  }

  /** The column names of `t` are those of `t0`, followed by the coordinate
      names `t0` lacked once one of the first `n` rows found coordinates,
      and by nothing before that. */
  ghost predicate NamesAfter(t0: Table, fs: seq<Fetched>, n: nat, t: Table)
    requires n <= |fs|
  {
    Names(t.columns) == Names(t0.columns) + (if AnyFound(fs, n) then AddedNames(Names(t0.columns)) else [])
  }

  /** `t` has the rows of `t0` and its columns, named as before, followed
      only by `Latitude` and `Longitude`. */
  ghost predicate ColumnsExtend(t0: Table, t: Table) {
    && WellFormed(t) && t.height == t0.height
    && |t0.columns| <= |t.columns|
    && (forall j :: 0 <= j < |t0.columns| ==> t.columns[j].name == t0.columns[j].name)
    && (forall j :: |t0.columns| <= j < |t.columns| ==>
          t.columns[j].name == "Latitude" || t.columns[j].name == "Longitude")
  }

  /** Once one of the first `n` rows found coordinates, both coordinate
      columns exist. */
  ghost predicate CoordinatesNamed(fs: seq<Fetched>, n: nat, t: Table)
    requires n <= |fs|
  {
    forall k :: 0 <= k < n && fs[k].Coordinates? ==>
      "Latitude" in Names(t.columns) && "Longitude" in Names(t.columns)
  }

  /** Both facts about the columns of a visited frame; `EnrichedCell`
      reads the cells through them. */
  ghost predicate Layout(t0: Table, fs: seq<Fetched>, n: nat, t: Table)
    requires n <= |fs|
  {
    ColumnsExtend(t0, t) && CoordinatesNamed(fs, n, t)
  }

  /** Every cell of `t` is what `Expected` says. */
  ghost predicate CellsAsExpected(t0: Table, fs: seq<Fetched>, n: nat, t: Table)
    requires WellFormed(t0) && |fs| == t0.height && WellFormed(t) && t.height == t0.height
  {
    forall j, k :: 0 <= j < |t.columns| && 0 <= k < t.height ==>
      t.columns[j].values[k] == Expected(t0, fs, n, t.columns[j].name, j, k)
  }

  /** The names after row `m = n - 1`, which found coordinates. */
  lemma VisitNames(t0: Table, fs: seq<Fetched>, m: nat, n: nat, t: Table)
    requires WellFormed(t0) && |fs| == t0.height && n == m + 1 && m < t0.height
    requires Layout(t0, fs, m, t) && fs[m].Coordinates?
    ensures Layout(t0, fs, n, Visit(t, m, fs[m]))
  {
    var f := fs[m];
    var t1 := SetCell(t, m, "Latitude", Number(f.latitude));
    var t2 := SetCell(t1, m, "Longitude", Number(f.longitude));
    assert Visit(t, m, f) == t2;
    forall j | |t0.columns| <= j < |t2.columns|
      ensures t2.columns[j].name == "Latitude" || t2.columns[j].name == "Longitude"
    {
      if j < |t.columns| {
        assert t2.columns[j].name == t.columns[j].name;
      } else if j < |t1.columns| {
        assert "Latitude" !in Names(t.columns);
      } else {
        assert "Longitude" !in Names(t1.columns);
      }
    }
    if "Latitude" in Names(t.columns) {
      var j := IndexOf(Names(t.columns), "Latitude");
      assert Names(t2.columns)[j] == "Latitude";
    } else {
      assert Names(t2.columns)[|t.columns|] == "Latitude";
    }
    if "Longitude" in Names(t1.columns) {
      var j := IndexOf(Names(t1.columns), "Longitude");
      assert Names(t2.columns)[j] == "Longitude";
    } else {
      assert Names(t2.columns)[|t1.columns|] == "Longitude";
    }
  }

  /** One cell of the frame after row `m = n - 1`, which found coordinates. */
  lemma VisitCell(t0: Table, fs: seq<Fetched>, m: nat, n: nat, t: Table, j: nat, k: nat)
    requires WellFormed(t0) && |fs| == t0.height && n == m + 1 && m < t0.height
    requires Layout(t0, fs, m, t) && fs[m].Coordinates?
    requires j < |Visit(t, m, fs[m]).columns| && k < t.height
    requires j < |t.columns| ==> t.columns[j].values[k] == Expected(t0, fs, m, t.columns[j].name, j, k)
    ensures Visit(t, m, fs[m]).columns[j].values[k]
      == Expected(t0, fs, n, Visit(t, m, fs[m]).columns[j].name, j, k)
  {
    var f := fs[m];
    var t1 := SetCell(t, m, "Latitude", Number(f.latitude));
    var t2 := SetCell(t1, m, "Longitude", Number(f.longitude));
    assert Visit(t, m, f) == t2;
    if j >= |t1.columns| {
      AppendedCell(t0, fs, m, n, t1, "Longitude", Number(f.longitude), j, k);
    } else {
      if k == m && t2.columns[j].name == "Longitude" {
      } else if j >= |t.columns| {
        AppendedCell(t0, fs, m, n, t, "Latitude", Number(f.latitude), j, k);
      } else {
        KeptCell(t0, fs, m, n, t, j, k);
      }
    }
  }

  /** A cell of a coordinate column that the write at row `m` appended: the
      value written in row `m`, `Null` elsewhere, since no earlier row found
      coordinates. */
  lemma AppendedCell(t0: Table, fs: seq<Fetched>, m: nat, n: nat, t: Table, name: string, v: Cell, j: nat, k: nat)
    requires WellFormed(t0) && |fs| == t0.height && n == m + 1 && m < t0.height
    requires WellFormed(t) && t.height == t0.height && |t0.columns| <= |t.columns|
    requires CoordinatesNamed(fs, m, t) && fs[m].Coordinates?
    requires name == "Latitude" || name == "Longitude"
    requires v == if name == "Latitude" then Number(fs[m].latitude) else Number(fs[m].longitude)
    requires |t.columns| <= j < |SetCell(t, m, name, v).columns| && k < t.height
    ensures SetCell(t, m, name, v).columns[j].name == name
    ensures SetCell(t, m, name, v).columns[j].values[k] == Expected(t0, fs, n, name, j, k)
  {
    assert name !in Names(t.columns);
    assert CellOrNull(t, j, k) == Null && CellOrNull(t0, j, k) == Null;
  }

  /** A cell of a column `t` already had, after both coordinate writes. */
  lemma KeptCell(t0: Table, fs: seq<Fetched>, m: nat, n: nat, t: Table, j: nat, k: nat)
    requires WellFormed(t0) && |fs| == t0.height && n == m + 1 && m < t0.height
    requires WellFormed(t) && t.height == t0.height && fs[m].Coordinates?
    requires j < |t.columns| && k < t.height
    requires t.columns[j].values[k] == Expected(t0, fs, m, t.columns[j].name, j, k)
    ensures var t2 := Visit(t, m, fs[m]);
      j < |t2.columns| && t2.columns[j].name == t.columns[j].name &&
      t2.columns[j].values[k] == Expected(t0, fs, n, t.columns[j].name, j, k)
  {
    var f := fs[m];
    var t1 := SetCell(t, m, "Latitude", Number(f.latitude));
    var t2 := SetCell(t1, m, "Longitude", Number(f.longitude));
    assert Visit(t, m, f) == t2;
    assert t1.columns[j].name == t.columns[j].name;
    assert CellOrNull(t, j, k) == t.columns[j].values[k];
    assert CellOrNull(t1, j, k) == t1.columns[j].values[k];
  }

  /** The columns of every visited frame: those of `t0`, then only the
      coordinate columns, which are there once a row found coordinates. */
  lemma {:induction false} EnrichedColumns(t0: Table, fs: seq<Fetched>, n: nat)
    requires WellFormed(t0) && |fs| == t0.height && n <= t0.height
    ensures Layout(t0, fs, n, Enriched(t0, fs, n))
    decreases n
  {
    if n == 0 {
      assert Enriched(t0, fs, 0) == t0;
      StartLayout(t0, fs);
    } else {
      var t := Enriched(t0, fs, n - 1);
      assert Enriched(t0, fs, n) == Visit(t, n - 1, fs[n - 1]);
      EnrichedColumns(t0, fs, n - 1);
      VisitColumns(t0, fs, n, t);
    }
  }

  /** The frame before any row is visited. */
  lemma StartLayout(t0: Table, fs: seq<Fetched>)
    requires WellFormed(t0) && |fs| == t0.height
    ensures Layout(t0, fs, 0, t0)
  {
  }

  /** Visiting row `n - 1` keeps the column layout of the visited frames. */
  lemma VisitColumns(t0: Table, fs: seq<Fetched>, n: nat, t: Table)
    requires WellFormed(t0) && |fs| == t0.height && 0 < n <= t0.height
    requires Layout(t0, fs, n - 1, t)
    ensures Layout(t0, fs, n, Visit(t, n - 1, fs[n - 1]))
  {
    if fs[n - 1].Coordinates? {
      VisitNames(t0, fs, n - 1, n, t);
    } else {
      assert Visit(t, n - 1, fs[n - 1]) == t;
    }
  }

  /** The column names of every visited frame, exactly: `Latitude` and
      `Longitude` are appended once each, in that order, at the first row
      that found coordinates, and only when `t0` lacked them. */
  lemma {:induction false} EnrichedNames(t0: Table, fs: seq<Fetched>, n: nat)
    requires WellFormed(t0) && |fs| == t0.height && n <= t0.height
    ensures NamesAfter(t0, fs, n, Enriched(t0, fs, n))
    decreases n
  {
    if n == 0 {
      assert Enriched(t0, fs, 0) == t0;
      assert Names(t0.columns) + [] == Names(t0.columns);
    } else {
      var t := Enriched(t0, fs, n - 1);
      assert Enriched(t0, fs, n) == Visit(t, n - 1, fs[n - 1]);
      EnrichedNames(t0, fs, n - 1);
      VisitNamesAfter(t0, fs, n - 1, n, t);
    }
  }

  /** Visiting row `m = n - 1` keeps `NamesAfter`. */
  lemma VisitNamesAfter(t0: Table, fs: seq<Fetched>, m: nat, n: nat, t: Table)
    requires WellFormed(t0) && |fs| == t0.height && n == m + 1 && m < t0.height
    requires WellFormed(t) && t.height == t0.height && NamesAfter(t0, fs, m, t)
    ensures NamesAfter(t0, fs, n, Visit(t, m, fs[m]))
  {
    if fs[m].Coordinates? {
      FoundNamesAfter(t0, fs, m, n, t);
    } else {
      assert Visit(t, m, fs[m]) == t;
      SkippedNamesAfter(t0, fs, m, n, t);
    }
  }

  /** A row that found coordinates leaves the names of the first row that
      did. */
  lemma FoundNamesAfter(t0: Table, fs: seq<Fetched>, m: nat, n: nat, t: Table)
    requires WellFormed(t0) && |fs| == t0.height && n == m + 1 && m < t0.height
    requires WellFormed(t) && t.height == t0.height && NamesAfter(t0, fs, m, t)
    requires fs[m].Coordinates?
    ensures NamesAfter(t0, fs, n, Visit(t, m, fs[m]))
  {
    var names0 := Names(t0.columns);
    assert AnyFound(fs, n) by {
      assert 0 <= m < n && fs[m].Coordinates?;
    }
    VisitNamesOf(t, m, fs[m]);
    var after := WithCoordinates(Names(t.columns));
    if AnyFound(fs, m) {
      assert Names(t.columns) == names0 + AddedNames(names0);
      AddedAgain(names0);
    } else {
      assert Names(t.columns) == names0 + [];
      assert Names(t.columns) == names0;
      AddedFirst(names0);
    }
    assert after == names0 + AddedNames(names0);
  }

  /** A row that found none leaves the names as they were. */
  lemma SkippedNamesAfter(t0: Table, fs: seq<Fetched>, m: nat, n: nat, t: Table)
    requires WellFormed(t0) && |fs| == t0.height && n == m + 1 && m < t0.height
    requires NamesAfter(t0, fs, m, t) && !fs[m].Coordinates?
    ensures NamesAfter(t0, fs, n, t)
  {
    assert AnyFound(fs, n) == AnyFound(fs, m) by {
      if AnyFound(fs, n) {
        var k :| 0 <= k < n && fs[k].Coordinates?;
        assert k < m;
      }
    }
  }

  /** The names after `Latitude` and then `Longitude` were written into a
      frame whose names are `names`. */
  function WithCoordinates(names: seq<string>): seq<string> {
    var names1 := if "Latitude" in names then names else names + ["Latitude"];
    if "Longitude" in names1 then names1 else names1 + ["Longitude"]
  }

  /** A visit that found coordinates turns the names into `WithCoordinates`
      of them. */
  lemma VisitNamesOf(t: Table, m: nat, f: Fetched)
    requires WellFormed(t) && m < t.height && f.Coordinates?
    ensures Names(Visit(t, m, f).columns) == WithCoordinates(Names(t.columns))
  {
    var t1 := SetCell(t, m, "Latitude", Number(f.latitude));
    SetCellNames(t, m, "Latitude", Number(f.latitude));
    SetCellNames(t1, m, "Longitude", Number(f.longitude));
  }

  /** The first coordinates append exactly `AddedNames`. */
  lemma AddedFirst(names0: seq<string>)
    ensures WithCoordinates(names0) == names0 + AddedNames(names0)
  {
    var names1 := if "Latitude" in names0 then names0 else names0 + ["Latitude"];
    assert "Longitude" in names1 <==> "Longitude" in names0 by {
      if "Longitude" in names1 && "Latitude" !in names0 {
        var i :| 0 <= i < |names1| && names1[i] == "Longitude";
        assert i < |names0| && names0[i] == "Longitude";
      }
      if "Longitude" in names0 && "Latitude" !in names0 {
        var i :| 0 <= i < |names0| && names0[i] == "Longitude";
        assert names1[i] == "Longitude";
      }
    }
  }

  /** Later coordinates append nothing more. */
  lemma AddedAgain(names0: seq<string>)
    ensures WithCoordinates(names0 + AddedNames(names0)) == names0 + AddedNames(names0)
  {
    var all := names0 + AddedNames(names0);
    if "Latitude" !in names0 {
      assert all[|names0|] == "Latitude";
    }
    if "Longitude" !in names0 {
      assert all[|all| - 1] == "Longitude";
    }
    assert "Latitude" in all && "Longitude" in all;
  }

  /** Every cell of every visited frame is as `Expected` says. */
  lemma {:induction false} EnrichedCell(t0: Table, fs: seq<Fetched>, n: nat, j: nat, k: nat)
    requires WellFormed(t0) && |fs| == t0.height && n <= t0.height && k < t0.height
    requires j < |Enriched(t0, fs, n).columns|
    ensures Enriched(t0, fs, n).columns[j].values[k]
      == Expected(t0, fs, n, Enriched(t0, fs, n).columns[j].name, j, k)
    decreases n
  {
    if n == 0 {
      assert Enriched(t0, fs, 0) == t0;
    } else {
      var t := Enriched(t0, fs, n - 1);
      assert Enriched(t0, fs, n) == Visit(t, n - 1, fs[n - 1]);
      EnrichedColumns(t0, fs, n - 1);
      if j < |t.columns| {
        EnrichedCell(t0, fs, n - 1, j, k);
      }
      if fs[n - 1].Coordinates? {
        VisitCell(t0, fs, n - 1, n, t, j, k);
      } else {
        assert Expected(t0, fs, n, t.columns[j].name, j, k) == Expected(t0, fs, n - 1, t.columns[j].name, j, k);
      }
    }
  }

  /** Every visited frame has the shape `EnrichedShape` describes. */
  lemma EnrichedHasShape(t0: Table, fs: seq<Fetched>, n: nat)
    requires WellFormed(t0) && |fs| == t0.height && n <= t0.height
    ensures EnrichedShape(t0, fs, n, Enriched(t0, fs, n))
  {
    var t := Enriched(t0, fs, n);
    EnrichedColumns(t0, fs, n);
    EnrichedNames(t0, fs, n);
    forall j, k | 0 <= j < |t.columns| && 0 <= k < t.height
      ensures t.columns[j].values[k] == Expected(t0, fs, n, t.columns[j].name, j, k)
    {
      EnrichedCell(t0, fs, n, j, k);
    }
  }

  /** A frame with the names `NamesAfter` gives has no name but those of
      `t0`, `Latitude` and `Longitude`. */
  lemma NamesAfterWithin(t0: Table, fs: seq<Fetched>, n: nat, t: Table)
    requires n <= |fs| && NamesAfter(t0, fs, n, t)
    ensures forall x :: x in Names(t.columns) ==> x in Names(t0.columns) || x == "Latitude" || x == "Longitude"
  {
    var added := if AnyFound(fs, n) then AddedNames(Names(t0.columns)) else [];
    assert Names(t.columns) == Names(t0.columns) + added;
    assert forall x :: x in added ==> x == "Latitude" || x == "Longitude";
  }

  /** The loop saves a table exactly when no row's lookup raised, and then
      that table is `kept` with the coordinates filled in as
      `EnrichedShape` says, and it gains no name but `Latitude` and
      `Longitude`. */
  lemma WrittenShape(kept: Table, g: Geocoder)
    requires WellFormed(kept)
    ensures var fs := Lookups(kept, g);
      && (Written(kept, g).Some? <==> forall k :: 0 <= k < |fs| ==> !fs[k].NameErrorRaised?)
      && (Written(kept, g).Some? ==> EnrichedShape(kept, fs, kept.height, Written(kept, g).value))
      && (Written(kept, g).Some? ==> forall n :: n in Names(Written(kept, g).value.columns) ==>
            n in Names(kept.columns) || n == "Latitude" || n == "Longitude")
  {
    var fs := Lookups(kept, g);
    if Halt(fs, 0) == |fs| {
      var t := Enriched(kept, fs, |fs|);
      EnrichedHasShape(kept, fs, |fs|);
      NamesAfterWithin(kept, fs, |fs|, t);
    } else {
      assert fs[Halt(fs, 0)].NameErrorRaised?;
    }
  }

  /** The script writes a file exactly when no row's lookup raised, and then
      the file is the kept table with the coordinates filled in, and with no
      private column. */
  lemma OutputShape(src: ReadOutcome, parse: DateParser, g: Geocoder)
    requires src.Parsed? ==> WellFormed(src.frame)
    ensures var kept := Kept(src, parse);
      var fs := Lookups(kept, g);
      && (Output(src, parse, g).Some? <==> forall k :: 0 <= k < |fs| ==> !fs[k].NameErrorRaised?)
      && (Output(src, parse, g).Some? ==> EnrichedShape(kept, fs, kept.height, Output(src, parse, g).value))
      && (Output(src, parse, g).Some? ==>
            forall n :: n in Names(Output(src, parse, g).value.columns) ==> n !in PrivateColumns)
  {
    var kept := Kept(src, parse);
    WrittenShape(kept, g);
    DropRemovesNames(LoadData(src, parse), PrivateColumns);
  }

  /** A row whose `Lokation` is a usable address and whose lookup raises an
      exception outside the `GeocoderServiceError` family stops the script
      before anything is written. */
  lemma ExceptionAborts(src: ReadOutcome, parse: DateParser, g: Geocoder, k: nat)
    requires src.Parsed? ==> WellFormed(src.frame)
    requires k < Kept(src, parse).height
    requires ValidAddress(AddressOf(Kept(src, parse), k))
    requires g(AddressOf(Kept(src, parse), k).value, TimeoutSeconds).Failed?
    ensures Output(src, parse, g) == None
  {
    var kept := Kept(src, parse);
    assert Lookups(kept, g)[k] == FetchCoordinates(AddressOf(kept, k), g);
    OutputShape(src, parse, g);
  }

  /** A read failure or a failed schema gate still writes a file: the empty
      table, since there are no rows to look up. */
  lemma EmptyLoadWritesEmpty(src: ReadOutcome, parse: DateParser, g: Geocoder)
    requires src.Parsed? ==> WellFormed(src.frame)
    requires LoadData(src, parse) == Empty
    ensures Output(src, parse, g) == Some(Empty)
  {
    assert Kept(src, parse) == Empty;
  }

  /** A missing file, an empty file or any other read error still ends in a
      saved file: the empty table. */
  lemma ReadFailureWritesEmpty(src: ReadOutcome, parse: DateParser, g: Geocoder)
    requires !src.Parsed?
    ensures Output(src, parse, g) == Some(Empty)
  {
    assert LoadData(src, parse) == Empty;
    EmptyLoadWritesEmpty(src, parse, g);
  }
}
