/**
 * `load_data` (preprocess.py:48-96): read the export, clean every column
 * name, refuse a table that lacks a required column, and add the parsed
 * date column `Dato_dt`.
 */
module Loader {
  import opened Wrappers
  import opened Frames
  import opened Headers

  /** What `pd.read_csv` delivers: a table with the raw header texts as
      column names, or one of the failures `load_data` catches. */
  datatype ReadOutcome = Parsed(frame: Table) | FileNotFound | EmptyData | OtherError

  /** The columns every usable export must have after cleaning (preprocess.py:75). */
  const RequiredColumns: seq<string> := ["Titel på dit arrangement", "Arrangør", "Lokation", "Dato"]

  /** The format handed to the date parser (preprocess.py:83). */
  const DateFormat: string := "%d/%m/%Y %H.%M.%S"

  /** The date parser, `pd.to_datetime` on one text with a format: kept
      abstract, a timestamp or nothing. */
  type DateParser = (string, string) -> Option<DateTime>

  /** `[col for col in required_cols if col not in df.columns]` */
  function MissingColumns(required: seq<string>, names: seq<string>): (missing: seq<string>)
    ensures forall c :: c in missing <==> c in required && c !in names
  {
    if required == [] then []
    else (if required[0] in names then [] else [required[0]]) + MissingColumns(required[1..], names)
  }

  /** With every required name present nothing is reported missing. */
  lemma {:induction false} NoneMissing(required: seq<string>, names: seq<string>)
    requires forall c :: c in required ==> c in names
    ensures MissingColumns(required, names) == []
  {
    if required != [] {
      assert required[0] in required;
      NoneMissing(required[1..], names);
    }
  }

  /** `df.columns = cleaned_columns`: same columns, new names. */
  function Rename(cols: seq<Column>, names: seq<string>): (r: seq<Column>)
    requires |names| == |cols|
    ensures |r| == |cols| && Names(r) == names
    ensures forall j :: 0 <= j < |r| ==> r[j].values == cols[j].values
  {
    seq(|cols|, j requires 0 <= j < |cols| => Column(names[j], cols[j].values))
  }

  /** One `Dato` cell through `errors='coerce'`: a failure gives a missing
      value, and so does a cell with no text in it. */
  function ParsedDato(c: Cell, parse: DateParser): (r: Cell)
    ensures r.Stamp? <==> c.Str? && parse(c.text, DateFormat).Some?
    ensures r.Stamp? ==> r.time == parse(c.text, DateFormat).value
    ensures !r.Stamp? ==> r == Null
  {
    match c
    case Str(s) => (match parse(s, DateFormat) case Some(d) => Stamp(d) case None => Null)
    case _ => Null
  }

  /** The values of `Dato_dt` (preprocess.py:82-85).  With exactly one `Dato`
      column each row is parsed on its own.  With several, `df['Dato']` is a
      table, `pd.to_datetime` raises and the handler sets every row to NaT. */
  function DatoColumn(t: Table, parse: DateParser): (values: seq<Cell>)
    requires WellFormed(t) && "Dato" in Names(t.columns)
    ensures |values| == t.height
  {
    var names := Names(t.columns);
    if Count(names, "Dato") == 1 then
      var dato := t.columns[IndexOf(names, "Dato")].values;
      seq(t.height, k requires 0 <= k < t.height => ParsedDato(dato[k], parse))
    else
      seq(t.height, k => Null)
  }

  /** The table after the header cleaning: same columns under the cleaned
      names, or the empty table when a required name is missing
      (preprocess.py:72-87). */
  function Gate(raw: Table, cleaned: seq<string>, parse: DateParser): (t: Table)
    requires WellFormed(raw) && |cleaned| == |raw.columns|
    ensures WellFormed(t)
  {
    var df := Table(Rename(raw.columns, cleaned), raw.height);
    if MissingColumns(RequiredColumns, cleaned) != [] then Empty
    else AssignColumn(df, "Dato_dt", DatoColumn(df, parse))
  }

  /** `load_data` */
  function LoadData(src: ReadOutcome, parse: DateParser): (t: Table)
    requires src.Parsed? ==> WellFormed(src.frame)
    ensures WellFormed(t)
  {
    match src
    case Parsed(raw) => Gate(raw, CleanedNames(raw), parse)
    case _ => Empty
  }

  /** The cleaned header list of an export. */
  function CleanedNames(raw: Table): (cleaned: seq<string>)
    ensures |cleaned| == |raw.columns|
  {
    CleanAll(Names(raw.columns))
  }

  /** The gate on a given list of cleaned names: empty exactly when one of
      the required names is not among them. */
  lemma GateEmptyIff(raw: Table, cleaned: seq<string>, parse: DateParser)
    requires WellFormed(raw) && |cleaned| == |raw.columns|
    ensures Gate(raw, cleaned, parse) == Empty
        <==> exists c :: c in RequiredColumns && c !in cleaned
  {
    var missing := MissingColumns(RequiredColumns, cleaned);
    if missing == [] {
      var df := Table(Rename(raw.columns, cleaned), raw.height);
      var r := AssignColumn(df, "Dato_dt", DatoColumn(df, parse));
      assert "Dato" in RequiredColumns;
      assert "Dato" in Names(r.columns);
    } else {
      assert missing[0] in missing;
    }
  }

  /** The schema gate of `load_data`: the result is empty exactly when some
      required column is missing after cleaning. */
  lemma EmptyIffRequiredMissing(raw: Table, parse: DateParser)
    requires WellFormed(raw)
    ensures LoadData(Parsed(raw), parse) == Empty
        <==> exists c :: c in RequiredColumns && c !in CleanedNames(raw)
  {
    GateEmptyIff(raw, CleanedNames(raw), parse);
  }

  /** The shape of a gate that passes (with `Dato_dt` not yet a name). */
  lemma GateShape(raw: Table, cleaned: seq<string>, parse: DateParser)
    requires WellFormed(raw) && |cleaned| == |raw.columns|
    requires forall c :: c in RequiredColumns ==> c in cleaned
    requires "Dato" in cleaned && "Dato_dt" !in cleaned
    ensures |Gate(raw, cleaned, parse).columns| == |raw.columns| + 1
    ensures Names(Gate(raw, cleaned, parse).columns) == cleaned + ["Dato_dt"]
    ensures Gate(raw, cleaned, parse).height == raw.height
    ensures forall j :: 0 <= j < |raw.columns| ==>
      Gate(raw, cleaned, parse).columns[j].values == raw.columns[j].values
    ensures Gate(raw, cleaned, parse).columns[|raw.columns|].values
      == DatoColumn(Table(Rename(raw.columns, cleaned), raw.height), parse)
  {
    NoneMissing(RequiredColumns, cleaned);
    var df := Table(Rename(raw.columns, cleaned), raw.height);
    var stamps := DatoColumn(df, parse);
    var t := AssignColumn(df, "Dato_dt", stamps);
    assert Gate(raw, cleaned, parse) == t;
    assert "Dato_dt" !in Names(df.columns);
    assert t.columns == df.columns + [Column("Dato_dt", stamps)];
  }

  /** Row by row, `Dato_dt` is what the parser made of that row's `Dato`: a
      missing value where it does not parse, and in every row when the
      cleaned headers hold `Dato` more than once. */
  lemma DatoColumnRows(raw: Table, cleaned: seq<string>, parse: DateParser)
    requires WellFormed(raw) && |cleaned| == |raw.columns| && "Dato" in cleaned
    ensures var stamps := DatoColumn(Table(Rename(raw.columns, cleaned), raw.height), parse);
      && (Count(cleaned, "Dato") == 1 ==>
            forall k :: 0 <= k < raw.height ==>
              stamps[k] == ParsedDato(raw.columns[IndexOf(cleaned, "Dato")].values[k], parse))
      && (Count(cleaned, "Dato") > 1 ==> forall k :: 0 <= k < raw.height ==> stamps[k] == Null)
  {
    var df := Table(Rename(raw.columns, cleaned), raw.height);
    assert Names(df.columns) == cleaned;
  }

  /** When the gate passes, the columns are the cleaned headers followed by
      `Dato_dt`, every row is kept, the cleaned columns hold the raw cells,
      and `Dato_dt` holds, row by row, what the parser made of that row's
      `Dato` (a missing value for a row that does not parse, and for every
      row when the cleaned headers hold `Dato` more than once). */
  lemma PassedGateShape(raw: Table, parse: DateParser)
    requires WellFormed(raw)
    requires forall c :: c in RequiredColumns ==> c in CleanedNames(raw)
    requires "Dato_dt" !in CleanedNames(raw)
    ensures Names(LoadData(Parsed(raw), parse).columns) == CleanedNames(raw) + ["Dato_dt"]
    ensures LoadData(Parsed(raw), parse).height == raw.height
    ensures forall j :: 0 <= j < |raw.columns| ==>
      LoadData(Parsed(raw), parse).columns[j].values == raw.columns[j].values
    ensures Count(CleanedNames(raw), "Dato") == 1 ==>
      forall k :: 0 <= k < raw.height ==>
        LoadData(Parsed(raw), parse).columns[|raw.columns|].values[k]
          == ParsedDato(raw.columns[IndexOf(CleanedNames(raw), "Dato")].values[k], parse)
    ensures Count(CleanedNames(raw), "Dato") > 1 ==>
      forall k :: 0 <= k < raw.height ==> LoadData(Parsed(raw), parse).columns[|raw.columns|].values[k] == Null
  {
    var cleaned := CleanedNames(raw);
    assert LoadData(Parsed(raw), parse) == Gate(raw, cleaned, parse);
    assert "Dato" in RequiredColumns;
    GateShape(raw, cleaned, parse);
    DatoColumnRows(raw, cleaned, parse);
  }
}
