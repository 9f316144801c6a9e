/**
 * The part of a pandas DataFrame that preprocess.py relies on: an ordered
 * list of named columns (names may repeat) of one common height, and the
 * three operations the script applies to it: `df[name] = values`,
 * `df.at[row, name] = value` and `df.drop(columns=..., errors='ignore')`.
 */
module Frames {

  /** A timestamp as produced by the date parser. */
  datatype DateTime = DateTime(year: int, month: int, day: int, hour: int, minute: int, second: int)

  /** One cell: text read from the export, a missing value (NaN, NaT, None),
      a parsed timestamp, or a number (a coordinate; no arithmetic is done
      on it). */
  datatype Cell = Str(text: string) | Null | Stamp(time: DateTime) | Number(value: real)

  datatype Column = Column(name: string, values: seq<Cell>)

  /** Columns in order; `height` is the number of rows. */
  datatype Table = Table(columns: seq<Column>, height: nat)

  /** `pd.DataFrame()`: no columns, no rows. */
  const Empty: Table := Table([], 0)

  /** Every column holds one cell per row. */
  ghost predicate WellFormed(t: Table) {
    forall j :: 0 <= j < |t.columns| ==> |t.columns[j].values| == t.height
  }

  /** `df.columns.tolist()` */
  function Names(cols: seq<Column>): (names: seq<string>)
    ensures |names| == |cols|
    ensures forall j :: 0 <= j < |cols| ==> names[j] == cols[j].name
  {
    if cols == [] then [] else [cols[0].name] + Names(cols[1..])
  }

  /** How many times `n` occurs in `names`. */
  function Count(names: seq<string>, n: string): (c: nat)
    ensures c == 0 <==> n !in names
    ensures c <= |names|
  {
    if names == [] then 0 else (if names[0] == n then 1 else 0) + Count(names[1..], n)
  }

  /** The first position of `n` in `names`. */
  function IndexOf(names: seq<string>, n: string): (i: nat)
    requires n in names
    ensures i < |names| && names[i] == n
    ensures forall j :: 0 <= j < i ==> names[j] != n
  {
    if names[0] == n then 0 else 1 + IndexOf(names[1..], n)
  }

  /** A name that occurs once occurs nowhere but at its first position. */
  lemma {:induction false} CountOne(names: seq<string>, n: string)
    requires Count(names, n) == 1
    ensures forall j :: 0 <= j < |names| && names[j] == n ==> j == IndexOf(names, n)
    decreases |names|
  {
    if names[0] == n {
      assert Count(names[1..], n) == 0;
      forall j | 0 < j < |names| ensures names[j] != n {
        assert names[1..][j - 1] == names[j];
      }
    } else {
      CountOne(names[1..], n);
      forall j | 0 < j < |names| && names[j] == n ensures j == IndexOf(names, n) {
        assert names[1..][j - 1] == names[j];
      }
    }
  }

  /** Appending names other than `n` changes neither how often `n` occurs
      nor where it occurs first. */
  lemma {:induction false} CountConcat(names: seq<string>, more: seq<string>, n: string)
    requires n !in more
    ensures Count(names + more, n) == Count(names, n)
    ensures n in names ==> IndexOf(names + more, n) == IndexOf(names, n)
    decreases |names|
  {
    if names == [] {
      assert names + more == more;
    } else {
      assert (names + more)[1..] == names[1..] + more;
      CountConcat(names[1..], more, n);
      if n in names && names[0] != n {
        assert n in names[1..];
      }
    }
  }

  /** The cell in column `j`, row `k` of `t`, or a missing value for a column
      that `t` does not have yet: what a column added later holds in the rows
      nobody wrote to. */
  function CellOrNull(t: Table, j: nat, k: nat): Cell
    requires WellFormed(t) && k < t.height
  {
    if j < |t.columns| then t.columns[j].values[k] else Null
  }

  /** `df[name] = values`: every column called `name` takes the new values;
      if there is none, a column is appended. */
  function AssignColumn(t: Table, name: string, values: seq<Cell>): (r: Table)
    requires WellFormed(t) && |values| == t.height
    ensures WellFormed(r) && r.height == t.height
    ensures Names(r.columns) == if name in Names(t.columns) then Names(t.columns) else Names(t.columns) + [name]
    ensures forall j :: 0 <= j < |r.columns| ==>
      r.columns[j].values == if r.columns[j].name == name then values else t.columns[j].values
  {
    if name in Names(t.columns) then
      Table(seq(|t.columns|, j requires 0 <= j < |t.columns| =>
              if t.columns[j].name == name then Column(name, values) else t.columns[j]),
            t.height)
    else
      Table(t.columns + [Column(name, values)], t.height)
  }

  /** `df.at[i, name] = v`: row `i` of every column called `name` takes `v`;
      if there is none, a column is appended that is missing everywhere else. */
  function SetCell(t: Table, i: nat, name: string, v: Cell): (r: Table)
    requires WellFormed(t) && i < t.height
    ensures WellFormed(r) && r.height == t.height
    ensures |r.columns| == if name in Names(t.columns) then |t.columns| else |t.columns| + 1
    ensures forall j :: 0 <= j < |t.columns| ==> r.columns[j].name == t.columns[j].name
    ensures name !in Names(t.columns) ==> r.columns[|t.columns|].name == name
    ensures forall j, k :: 0 <= j < |r.columns| && 0 <= k < r.height ==>
      r.columns[j].values[k] == if k == i && r.columns[j].name == name then v else CellOrNull(t, j, k)
  {
    if name in Names(t.columns) then WriteInPlace(t, i, name, v) else AppendWith(t, i, name, v)
  }

  /** The names after `SetCell`: unchanged, or `name` appended when no
      column had it. */
  lemma SetCellNames(t: Table, i: nat, name: string, v: Cell)
    requires WellFormed(t) && i < t.height
    ensures Names(SetCell(t, i, name, v).columns)
      == if name in Names(t.columns) then Names(t.columns) else Names(t.columns) + [name]
  {
    var r := SetCell(t, i, name, v);
    var expected := if name in Names(t.columns) then Names(t.columns) else Names(t.columns) + [name];
    assert |Names(r.columns)| == |expected|;
    forall j | 0 <= j < |expected| ensures Names(r.columns)[j] == expected[j] {
      if j < |t.columns| {
        assert expected[j] == Names(t.columns)[j];
      }
    }
  }

  /** `SetCell` when some column is called `name`. */
  function WriteInPlace(t: Table, i: nat, name: string, v: Cell): (r: Table)
    requires WellFormed(t) && i < t.height
    ensures WellFormed(r) && r.height == t.height && |r.columns| == |t.columns|
    ensures forall j :: 0 <= j < |r.columns| ==> r.columns[j].name == t.columns[j].name
    ensures forall j, k :: 0 <= j < |r.columns| && 0 <= k < r.height ==>
      r.columns[j].values[k] == if k == i && r.columns[j].name == name then v else t.columns[j].values[k]
  {
    Table(seq(|t.columns|, j requires 0 <= j < |t.columns| =>
            if t.columns[j].name == name then Column(name, t.columns[j].values[i := v]) else t.columns[j]),
          t.height)
  }

  /** `SetCell` when no column is called `name`. */
  function AppendWith(t: Table, i: nat, name: string, v: Cell): (r: Table)
    requires WellFormed(t) && i < t.height
    ensures WellFormed(r) && r.height == t.height
    ensures |r.columns| == |t.columns| + 1 && r.columns[..|t.columns|] == t.columns
    ensures r.columns[|t.columns|].name == name
    ensures forall k :: 0 <= k < r.height ==> r.columns[|t.columns|].values[k] == if k == i then v else Null
  {
    Table(t.columns + [Column(name, seq(t.height, k requires 0 <= k < t.height => if k == i then v else Null))],
          t.height)
  }

  /** `a` is `b` with some elements left out, order kept. */
  ghost predicate SubsequenceOf<T>(a: seq<T>, b: seq<T>)
    decreases |b|
  {
    if a == [] then true
    else if b == [] then false
    else (a[0] == b[0] && SubsequenceOf(a[1..], b[1..])) || SubsequenceOf(a, b[1..])
  }

  /** The columns that `df.drop(columns=names, errors='ignore')` keeps. */
  function DropColumns(cols: seq<Column>, names: set<string>): (r: seq<Column>)
    ensures forall c :: c in r ==> c in cols && c.name !in names
    ensures forall c :: c in cols && c.name !in names ==> c in r
  {
    if cols == [] then []
    else (if cols[0].name in names then [] else [cols[0]]) + DropColumns(cols[1..], names)
  }

  /** `df.drop(columns=names, errors='ignore')` on a whole table. */
  function Drop(t: Table, names: set<string>): (r: Table)
    requires WellFormed(t)
    ensures WellFormed(r) && r.height == t.height
  {
    Table(DropColumns(t.columns, names), t.height)
  }

  /** The kept columns stay in their order. */
  lemma {:induction false} DropKeepsOrder(cols: seq<Column>, names: set<string>)
    ensures SubsequenceOf(DropColumns(cols, names), cols)
    decreases |cols|
  {
    if cols != [] {
      DropKeepsOrder(cols[1..], names);
      var rest := DropColumns(cols[1..], names);
      if cols[0].name in names {
        assert DropColumns(cols, names) == rest;
        SubsequenceExtend(rest, cols);
      } else {
        assert DropColumns(cols, names) == [cols[0]] + rest;
        assert ([cols[0]] + rest)[1..] == rest;
      }
    }
  }

  /** One more element in front of `b` keeps `a` a subsequence of it. */
  lemma SubsequenceExtend<T>(a: seq<T>, b: seq<T>)
    requires b != [] && SubsequenceOf(a, b[1..])
    ensures SubsequenceOf(a, b)
  {
  }

  /** Dropping names that are not there is not an error and changes nothing. */
  lemma {:induction false} DropAbsent(cols: seq<Column>, names: set<string>)
    requires forall c :: c in cols ==> c.name !in names
    ensures DropColumns(cols, names) == cols
    decreases |cols|
  {
    if cols != [] {
      assert cols[0] in cols;
      assert forall c :: c in cols[1..] ==> c in cols;
      DropAbsent(cols[1..], names);
      assert [cols[0]] + cols[1..] == cols;
    }
  }

  /** The dropped names are gone, whatever else is there. */
  lemma DropRemovesNames(t: Table, names: set<string>)
    requires WellFormed(t)
    ensures forall n :: n in Names(Drop(t, names).columns) ==> n !in names
  {
    var r := Drop(t, names).columns;
    forall n | n in Names(r) ensures n !in names {
      var j :| 0 <= j < |r| && Names(r)[j] == n;
      assert r[j] in r;
    }
  }

  /** The drop keeps every column whose name survives as many times as `cols`
      holds it, and no other column. */
  lemma {:induction false} DropKeepsCopies(cols: seq<Column>, names: set<string>)
    ensures forall c :: multiset(DropColumns(cols, names))[c] == if c.name in names then 0 else multiset(cols)[c]
    decreases |cols|
  {
    if cols != [] {
      DropKeepsCopies(cols[1..], names);
      assert cols == [cols[0]] + cols[1..];
      var kept := if cols[0].name in names then [] else [cols[0]];
      assert DropColumns(cols, names) == kept + DropColumns(cols[1..], names);
    }
  }

  /** The drop works column by column: dropping from two tables put side by
      side is dropping from each. */
  lemma {:induction false} DropSplits(a: seq<Column>, b: seq<Column>, names: set<string>)
    ensures DropColumns(a + b, names) == DropColumns(a, names) + DropColumns(b, names)
    decreases |a|
  {
    if a == [] {
      assert a + b == b;
    } else {
      assert (a + b)[0] == a[0];
      assert (a + b)[1..] == a[1..] + b;
      DropSplits(a[1..], b, names);
    }
  }
}
