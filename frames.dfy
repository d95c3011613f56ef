/**
 * The part of a pandas DataFrame the feature stage works with: an ordered list of
 * column labels and, for each label, its column of cells, all columns of one height.
 * Column operations (assigning, dropping and renaming a column, one-hot encoding,
 * casting to bool) are functions from frame to frame.
 */
module Frames {
  import opened Schema
  import Collation

  /** One cell: NaN, a number, a string, or a boolean. */
  datatype Cell = Null | Num(x: real) | Text(s: string) | Flag(b: bool)

  datatype Frame = Frame(columns: seq<string>, cells: map<string, seq<Cell>>, height: nat)

  /** Labels are distinct, every label has a column, and every column has `height` cells. */
  ghost predicate WellFormed(f: Frame) {
    && Distinct(f.columns)
    && (forall c :: c in f.cells <==> c in f.columns)
    && (forall c :: c in f.cells ==> |f.cells[c]| == f.height)
  }

  /**
   * `df[name] = values`: an existing column is overwritten in its place, a new one is
   * appended as the last column; every other column is kept.
   */
  function Assign(f: Frame, name: string, values: seq<Cell>): (r: Frame)
    requires WellFormed(f) && |values| == f.height
    ensures WellFormed(r) && r.height == f.height
    ensures name in f.columns ==> r.columns == f.columns
    ensures name !in f.columns ==> r.columns == f.columns + [name]
    ensures name in r.cells && r.cells[name] == values
    ensures forall c :: c in f.cells && c != name ==> c in r.cells && r.cells[c] == f.cells[c]
  {
    Frame(Appended(f.columns, name), f.cells[name := values], f.height)
  }

  /** `df.drop(columns=[name], errors="ignore")`. */
  function DropColumn(f: Frame, name: string): (r: Frame)
    requires WellFormed(f)
    ensures WellFormed(r) && r.height == f.height
    ensures forall c :: c in r.columns <==> c in f.columns && c != name
    ensures forall c :: c in r.cells ==> r.cells[c] == f.cells[c]
  {
    KeepDistinct(f.columns, {name});
    Frame(Drop(f.columns, name), f.cells - {name}, f.height)
  }

  /** Dropping a column that is not there leaves the frame as it is. */
  lemma DropAbsentColumn(f: Frame, name: string)
    requires WellFormed(f) && name !in f.columns
    ensures DropColumn(f, name) == f
  {
    KeepAbsent(f.columns, {name});
    assert f.cells - {name} == f.cells;
  }

  lemma MinusSnoc(m: map<string, seq<Cell>>, removed: set<string>, last: string)
    ensures m - removed - {last} == m - (removed + {last})
  {
  }

  /** `df.rename(columns={source: target})`: labels not present are ignored. */
  function RenameColumn(f: Frame, source: string, target: string): (r: Frame)
    requires WellFormed(f)
    requires source in f.columns ==> target !in f.columns
    ensures WellFormed(r) && r.height == f.height
    ensures r.columns == Renamed(f.columns, source, target)
    ensures source !in f.cells ==> r == f
    ensures source in f.cells ==> r.cells == (f.cells - {source})[target := f.cells[source]]
  {
    if source !in f.cells then
      RenamedAbsent(f.columns, source, target);
      f
    else
      RenamedDistinct(f.columns, source, target);
      RenamedCells(f, source, target);
      Frame(Renamed(f.columns, source, target), (f.cells - {source})[target := f.cells[source]], f.height)
  }

  /** The columns after a rename are keyed by the renamed labels and keep their height. */
  lemma RenamedCells(f: Frame, source: string, target: string)
    requires WellFormed(f) && source in f.cells && target !in f.columns
    ensures var m := (f.cells - {source})[target := f.cells[source]];
      && (forall c :: c in m <==> c in Renamed(f.columns, source, target))
      && (forall c :: c in m ==> |m[c]| == f.height)
  {
    RenamedMembers(f.columns, source, target);
  }

  /** `for col in names: df.drop(columns=[col])`. */
  function DropColumns(f: Frame, names: seq<string>): (r: Frame)
    requires WellFormed(f)
    ensures WellFormed(r) && r.height == f.height
    ensures r.columns == DropAll(f.columns, names)
    ensures r.cells == f.cells - (set n | n in names)
  {
    if names == [] then
      assert f.cells - (set n | n in names) == f.cells;
      f
    else
      var init := names[..|names| - 1];
      var last := names[|names| - 1];
      var prior := DropColumns(f, init);
      NamesSnoc(init, last);
      assert names == init + [last];
      MinusSnoc(f.cells, (set n | n in init), last);
      DropColumn(prior, last)
  }

  /** `for source, target in pairs: df.rename(columns={source: target})`. */
  function RenameColumns(f: Frame, pairs: seq<(string, string)>): (r: Frame)
    requires WellFormed(f)
    requires RenamesFresh(f.columns, pairs)
    ensures WellFormed(r) && r.height == f.height
    ensures r.columns == RenameAll(f.columns, pairs)
    ensures forall c :: c in f.cells ==>
              RenameName(c, pairs) in r.cells && r.cells[RenameName(c, pairs)] == f.cells[c]
  {
    if pairs == [] then f
    else
      var prior := RenameColumns(f, pairs[..|pairs| - 1]);
      var (source, target) := pairs[|pairs| - 1];
      RenameColumn(prior, source, target)
  }

  /** What `astype(bool)` makes of a cell (NaN is truthy in numpy). */
  function AsBool(c: Cell): bool {
    match c
    case Null => true
    case Num(x) => x != 0.0
    case Text(s) => s != ""
    case Flag(b) => b
  }

  /** The column already has dtype bool. */
  predicate IsBoolColumn(column: seq<Cell>) {
    forall i :: 0 <= i < |column| ==> column[i].Flag?
  }

  /** `column.astype(bool)`. */
  function AsBoolColumn(column: seq<Cell>): (r: seq<Cell>)
    ensures |r| == |column| && IsBoolColumn(r)
    ensures forall i :: 0 <= i < |column| ==> r[i] == Flag(AsBool(column[i]))
  {
    seq(|column|, i requires 0 <= i < |column| => Flag(AsBool(column[i])))
  }

  /** Casting a column that is already boolean changes none of its cells. */
  lemma AsBoolColumnOfBool(column: seq<Cell>)
    requires IsBoolColumn(column)
    ensures AsBoolColumn(column) == column
  {
    forall i | 0 <= i < |column| ensures AsBoolColumn(column)[i] == column[i] {
      assert column[i].Flag?;
    }
  }

  /** `if col in df.columns and df[col].dtype != bool: df[col] = df[col].astype(bool)`. */
  function CastColumn(f: Frame, name: string): (r: Frame)
    requires WellFormed(f)
    ensures WellFormed(r) && r.height == f.height
    ensures r.columns == f.columns && r.cells.Keys == f.cells.Keys
    ensures forall c :: c in f.cells ==>
              r.cells[c] == if c == name && !IsBoolColumn(f.cells[c]) then AsBoolColumn(f.cells[c]) else f.cells[c]
  {
    if name in f.columns && !IsBoolColumn(f.cells[name]) then Assign(f, name, AsBoolColumn(f.cells[name]))
    else f
  }

  /**
   * The bool cast applied to each of `names` in turn: afterwards each of them that is
   * present is boolean, a column that was already boolean is untouched, and any other
   * column keeps its cells.
   */
  function CastColumns(f: Frame, names: seq<string>): (r: Frame)
    requires WellFormed(f)
    ensures WellFormed(r) && r.height == f.height
    ensures r.columns == f.columns && r.cells.Keys == f.cells.Keys
    ensures forall c :: c in f.cells && c in names ==> IsBoolColumn(r.cells[c])
    ensures forall c :: c in f.cells && (c !in names || IsBoolColumn(f.cells[c])) ==> r.cells[c] == f.cells[c]
    ensures forall c :: c in f.cells && c in names && !IsBoolColumn(f.cells[c]) ==> r.cells[c] == AsBoolColumn(f.cells[c])
  {
    if names == [] then f
    else
      var init := names[..|names| - 1];
      var prior := CastColumns(f, init);
      assert forall c :: c in names <==> c in init || c == names[|names| - 1] by {
        assert names == init + [names[|names| - 1]];
      }
      forall c | c in prior.cells && IsBoolColumn(prior.cells[c]) ensures AsBoolColumn(prior.cells[c]) == prior.cells[c] {
        AsBoolColumnOfBool(prior.cells[c]);
      }
      CastColumn(prior, names[|names| - 1])
  }

  /** `column.map(g)`, or an elementwise numpy function: one cell in, one cell out, row by row. */
  function MapCells(column: seq<Cell>, g: Cell -> Cell): (r: seq<Cell>)
    ensures |r| == |column|
    ensures forall i :: 0 <= i < |column| ==> r[i] == g(column[i])
  {
    seq(|column|, i requires 0 <= i < |column| => g(column[i]))
  }

  /** The strings of a column, in row order, skipping every other cell. */
  function TextValues(column: seq<Cell>): (r: seq<string>)
    ensures forall v :: v in r <==> Text(v) in column
  {
    if column == [] then []
    else
      assert forall c :: c in column <==> c == column[0] || c in column[1..] by {
        assert column == [column[0]] + column[1..];
      }
      (if column[0].Text? then [column[0].s] else []) + TextValues(column[1..])
  }

  /** The label `get_dummies` gives the indicator of `value`. */
  function DummyName(prefix: string, value: string): string {
    prefix + "_" + value
  }

  lemma DummyNameInjective(prefix: string, a: string, b: string)
    requires DummyName(prefix, a) == DummyName(prefix, b)
    ensures a == b
  {
    assert DummyName(prefix, a)[|prefix| + 1..] == a;
    assert DummyName(prefix, b)[|prefix| + 1..] == b;
  }

  /** The indicator labels of `values`, in the same order. */
  function DummyNames(prefix: string, values: seq<string>): (r: seq<string>)
    ensures |r| == |values|
  {
    if values == [] then [] else [DummyName(prefix, values[0])] + DummyNames(prefix, values[1..])
  }

  lemma {:induction false} DummyNamesAt(prefix: string, values: seq<string>)
    ensures forall k :: 0 <= k < |values| ==> DummyNames(prefix, values)[k] == DummyName(prefix, values[k])
  {
    if values != [] {
      DummyNamesAt(prefix, values[1..]);
    }
  }

  /** The indicator labels are exactly the labels of the values. */
  lemma DummyNamesMembers(prefix: string, values: seq<string>)
    ensures forall n :: n in DummyNames(prefix, values) <==> exists v :: v in values && n == DummyName(prefix, v)
  {
    DummyNamesAt(prefix, values);
    var names := DummyNames(prefix, values);
    forall n ensures n in names <==> exists v :: v in values && n == DummyName(prefix, v) {
      if n in names {
        var k :| 0 <= k < |names| && names[k] == n;
        assert values[k] in values;
      }
      if exists v :: v in values && n == DummyName(prefix, v) {
        var v :| v in values && n == DummyName(prefix, v);
        var k :| 0 <= k < |values| && values[k] == v;
        assert names[k] == n;
      }
    }
  }

  /** The indicator column of `value`: true exactly in the rows holding that string. */
  function Indicator(column: seq<Cell>, value: string): (r: seq<Cell>)
    ensures |r| == |column| && IsBoolColumn(r)
    ensures forall i :: 0 <= i < |column| ==> r[i] == Flag(column[i] == Text(value))
  {
    seq(|column|, i requires 0 <= i < |column| => Flag(column[i] == Text(value)))
  }

  /** The indicator columns of `values`, appended after the columns of `f`. */
  function AddIndicators(f: Frame, column: seq<Cell>, prefix: string, values: seq<string>): (r: Frame)
    requires WellFormed(f) && |column| == f.height
    requires Distinct(values)
    requires forall v :: v in values ==> DummyName(prefix, v) !in f.columns
    ensures WellFormed(r) && r.height == f.height
    ensures r.columns == f.columns + DummyNames(prefix, values)
    decreases |values|
  {
    if values == [] then f
    else
      var name := DummyName(prefix, values[0]);
      var next := Frame(f.columns + [name], f.cells[name := Indicator(column, values[0])], f.height);
      IndicatorAdded(f, column, prefix, values);
      var r := AddIndicators(next, column, prefix, values[1..]);
      assert r.columns == f.columns + DummyNames(prefix, values) by {
        assert DummyNames(prefix, values) == [name] + DummyNames(prefix, values[1..]);
        assert r.columns == (f.columns + [name]) + DummyNames(prefix, values[1..]);
      }
      r
  }

  /** The columns of `f` are kept as they were. */
  lemma {:induction false} AddIndicatorsKeeps(f: Frame, column: seq<Cell>, prefix: string, values: seq<string>)
    requires WellFormed(f) && |column| == f.height
    requires Distinct(values)
    requires forall v :: v in values ==> DummyName(prefix, v) !in f.columns
    ensures var r := AddIndicators(f, column, prefix, values);
      forall c :: c in f.cells ==> c in r.cells && r.cells[c] == f.cells[c]
    decreases |values|
  {
    if values != [] {
      var name := DummyName(prefix, values[0]);
      var next := Frame(f.columns + [name], f.cells[name := Indicator(column, values[0])], f.height);
      IndicatorAdded(f, column, prefix, values);
      AddIndicatorsKeeps(next, column, prefix, values[1..]);
      assert values[0] in values;
      assert forall c :: c in f.cells ==> c in next.cells && next.cells[c] == f.cells[c];
    }
  }

  /** Each value gets its indicator column. */
  lemma {:induction false} AddIndicatorsSets(f: Frame, column: seq<Cell>, prefix: string, values: seq<string>)
    requires WellFormed(f) && |column| == f.height
    requires Distinct(values)
    requires forall v :: v in values ==> DummyName(prefix, v) !in f.columns
    ensures var r := AddIndicators(f, column, prefix, values);
      forall v :: v in values ==> DummyName(prefix, v) in r.cells && r.cells[DummyName(prefix, v)] == Indicator(column, v)
    decreases |values|
  {
    if values != [] {
      var name := DummyName(prefix, values[0]);
      var next := Frame(f.columns + [name], f.cells[name := Indicator(column, values[0])], f.height);
      IndicatorAdded(f, column, prefix, values);
      AddIndicatorsSets(next, column, prefix, values[1..]);
      AddIndicatorsKeeps(next, column, prefix, values[1..]);
      assert name in next.cells && next.cells[name] == Indicator(column, values[0]);
      assert forall v :: v in values ==> v == values[0] || v in values[1..] by {
        assert values == [values[0]] + values[1..];
      }
    }
  }

  /** One step of `AddIndicators`: the frame stays well formed and the rest stay fresh. */
  lemma IndicatorAdded(f: Frame, column: seq<Cell>, prefix: string, values: seq<string>)
    requires WellFormed(f) && |column| == f.height
    requires Distinct(values) && values != []
    requires forall v :: v in values ==> DummyName(prefix, v) !in f.columns
    ensures var name := DummyName(prefix, values[0]);
      var next := Frame(f.columns + [name], f.cells[name := Indicator(column, values[0])], f.height);
      && WellFormed(next)
      && Distinct(values[1..])
      && forall v :: v in values[1..] ==> DummyName(prefix, v) !in next.columns
  {
    var name := DummyName(prefix, values[0]);
    assert values[0] in values;
    forall v | v in values[1..] ensures DummyName(prefix, v) !in f.columns + [name] {
      var k :| 0 <= k < |values[1..]| && values[1..][k] == v;
      assert values[k + 1] == v;
      assert v in values;
      if DummyName(prefix, v) == name { DummyNameInjective(prefix, v, values[0]); }
    }
  }

  /**
   * `pd.get_dummies(df, columns=[name], prefix=prefix)` on a column of strings and
   * NaNs: the column is removed and one boolean indicator per distinct string is
   * appended, in sorted order; a NaN row is false in every indicator.
   */
  function OneHot(f: Frame, name: string, prefix: string): (r: Frame)
    requires WellFormed(f) && name in f.columns
    requires forall i :: 0 <= i < |f.cells[name]| ==> f.cells[name][i].Text? || f.cells[name][i].Null?
    requires forall v :: Text(v) in f.cells[name] ==> DummyName(prefix, v) !in f.columns
    ensures WellFormed(r) && r.height == f.height
    ensures r.columns == Drop(f.columns, name) + DummyNames(prefix, DummyValues(f.cells[name]))
  {
    var column := f.cells[name];
    var values := DummyValues(column);
    var base := DropColumn(f, name);
    assert forall v :: v in values ==> DummyName(prefix, v) !in base.columns;
    AddIndicators(base, column, prefix, values)
  }

  /** The strings that get an indicator: the distinct strings of the column, sorted. */
  function DummyValues(column: seq<Cell>): (values: seq<string>)
    ensures Collation.StrictlySorted(values)
    ensures Distinct(values)
    ensures forall v :: v in values <==> Text(v) in column
  {
    var values := Collation.SortedDistinct(TextValues(column));
    assert Distinct(values) by {
      forall i, j | 0 <= i < j < |values| ensures values[i] != values[j] {
        Collation.StrictlySortedIsDistinct(values, i, j);
      }
    }
    values
  }

  /** One-hot encoding keeps every other column and gives each string its indicator. */
  lemma OneHotCells(f: Frame, name: string, prefix: string)
    requires WellFormed(f) && name in f.columns
    requires forall i :: 0 <= i < |f.cells[name]| ==> f.cells[name][i].Text? || f.cells[name][i].Null?
    requires forall v :: Text(v) in f.cells[name] ==> DummyName(prefix, v) !in f.columns
    ensures var r := OneHot(f, name, prefix);
      && (forall c :: c in f.cells && c != name ==> c in r.cells && r.cells[c] == f.cells[c])
      && (forall v :: Text(v) in f.cells[name] ==>
            DummyName(prefix, v) in r.cells && r.cells[DummyName(prefix, v)] == Indicator(f.cells[name], v))
  {
    var column := f.cells[name];
    var values := DummyValues(column);
    var base := DropColumn(f, name);
    assert forall v :: v in values ==> DummyName(prefix, v) !in base.columns;
    AddIndicatorsKeeps(base, column, prefix, values);
    AddIndicatorsSets(base, column, prefix, values);
  }
}
