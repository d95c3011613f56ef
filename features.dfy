/**
 * Stage two of the pipeline: the cleaned table becomes the model's feature table.
 * The per-row encodings (education ordinal, experience binning, gender one-hot) are
 * lookups; the rest is a fixed sequence of column edits.
 */
module Features {
  import opened Wrappers
  import opened Schema
  import opened Frames

  // ---------------------------------------------------------------------------
  // Column labels

  const SalaryColumn := "Salary"
  const SalaryLogColumn := "Salary_log"
  const GenderColumn := "Gender"
  const GenderPrefix := "gender"
  const EducationColumn := "Education Level"
  const EducationOrdinalColumn := "Education_Level_ordinal"
  const ExperienceColumn := "Years of Experience"
  const ExperienceLevelColumn := "experience_level"
  const ExperienceOrdinalColumn := "experience_level_ordinal"
  const GenderMissingColumn := "gender_Missing"

  /** `cols_to_drop`, in the order the loop visits it. */
  const ColumnsToDrop: seq<string> :=
    [ExperienceLevelColumn, "id", "Description", "Job Title", "Age", EducationColumn]

  /** `rename_map`, in insertion order; `Education_Level_ordinal` is not in it. */
  const RenamePairs: seq<(string, string)> :=
    [(ExperienceColumn, "years_experience"), ("gender_Female", "gender_female"), ("gender_Male", "gender_male")]

  /** The two indicator columns the bool cast looks at. */
  const BoolColumns: seq<string> := ["gender_female", "gender_male"]

  // ---------------------------------------------------------------------------
  // Education ordinal

  /** The keys of `edu_map`; a level's ordinal is its position here. */
  const EducationLevels: seq<string> := ["Missing", "Bachelor's", "Master's", "PhD"]

  /** `edu_map`: the ordinal of a known level; any other string has none. */
  function EducationOrdinal(level: string): (r: Option<int>)
    ensures r.Some? <==> level in EducationLevels
    ensures r.Some? ==> 0 <= r.value < |EducationLevels| && EducationLevels[r.value] == level
  {
    if level == "Missing" then Some(0)
    else if level == "Bachelor's" then Some(1)
    else if level == "Master's" then Some(2)
    else if level == "PhD" then Some(3)
    else None
  }

  /** `Series.map(edu_map)` on one cell: a value that is not a key (NaN included) becomes NaN. */
  function EducationCell(c: Cell): (r: Cell)
    ensures r != Null <==> c.Text? && c.s in EducationLevels
    ensures r != Null ==> r == Num(EducationOrdinal(c.s).value as real)
  {
    if c.Text? && EducationOrdinal(c.s).Some? then Num(EducationOrdinal(c.s).value as real) else Null
  }

  // ---------------------------------------------------------------------------
  // Experience binning

  datatype ExperienceLevel = Junior | SemiSenior | Senior | Expert

  /** The finite edges of `bins`; the last bin is open towards infinity. */
  const BinEdges: seq<real> := [0.0, 2.0, 7.0, 15.0]

  /** `labels`, one per bin. */
  const LevelLabels: seq<string> := ["junior", "semi-senior", "senior", "expert"]

  function LevelIndex(l: ExperienceLevel): (k: nat)
    ensures k < |LevelLabels|
  {
    match l
    case Junior => 0
    case SemiSenior => 1
    case Senior => 2
    case Expert => 3
  }

  function Label(l: ExperienceLevel): string {
    LevelLabels[LevelIndex(l)]
  }

  /**
   * `pd.cut(years, bins=[0, 2, 7, 15, inf], labels=..., include_lowest=True)`: the
   * bins are closed on the right, and the first is also closed on the left.
   */
  function ExperienceBin(years: real): (r: Option<ExperienceLevel>)
    ensures r.None? <==> years < BinEdges[0]
  {
    if years < BinEdges[0] then None
    else if years <= BinEdges[1] then Some(Junior)
    else if years <= BinEdges[2] then Some(SemiSenior)
    else if years <= BinEdges[3] then Some(Senior)
    else Some(Expert)
  }

  /** `years` lies in the `k`-th interval: [0,2], (2,7], (7,15] or (15, inf). */
  predicate InBin(years: real, k: nat)
    requires k < |BinEdges|
  {
    && (if k == 0 then BinEdges[0] <= years else BinEdges[k] < years)
    && (k + 1 == |BinEdges| || years <= BinEdges[k + 1])
  }

  /** `exp_map`: a label's ordinal is its position among the labels. */
  function LabelOrdinal(name: string): (r: Option<int>)
    ensures r.Some? <==> name in LevelLabels
    ensures r.Some? ==> 0 <= r.value < |LevelLabels| && LevelLabels[r.value] == name
  {
    if name == "junior" then Some(0)
    else if name == "semi-senior" then Some(1)
    else if name == "senior" then Some(2)
    else if name == "expert" then Some(3)
    else None
  }

  /** The experience ordinal of a number of years: `exp_map` of its `pd.cut` label. */
  function ExperienceOrdinal(years: real): Option<int> {
    match ExperienceBin(years)
    case None => None
    case Some(l) => LabelOrdinal(Label(l))
  }

  /**
   * The number `pd.cut` bins for one cell: a number as it is, a boolean as 0 or 1
   * (`pd.cut` casts booleans to integers), nothing for NaN.
   */
  function CutValue(c: Cell): (v: Option<real>)
    ensures c.Num? ==> v == Some(c.x)
    ensures c.Flag? ==> v == Some(if c.b then 1.0 else 0.0)
    ensures c.Null? || c.Text? ==> v.None?
  {
    match c
    case Num(x) => Some(x)
    case Flag(b) => Some(if b then 1.0 else 0.0)
    case _ => None
  }

  /** `pd.cut` on one cell of a numeric column: NaN and values outside every bin give NaN. */
  function ExperienceLevelCell(c: Cell): Cell {
    var v := CutValue(c);
    if v.Some? && ExperienceBin(v.value).Some? then Text(Label(ExperienceBin(v.value).value)) else Null
  }

  /** `Series.map(exp_map)` on one cell of the binned column. */
  function ExperienceOrdinalCell(c: Cell): Cell {
    if c.Text? && LabelOrdinal(c.s).Some? then Num(LabelOrdinal(c.s).value as real) else Null
  }

  /**
   * `pd.cut` accepts a column of numbers, booleans and NaNs; a string in it makes the
   * comparison with the bin edges raise `TypeError`.
   */
  predicate IsNumericColumn(column: seq<Cell>) {
    forall i :: 0 <= i < |column| ==> !column[i].Text?
  }

  predicate IsTextColumn(column: seq<Cell>) {
    forall i :: 0 <= i < |column| ==> column[i].Text? || column[i].Null?
  }

  // ---------------------------------------------------------------------------
  // The steps of `main`

  /**
   * What `main` can raise: `np.log(df["Salary"])` without a Salary column, and
   * `pd.cut` on a non-numeric column. A label that the one-hot encoding or a rename
   * would introduce twice is refused too (pandas would go on with duplicate labels).
   */
  datatype FeatureError = KeyError(column: string) | TypeError(column: string) | DuplicateLabel

  /** `if use_log_salary: df["Salary_log"] = np.log(df["Salary"])`, `log` being `np.log` per cell. */
  function LogStep(f: Frame, useLog: bool, log: Cell -> Cell): (r: Result<Frame, FeatureError>)
    requires WellFormed(f)
    ensures r.Failure? <==> useLog && SalaryColumn !in f.columns
    ensures r.Failure? ==> r.error == KeyError(SalaryColumn)
    ensures r.Success? ==> WellFormed(r.value) && r.value.height == f.height
    ensures r.Success? ==> r.value.columns == if useLog then Appended(f.columns, SalaryLogColumn) else f.columns
    ensures r.Success? ==> forall c :: c in f.cells && c != SalaryLogColumn ==> c in r.value.cells && r.value.cells[c] == f.cells[c]
    ensures r.Success? && useLog ==> r.value.cells[SalaryLogColumn] == MapCells(f.cells[SalaryColumn], log)
  {
    if !useLog then Success(f)
    else if SalaryColumn !in f.columns then Failure(KeyError(SalaryColumn))
    else Success(Assign(f, SalaryLogColumn, MapCells(f.cells[SalaryColumn], log)))
  }

  /** The strings the one-hot encoding of `Gender` makes indicators for (none without the column). */
  function GenderValues(f: Frame): seq<string> {
    if GenderColumn in f.cells then DummyValues(f.cells[GenderColumn]) else []
  }

  /** Some indicator label of `values` is already a column. */
  predicate DummyClash(cols: seq<string>, values: seq<string>) {
    exists v :: v in values && DummyName(GenderPrefix, v) in cols
  }

  /** `if "Gender" in df.columns: df = pd.get_dummies(df, columns=["Gender"], prefix="gender")`. */
  function GenderStep(f: Frame): (r: Result<Frame, FeatureError>)
    requires WellFormed(f)
    requires GenderColumn in f.cells ==> IsTextColumn(f.cells[GenderColumn])
    ensures r.Failure? <==> GenderColumn in f.columns && DummyClash(f.columns, GenderValues(f))
    ensures r.Success? ==> WellFormed(r.value) && r.value.height == f.height
    ensures r.Success? ==> (r.value.columns ==
      if GenderColumn in f.columns then Drop(f.columns, GenderColumn) + DummyNames(GenderPrefix, GenderValues(f)) else f.columns)
  {
    if GenderColumn !in f.columns then Success(f)
    else if DummyClash(f.columns, GenderValues(f)) then Failure(DuplicateLabel)
    else Success(OneHot(f, GenderColumn, GenderPrefix))
  }

  /** `if "Education Level" in df.columns: df["Education_Level_ordinal"] = df["Education Level"].map(edu_map)`. */
  function EducationStep(f: Frame): (r: Frame)
    requires WellFormed(f)
    ensures WellFormed(r) && r.height == f.height
    ensures r.columns == if EducationColumn in f.columns then Appended(f.columns, EducationOrdinalColumn) else f.columns
  {
    if EducationColumn in f.columns then Assign(f, EducationOrdinalColumn, MapCells(f.cells[EducationColumn], EducationCell))
    else f
  }

  /**
   * `if "Years of Experience" in df.columns`: bin the column into `experience_level`,
   * then map the labels to `experience_level_ordinal`.
   */
  function ExperienceStep(f: Frame): (r: Result<Frame, FeatureError>)
    requires WellFormed(f)
    ensures r.Failure? <==> ExperienceColumn in f.columns && !IsNumericColumn(f.cells[ExperienceColumn])
    ensures r.Failure? ==> r.error == TypeError(ExperienceColumn)
    ensures r.Success? ==> WellFormed(r.value) && r.value.height == f.height
    ensures r.Success? ==> (r.value.columns ==
      if ExperienceColumn in f.columns
      then Appended(Appended(f.columns, ExperienceLevelColumn), ExperienceOrdinalColumn)
      else f.columns)
  {
    if ExperienceColumn !in f.columns then Success(f)
    else if !IsNumericColumn(f.cells[ExperienceColumn]) then Failure(TypeError(ExperienceColumn))
    else
      var binned := Assign(f, ExperienceLevelColumn, MapCells(f.cells[ExperienceColumn], ExperienceLevelCell));
      Success(Assign(binned, ExperienceOrdinalColumn, MapCells(binned.cells[ExperienceLevelColumn], ExperienceOrdinalCell)))
  }

  /**
   * `for old_col, new_col in rename_map.items(): if old_col in df.columns: df.rename(...)`;
   * a rename onto a label that is already there is refused.
   */
  function RenameStep(f: Frame, pairs: seq<(string, string)>): (r: Result<Frame, FeatureError>)
    requires WellFormed(f)
    ensures r.Success? <==> RenamesFresh(f.columns, pairs)
    ensures r.Success? ==> r.value == RenameColumns(f, pairs)
    ensures r.Failure? ==> r.error == DuplicateLabel
  {
    if pairs == [] then Success(f)
    else
      var prior := RenameStep(f, pairs[..|pairs| - 1]);
      if prior.Failure? then prior
      else
        var (source, target) := pairs[|pairs| - 1];
        if source in prior.value.columns && target in prior.value.columns then Failure(DuplicateLabel)
        else Success(RenameColumn(prior.value, source, target))
  }

  /** Once a rename is refused, the whole rename loop is. */
  lemma {:induction false} RenameStepFailurePersists(f: Frame, pairs: seq<(string, string)>, k: nat)
    requires WellFormed(f) && k <= |pairs|
    requires RenameStep(f, pairs[..k]).Failure?
    ensures RenameStep(f, pairs) == Failure(DuplicateLabel)
  {
    if k == |pairs| {
      assert pairs[..k] == pairs;
    } else {
      var init := pairs[..|pairs| - 1];
      assert init[..k] == pairs[..k];
      RenameStepFailurePersists(f, init, k);
    }
  }

  /** One more pass of the rename loop, on the frame the earlier passes left. */
  lemma RenameStepNext(f: Frame, pairs: seq<(string, string)>, k: nat, df: Frame)
    requires WellFormed(f) && k < |pairs|
    requires RenameStep(f, pairs[..k]) == Success(df)
    ensures WellFormed(df)
    ensures RenameStep(f, pairs[..k + 1]) ==
      if pairs[k].0 in df.columns && pairs[k].1 in df.columns then Failure(DuplicateLabel)
      else Success(RenameColumn(df, pairs[k].0, pairs[k].1))
  {
    assert pairs[..k + 1][..k] == pairs[..k];
  }

  /** Steps 1 to 4: the new columns, before any column is dropped or renamed. */
  function Encoded(f: Frame, useLog: bool, log: Cell -> Cell): (r: Result<Frame, FeatureError>)
    requires WellFormed(f)
    requires GenderColumn in f.cells ==> IsTextColumn(f.cells[GenderColumn])
    ensures r.Success? ==> WellFormed(r.value) && r.value.height == f.height
  {
    var logged := LogStep(f, useLog, log);
    if logged.Failure? then Failure(logged.error)
    else
      var encoded := GenderStep(logged.value);
      if encoded.Failure? then Failure(encoded.error)
      else ExperienceStep(EducationStep(encoded.value))
  }

  /** Steps 5 to 8: the drops, the renames, the `gender_Missing` removal and the bool cast. */
  function Finished(f: Frame): (r: Result<Frame, FeatureError>)
    requires WellFormed(f)
    ensures r.Success? ==> WellFormed(r.value) && r.value.height == f.height
  {
    var dropped := DropColumns(f, ColumnsToDrop);
    var renamed := RenameStep(dropped, RenamePairs);
    if renamed.Failure? then Failure(renamed.error)
    else Success(CastColumns(DropColumn(renamed.value, GenderMissingColumn), BoolColumns))
  }

  /**
   * The body of `main` between reading and writing the CSV: the feature table, or
   * the error it raises. It never adds or removes a row.
   */
  function DerivedFeatures(f: Frame, useLog: bool, log: Cell -> Cell): (r: Result<Frame, FeatureError>)
    requires WellFormed(f)
    requires GenderColumn in f.cells ==> IsTextColumn(f.cells[GenderColumn])
    ensures r.Success? ==> WellFormed(r.value) && r.value.height == f.height
  {
    var encoded := Encoded(f, useLog, log);
    if encoded.Failure? then encoded else Finished(encoded.value)
  }

  /** The body of `main`, as the source runs it: one in-place edit after another. */
  method DeriveFeatures(f: Frame, useLog: bool, log: Cell -> Cell) returns (result: Result<Frame, FeatureError>)
    requires WellFormed(f)
    requires GenderColumn in f.cells ==> IsTextColumn(f.cells[GenderColumn])
    ensures result == DerivedFeatures(f, useLog, log)
  {
    result := Encode(f, useLog, log);
    if result.Failure? {
      return;
    }
    var df := DropIrrelevant(result.value);
    result := RenameFeatures(df);
    if result.Failure? {
      return;
    }
    df := result.value;
    if GenderMissingColumn in df.columns {
      df := DropColumn(df, GenderMissingColumn);
    } else {
      DropAbsentColumn(df, GenderMissingColumn);
    }
    df := CastFlags(df);
    result := Success(df);
  }

  /** Steps 1 to 4 of `main`: the log column, the gender indicators and the two ordinals. */
  method Encode(f: Frame, useLog: bool, log: Cell -> Cell) returns (result: Result<Frame, FeatureError>)
    requires WellFormed(f)
    requires GenderColumn in f.cells ==> IsTextColumn(f.cells[GenderColumn])
    ensures result == Encoded(f, useLog, log)
  {
    var df := f;
    if useLog {
      if SalaryColumn !in df.columns {
        return Failure(KeyError(SalaryColumn));
      }
      df := Assign(df, SalaryLogColumn, MapCells(df.cells[SalaryColumn], log));
    }
    assert LogStep(f, useLog, log) == Success(df);
    LogStepKeepsGender(f, useLog, log);
    var logged := df;
    if GenderColumn in df.columns {
      if exists v :: v in DummyValues(df.cells[GenderColumn]) && DummyName(GenderPrefix, v) in df.columns {
        assert DummyClash(logged.columns, GenderValues(logged));
        assert Encoded(f, useLog, log) == Failure(DuplicateLabel);
        return Failure(DuplicateLabel);
      }
      df := OneHot(df, GenderColumn, GenderPrefix);
    }
    assert GenderStep(logged) == Success(df);
    var encoded := df;
    if EducationColumn in df.columns {
      df := Assign(df, EducationOrdinalColumn, MapCells(df.cells[EducationColumn], EducationCell));
    }
    assert EducationStep(encoded) == df;
    var educated := df;
    assert Encoded(f, useLog, log) == ExperienceStep(educated);
    if ExperienceColumn in df.columns {
      var years := df.cells[ExperienceColumn];
      if exists i :: 0 <= i < |years| && years[i].Text? {
        assert ExperienceStep(educated) == Failure(TypeError(ExperienceColumn));
        return Failure(TypeError(ExperienceColumn));
      }
      assert IsNumericColumn(years);
      df := Assign(df, ExperienceLevelColumn, MapCells(years, ExperienceLevelCell));
      df := Assign(df, ExperienceOrdinalColumn, MapCells(df.cells[ExperienceLevelColumn], ExperienceOrdinalCell));
    }
    result := Success(df);
    assert ExperienceStep(educated) == result;
  }

  /** `for col in cols_to_drop: if col in df.columns: df.drop(columns=[col], inplace=True)`. */
  method DropIrrelevant(f: Frame) returns (df: Frame)
    requires WellFormed(f)
    ensures df == DropColumns(f, ColumnsToDrop)
  {
    df := f;
    for k := 0 to |ColumnsToDrop|
      invariant df == DropColumns(f, ColumnsToDrop[..k])
    {
      assert ColumnsToDrop[..k + 1][..k] == ColumnsToDrop[..k];
      if ColumnsToDrop[k] in df.columns {
        df := DropColumn(df, ColumnsToDrop[k]);
      } else {
        DropAbsentColumn(df, ColumnsToDrop[k]);
      }
    }
    assert ColumnsToDrop[..|ColumnsToDrop|] == ColumnsToDrop;
  }

  /** `for old_col, new_col in rename_map.items(): if old_col in df.columns: df.rename(...)`. */
  method RenameFeatures(f: Frame) returns (result: Result<Frame, FeatureError>)
    requires WellFormed(f)
    ensures result == RenameStep(f, RenamePairs)
  {
    var df := f;
    for k := 0 to |RenamePairs|
      invariant WellFormed(df)
      invariant RenameStep(f, RenamePairs[..k]) == Success(df)
    {
      RenameStepNext(f, RenamePairs, k, df);
      var (source, target) := RenamePairs[k];
      if source in df.columns {
        if target in df.columns {
          RenameStepFailurePersists(f, RenamePairs, k + 1);
          return Failure(DuplicateLabel);
        }
        df := RenameColumn(df, source, target);
      }
    }
    assert RenamePairs[..|RenamePairs|] == RenamePairs;
    result := Success(df);
  }

  /** `for col in ["gender_female", "gender_male"]: if col in df.columns and df[col].dtype != bool: ...astype(bool)`. */
  method CastFlags(f: Frame) returns (df: Frame)
    requires WellFormed(f)
    ensures df == CastColumns(f, BoolColumns)
  {
    df := f;
    for k := 0 to |BoolColumns|
      invariant df == CastColumns(f, BoolColumns[..k])
    {
      assert BoolColumns[..k + 1][..k] == BoolColumns[..k];
      var col := BoolColumns[k];
      if col in df.columns && !IsBoolColumn(df.cells[col]) {
        df := Assign(df, col, AsBoolColumn(df.cells[col]));
      }
    }
    assert BoolColumns[..|BoolColumns|] == BoolColumns;
  }

  // ---------------------------------------------------------------------------
  // The encodings

  /** A bin is exactly its interval. */
  lemma ExperienceBinIntervals(years: real, k: nat)
    requires k < |BinEdges|
    ensures (ExperienceBin(years).Some? && LevelIndex(ExperienceBin(years).value) == k) <==> InBin(years, k)
  {
  }

  /** `exp_map` undoes `labels`: the ordinal of a number of years is the index of its bin. */
  lemma ExperienceOrdinalIsBinIndex(years: real)
    ensures ExperienceOrdinal(years) == if years < 0.0 then None else Some(LevelIndex(ExperienceBin(years).value))
  {
  }

  /** Every non-negative number of years has an ordinal, in 0..3; a negative one has none. */
  lemma ExperienceOrdinalRange(years: real)
    ensures ExperienceOrdinal(years).Some? <==> 0.0 <= years
    ensures ExperienceOrdinal(years).Some? ==> 0 <= ExperienceOrdinal(years).value <= 3
  {
  }

  /** More years never give a lower ordinal. */
  lemma ExperienceOrdinalMonotone(y1: real, y2: real)
    requires 0.0 <= y1 <= y2
    ensures ExperienceOrdinal(y1).value <= ExperienceOrdinal(y2).value
  {
  }

  /** The edges: 0 and 2 are junior, 3 and 7 semi-senior, 8 and 15 senior, 16 expert. */
  lemma ExperienceOrdinalEdges()
    ensures ExperienceOrdinal(0.0) == Some(0) && ExperienceOrdinal(2.0) == Some(0)
    ensures ExperienceOrdinal(3.0) == Some(1) && ExperienceOrdinal(7.0) == Some(1)
    ensures ExperienceOrdinal(8.0) == Some(2) && ExperienceOrdinal(15.0) == Some(2)
    ensures ExperienceOrdinal(16.0) == Some(3) && ExperienceOrdinal(-1.0) == None
  {
  }

  /** Binning a cell and mapping its label gives the cell's experience ordinal. */
  lemma ExperienceCellsCompose(c: Cell)
    ensures ExperienceOrdinalCell(ExperienceLevelCell(c)) ==
      var v := CutValue(c);
      if v.Some? && ExperienceOrdinal(v.value).Some? then Num(ExperienceOrdinal(v.value).value as real) else Null
  {
  }

  /** A boolean, binned as 0 or 1, always lands in the first bin. */
  lemma ExperienceOfFlag(b: bool)
    ensures ExperienceLevelCell(Flag(b)) == Text("junior")
    ensures ExperienceOrdinalCell(ExperienceLevelCell(Flag(b))) == Num(0.0)
  {
  }

  // ---------------------------------------------------------------------------
  // The schema of the result

  /** Where `rename_map` sends a label. */
  lemma RenameNameOfPairs(c: string)
    ensures RenameName(c, RenamePairs) ==
      if c == ExperienceColumn then "years_experience"
      else if c == "gender_Female" then "gender_female"
      else if c == "gender_Male" then "gender_male"
      else c
  {
    var p := RenamePairs;
    assert p[..2][..1] == p[..1] && p[..3][..2] == p[..2] && p[..1][..0] == [] && p[..3] == p;
    assert RenameName(c, p[..1]) == if c == ExperienceColumn then "years_experience" else c;
  }

  /** The labels after steps 1 to 4 (log column, indicators, ordinals). */
  function EncodedColumns(cols: seq<string>, genders: seq<string>, useLog: bool): seq<string> {
    var logged := if useLog then Appended(cols, SalaryLogColumn) else cols;
    var encoded := if GenderColumn in logged then Drop(logged, GenderColumn) + DummyNames(GenderPrefix, genders) else logged;
    var educated := if EducationColumn in encoded then Appended(encoded, EducationOrdinalColumn) else encoded;
    if ExperienceColumn in educated
    then Appended(Appended(educated, ExperienceLevelColumn), ExperienceOrdinalColumn)
    else educated
  }

  /**
   * The labels of the result, computed from the input's labels and the strings of its
   * Gender column alone: steps 5 to 7 on `EncodedColumns` (the bool cast keeps labels).
   */
  function FeatureColumns(cols: seq<string>, genders: seq<string>, useLog: bool): seq<string> {
    Drop(RenameAll(DropAll(EncodedColumns(cols, genders, useLog), ColumnsToDrop), RenamePairs), GenderMissingColumn)
  }

  /** Labels that start with `gender_`, the prefix of every indicator. */
  predicate IsGenderLabel(n: string) {
    |n| >= 7 && n[..7] == "gender_"
  }

  lemma DummyIsGenderLabel(v: string)
    ensures IsGenderLabel(DummyName(GenderPrefix, v))
  {
    assert DummyName(GenderPrefix, v) == "gender_" + v;
    assert ("gender_" + v)[..7] == "gender_";
  }

  /** A label whose first letter is not `g` is no indicator label. */
  lemma NotGenderLabel(n: string)
    requires |n| > 0 && n[0] != 'g'
    ensures !IsGenderLabel(n)
  {
    if |n| >= 7 {
      assert n[..7][0] == n[0];
    }
  }

  /** What each label after steps 1 to 4 comes from. */
  lemma EncodedColumnsMembers(cols: seq<string>, genders: seq<string>, useLog: bool)
    ensures forall x :: x in EncodedColumns(cols, genders, useLog) <==>
      || (x in cols && x != GenderColumn)
      || (useLog && x == SalaryLogColumn)
      || (GenderColumn in cols && exists v :: v in genders && x == DummyName(GenderPrefix, v))
      || (EducationColumn in cols && x == EducationOrdinalColumn)
      || (ExperienceColumn in cols && (x == ExperienceLevelColumn || x == ExperienceOrdinalColumn))
  {
    LabelFacts();
    DummyNamesMembers(GenderPrefix, genders);
    var dummies := DummyNames(GenderPrefix, genders);
    forall v | v in genders ensures IsGenderLabel(DummyName(GenderPrefix, v)) {
      DummyIsGenderLabel(v);
    }
    var logged := if useLog then Appended(cols, SalaryLogColumn) else cols;
    AppendedMembers(cols, SalaryLogColumn);
    assert forall x :: x in logged <==> x in cols || (useLog && x == SalaryLogColumn);
    var g := GenderColumn in cols;
    assert GenderColumn in logged <==> g;
    var encoded := if g then Drop(logged, GenderColumn) + dummies else logged;
    assert forall x :: x in encoded <==> (x in logged && !(g && x == GenderColumn)) || (g && x in dummies);
    assert EducationColumn in encoded <==> EducationColumn in cols;
    var educated := if EducationColumn in cols then Appended(encoded, EducationOrdinalColumn) else encoded;
    AppendedMembers(encoded, EducationOrdinalColumn);
    assert forall x :: x in educated <==> x in encoded || (EducationColumn in cols && x == EducationOrdinalColumn);
    assert ExperienceColumn in educated <==> ExperienceColumn in cols;
    var binned := if ExperienceColumn in cols
      then Appended(Appended(educated, ExperienceLevelColumn), ExperienceOrdinalColumn) else educated;
    assert EncodedColumns(cols, genders, useLog) == binned;
    AppendedMembers(educated, ExperienceLevelColumn);
    AppendedMembers(Appended(educated, ExperienceLevelColumn), ExperienceOrdinalColumn);
    assert forall x :: x in binned <==> x in educated || (ExperienceColumn in cols && (x == ExperienceLevelColumn || x == ExperienceOrdinalColumn));
    forall x ensures x in binned <==>
      || (x in cols && x != GenderColumn)
      || (useLog && x == SalaryLogColumn)
      || (g && x in dummies)
      || (EducationColumn in cols && x == EducationOrdinalColumn)
      || (ExperienceColumn in cols && (x == ExperienceLevelColumn || x == ExperienceOrdinalColumn))
    {
    }
  }

  /** What each label of the result comes from: a label after step 4, neither dropped nor `gender_Missing`. */
  lemma FeatureColumnsMembers(cols: seq<string>, genders: seq<string>, useLog: bool)
    ensures forall n :: n in FeatureColumns(cols, genders, useLog) <==>
      n != GenderMissingColumn &&
      exists x :: x in EncodedColumns(cols, genders, useLog) && x !in ColumnsToDrop && RenameName(x, RenamePairs) == n
  {
    var binned := EncodedColumns(cols, genders, useLog);
    var dropped := DropAll(binned, ColumnsToDrop);
    DropAllIsKeep(binned, ColumnsToDrop);
    RenameAllMembers(dropped, RenamePairs);
  }

  /** The log step leaves the Gender column, and so its indicator strings, as they were. */
  lemma LogStepKeepsGender(f: Frame, useLog: bool, log: Cell -> Cell)
    requires WellFormed(f) && LogStep(f, useLog, log).Success?
    ensures GenderValues(LogStep(f, useLog, log).value) == GenderValues(f)
    ensures GenderColumn in f.cells ==> LogStep(f, useLog, log).value.cells[GenderColumn] == f.cells[GenderColumn]
  {
    var logged := LogStep(f, useLog, log).value;
    assert GenderColumn in logged.cells <==> GenderColumn in f.cells;
  }

  /** The labels of a successful result are `FeatureColumns` of the input's. */
  lemma DerivedColumns(f: Frame, useLog: bool, log: Cell -> Cell)
    requires WellFormed(f)
    requires GenderColumn in f.cells ==> IsTextColumn(f.cells[GenderColumn])
    requires DerivedFeatures(f, useLog, log).Success?
    ensures DerivedFeatures(f, useLog, log).value.columns == FeatureColumns(f.columns, GenderValues(f), useLog)
  {
    DerivedStages(f, useLog, log);
    EncodedColumnsOf(f, useLog, log);
    FinishedColumns(Encoded(f, useLog, log).value);
  }

  /** The labels after steps 5 to 8: the drops, the renames and the `gender_Missing` removal. */
  lemma FinishedColumns(e: Frame)
    requires WellFormed(e) && Finished(e).Success?
    ensures Finished(e).value.columns == Drop(RenameAll(DropAll(e.columns, ColumnsToDrop), RenamePairs), GenderMissingColumn)
  {
    var dropped := DropColumns(e, ColumnsToDrop);
    var renamed := RenameStep(dropped, RenamePairs).value;
    var trimmed := DropColumn(renamed, GenderMissingColumn);
    assert Finished(e).value == CastColumns(trimmed, BoolColumns);
  }

  /**
   * A label that no rename produces is missing from the result when it is dropped,
   * renamed away, or not there after step 4.
   */
  lemma AbsentFromResult(cols: seq<string>, genders: seq<string>, useLog: bool, n: string)
    requires n != "years_experience" && n != "gender_female" && n != "gender_male"
    requires || n == GenderMissingColumn || n in ColumnsToDrop
             || n == ExperienceColumn || n == "gender_Female" || n == "gender_Male"
             || n !in EncodedColumns(cols, genders, useLog)
    ensures n !in FeatureColumns(cols, genders, useLog)
  {
    FeatureColumnsMembers(cols, genders, useLog);
    if n in FeatureColumns(cols, genders, useLog) {
      var x :| x in EncodedColumns(cols, genders, useLog) && x !in ColumnsToDrop && RenameName(x, RenamePairs) == n;
      RenameNameOfPairs(x);
    }
  }

  /**
   * None of `cols_to_drop`, `gender_Missing`, `Gender` or the three renamed labels is
   * left in the result, whatever the input.
   */
  lemma FeatureColumnsExcluded(cols: seq<string>, genders: seq<string>, useLog: bool)
    ensures forall n :: n in ColumnsToDrop ==> n !in FeatureColumns(cols, genders, useLog)
    ensures GenderMissingColumn !in FeatureColumns(cols, genders, useLog)
    ensures GenderColumn !in FeatureColumns(cols, genders, useLog)
    ensures ExperienceColumn !in FeatureColumns(cols, genders, useLog)
    ensures "gender_Female" !in FeatureColumns(cols, genders, useLog)
    ensures "gender_Male" !in FeatureColumns(cols, genders, useLog)
  {
    forall n | n in ColumnsToDrop ensures n !in FeatureColumns(cols, genders, useLog) {
      AbsentFromResult(cols, genders, useLog, n);
    }
    AbsentFromResult(cols, genders, useLog, GenderMissingColumn);
    AbsentFromResult(cols, genders, useLog, ExperienceColumn);
    AbsentFromResult(cols, genders, useLog, "gender_Female");
    AbsentFromResult(cols, genders, useLog, "gender_Male");
    EncodedColumnsMembers(cols, genders, useLog);
    NotGenderLabel(GenderColumn);
    forall v ensures DummyName(GenderPrefix, v) != GenderColumn {
      DummyIsGenderLabel(v);
    }
    AbsentFromResult(cols, genders, useLog, GenderColumn);
  }

  /** A label after step 4 that is neither dropped nor `gender_Missing` is in the result, renamed. */
  lemma PresentInResult(cols: seq<string>, genders: seq<string>, useLog: bool, x: string)
    requires x in EncodedColumns(cols, genders, useLog) && x !in ColumnsToDrop && x != GenderMissingColumn
    ensures RenameName(x, RenamePairs) in FeatureColumns(cols, genders, useLog)
  {
    FeatureColumnsMembers(cols, genders, useLog);
    RenameNameOfPairs(x);
  }

  /**
   * Every other input label survives, renamed by `rename_map` when it is one of its
   * keys: `Years of Experience` becomes `years_experience`, `Salary` keeps its name.
   */
  lemma FeatureColumnsKeep(cols: seq<string>, genders: seq<string>, useLog: bool, c: string)
    requires c in cols && c !in ColumnsToDrop && c != GenderColumn && c != GenderMissingColumn
    ensures RenameName(c, RenamePairs) in FeatureColumns(cols, genders, useLog)
  {
    EncodedColumnsMembers(cols, genders, useLog);
    PresentInResult(cols, genders, useLog, c);
  }

  /** The surviving input labels keep their relative order. */
  lemma FeatureColumnsOrder(cols: seq<string>, genders: seq<string>, useLog: bool, x: string, y: string)
    requires Before(cols, x, y)
    requires x !in ColumnsToDrop && y !in ColumnsToDrop
    requires x != GenderColumn && y != GenderColumn && x != GenderMissingColumn && y != GenderMissingColumn
    ensures Before(FeatureColumns(cols, genders, useLog), RenameName(x, RenamePairs), RenameName(y, RenamePairs))
  {
    EncodedOrder(cols, genders, useLog, x, y);
    RenamedNotMissing(x);
    RenamedNotMissing(y);
    DropRenameDropOrder(EncodedColumns(cols, genders, useLog), ColumnsToDrop, RenamePairs, GenderMissingColumn, x, y);
  }

  /** No rename produces `gender_Missing`. */
  lemma RenamedNotMissing(x: string)
    requires x != GenderMissingColumn
    ensures RenameName(x, RenamePairs) != GenderMissingColumn
  {
    RenameNameOfPairs(x);
  }

  /** Steps 1 to 4 keep the order of the input labels other than Gender. */
  lemma EncodedOrder(cols: seq<string>, genders: seq<string>, useLog: bool, x: string, y: string)
    requires Before(cols, x, y)
    requires x != GenderColumn && y != GenderColumn
    ensures Before(EncodedColumns(cols, genders, useLog), x, y)
  {
    var logged := if useLog then Appended(cols, SalaryLogColumn) else cols;
    if useLog { BeforeAppended(cols, SalaryLogColumn, x, y); }
    var encoded := if GenderColumn in logged then Drop(logged, GenderColumn) + DummyNames(GenderPrefix, genders) else logged;
    if GenderColumn in logged {
      KeepPreservesOrder(logged, {GenderColumn}, x, y);
      BeforeConcat(Drop(logged, GenderColumn), DummyNames(GenderPrefix, genders), x, y);
    }
    var educated := if EducationColumn in encoded then Appended(encoded, EducationOrdinalColumn) else encoded;
    if EducationColumn in encoded { BeforeAppended(encoded, EducationOrdinalColumn, x, y); }
    if ExperienceColumn in educated {
      BeforeAppended(educated, ExperienceLevelColumn, x, y);
      BeforeAppended(Appended(educated, ExperienceLevelColumn), ExperienceOrdinalColumn, x, y);
    }
  }

  /** When the input has no `Salary_log`, the result has one exactly when the log is asked for. */
  lemma FeatureColumnsSalaryLog(cols: seq<string>, genders: seq<string>, useLog: bool)
    requires SalaryLogColumn !in cols
    ensures SalaryLogColumn in FeatureColumns(cols, genders, useLog) <==> useLog
  {
    EncodedColumnsMembers(cols, genders, useLog);
    if useLog {
      PresentInResult(cols, genders, useLog, SalaryLogColumn);
      RenameNameOfPairs(SalaryLogColumn);
    } else {
      NotGenderLabel(SalaryLogColumn);
      forall v ensures DummyName(GenderPrefix, v) != SalaryLogColumn {
        DummyIsGenderLabel(v);
      }
      AbsentFromResult(cols, genders, useLog, SalaryLogColumn);
    }
  }

  /**
   * The education ordinal is there exactly when `Education Level` is, and it keeps its
   * capitalised label: no `education_level_ordinal` is made.
   */
  lemma FeatureColumnsEducation(cols: seq<string>, genders: seq<string>, useLog: bool)
    requires EducationOrdinalColumn !in cols
    ensures EducationOrdinalColumn in FeatureColumns(cols, genders, useLog) <==> EducationColumn in cols
    ensures "education_level_ordinal" in FeatureColumns(cols, genders, useLog) ==> "education_level_ordinal" in cols
  {
    RenameNameOfPairs(EducationOrdinalColumn);
    if EducationColumn in cols {
      EncodedColumnsMembers(cols, genders, useLog);
      PresentInResult(cols, genders, useLog, EducationOrdinalColumn);
    } else {
      if EducationOrdinalColumn in EncodedColumns(cols, genders, useLog) {
        NotForeign(cols, genders, useLog, EducationOrdinalColumn);
      }
      AbsentFromResult(cols, genders, useLog, EducationOrdinalColumn);
    }
    if "education_level_ordinal" !in cols {
      if "education_level_ordinal" in EncodedColumns(cols, genders, useLog) {
        NotForeign(cols, genders, useLog, "education_level_ordinal");
      }
      AbsentFromResult(cols, genders, useLog, "education_level_ordinal");
    }
  }

  /** The experience ordinal is there exactly when `Years of Experience` is. */
  lemma FeatureColumnsExperience(cols: seq<string>, genders: seq<string>, useLog: bool)
    requires ExperienceOrdinalColumn !in cols
    ensures ExperienceOrdinalColumn in FeatureColumns(cols, genders, useLog) <==> ExperienceColumn in cols
  {
    RenameNameOfPairs(ExperienceOrdinalColumn);
    if ExperienceColumn in cols {
      EncodedColumnsMembers(cols, genders, useLog);
      PresentInResult(cols, genders, useLog, ExperienceOrdinalColumn);
    } else {
      if ExperienceOrdinalColumn in EncodedColumns(cols, genders, useLog) {
        NotForeign(cols, genders, useLog, ExperienceOrdinalColumn);
      }
      AbsentFromResult(cols, genders, useLog, ExperienceOrdinalColumn);
    }
  }

  /** A label that is not an indicator is, after step 4, an input label or one the steps name. */
  lemma NotForeign(cols: seq<string>, genders: seq<string>, useLog: bool, n: string)
    requires |n| > 0 && n[0] != 'g'
    requires n in EncodedColumns(cols, genders, useLog)
    ensures || (n in cols && n != GenderColumn)
            || (useLog && n == SalaryLogColumn)
            || (EducationColumn in cols && n == EducationOrdinalColumn)
            || (ExperienceColumn in cols && (n == ExperienceLevelColumn || n == ExperienceOrdinalColumn))
  {
    EncodedColumnsMembers(cols, genders, useLog);
    NotGenderLabel(n);
    forall v ensures DummyName(GenderPrefix, v) != n {
      DummyIsGenderLabel(v);
    }
  }

  /** The indicator of `v` survives to the result unless `v` is "Missing". */
  lemma IndicatorInResult(cols: seq<string>, genders: seq<string>, useLog: bool, v: string)
    requires GenderColumn in cols && v in genders && v != "Missing"
    ensures RenameName(DummyName(GenderPrefix, v), RenamePairs) in FeatureColumns(cols, genders, useLog)
  {
    var x := DummyName(GenderPrefix, v);
    EncodedColumnsMembers(cols, genders, useLog);
    assert x in EncodedColumns(cols, genders, useLog);
    DummyIsGenderLabel(v);
    forall n | n in ColumnsToDrop ensures n != x {
      NotGenderLabel(n);
    }
    MissingIndicator(v);
    PresentInResult(cols, genders, useLog, x);
  }

  /** With no indicator-like input label, an indicator-like label after step 4 is an indicator. */
  lemma GenderLabelOrigin(cols: seq<string>, genders: seq<string>, useLog: bool, x: string)
    requires forall c :: c in cols ==> !IsGenderLabel(c)
    requires x in EncodedColumns(cols, genders, useLog) && IsGenderLabel(x)
    ensures exists v :: v in genders && x == DummyName(GenderPrefix, v)
  {
    EncodedColumnsMembers(cols, genders, useLog);
    NotGenderLabel(SalaryLogColumn);
    NotGenderLabel(EducationOrdinalColumn);
    NotGenderLabel(ExperienceLevelColumn);
    NotGenderLabel(ExperienceOrdinalColumn);
  }

  /** A label of the result is the renamed form of a label after step 4 that was not dropped. */
  lemma ResultOrigin(cols: seq<string>, genders: seq<string>, useLog: bool, n: string)
    requires n in FeatureColumns(cols, genders, useLog)
    ensures n != GenderMissingColumn
    ensures exists x :: x in EncodedColumns(cols, genders, useLog) && x !in ColumnsToDrop && RenameName(x, RenamePairs) == n
  {
    FeatureColumnsMembers(cols, genders, useLog);
  }

  /** `rename_map` neither makes nor removes the `gender_` prefix, nor produces `gender_Missing`. */
  lemma RenamedGenderLabel(x: string)
    requires IsGenderLabel(RenameName(x, RenamePairs)) && RenameName(x, RenamePairs) != GenderMissingColumn
    ensures IsGenderLabel(x) && x != GenderMissingColumn
  {
    RenameNameOfPairs(x);
    if x == ExperienceColumn {
      NotGenderLabel("years_experience");
    } else if x == "gender_Female" || x == "gender_Male" {
      assert x[..7] == "gender_";
    }
  }

  /** An indicator-like label of the result whose input has none comes from a Gender string. */
  lemma ResultGenderLabel(cols: seq<string>, genders: seq<string>, useLog: bool, n: string)
    requires forall c :: c in cols ==> !IsGenderLabel(c)
    requires n in FeatureColumns(cols, genders, useLog) && IsGenderLabel(n)
    ensures exists v :: v in genders && v != "Missing" && n == RenameName(DummyName(GenderPrefix, v), RenamePairs)
  {
    ResultOrigin(cols, genders, useLog, n);
    var x :| x in EncodedColumns(cols, genders, useLog) && x !in ColumnsToDrop && RenameName(x, RenamePairs) == n;
    RenamedGenderLabel(x);
    GenderLabelOrigin(cols, genders, useLog, x);
    var v :| v in genders && x == DummyName(GenderPrefix, v);
    MissingIndicator(v);
    assert v in genders && v != "Missing" && n == RenameName(DummyName(GenderPrefix, v), RenamePairs);
  }

  /** The indicator of "Missing" is `gender_Missing`, and no other string's is. */
  lemma MissingIndicator(v: string)
    ensures DummyName(GenderPrefix, v) == GenderMissingColumn <==> v == "Missing"
  {
    assert GenderMissingColumn == GenderPrefix + "_" + "Missing";
    if DummyName(GenderPrefix, v) == GenderMissingColumn {
      DummyNameInjective(GenderPrefix, v, "Missing");
    }
  }

  /**
   * Every Gender string but "Missing" leaves an indicator (renamed when it is Female or
   * Male); when no input label looks like an indicator, the result has no other.
   */
  lemma FeatureColumnsGender(cols: seq<string>, genders: seq<string>, useLog: bool)
    requires GenderColumn in cols
    ensures forall v :: v in genders && v != "Missing" ==>
      RenameName(DummyName(GenderPrefix, v), RenamePairs) in FeatureColumns(cols, genders, useLog)
    ensures (forall c :: c in cols ==> !IsGenderLabel(c)) ==>
      forall n :: n in FeatureColumns(cols, genders, useLog) && IsGenderLabel(n) ==>
        exists v :: v in genders && v != "Missing" && n == RenameName(DummyName(GenderPrefix, v), RenamePairs)
  {
    forall v | v in genders && v != "Missing"
      ensures RenameName(DummyName(GenderPrefix, v), RenamePairs) in FeatureColumns(cols, genders, useLog)
    {
      IndicatorInResult(cols, genders, useLog, v);
    }
    if forall c :: c in cols ==> !IsGenderLabel(c) {
      forall n | n in FeatureColumns(cols, genders, useLog) && IsGenderLabel(n)
        ensures exists v :: v in genders && v != "Missing" && n == RenameName(DummyName(GenderPrefix, v), RenamePairs)
      {
        ResultGenderLabel(cols, genders, useLog, n);
      }
    }
  }

  // ---------------------------------------------------------------------------
  // The cells of the result

  /** The labels steps 1 to 4 write to. */
  predicate IsWritten(c: string) {
    c == SalaryLogColumn || c == EducationOrdinalColumn || c == ExperienceLevelColumn || c == ExperienceOrdinalColumn
  }

  /** One-hot encoding inside step 2 keeps the other columns and gives each string its indicator. */
  lemma GenderStepCells(f: Frame)
    requires WellFormed(f)
    requires GenderColumn in f.cells ==> IsTextColumn(f.cells[GenderColumn])
    requires GenderStep(f).Success?
    ensures forall c :: c in f.cells && c != GenderColumn ==>
      c in GenderStep(f).value.cells && GenderStep(f).value.cells[c] == f.cells[c]
    ensures GenderColumn in f.cells ==> forall v :: Text(v) in f.cells[GenderColumn] ==>
      DummyName(GenderPrefix, v) in GenderStep(f).value.cells &&
      GenderStep(f).value.cells[DummyName(GenderPrefix, v)] == Indicator(f.cells[GenderColumn], v)
  {
    if GenderColumn in f.columns {
      OneHotCells(f, GenderColumn, GenderPrefix);
    }
  }

  /** Step 3 writes `edu_map` of each level to the ordinal column and leaves the others. */
  lemma EducationStepCells(f: Frame)
    requires WellFormed(f)
    ensures forall c :: c in f.cells && c != EducationOrdinalColumn ==>
      c in EducationStep(f).cells && EducationStep(f).cells[c] == f.cells[c]
    ensures EducationColumn in f.cells ==>
      EducationOrdinalColumn in EducationStep(f).cells &&
      EducationStep(f).cells[EducationOrdinalColumn] == MapCells(f.cells[EducationColumn], EducationCell)
  {
  }

  /** Step 4 writes the bin labels and their ordinals and leaves the others. */
  lemma ExperienceStepCells(f: Frame)
    requires WellFormed(f) && ExperienceStep(f).Success?
    ensures forall c :: c in f.cells && c != ExperienceLevelColumn && c != ExperienceOrdinalColumn ==>
      c in ExperienceStep(f).value.cells && ExperienceStep(f).value.cells[c] == f.cells[c]
    ensures ExperienceColumn in f.cells ==>
      ExperienceOrdinalColumn in ExperienceStep(f).value.cells &&
      ExperienceStep(f).value.cells[ExperienceOrdinalColumn] ==
        MapCells(MapCells(f.cells[ExperienceColumn], ExperienceLevelCell), ExperienceOrdinalCell)
  {
  }

  /** Steps 1 to 4 as named stages, so that each cell lemma can follow a column through them. */
  lemma EncodedStages(f: Frame, useLog: bool, log: Cell -> Cell)
    requires WellFormed(f)
    requires GenderColumn in f.cells ==> IsTextColumn(f.cells[GenderColumn])
    requires Encoded(f, useLog, log).Success?
    ensures LogStep(f, useLog, log).Success?
    ensures GenderStep(LogStep(f, useLog, log).value).Success?
    ensures ExperienceStep(EducationStep(GenderStep(LogStep(f, useLog, log).value).value)).Success?
    ensures Encoded(f, useLog, log) == ExperienceStep(EducationStep(GenderStep(LogStep(f, useLog, log).value).value))
  {
  }

  /** Steps 1 to 4 leave every input column that they do not write or encode as it was. */
  lemma EncodedKeeps(f: Frame, useLog: bool, log: Cell -> Cell, c: string)
    requires WellFormed(f)
    requires GenderColumn in f.cells ==> IsTextColumn(f.cells[GenderColumn])
    requires Encoded(f, useLog, log).Success?
    requires c in f.cells && c != GenderColumn && !IsWritten(c)
    ensures c in Encoded(f, useLog, log).value.cells && Encoded(f, useLog, log).value.cells[c] == f.cells[c]
  {
    EncodedStages(f, useLog, log);
    var logged := LogStep(f, useLog, log).value;
    LogStepKeepsGender(f, useLog, log);
    var encoded := GenderStep(logged).value;
    GenderStepCells(logged);
    var educated := EducationStep(encoded);
    EducationStepCells(encoded);
    ExperienceStepCells(educated);
  }

  /** After step 4, `Salary_log` holds the logarithm of each salary. */
  lemma EncodedSalaryLog(f: Frame, useLog: bool, log: Cell -> Cell)
    requires WellFormed(f)
    requires GenderColumn in f.cells ==> IsTextColumn(f.cells[GenderColumn])
    requires Encoded(f, useLog, log).Success? && useLog
    ensures SalaryColumn in f.cells
    ensures SalaryLogColumn in Encoded(f, useLog, log).value.cells
    ensures Encoded(f, useLog, log).value.cells[SalaryLogColumn] == MapCells(f.cells[SalaryColumn], log)
  {
    EncodedStages(f, useLog, log);
    var logged := LogStep(f, useLog, log).value;
    var encoded := GenderStep(logged).value;
    GenderStepCells(logged);
    var educated := EducationStep(encoded);
    EducationStepCells(encoded);
    ExperienceStepCells(educated);
  }

  /** After step 4, the education ordinal holds `edu_map` of each education level. */
  lemma EncodedEducation(f: Frame, useLog: bool, log: Cell -> Cell)
    requires WellFormed(f)
    requires GenderColumn in f.cells ==> IsTextColumn(f.cells[GenderColumn])
    requires Encoded(f, useLog, log).Success? && EducationColumn in f.cells
    ensures EducationOrdinalColumn in Encoded(f, useLog, log).value.cells
    ensures Encoded(f, useLog, log).value.cells[EducationOrdinalColumn] == MapCells(f.cells[EducationColumn], EducationCell)
  {
    EncodedStages(f, useLog, log);
    var logged := LogStep(f, useLog, log).value;
    var encoded := GenderStep(logged).value;
    GenderStepCells(logged);
    var educated := EducationStep(encoded);
    EducationStepCells(encoded);
    ExperienceStepCells(educated);
  }

  /** After step 4, the experience ordinal holds `exp_map` of the bin label of each number of years. */
  lemma EncodedExperience(f: Frame, useLog: bool, log: Cell -> Cell)
    requires WellFormed(f)
    requires GenderColumn in f.cells ==> IsTextColumn(f.cells[GenderColumn])
    requires Encoded(f, useLog, log).Success? && ExperienceColumn in f.cells
    ensures ExperienceOrdinalColumn in Encoded(f, useLog, log).value.cells
    ensures Encoded(f, useLog, log).value.cells[ExperienceOrdinalColumn] ==
      MapCells(MapCells(f.cells[ExperienceColumn], ExperienceLevelCell), ExperienceOrdinalCell)
  {
    EncodedStages(f, useLog, log);
    var logged := LogStep(f, useLog, log).value;
    var encoded := GenderStep(logged).value;
    GenderStepCells(logged);
    var educated := EducationStep(encoded);
    EducationStepCells(encoded);
    ExperienceStepCells(educated);
  }

  /** After step 4, each string of the Gender column has its indicator column. */
  lemma EncodedIndicator(f: Frame, useLog: bool, log: Cell -> Cell, v: string)
    requires WellFormed(f)
    requires GenderColumn in f.cells ==> IsTextColumn(f.cells[GenderColumn])
    requires Encoded(f, useLog, log).Success? && GenderColumn in f.cells && Text(v) in f.cells[GenderColumn]
    ensures DummyName(GenderPrefix, v) in Encoded(f, useLog, log).value.cells
    ensures Encoded(f, useLog, log).value.cells[DummyName(GenderPrefix, v)] == Indicator(f.cells[GenderColumn], v)
  {
    DummyIsGenderLabel(v);
    LabelFacts();
    var d := DummyName(GenderPrefix, v);
    assert d != EducationOrdinalColumn && d != ExperienceLevelColumn && d != ExperienceOrdinalColumn;
    EncodedStages(f, useLog, log);
    var logged := LogStep(f, useLog, log).value;
    LogStepKeepsGender(f, useLog, log);
    var encoded := GenderStep(logged).value;
    GenderStepCells(logged);
    assert d in encoded.cells && encoded.cells[d] == Indicator(f.cells[GenderColumn], v);
    var educated := EducationStep(encoded);
    EducationStepCells(encoded);
    assert d in educated.cells && educated.cells[d] == encoded.cells[d];
    ExperienceStepCells(educated);
  }

  /**
   * Steps 5 to 8 move a column that is not dropped to its renamed label with the same
   * cells, unless that label is `gender_Missing` or a cast column that is not yet boolean.
   */
  lemma FinishedKeeps(e: Frame, c: string)
    requires WellFormed(e) && Finished(e).Success?
    requires c in e.cells && c !in ColumnsToDrop
    requires RenameName(c, RenamePairs) != GenderMissingColumn
    requires RenameName(c, RenamePairs) in BoolColumns ==> IsBoolColumn(e.cells[c])
    ensures RenameName(c, RenamePairs) in Finished(e).value.cells
    ensures Finished(e).value.cells[RenameName(c, RenamePairs)] == e.cells[c]
  {
    var dropped := DropColumns(e, ColumnsToDrop);
    assert c in dropped.cells && dropped.cells[c] == e.cells[c];
    var renamed := RenameStep(dropped, RenamePairs).value;
    var trimmed := DropColumn(renamed, GenderMissingColumn);
    assert Finished(e).value == CastColumns(trimmed, BoolColumns);
  }

  /** The result of a successful run is `Finished` of the encoded frame. */
  lemma DerivedStages(f: Frame, useLog: bool, log: Cell -> Cell)
    requires WellFormed(f)
    requires GenderColumn in f.cells ==> IsTextColumn(f.cells[GenderColumn])
    requires DerivedFeatures(f, useLog, log).Success?
    ensures Encoded(f, useLog, log).Success?
    ensures Finished(Encoded(f, useLog, log).value) == DerivedFeatures(f, useLog, log)
  {
  }

  /** A label without the `gender_` prefix is renamed to another such label, never to a cast column. */
  lemma PlainLabelRenamed(c: string)
    requires !IsGenderLabel(c)
    ensures !IsGenderLabel(RenameName(c, RenamePairs))
    ensures RenameName(c, RenamePairs) != GenderMissingColumn && RenameName(c, RenamePairs) !in BoolColumns
    ensures c != ExperienceColumn ==> RenameName(c, RenamePairs) == c
  {
    RenameNameOfPairs(c);
    if c == ExperienceColumn {
      NotGenderLabel("years_experience");
    }
    assert GenderMissingColumn[..7] == "gender_";
    assert BoolColumns[0][..7] == "gender_" && BoolColumns[1][..7] == "gender_";
  }

  /** An indicator other than `gender_Missing` is not dropped, and a cast never changes it. */
  lemma IndicatorRenamed(v: string)
    requires v != "Missing"
    ensures DummyName(GenderPrefix, v) !in ColumnsToDrop
    ensures RenameName(DummyName(GenderPrefix, v), RenamePairs) != GenderMissingColumn
    ensures IsGenderLabel(RenameName(DummyName(GenderPrefix, v), RenamePairs))
  {
    var x := DummyName(GenderPrefix, v);
    IndicatorNotDropped(v);
    DummyIsGenderLabel(v);
    MissingIndicator(v);
    RenameNameOfPairs(x);
    assert "gender_female"[..7] == "gender_" && "gender_male"[..7] == "gender_";
  }

  /** The labels steps 1 to 4 write and that survive: not dropped, not renamed, not indicators. */
  lemma WrittenLabels()
    ensures forall c :: c in [SalaryLogColumn, EducationOrdinalColumn, ExperienceOrdinalColumn] ==>
      && c !in ColumnsToDrop && !IsGenderLabel(c) && RenameName(c, RenamePairs) == c
      && c != GenderMissingColumn && c !in BoolColumns
  {
    forall c | c in [SalaryLogColumn, EducationOrdinalColumn, ExperienceOrdinalColumn]
      ensures c !in ColumnsToDrop && !IsGenderLabel(c) && RenameName(c, RenamePairs) == c
      ensures c != GenderMissingColumn && c !in BoolColumns
    {
      NotGenderLabel(c);
      PlainLabelRenamed(c);
    }
  }

  /** A column after step 4 that steps 5 to 8 keep reaches the result under its renamed label. */
  lemma DerivedCarries(f: Frame, useLog: bool, log: Cell -> Cell, c: string)
    requires WellFormed(f)
    requires GenderColumn in f.cells ==> IsTextColumn(f.cells[GenderColumn])
    requires DerivedFeatures(f, useLog, log).Success?
    requires Encoded(f, useLog, log).Success? && c in Encoded(f, useLog, log).value.cells && c !in ColumnsToDrop
    requires RenameName(c, RenamePairs) != GenderMissingColumn && RenameName(c, RenamePairs) !in BoolColumns
    ensures RenameName(c, RenamePairs) in DerivedFeatures(f, useLog, log).value.cells
    ensures DerivedFeatures(f, useLog, log).value.cells[RenameName(c, RenamePairs)] == Encoded(f, useLog, log).value.cells[c]
  {
    DerivedStages(f, useLog, log);
    FinishedKeeps(Encoded(f, useLog, log).value, c);
  }

  /**
   * An input column that `main` neither drops nor writes nor encodes reaches the result
   * with its cells unchanged, under its renamed label (`Years of Experience` becomes
   * `years_experience`; `Salary` stays `Salary`).
   */
  lemma DerivedKeeps(f: Frame, useLog: bool, log: Cell -> Cell, c: string)
    requires WellFormed(f)
    requires GenderColumn in f.cells ==> IsTextColumn(f.cells[GenderColumn])
    requires DerivedFeatures(f, useLog, log).Success?
    requires c in f.cells && c !in ColumnsToDrop && c != GenderColumn && !IsWritten(c) && !IsGenderLabel(c)
    ensures RenameName(c, RenamePairs) in DerivedFeatures(f, useLog, log).value.cells
    ensures DerivedFeatures(f, useLog, log).value.cells[RenameName(c, RenamePairs)] == f.cells[c]
  {
    DerivedStages(f, useLog, log);
    EncodedKeeps(f, useLog, log, c);
    PlainLabelRenamed(c);
    FinishedKeeps(Encoded(f, useLog, log).value, c);
  }

  /** With `use_log_salary`, the result's `Salary_log` is the logarithm of each salary, row by row. */
  lemma DerivedSalaryLog(f: Frame, log: Cell -> Cell)
    requires WellFormed(f)
    requires GenderColumn in f.cells ==> IsTextColumn(f.cells[GenderColumn])
    requires DerivedFeatures(f, true, log).Success?
    ensures SalaryColumn in f.cells && SalaryLogColumn in DerivedFeatures(f, true, log).value.cells
    ensures forall i :: 0 <= i < f.height ==>
      DerivedFeatures(f, true, log).value.cells[SalaryLogColumn][i] == log(f.cells[SalaryColumn][i])
  {
    DerivedStages(f, true, log);
    EncodedSalaryLog(f, true, log);
    WrittenLabels();
    FinishedKeeps(Encoded(f, true, log).value, SalaryLogColumn);
  }

  /** The result's education ordinal is `edu_map` of each row's level: 0 to 3 for a known level, NaN otherwise. */
  lemma DerivedEducation(f: Frame, useLog: bool, log: Cell -> Cell)
    requires WellFormed(f)
    requires GenderColumn in f.cells ==> IsTextColumn(f.cells[GenderColumn])
    requires DerivedFeatures(f, useLog, log).Success? && EducationColumn in f.cells
    ensures EducationOrdinalColumn in DerivedFeatures(f, useLog, log).value.cells
    ensures forall i :: 0 <= i < f.height ==>
      var level := f.cells[EducationColumn][i];
      DerivedFeatures(f, useLog, log).value.cells[EducationOrdinalColumn][i] ==
        if level.Text? && level.s in EducationLevels then Num(EducationOrdinal(level.s).value as real) else Null
  {
    DerivedEducationColumn(f, useLog, log);
  }

  lemma DerivedEducationColumn(f: Frame, useLog: bool, log: Cell -> Cell)
    requires WellFormed(f)
    requires GenderColumn in f.cells ==> IsTextColumn(f.cells[GenderColumn])
    requires DerivedFeatures(f, useLog, log).Success? && EducationColumn in f.cells
    ensures EducationOrdinalColumn in DerivedFeatures(f, useLog, log).value.cells
    ensures forall i :: 0 <= i < f.height ==>
      DerivedFeatures(f, useLog, log).value.cells[EducationOrdinalColumn][i] == EducationCell(f.cells[EducationColumn][i])
  {
    DerivedStages(f, useLog, log);
    EncodedEducation(f, useLog, log);
    WrittenLabels();
    DerivedCarries(f, useLog, log, EducationOrdinalColumn);
  }

  /** The result's experience ordinal is the bin index of each row's years: NaN for NaN or a negative number. */
  lemma DerivedExperience(f: Frame, useLog: bool, log: Cell -> Cell)
    requires WellFormed(f)
    requires GenderColumn in f.cells ==> IsTextColumn(f.cells[GenderColumn])
    requires DerivedFeatures(f, useLog, log).Success? && ExperienceColumn in f.cells
    ensures ExperienceOrdinalColumn in DerivedFeatures(f, useLog, log).value.cells
    ensures forall i :: 0 <= i < f.height ==>
      var years := f.cells[ExperienceColumn][i];
      DerivedFeatures(f, useLog, log).value.cells[ExperienceOrdinalColumn][i] ==
        var v := CutValue(years);
        if v.Some? && 0.0 <= v.value then Num(LevelIndex(ExperienceBin(v.value).value) as real) else Null
  {
    DerivedExperienceColumn(f, useLog, log);
    var column := DerivedFeatures(f, useLog, log).value.cells[ExperienceOrdinalColumn];
    forall i | 0 <= i < f.height
      ensures var years := f.cells[ExperienceColumn][i];
        var v := CutValue(years);
        column[i] == if v.Some? && 0.0 <= v.value then Num(LevelIndex(ExperienceBin(v.value).value) as real) else Null
    {
      var years := f.cells[ExperienceColumn][i];
      ExperienceCellsCompose(years);
      if CutValue(years).Some? {
        ExperienceOrdinalIsBinIndex(CutValue(years).value);
      }
    }
  }

  lemma DerivedExperienceColumn(f: Frame, useLog: bool, log: Cell -> Cell)
    requires WellFormed(f)
    requires GenderColumn in f.cells ==> IsTextColumn(f.cells[GenderColumn])
    requires DerivedFeatures(f, useLog, log).Success? && ExperienceColumn in f.cells
    ensures ExperienceOrdinalColumn in DerivedFeatures(f, useLog, log).value.cells
    ensures forall i :: 0 <= i < f.height ==>
      DerivedFeatures(f, useLog, log).value.cells[ExperienceOrdinalColumn][i] ==
        ExperienceOrdinalCell(ExperienceLevelCell(f.cells[ExperienceColumn][i]))
  {
    DerivedStages(f, useLog, log);
    EncodedExperience(f, useLog, log);
    WrittenLabels();
    DerivedCarries(f, useLog, log, ExperienceOrdinalColumn);
  }

  /**
   * Each Gender string but "Missing" has a boolean indicator in the result (its label
   * lower-cased for Female and Male), true exactly in the rows holding that string.
   */
  lemma DerivedIndicator(f: Frame, useLog: bool, log: Cell -> Cell, v: string)
    requires WellFormed(f)
    requires GenderColumn in f.cells ==> IsTextColumn(f.cells[GenderColumn])
    requires DerivedFeatures(f, useLog, log).Success?
    requires GenderColumn in f.cells && Text(v) in f.cells[GenderColumn] && v != "Missing"
    ensures RenameName(DummyName(GenderPrefix, v), RenamePairs) in DerivedFeatures(f, useLog, log).value.cells
    ensures forall i :: 0 <= i < f.height ==>
      DerivedFeatures(f, useLog, log).value.cells[RenameName(DummyName(GenderPrefix, v), RenamePairs)][i] ==
        Flag(f.cells[GenderColumn][i] == Text(v))
  {
    DerivedStages(f, useLog, log);
    EncodedIndicator(f, useLog, log, v);
    IndicatorRenamed(v);
    FinishedKeeps(Encoded(f, useLog, log).value, DummyName(GenderPrefix, v));
  }

  /** Column `n` of `r` is the indicator of the Gender string `v`. */
  ghost predicate IndicatorOf(r: Frame, gender: seq<Cell>, n: string, v: string) {
    && v != "Missing" && Text(v) in gender
    && n == RenameName(DummyName(GenderPrefix, v), RenamePairs)
    && n in r.cells && |r.cells[n]| == |gender|
    && forall i :: 0 <= i < |gender| ==> r.cells[n][i] == Flag(gender[i] == Text(v))
  }

  /**
   * When no input label starts with `gender_`, every such label of the result is the
   * indicator of one Gender string other than "Missing".
   */
  lemma DerivedGenderLabels(f: Frame, useLog: bool, log: Cell -> Cell)
    requires WellFormed(f)
    requires GenderColumn in f.cells && IsTextColumn(f.cells[GenderColumn])
    requires forall c :: c in f.columns ==> !IsGenderLabel(c)
    requires DerivedFeatures(f, useLog, log).Success?
    ensures forall n :: n in DerivedFeatures(f, useLog, log).value.columns && IsGenderLabel(n) ==>
      exists v :: IndicatorOf(DerivedFeatures(f, useLog, log).value, f.cells[GenderColumn], n, v)
  {
    var r := DerivedFeatures(f, useLog, log).value;
    DerivedColumns(f, useLog, log);
    FeatureColumnsGender(f.columns, GenderValues(f), useLog);
    forall n | n in r.columns && IsGenderLabel(n)
      ensures exists v :: IndicatorOf(r, f.cells[GenderColumn], n, v)
    {
      var v :| v in GenderValues(f) && v != "Missing" && n == RenameName(DummyName(GenderPrefix, v), RenamePairs);
      DerivedIndicator(f, useLog, log, v);
      assert IndicatorOf(r, f.cells[GenderColumn], n, v);
    }
  }

  /** Indicator columns of distinct strings are never true in the same row; NaN and "Missing" rows are false in all. */
  lemma IndicatorsOneHot(r: Frame, gender: seq<Cell>, i: nat)
    requires WellFormed(r) && r.height == |gender| && i < |gender|
    requires forall n :: n in r.columns && IsGenderLabel(n) ==> exists v :: IndicatorOf(r, gender, n, v)
    ensures forall n1, n2 ::
      (n1 in r.columns && IsGenderLabel(n1) && r.cells[n1][i] == Flag(true) &&
       n2 in r.columns && IsGenderLabel(n2) && r.cells[n2][i] == Flag(true)) ==> n1 == n2
    ensures gender[i] == Null || gender[i] == Text("Missing") ==>
      forall n :: n in r.columns && IsGenderLabel(n) ==> r.cells[n][i] == Flag(false)
  {
    forall n1, n2 | n1 in r.columns && IsGenderLabel(n1) && r.cells[n1][i] == Flag(true) &&
        n2 in r.columns && IsGenderLabel(n2) && r.cells[n2][i] == Flag(true)
      ensures n1 == n2
    {
      var v1 :| IndicatorOf(r, gender, n1, v1);
      var v2 :| IndicatorOf(r, gender, n2, v2);
      assert gender[i] == Text(v1) && gender[i] == Text(v2);
    }
    if gender[i] == Null || gender[i] == Text("Missing") {
      forall n | n in r.columns && IsGenderLabel(n) ensures r.cells[n][i] == Flag(false) {
        var v :| IndicatorOf(r, gender, n, v);
      }
    }
  }

  /**
   * The gender indicators of the result are one-hot: in each row at most one is true,
   * and a NaN or "Missing" row has every indicator false.
   */
  lemma DerivedOneHot(f: Frame, useLog: bool, log: Cell -> Cell, i: nat)
    requires WellFormed(f)
    requires GenderColumn in f.cells && IsTextColumn(f.cells[GenderColumn])
    requires forall c :: c in f.columns ==> !IsGenderLabel(c)
    requires DerivedFeatures(f, useLog, log).Success? && i < f.height
    ensures var r := DerivedFeatures(f, useLog, log).value;
      forall n1, n2 ::
        (n1 in r.columns && IsGenderLabel(n1) && r.cells[n1][i] == Flag(true) &&
         n2 in r.columns && IsGenderLabel(n2) && r.cells[n2][i] == Flag(true)) ==> n1 == n2
    ensures var r := DerivedFeatures(f, useLog, log).value;
      var g := f.cells[GenderColumn][i];
      g == Null || g == Text("Missing") ==>
        forall n :: n in r.columns && IsGenderLabel(n) ==> r.cells[n][i] == Flag(false)
  {
    DerivedGenderLabels(f, useLog, log);
    IndicatorsOneHot(DerivedFeatures(f, useLog, log).value, f.cells[GenderColumn], i);
  }

  /** A row whose Gender is a string other than "Missing" has its own indicator true. */
  lemma DerivedOwnIndicator(f: Frame, useLog: bool, log: Cell -> Cell, i: nat)
    requires WellFormed(f)
    requires GenderColumn in f.cells && IsTextColumn(f.cells[GenderColumn])
    requires DerivedFeatures(f, useLog, log).Success? && i < f.height
    requires f.cells[GenderColumn][i].Text? && f.cells[GenderColumn][i].s != "Missing"
    ensures var r := DerivedFeatures(f, useLog, log).value;
      var n := RenameName(DummyName(GenderPrefix, f.cells[GenderColumn][i].s), RenamePairs);
      n in r.columns && IsGenderLabel(n) && r.cells[n][i] == Flag(true)
  {
    var v := f.cells[GenderColumn][i].s;
    assert Text(v) in f.cells[GenderColumn];
    DerivedIndicator(f, useLog, log, v);
    IndicatorRenamed(v);
  }

  // ---------------------------------------------------------------------------
  // When `main` succeeds

  /**
   * With no input label starting with `gender_`, steps 1 to 4 fail exactly when the log
   * is asked for without a Salary column, or Years of Experience holds a non-number.
   */
  lemma EncodedSucceeds(f: Frame, useLog: bool, log: Cell -> Cell)
    requires WellFormed(f)
    requires GenderColumn in f.cells ==> IsTextColumn(f.cells[GenderColumn])
    requires forall c :: c in f.columns ==> !IsGenderLabel(c)
    ensures Encoded(f, useLog, log).Success? <==>
      (useLog ==> SalaryColumn in f.columns) &&
      (ExperienceColumn in f.columns ==> IsNumericColumn(f.cells[ExperienceColumn]))
    ensures useLog && SalaryColumn !in f.columns ==> Encoded(f, useLog, log) == Failure(KeyError(SalaryColumn))
    ensures (useLog ==> SalaryColumn in f.columns) && ExperienceColumn in f.columns && !IsNumericColumn(f.cells[ExperienceColumn]) ==>
      Encoded(f, useLog, log) == Failure(TypeError(ExperienceColumn))
  {
    if !(useLog && SalaryColumn !in f.columns) {
      LabelFacts();
      var logged := LogStep(f, useLog, log).value;
      LogStepKeepsGender(f, useLog, log);
      assert forall c :: c in logged.columns ==> !IsGenderLabel(c);
      assert !DummyClash(logged.columns, GenderValues(logged)) by {
        forall v ensures DummyName(GenderPrefix, v) !in logged.columns {
          DummyIsGenderLabel(v);
        }
      }
      var encoded := GenderStep(logged).value;
      EncodedYears(logged);
    }
  }

  /**
   * After the log step, the indicator and education steps keep `Years of Experience`:
   * it is there afterwards exactly when it was before, with the same cells.
   */
  lemma EncodedYears(logged: Frame)
    requires WellFormed(logged)
    requires GenderColumn in logged.cells ==> IsTextColumn(logged.cells[GenderColumn])
    requires GenderStep(logged).Success?
    ensures var educated := EducationStep(GenderStep(logged).value);
      && (ExperienceColumn in educated.columns <==> ExperienceColumn in logged.columns)
      && (ExperienceColumn in logged.columns ==> educated.cells[ExperienceColumn] == logged.cells[ExperienceColumn])
  {
    LabelFacts();
    var encoded := GenderStep(logged).value;
    GenderStepCells(logged);
    EducationStepCells(encoded);
    DummyNamesMembers(GenderPrefix, GenderValues(logged));
    forall v ensures DummyName(GenderPrefix, v) != ExperienceColumn {
      DummyIsGenderLabel(v);
    }
  }

  /** The label constants that the steps keep apart. */
  lemma LabelFacts()
    ensures ExperienceColumn != SalaryLogColumn && ExperienceColumn != GenderColumn
    ensures ExperienceColumn != EducationOrdinalColumn && ExperienceColumn != ExperienceLevelColumn
    ensures SalaryColumn != GenderColumn && SalaryColumn != SalaryLogColumn && EducationColumn != GenderColumn
    ensures SalaryLogColumn != GenderColumn && EducationColumn != SalaryLogColumn
    ensures !IsGenderLabel(SalaryColumn) && !IsGenderLabel(SalaryLogColumn) && !IsGenderLabel(GenderColumn)
    ensures !IsGenderLabel(EducationColumn) && !IsGenderLabel(EducationOrdinalColumn)
    ensures !IsGenderLabel(ExperienceColumn) && !IsGenderLabel(ExperienceLevelColumn) && !IsGenderLabel(ExperienceOrdinalColumn)
  {
    NotGenderLabel(SalaryColumn);
    NotGenderLabel(SalaryLogColumn);
    NotGenderLabel(GenderColumn);
    NotGenderLabel(EducationColumn);
    NotGenderLabel(EducationOrdinalColumn);
    NotGenderLabel(ExperienceColumn);
    NotGenderLabel(ExperienceLevelColumn);
    NotGenderLabel(ExperienceOrdinalColumn);
  }

  /** Each Gender string has its indicator after step 4. */
  lemma IndicatorEncoded(cols: seq<string>, genders: seq<string>, useLog: bool, v: string)
    requires GenderColumn in cols && v in genders
    ensures DummyName(GenderPrefix, v) in EncodedColumns(cols, genders, useLog)
  {
    EncodedColumnsMembers(cols, genders, useLog);
  }

  /** No indicator is among the dropped columns. */
  lemma IndicatorNotDropped(v: string)
    ensures DummyName(GenderPrefix, v) !in ColumnsToDrop
  {
    DummyIsGenderLabel(v);
    forall n | n in ColumnsToDrop ensures n != DummyName(GenderPrefix, v) {
      NotGenderLabel(n);
    }
  }

  /** With no indicator-like input label, an indicator after step 4 is that of a Gender string. */
  lemma IndicatorOrigin(cols: seq<string>, genders: seq<string>, useLog: bool, v: string)
    requires forall c :: c in cols ==> !IsGenderLabel(c)
    requires DummyName(GenderPrefix, v) in EncodedColumns(cols, genders, useLog)
    ensures v in genders
  {
    var x := DummyName(GenderPrefix, v);
    DummyIsGenderLabel(v);
    GenderLabelOrigin(cols, genders, useLog, x);
    var w :| w in genders && x == DummyName(GenderPrefix, w);
    DummyNameInjective(GenderPrefix, v, w);
  }

  /** After the drops, the indicator of `v` is there exactly when `v` is one of the Gender strings. */
  lemma IndicatorKept(cols: seq<string>, genders: seq<string>, useLog: bool, v: string)
    requires GenderColumn in cols
    requires forall c :: c in cols ==> !IsGenderLabel(c)
    ensures DummyName(GenderPrefix, v) in DropAll(EncodedColumns(cols, genders, useLog), ColumnsToDrop) <==> v in genders
  {
    DropAllIsKeep(EncodedColumns(cols, genders, useLog), ColumnsToDrop);
    IndicatorNotDropped(v);
    if v in genders {
      IndicatorEncoded(cols, genders, useLog, v);
    }
    if DummyName(GenderPrefix, v) in EncodedColumns(cols, genders, useLog) {
      IndicatorOrigin(cols, genders, useLog, v);
    }
  }

  /** The renames of `rename_map` find their target free exactly when no source and its target are both present. */
  lemma RenamePairsFresh(d: seq<string>)
    ensures RenamesFresh(d, RenamePairs) <==>
      && (ExperienceColumn in d ==> "years_experience" !in d)
      && (DummyName(GenderPrefix, "Female") in d ==> DummyName(GenderPrefix, "female") !in d)
      && (DummyName(GenderPrefix, "Male") in d ==> DummyName(GenderPrefix, "male") !in d)
  {
    var p := RenamePairs;
    assert DummyName(GenderPrefix, "Female") == "gender_Female" && DummyName(GenderPrefix, "female") == "gender_female";
    assert DummyName(GenderPrefix, "Male") == "gender_Male" && DummyName(GenderPrefix, "male") == "gender_male";
    assert p[..2][..1] == p[..1] && p[..3][..2] == p[..2] && p[..1][..0] == [] && p[..3] == p;
    RenamesFreshLast(d, p[..1]);
    RenamesFreshLast(d, p[..2]);
    RenamesFreshLast(d, p);
    var r1 := RenameAll(d, p[..1]);
    var r2 := RenameAll(d, p[..2]);
    RenamedOther(d, ExperienceColumn, "years_experience", "gender_Female");
    RenamedOther(d, ExperienceColumn, "years_experience", "gender_female");
    RenamedOther(d, ExperienceColumn, "years_experience", "gender_Male");
    RenamedOther(d, ExperienceColumn, "years_experience", "gender_male");
    RenamedOther(r1, "gender_Female", "gender_female", "gender_Male");
    RenamedOther(r1, "gender_Female", "gender_female", "gender_male");
  }

  /**
   * The renames of `rename_map` all find their target free, unless the Gender column
   * holds both "Female" and "female", or both "Male" and "male".
   */
  lemma FeatureRenamesFresh(cols: seq<string>, genders: seq<string>, useLog: bool)
    requires GenderColumn in cols
    requires forall c :: c in cols ==> !IsGenderLabel(c)
    requires "years_experience" !in cols
    ensures RenamesFresh(DropAll(EncodedColumns(cols, genders, useLog), ColumnsToDrop), RenamePairs) <==>
      !("Female" in genders && "female" in genders) && !("Male" in genders && "male" in genders)
  {
    ExperienceTargetAbsent(cols, genders, useLog);
    IndicatorKept(cols, genders, useLog, "Female");
    IndicatorKept(cols, genders, useLog, "female");
    IndicatorKept(cols, genders, useLog, "Male");
    IndicatorKept(cols, genders, useLog, "male");
    RenamePairsFresh(DropAll(EncodedColumns(cols, genders, useLog), ColumnsToDrop));
  }

  lemma ExperienceTargetAbsent(cols: seq<string>, genders: seq<string>, useLog: bool)
    requires "years_experience" !in cols
    ensures "years_experience" !in DropAll(EncodedColumns(cols, genders, useLog), ColumnsToDrop)
  {
    var e := EncodedColumns(cols, genders, useLog);
    DropAllIsKeep(e, ColumnsToDrop);
    if "years_experience" in e {
      NotForeign(cols, genders, useLog, "years_experience");
    }
  }

  /** The labels after step 4 are `EncodedColumns` of the input's. */
  lemma EncodedColumnsOf(f: Frame, useLog: bool, log: Cell -> Cell)
    requires WellFormed(f)
    requires GenderColumn in f.cells ==> IsTextColumn(f.cells[GenderColumn])
    requires Encoded(f, useLog, log).Success?
    ensures Encoded(f, useLog, log).value.columns == EncodedColumns(f.columns, GenderValues(f), useLog)
  {
    EncodedStages(f, useLog, log);
    LogStepKeepsGender(f, useLog, log);
  }

  /**
   * On an input with a text Gender column, no label starting with `gender_` and no
   * `years_experience`, `main` succeeds exactly when the log finds its Salary column,
   * Years of Experience holds only numbers and NaN, and the Gender column does not
   * hold both spellings of "Female" or of "Male" that the renames would merge.
   */
  lemma DerivedSucceeds(f: Frame, useLog: bool, log: Cell -> Cell)
    requires WellFormed(f)
    requires GenderColumn in f.cells && IsTextColumn(f.cells[GenderColumn])
    requires forall c :: c in f.columns ==> !IsGenderLabel(c)
    requires "years_experience" !in f.columns
    ensures DerivedFeatures(f, useLog, log).Success? <==>
      && (useLog ==> SalaryColumn in f.columns)
      && (ExperienceColumn in f.columns ==> IsNumericColumn(f.cells[ExperienceColumn]))
      && !(Text("Female") in f.cells[GenderColumn] && Text("female") in f.cells[GenderColumn])
      && !(Text("Male") in f.cells[GenderColumn] && Text("male") in f.cells[GenderColumn])
  {
    EncodedSucceeds(f, useLog, log);
    if Encoded(f, useLog, log).Success? {
      var e := Encoded(f, useLog, log).value;
      EncodedColumnsOf(f, useLog, log);
      FeatureRenamesFresh(f.columns, GenderValues(f), useLog);
      assert DropColumns(e, ColumnsToDrop).columns == DropAll(EncodedColumns(f.columns, GenderValues(f), useLog), ColumnsToDrop);
    }
  }

  /** Salary and Years of Experience are neither dropped, nor written, nor encoded; only the second is renamed. */
  lemma KeptLabels()
    ensures SalaryColumn !in ColumnsToDrop && SalaryColumn != GenderColumn && !IsWritten(SalaryColumn)
    ensures !IsGenderLabel(SalaryColumn) && RenameName(SalaryColumn, RenamePairs) == SalaryColumn
    ensures ExperienceColumn !in ColumnsToDrop && ExperienceColumn != GenderColumn && !IsWritten(ExperienceColumn)
    ensures !IsGenderLabel(ExperienceColumn) && RenameName(ExperienceColumn, RenamePairs) == "years_experience"
  {
    NotGenderLabel(SalaryColumn);
    NotGenderLabel(ExperienceColumn);
    RenameNameOfPairs(SalaryColumn);
    RenameNameOfPairs(ExperienceColumn);
  }
}
