/**
 * The two stages in sequence: the records that cleaning returns, written out and read
 * back as the feature stage's table, and what the feature stage then makes of them.
 */
module Pipeline {
  import opened Wrappers
  import opened Schema
  import opened Frames
  import Dataset
  import Features

  /** The labels of the cleaned table, in the order of the merged records. */
  const CleanedColumns: seq<string> :=
    ["id", "Age", "Gender", "Education Level", "Years of Experience", "Job Title", "Salary", "Description"]

  function NumberCell(x: Option<real>): Cell {
    if x.Some? then Num(x.value) else Null
  }

  function TextCell(s: Option<string>): Cell {
    if s.Some? then Text(s.value) else Null
  }

  /** The cell of record `r` under label `c` of the cleaned table. */
  function CellOf(r: Dataset.Record, c: string): Cell {
    if c == "id" then Num(r.id as real)
    else if c == "Age" then NumberCell(r.age)
    else if c == "Gender" then TextCell(r.gender)
    else if c == "Education Level" then TextCell(r.educationLevel)
    else if c == "Years of Experience" then NumberCell(r.yearsOfExperience)
    else if c == "Job Title" then TextCell(r.jobTitle)
    else if c == "Salary" then NumberCell(r.salary)
    else TextCell(r.description)
  }

  function ColumnOf(rows: seq<Dataset.Record>, c: string): (column: seq<Cell>)
    ensures |column| == |rows|
    ensures forall i :: 0 <= i < |rows| ==> column[i] == CellOf(rows[i], c)
  {
    seq(|rows|, i requires 0 <= i < |rows| => CellOf(rows[i], c))
  }

  /**
   * The cleaned records as the table the feature stage reads: one column per label,
   * one row per record, the cell of each record under each label.
   */
  function ToFrame(rows: seq<Dataset.Record>): (f: Frame)
    ensures WellFormed(f) && f.columns == CleanedColumns && f.height == |rows|
    ensures forall c, i :: c in f.cells && 0 <= i < |rows| ==> f.cells[c][i] == CellOf(rows[i], c)
    ensures Features.IsTextColumn(f.cells[Features.GenderColumn])
  {
    Frame(CleanedColumns, map c | c in CleanedColumns :: ColumnOf(rows, c), |rows|)
  }

  /** The table read back has no label starting with `gender_` and no `years_experience`. */
  lemma ToFrameShape(rows: seq<Dataset.Record>)
    ensures forall c :: c in ToFrame(rows).columns ==> !Features.IsGenderLabel(c)
    ensures "years_experience" !in ToFrame(rows).columns
  {
    forall c | c in CleanedColumns ensures !Features.IsGenderLabel(c) {
      Features.NotGenderLabel(c);
    }
  }
  /** A record's Gender, as the feature stage's table holds it. */
  predicate HasGender(rows: seq<Dataset.Record>, g: string) {
    exists i :: 0 <= i < |rows| && rows[i].gender == Some(g)
  }

  /** Every field of every record is present, as cleaning leaves them (`Dataset.CleanedIsComplete`). */
  predicate AllComplete(rows: seq<Dataset.Record>) {
    forall k :: 0 <= k < |rows| ==> Dataset.IsComplete(rows[k])
  }

  /** The labels the feature stage looks up are all in the cleaned table. */
  lemma CleanedColumnsHold()
    ensures Features.GenderColumn in CleanedColumns && Features.SalaryColumn in CleanedColumns
    ensures Features.ExperienceColumn in CleanedColumns && Features.EducationColumn in CleanedColumns
  {
    assert CleanedColumns[2] == Features.GenderColumn && CleanedColumns[3] == Features.EducationColumn;
    assert CleanedColumns[4] == Features.ExperienceColumn && CleanedColumns[6] == Features.SalaryColumn;
  }

  /** The table read back has numbers throughout `Years of Experience` and holds exactly the records' genders. */
  lemma CompleteFrame(out: seq<Dataset.Record>, f: Frame)
    requires AllComplete(out) && f == ToFrame(out)
    ensures Features.ExperienceColumn in f.cells && Features.IsNumericColumn(f.cells[Features.ExperienceColumn])
    ensures Features.GenderColumn in f.cells
    ensures forall g :: Text(g) in f.cells[Features.GenderColumn] <==> HasGender(out, g)
  {
    CleanedColumnsHold();
    var years := f.cells[Features.ExperienceColumn];
    forall i | 0 <= i < |years| ensures years[i].Num? {
      assert Dataset.IsComplete(out[i]);
    }
    var gender := f.cells[Features.GenderColumn];
    forall g ensures Text(g) in gender <==> HasGender(out, g) {
      if Text(g) in gender {
        var i :| 0 <= i < |gender| && gender[i] == Text(g);
      }
      if HasGender(out, g) {
        var i :| 0 <= i < |out| && out[i].gender == Some(g);
        assert gender[i] == Text(g);
      }
    }
  }

  /**
   * On complete records, the output of cleaning, the feature stage never raises:
   * Salary is there, Years of Experience holds only numbers, and the only refusal left
   * is a Gender column that spells "Female" or "Male" in both cases.
   */
  lemma CleanedThenDerived(out: seq<Dataset.Record>, f: Frame, useLog: bool, log: Cell -> Cell)
    requires AllComplete(out) && f == ToFrame(out)
    ensures Features.DerivedFeatures(f, useLog, log).Success? <==>
      !(HasGender(out, "Female") && HasGender(out, "female")) && !(HasGender(out, "Male") && HasGender(out, "male"))
  {
    CleanedColumnsHold();
    ToFrameShape(out);
    CompleteFrame(out, f);
    Features.DerivedSucceeds(f, useLog, log);
  }

  /**
   * A row of the feature table built from complete records keeps the record's years
   * of experience (as `years_experience`) and its Salary.
   */
  lemma CleanedRowKept(out: seq<Dataset.Record>, f: Frame, useLog: bool, log: Cell -> Cell, r: Frame, i: nat)
    requires AllComplete(out) && i < |out| && f == ToFrame(out)
    requires Features.DerivedFeatures(f, useLog, log) == Success(r)
    ensures Dataset.IsComplete(out[i])
    ensures "years_experience" in r.cells && r.cells["years_experience"][i] == Num(out[i].yearsOfExperience.value)
    ensures "Salary" in r.cells && r.cells["Salary"][i] == Num(out[i].salary.value)
  {
    CleanedColumnsHold();
    assert Dataset.IsComplete(out[i]);
    Features.KeptLabels();
    Features.DerivedKeeps(f, useLog, log, Features.ExperienceColumn);
    Features.DerivedKeeps(f, useLog, log, Features.SalaryColumn);
  }

  /** The two ordinals of that row encode the record's education level and years of experience. */
  lemma CleanedRowOrdinals(out: seq<Dataset.Record>, f: Frame, useLog: bool, log: Cell -> Cell, r: Frame, i: nat)
    requires AllComplete(out) && i < |out| && f == ToFrame(out)
    requires Features.DerivedFeatures(f, useLog, log) == Success(r)
    ensures Dataset.IsComplete(out[i])
    ensures Features.EducationOrdinalColumn in r.cells
    ensures r.cells[Features.EducationOrdinalColumn][i] ==
      var level := out[i].educationLevel.value;
      if level in Features.EducationLevels then Num(Features.EducationOrdinal(level).value as real) else Null
    ensures Features.ExperienceOrdinalColumn in r.cells
    ensures r.cells[Features.ExperienceOrdinalColumn][i] ==
      var years := out[i].yearsOfExperience.value;
      if 0.0 <= years then Num(Features.LevelIndex(Features.ExperienceBin(years).value) as real) else Null
  {
    CleanedColumnsHold();
    assert Dataset.IsComplete(out[i]);
    assert f.cells[Features.EducationColumn][i] == Text(out[i].educationLevel.value);
    assert f.cells[Features.ExperienceColumn][i] == Num(out[i].yearsOfExperience.value);
    assert Features.CutValue(f.cells[Features.ExperienceColumn][i]) == Some(out[i].yearsOfExperience.value);
    Features.DerivedEducation(f, useLog, log);
    Features.DerivedExperience(f, useLog, log);
  }

  /**
   * The gender indicators of that row: the one of the record's Gender is true unless it
   * is "Missing", and no other is.
   */
  lemma CleanedRowGender(out: seq<Dataset.Record>, f: Frame, useLog: bool, log: Cell -> Cell, r: Frame, i: nat)
    requires AllComplete(out) && i < |out| && f == ToFrame(out)
    requires Features.DerivedFeatures(f, useLog, log) == Success(r)
    ensures Dataset.IsComplete(out[i])
    ensures forall n :: n in r.columns && Features.IsGenderLabel(n) ==>
      (r.cells[n][i] == Flag(true) <==>
         out[i].gender.value != "Missing" && n == RenameName(DummyName(Features.GenderPrefix, out[i].gender.value), Features.RenamePairs))
  {
    CleanedColumnsHold();
    ToFrameShape(out);
    assert Dataset.IsComplete(out[i]);
    var g := out[i].gender.value;
    assert f.cells[Features.GenderColumn][i] == Text(g);
    Features.DerivedOneHot(f, useLog, log, i);
    if g != "Missing" {
      Features.DerivedOwnIndicator(f, useLog, log, i);
    }
    Features.DerivedGenderLabels(f, useLog, log);
    forall n | n in r.columns && Features.IsGenderLabel(n)
      ensures r.cells[n][i] == Flag(true) <==>
        g != "Missing" && n == RenameName(DummyName(Features.GenderPrefix, g), Features.RenamePairs)
    {
      var v :| Features.IndicatorOf(r, f.cells[Features.GenderColumn], n, v);
    }
  }
}
