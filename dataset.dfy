/**
 * Stage one of the pipeline: the three raw tables are left-joined on `id` and the
 * merged table is cleaned (rows without a salary dropped, missing cells filled,
 * Age and Years of Experience cast to integers).
 */
module Dataset {
  import opened Wrappers
  import opened Statistics

  /** A row of the salary table. */
  datatype SalaryRow = SalaryRow(id: int, salary: Option<real>)

  /** A row of the people table. */
  datatype PersonRow = PersonRow(
    id: int,
    age: Option<real>,
    gender: Option<string>,
    educationLevel: Option<string>,
    yearsOfExperience: Option<real>,
    jobTitle: Option<string>)

  /** A row of the descriptions table. */
  datatype DescriptionRow = DescriptionRow(id: int, description: Option<string>)

  /** A row of the merged table: the person's columns, then Salary, then Description. */
  datatype Record = Record(
    id: int,
    age: Option<real>,
    gender: Option<string>,
    educationLevel: Option<string>,
    yearsOfExperience: Option<real>,
    jobTitle: Option<string>,
    salary: Option<real>,
    description: Option<string>)

  /** The people-table part of a merged row. */
  function PersonOf(r: Record): PersonRow {
    PersonRow(r.id, r.age, r.gender, r.educationLevel, r.yearsOfExperience, r.jobTitle)
  }

  predicate UniqueSalaryIds(rows: seq<SalaryRow>) {
    forall i, j :: 0 <= i < j < |rows| ==> rows[i].id != rows[j].id
  }

  predicate UniqueDescriptionIds(rows: seq<DescriptionRow>) {
    forall i, j :: 0 <= i < j < |rows| ==> rows[i].id != rows[j].id
  }

  /** The Salary that a left join on `id` attaches: the first matching row's, else NaN. */
  function SalaryOf(rows: seq<SalaryRow>, id: int): (s: Option<real>)
    ensures (forall j :: 0 <= j < |rows| ==> rows[j].id != id) ==> s.None?
    ensures forall j :: 0 <= j < |rows| && rows[j].id == id && (forall k :: 0 <= k < j ==> rows[k].id != id) ==>
              s == rows[j].salary
  {
    if rows == [] then None
    else if rows[0].id == id then rows[0].salary
    else SalaryOf(rows[1..], id)
  }

  /** The Description that a left join on `id` attaches: the first matching row's, else NaN. */
  function DescriptionOf(rows: seq<DescriptionRow>, id: int): (d: Option<string>)
    ensures (forall j :: 0 <= j < |rows| ==> rows[j].id != id) ==> d.None?
    ensures forall j :: 0 <= j < |rows| && rows[j].id == id && (forall k :: 0 <= k < j ==> rows[k].id != id) ==>
              d == rows[j].description
  {
    if rows == [] then None
    else if rows[0].id == id then rows[0].description
    else DescriptionOf(rows[1..], id)
  }

  /**
   * `merge_data`: people left-joined with salaries, then with descriptions, on `id`.
   * With unique ids on the right, every person gives exactly one row, in order, and
   * carries the matching Salary and Description, or NaN where nothing matches.
   */
  function MergeData(salaries: seq<SalaryRow>, people: seq<PersonRow>, descriptions: seq<DescriptionRow>)
    : (merged: seq<Record>)
    requires UniqueSalaryIds(salaries) && UniqueDescriptionIds(descriptions)
    ensures |merged| == |people|
    ensures forall i :: 0 <= i < |people| ==> PersonOf(merged[i]) == people[i]
    ensures forall i, j :: 0 <= i < |people| && 0 <= j < |salaries| && salaries[j].id == people[i].id ==>
              merged[i].salary == salaries[j].salary
    ensures forall i :: 0 <= i < |people| && (forall j :: 0 <= j < |salaries| ==> salaries[j].id != people[i].id) ==>
              merged[i].salary.None?
    ensures forall i, j :: 0 <= i < |people| && 0 <= j < |descriptions| && descriptions[j].id == people[i].id ==>
              merged[i].description == descriptions[j].description
    ensures forall i :: 0 <= i < |people| && (forall j :: 0 <= j < |descriptions| ==> descriptions[j].id != people[i].id) ==>
              merged[i].description.None?
  {
    seq(|people|, i requires 0 <= i < |people| =>
      var p := people[i];
      Record(p.id, p.age, p.gender, p.educationLevel, p.yearsOfExperience, p.jobTitle,
             SalaryOf(salaries, p.id), DescriptionOf(descriptions, p.id)))
  }

  // ---------------------------------------------------------------------------
  // fill_missing_values

  const NoDescription := "No description"
  const Missing := "Missing"
  const AgeColumn := "Age"
  const ExperienceColumn := "Years of Experience"

  /** `astype(int)` raises on a column that still holds NaN. */
  datatype CleanError = NullInIntegerCast(column: string)

  /** `df.dropna(subset=["Salary"])`: the rows that have a Salary, in their order. */
  function DropMissingSalary(rows: seq<Record>): (kept: seq<Record>)
    ensures forall k :: 0 <= k < |kept| ==> kept[k].salary.Some?
    ensures forall r :: r in kept <==> r in rows && r.salary.Some?
    ensures |kept| <= |rows|
  {
    if rows == [] then []
    else
      assert forall r :: r in rows <==> r == rows[0] || r in rows[1..] by {
        assert rows == [rows[0]] + rows[1..];
      }
      (if rows[0].salary.Some? then [rows[0]] else []) + DropMissingSalary(rows[1..])
  }

  /** The drop works row by row: it distributes over concatenation, so order is kept. */
  lemma {:induction false} DropMissingSalaryAppend(a: seq<Record>, b: seq<Record>)
    ensures DropMissingSalary(a + b) == DropMissingSalary(a) + DropMissingSalary(b)
  {
    if a == [] {
      assert a + b == b;
    } else {
      assert (a + b)[1..] == a[1..] + b;
      DropMissingSalaryAppend(a[1..], b);
    }
  }

  /** A table whose rows all have a Salary loses nothing. */
  lemma {:induction false} DropMissingSalaryKeepsComplete(rows: seq<Record>)
    requires forall k :: 0 <= k < |rows| ==> rows[k].salary.Some?
    ensures DropMissingSalary(rows) == rows
  {
    if rows != [] {
      DropMissingSalaryKeepsComplete(rows[1..]);
      assert rows == [rows[0]] + rows[1..];
    }
  }

  /** The non-null values of a column, in row order (what `Series.median()` looks at). */
  function Present(column: seq<Option<real>>): (values: seq<real>)
    ensures values == [] <==> forall i :: 0 <= i < |column| ==> column[i].None?
    ensures forall x :: x in values <==> Some(x) in column
  {
    if column == [] then []
    else
      assert forall c :: c in column <==> c == column[0] || c in column[1..] by {
        assert column == [column[0]] + column[1..];
      }
      (if column[0].Some? then [column[0].value] else []) + Present(column[1..])
  }

  /** Each value occurs in `Present(column)` as many times as its cell occurs in the column. */
  lemma {:induction false} PresentCounts(column: seq<Option<real>>)
    ensures forall x :: multiset(Present(column))[x] == multiset(column)[Some(x)]
  {
    if column != [] {
      PresentCounts(column[1..]);
      assert column == [column[0]] + column[1..];
      assert multiset(column) == multiset{column[0]} + multiset(column[1..]);
    }
  }

  function Ages(rows: seq<Record>): seq<Option<real>> {
    seq(|rows|, i requires 0 <= i < |rows| => rows[i].age)
  }

  function Experiences(rows: seq<Record>): seq<Option<real>> {
    seq(|rows|, i requires 0 <= i < |rows| => rows[i].yearsOfExperience)
  }

  /** The three categorical columns that `cat_cols` fills with "Missing". */
  datatype TextColumn = Gender | EducationLevel | JobTitle

  const CategoricalColumns: seq<TextColumn> := [Gender, EducationLevel, JobTitle]

  function TextOf(r: Record, col: TextColumn): Option<string> {
    match col
    case Gender => r.gender
    case EducationLevel => r.educationLevel
    case JobTitle => r.jobTitle
  }

  function WithText(r: Record, col: TextColumn, v: Option<string>): Record {
    match col
    case Gender => r.(gender := v)
    case EducationLevel => r.(educationLevel := v)
    case JobTitle => r.(jobTitle := v)
  }

  // Each vectorised pandas step is a function applied to every row.

  /** `df["Description"].fillna("No description")`. */
  function FillDescriptions(rows: seq<Record>): (r: seq<Record>)
    ensures |r| == |rows|
  {
    seq(|rows|, i requires 0 <= i < |rows| => rows[i].(description := Some(rows[i].description.GetOr(NoDescription))))
  }

  /** `df["Age"].fillna(median)`; filling with NaN (no median) changes nothing. */
  function FillAges(rows: seq<Record>, median: Option<real>): (r: seq<Record>)
    ensures |r| == |rows|
  {
    seq(|rows|, i requires 0 <= i < |rows| =>
      if rows[i].age.None? then rows[i].(age := median) else rows[i])
  }

  /** `df["Years of Experience"].fillna(median)`. */
  function FillExperiences(rows: seq<Record>, median: Option<real>): (r: seq<Record>)
    ensures |r| == |rows|
  {
    seq(|rows|, i requires 0 <= i < |rows| =>
      if rows[i].yearsOfExperience.None? then rows[i].(yearsOfExperience := median) else rows[i])
  }

  /** `df[col].fillna("Missing")` on one row. */
  function FillText(r: Record, col: TextColumn): Record {
    WithText(r, col, Some(TextOf(r, col).GetOr(Missing)))
  }

  /** `df[col].fillna("Missing")`. */
  function FillTexts(rows: seq<Record>, col: TextColumn): (r: seq<Record>)
    ensures |r| == |rows|
  {
    seq(|rows|, i requires 0 <= i < |rows| => FillText(rows[i], col))
  }

  /** `for col in cols: df[col] = df[col].fillna("Missing")`, on one row. */
  function FillTextColumns(r: Record, cols: seq<TextColumn>): Record {
    if cols == [] then r else FillText(FillTextColumns(r, cols[..|cols| - 1]), cols[|cols| - 1])
  }

  /** `df["Age"].astype(int)` on a column without NaN. */
  function TruncateAges(rows: seq<Record>): (r: seq<Record>)
    requires forall i :: 0 <= i < |rows| ==> rows[i].age.Some?
    ensures |r| == |rows|
  {
    seq(|rows|, i requires 0 <= i < |rows| => rows[i].(age := Some(Truncate(rows[i].age.value) as real)))
  }

  /** `df["Years of Experience"].astype(int)` on a column without NaN. */
  function TruncateExperiences(rows: seq<Record>): (r: seq<Record>)
    requires forall i :: 0 <= i < |rows| ==> rows[i].yearsOfExperience.Some?
    ensures |r| == |rows|
  {
    seq(|rows|, i requires 0 <= i < |rows| =>
      rows[i].(yearsOfExperience := Some(Truncate(rows[i].yearsOfExperience.value) as real)))
  }

  /**
   * A surviving row as cleaning leaves it, given the two medians: the four text
   * columns filled with their sentinels, Age and Years of Experience filled with the
   * median where NaN and truncated.
   */
  function CleanRecord(r: Record, ageMedian: real, experienceMedian: real): Record {
    r.(description := Some(r.description.GetOr(NoDescription)),
       age := Some(Truncate(r.age.GetOr(ageMedian)) as real),
       yearsOfExperience := Some(Truncate(r.yearsOfExperience.GetOr(experienceMedian)) as real),
       gender := Some(r.gender.GetOr(Missing)),
       educationLevel := Some(r.educationLevel.GetOr(Missing)),
       jobTitle := Some(r.jobTitle.GetOr(Missing)))
  }

  /**
   * What `fill_missing_values` returns, defined row by row: both medians are taken
   * over the rows that keep a Salary; the cast fails when a column is still NaN,
   * which happens exactly when some row survives and none has a value to take a
   * median of (Age is cast, and so fails, first).
   */
  function Cleaned(df: seq<Record>): Result<seq<Record>, CleanError> {
    var kept := DropMissingSalary(df);
    CleanKept(kept, Median(Present(Ages(kept))), Median(Present(Experiences(kept))))
  }

  /** The surviving rows cleaned with the two medians, or the cast that fails. */
  function CleanKept(kept: seq<Record>, ageMedian: Option<real>, experienceMedian: Option<real>)
    : Result<seq<Record>, CleanError>
  {
    if kept == [] then Success([])
    else if ageMedian.None? then Failure(NullInIntegerCast(AgeColumn))
    else if experienceMedian.None? then Failure(NullInIntegerCast(ExperienceColumn))
    else Success(CleanRows(kept, ageMedian.value, experienceMedian.value))
  }

  function CleanRows(kept: seq<Record>, ageMedian: real, experienceMedian: real): (rows: seq<Record>)
    ensures |rows| == |kept|
    ensures forall k :: 0 <= k < |kept| ==> rows[k] == CleanRecord(kept[k], ageMedian, experienceMedian)
  {
    seq(|kept|, k requires 0 <= k < |kept| => CleanRecord(kept[k], ageMedian, experienceMedian))
  }

  /** The three categorical cells of a row after `cat_cols` is filled. */
  function FillCategories(r: Record): Record {
    r.(gender := Some(r.gender.GetOr(Missing)),
       educationLevel := Some(r.educationLevel.GetOr(Missing)),
       jobTitle := Some(r.jobTitle.GetOr(Missing)))
  }

  /** Filling the three categorical columns one after the other touches nothing else. */
  lemma FillCategoricalColumns(r: Record)
    ensures FillTextColumns(r, CategoricalColumns) == FillCategories(r)
  {
    var cols := CategoricalColumns;
    assert cols[..0] == [];
    assert cols[..1][..0] == [] && cols[..2][..1] == cols[..1] && cols[..3][..2] == cols[..2];
    assert FillTextColumns(r, cols[..1]) == FillText(r, Gender);
    assert FillTextColumns(r, cols[..2]) == FillText(FillText(r, Gender), EducationLevel);
    assert cols[..3] == cols;
  }

  /** A row after the Description, Age and Years of Experience fills. */
  function FilledRecord(r: Record, ageMedian: Option<real>, experienceMedian: Option<real>): Record {
    r.(description := Some(r.description.GetOr(NoDescription)),
       age := if r.age.None? then ageMedian else r.age,
       yearsOfExperience := if r.yearsOfExperience.None? then experienceMedian else r.yearsOfExperience)
  }

  /**
   * `fill_missing_values`, step by step as the source runs it: drop the rows without a
   * Salary, impute Description, Age and Years of Experience, fill each categorical
   * column in turn, then cast the two numeric columns.
   */
  method FillMissingValues(df: seq<Record>) returns (result: Result<seq<Record>, CleanError>)
    ensures result == Cleaned(df)
  {
    var kept := DropMissingSalary(df);
    var filled, ageMedian, experienceMedian := Impute(kept);
    var texts := FillCategorical(filled);
    result := CastIntegerColumns(texts);
    CleanedByCast(df, kept, ageMedian, experienceMedian, filled, texts);
  }

  /** The Description fill and the two median fills, medians taken after the drop. */
  method Impute(kept: seq<Record>) returns (rows: seq<Record>, ageMedian: Option<real>, experienceMedian: Option<real>)
    ensures ageMedian == Median(Present(Ages(kept)))
    ensures experienceMedian == Median(Present(Experiences(kept)))
    ensures |rows| == |kept|
    ensures forall i :: 0 <= i < |rows| ==> rows[i] == FilledRecord(kept[i], ageMedian, experienceMedian)
  {
    rows := FillDescriptions(kept);
    assert Ages(rows) == Ages(kept);
    ageMedian := Median(Present(Ages(rows)));
    rows := FillAges(rows, ageMedian);
    assert Experiences(rows) == Experiences(kept);
    experienceMedian := Median(Present(Experiences(rows)));
    rows := FillExperiences(rows, experienceMedian);
  }

  /** `for col in cat_cols: df[col] = df[col].fillna("Missing")`. */
  method FillCategorical(filled: seq<Record>) returns (rows: seq<Record>)
    ensures |rows| == |filled|
    ensures forall i :: 0 <= i < |rows| ==> rows[i] == FillCategories(filled[i])
  {
    rows := filled;
    for k := 0 to |CategoricalColumns|
      invariant |rows| == |filled|
      invariant forall i :: 0 <= i < |rows| ==> rows[i] == FillTextColumns(filled[i], CategoricalColumns[..k])
    {
      assert CategoricalColumns[..k + 1][..k] == CategoricalColumns[..k];
      rows := FillTexts(rows, CategoricalColumns[k]);
    }
    assert CategoricalColumns[..|CategoricalColumns|] == CategoricalColumns;
    forall i | 0 <= i < |rows| ensures rows[i] == FillCategories(filled[i]) {
      FillCategoricalColumns(filled[i]);
    }
  }

  /**
   * `astype(int)` on Age and then on Years of Experience: the first column holding a
   * null fails the cast; otherwise both are truncated toward zero.
   */
  function Cast(rows: seq<Record>): Result<seq<Record>, CleanError> {
    if exists i | 0 <= i < |rows| :: rows[i].age.None? then Failure(NullInIntegerCast(AgeColumn))
    else if exists i | 0 <= i < |rows| :: rows[i].yearsOfExperience.None? then Failure(NullInIntegerCast(ExperienceColumn))
    else Success(TruncateExperiences(TruncateAges(rows)))
  }

  method CastIntegerColumns(rows: seq<Record>) returns (result: Result<seq<Record>, CleanError>)
    ensures result == Cast(rows)
  {
    if exists i | 0 <= i < |rows| :: rows[i].age.None? {
      return Failure(NullInIntegerCast(AgeColumn));
    }
    var cast := TruncateAges(rows);
    assert forall i :: 0 <= i < |cast| ==> cast[i].yearsOfExperience == rows[i].yearsOfExperience;
    if exists i | 0 <= i < |cast| :: cast[i].yearsOfExperience.None? {
      return Failure(NullInIntegerCast(ExperienceColumn));
    }
    cast := TruncateExperiences(cast);
    result := Success(cast);
  }

  /** The cast of the filled rows is what `Cleaned` specifies. */
  lemma CleanedByCast(df: seq<Record>, kept: seq<Record>, ageMedian: Option<real>, experienceMedian: Option<real>,
                      filled: seq<Record>, texts: seq<Record>)
    requires kept == DropMissingSalary(df)
    requires ageMedian == Median(Present(Ages(kept)))
    requires experienceMedian == Median(Present(Experiences(kept)))
    requires |texts| == |filled| == |kept|
    requires forall i :: 0 <= i < |filled| ==> filled[i] == FilledRecord(kept[i], ageMedian, experienceMedian)
    requires forall i :: 0 <= i < |texts| ==> texts[i] == FillCategories(filled[i])
    ensures Cast(texts) == Cleaned(df)
  {
    CastIsCleanKept(kept, ageMedian, experienceMedian, filled, texts);
  }

  /** The cast of the filled rows is `CleanKept` of the surviving rows and their medians. */
  lemma CastIsCleanKept(kept: seq<Record>, ageMedian: Option<real>, experienceMedian: Option<real>,
                        filled: seq<Record>, texts: seq<Record>)
    requires ageMedian.None? <==> Present(Ages(kept)) == []
    requires experienceMedian.None? <==> Present(Experiences(kept)) == []
    requires |texts| == |filled| == |kept|
    requires forall i :: 0 <= i < |filled| ==> filled[i] == FilledRecord(kept[i], ageMedian, experienceMedian)
    requires forall i :: 0 <= i < |texts| ==> texts[i] == FillCategories(filled[i])
    ensures Cast(texts) == CleanKept(kept, ageMedian, experienceMedian)
  {
    CastOutcome(kept, ageMedian, experienceMedian, filled, texts);
    if kept != [] && ageMedian.Some? && experienceMedian.Some? {
      CastSucceeds(kept, ageMedian.value, experienceMedian.value, texts);
    }
  }

  /** Which cast fails, if any, after the fills. */
  lemma CastOutcome(kept: seq<Record>, ageMedian: Option<real>, experienceMedian: Option<real>,
                    filled: seq<Record>, texts: seq<Record>)
    requires ageMedian.None? <==> Present(Ages(kept)) == []
    requires experienceMedian.None? <==> Present(Experiences(kept)) == []
    requires |texts| == |filled| == |kept|
    requires forall i :: 0 <= i < |filled| ==> filled[i] == FilledRecord(kept[i], ageMedian, experienceMedian)
    requires forall i :: 0 <= i < |texts| ==> texts[i] == FillCategories(filled[i])
    ensures (exists i :: 0 <= i < |texts| && texts[i].age.None?) <==> kept != [] && ageMedian.None?
    ensures (exists i :: 0 <= i < |texts| && texts[i].yearsOfExperience.None?) <==> kept != [] && experienceMedian.None?
    ensures kept != [] && ageMedian.Some? && experienceMedian.Some? ==>
      forall i :: 0 <= i < |texts| ==> texts[i] == FillCategories(FilledRecord(kept[i], ageMedian, experienceMedian))
  {
    if kept != [] {
      assert Ages(kept)[0] == kept[0].age;
      assert Experiences(kept)[0] == kept[0].yearsOfExperience;
      assert texts[0] == FillCategories(filled[0]);
    }
    forall i | 0 <= i < |kept| ensures Ages(kept)[i] == kept[i].age && Experiences(kept)[i] == kept[i].yearsOfExperience {
    }
  }

  /** When both casts succeed, every surviving row is its `CleanRecord`. */
  lemma CastSucceeds(kept: seq<Record>, ageMedian: real, experienceMedian: real, texts: seq<Record>)
    requires |texts| == |kept|
    requires forall i :: 0 <= i < |texts| ==>
      texts[i] == FillCategories(FilledRecord(kept[i], Some(ageMedian), Some(experienceMedian)))
    ensures forall i :: 0 <= i < |texts| ==> texts[i].age.Some? && texts[i].yearsOfExperience.Some?
    ensures TruncateExperiences(TruncateAges(texts)) == CleanRows(kept, ageMedian, experienceMedian)
  {
    var rows := TruncateExperiences(TruncateAges(texts));
    forall i | 0 <= i < |rows| ensures rows[i] == CleanRecord(kept[i], ageMedian, experienceMedian) {
    }
  }

  // ---------------------------------------------------------------------------
  // What cleaning promises

  /** Every value in a column is one of the non-null values `Present` keeps. */
  lemma PresentHas(column: seq<Option<real>>, i: int)
    requires 0 <= i < |column| && column[i].Some?
    ensures column[i].value in Present(column)
  {
    assert column[i] in column;
  }

  /** A surviving table with no rows is returned unchanged and empty. */
  lemma CleanedEmpty(df: seq<Record>)
    requires forall k :: 0 <= k < |df| ==> df[k].salary.None?
    ensures Cleaned(df) == Success([])
  {
    DropMissingSalaryOfNone(df);
  }

  /** A table with no Salary at all loses every row. */
  lemma {:induction false} DropMissingSalaryOfNone(rows: seq<Record>)
    requires forall k :: 0 <= k < |rows| ==> rows[k].salary.None?
    ensures DropMissingSalary(rows) == []
  {
    if rows != [] {
      DropMissingSalaryOfNone(rows[1..]);
    }
  }

  /** The rows of a successful clean, each the `CleanRecord` of a surviving row. */
  lemma CleanedRows(df: seq<Record>, out: seq<Record>)
    requires Cleaned(df) == Success(out)
    ensures |out| == |DropMissingSalary(df)|
    ensures out != [] ==>
      var kept := DropMissingSalary(df);
      var ageMedian := Median(Present(Ages(kept)));
      var experienceMedian := Median(Present(Experiences(kept)));
      ageMedian.Some? && experienceMedian.Some? &&
      forall i :: 0 <= i < |out| ==> out[i] == CleanRecord(kept[i], ageMedian.value, experienceMedian.value)
  {
  }

  /** Casting Age fails exactly when some row keeps its Salary and no such row has an Age. */
  lemma CleanedFailsOnAge(df: seq<Record>)
    ensures Cleaned(df) == Failure(NullInIntegerCast(AgeColumn)) <==>
      var kept := DropMissingSalary(df);
      kept != [] && forall k :: 0 <= k < |kept| ==> kept[k].age.None?
  {
    var kept := DropMissingSalary(df);
    NoAgeMedian(kept);
    CleanKeptFails(kept, Median(Present(Ages(kept))), Median(Present(Experiences(kept))));
  }

  /** The Age median is missing exactly when no row has an Age. */
  lemma NoAgeMedian(rows: seq<Record>)
    ensures Median(Present(Ages(rows))).None? <==> forall k :: 0 <= k < |rows| ==> rows[k].age.None?
  {
    forall k | 0 <= k < |rows| ensures Ages(rows)[k] == rows[k].age {}
  }

  /** The Years of Experience median is missing exactly when no row has one. */
  lemma NoExperienceMedian(rows: seq<Record>)
    ensures Median(Present(Experiences(rows))).None? <==> forall k :: 0 <= k < |rows| ==> rows[k].yearsOfExperience.None?
  {
    forall k | 0 <= k < |rows| ensures Experiences(rows)[k] == rows[k].yearsOfExperience {}
  }

  /**
   * Casting Years of Experience fails exactly when some row keeps its Salary, one of
   * them has an Age, and none has a Years of Experience.
   */
  lemma CleanedFailsOnExperience(df: seq<Record>)
    ensures Cleaned(df) == Failure(NullInIntegerCast(ExperienceColumn)) <==>
      var kept := DropMissingSalary(df);
      (exists k :: 0 <= k < |kept| && kept[k].age.Some?) &&
      forall k :: 0 <= k < |kept| ==> kept[k].yearsOfExperience.None?
  {
    var kept := DropMissingSalary(df);
    NoAgeMedian(kept);
    NoExperienceMedian(kept);
    CleanKeptFails(kept, Median(Present(Ages(kept))), Median(Present(Experiences(kept))));
  }

  /** Which of the two casts fails, in terms of the medians. */
  lemma CleanKeptFails(kept: seq<Record>, ageMedian: Option<real>, experienceMedian: Option<real>)
    ensures CleanKept(kept, ageMedian, experienceMedian) == Failure(NullInIntegerCast(AgeColumn)) <==>
      kept != [] && ageMedian.None?
    ensures CleanKept(kept, ageMedian, experienceMedian) == Failure(NullInIntegerCast(ExperienceColumn)) <==>
      kept != [] && ageMedian.Some? && experienceMedian.None?
  {
    ColumnsDiffer();
  }

  lemma ColumnsDiffer()
    ensures AgeColumn != ExperienceColumn
  {
    assert AgeColumn[0] != ExperienceColumn[0];
  }

  /** The rows cleaning returns are the rows that had a Salary, each with its id and Salary. */
  lemma CleanedKeepsSalaryRows(df: seq<Record>, out: seq<Record>)
    requires Cleaned(df) == Success(out)
    ensures |out| == |DropMissingSalary(df)|
    ensures forall i :: 0 <= i < |out| ==>
      out[i].id == DropMissingSalary(df)[i].id && out[i].salary == DropMissingSalary(df)[i].salary && out[i].salary.Some?
  {
  }

  /** A cleaned table has no missing cell, and its Age and Years of Experience are whole numbers. */
  lemma CleanedIsComplete(df: seq<Record>, out: seq<Record>)
    requires Cleaned(df) == Success(out)
    ensures forall i :: 0 <= i < |out| ==> IsComplete(out[i])
  {
    CleanedRows(df, out);
    if out != [] {
      var kept := DropMissingSalary(df);
      var am := Median(Present(Ages(kept))).value;
      var em := Median(Present(Experiences(kept))).value;
      forall i | 0 <= i < |out| ensures IsComplete(out[i]) {
        assert kept[i].salary.Some?;
        CleanRecordIsComplete(kept[i], am, em);
      }
    }
  }

  /** The cleaned form of a row with a Salary has every cell, and whole numbers. */
  lemma CleanRecordIsComplete(r: Record, ageMedian: real, experienceMedian: real)
    requires r.salary.Some?
    ensures IsComplete(CleanRecord(r, ageMedian, experienceMedian))
  {
  }

  /** Every cell of the row is present, and the two numeric cells are integral. */
  predicate IsComplete(r: Record) {
    && r.age.Some? && IsIntegral(r.age.value)
    && r.yearsOfExperience.Some? && IsIntegral(r.yearsOfExperience.value)
    && r.gender.Some? && r.educationLevel.Some? && r.jobTitle.Some?
    && r.salary.Some? && r.description.Some?
  }

  /** Text cells that were present are kept; missing ones get their sentinel. */
  lemma CleanedFillsText(df: seq<Record>, out: seq<Record>, i: int)
    requires Cleaned(df) == Success(out)
    requires 0 <= i < |out|
    ensures var r := DropMissingSalary(df)[i];
      && out[i].gender == (if r.gender.Some? then r.gender else Some(Missing))
      && out[i].educationLevel == (if r.educationLevel.Some? then r.educationLevel else Some(Missing))
      && out[i].jobTitle == (if r.jobTitle.Some? then r.jobTitle else Some(Missing))
      && out[i].description == (if r.description.Some? then r.description else Some(NoDescription))
  {
  }

  /**
   * Row `i` of `kept`, cleaned into `r`, has its Age imputed as `fill_missing_values`
   * promises: a present Age is truncated toward zero; a missing one becomes the
   * truncated median of the present Ages of `kept`, which lies between two of them.
   */
  ghost predicate AgeImputedAs(kept: seq<Record>, i: int, r: Record)
    requires 0 <= i < |kept|
  {
    && (kept[i].age.Some? ==> r.age == Some(Truncate(kept[i].age.value) as real))
    && (kept[i].age.None? ==>
          var median := Median(Present(Ages(kept)));
          && median.Some?
          && r.age == Some(Truncate(median.value) as real)
          && (exists j :: 0 <= j < |kept| && kept[j].age.Some? && kept[j].age.value <= median.value)
          && (exists j :: 0 <= j < |kept| && kept[j].age.Some? && median.value <= kept[j].age.value))
  }

  /** The same for Years of Experience. */
  ghost predicate ExperienceImputedAs(kept: seq<Record>, i: int, r: Record)
    requires 0 <= i < |kept|
  {
    && (kept[i].yearsOfExperience.Some? ==>
          r.yearsOfExperience == Some(Truncate(kept[i].yearsOfExperience.value) as real))
    && (kept[i].yearsOfExperience.None? ==>
          var median := Median(Present(Experiences(kept)));
          && median.Some?
          && r.yearsOfExperience == Some(Truncate(median.value) as real)
          && (exists j :: 0 <= j < |kept| && kept[j].yearsOfExperience.Some? && kept[j].yearsOfExperience.value <= median.value)
          && (exists j :: 0 <= j < |kept| && kept[j].yearsOfExperience.Some? && median.value <= kept[j].yearsOfExperience.value))
  }

  /** Each cleaned row has its Age imputed from the surviving rows (`AgeImputedAs`). */
  lemma CleanedImputesAge(df: seq<Record>, out: seq<Record>, i: int)
    requires Cleaned(df) == Success(out)
    requires 0 <= i < |out|
    ensures AgeImputedAs(DropMissingSalary(df), i, out[i])
  {
    var kept := DropMissingSalary(df);
    CleanedRows(df, out);
    var am, em := Median(Present(Ages(kept))), Median(Present(Experiences(kept)));
    assert am.Some? && em.Some? && out[i] == CleanRecord(kept[i], am.value, em.value);
    AgeImputed(kept, i, em.value, out[i]);
  }

  /** Each cleaned row has its Years of Experience imputed from the surviving rows. */
  lemma CleanedImputesExperience(df: seq<Record>, out: seq<Record>, i: int)
    requires Cleaned(df) == Success(out)
    requires 0 <= i < |out|
    ensures ExperienceImputedAs(DropMissingSalary(df), i, out[i])
  {
    var kept := DropMissingSalary(df);
    CleanedRows(df, out);
    var am, em := Median(Present(Ages(kept))), Median(Present(Experiences(kept)));
    assert am.Some? && em.Some? && out[i] == CleanRecord(kept[i], am.value, em.value);
    ExperienceImputed(kept, i, am.value, out[i]);
  }

  lemma AgeImputed(kept: seq<Record>, i: int, experienceMedian: real, r: Record)
    requires 0 <= i < |kept|
    requires Median(Present(Ages(kept))).Some?
    requires r == CleanRecord(kept[i], Median(Present(Ages(kept))).value, experienceMedian)
    ensures AgeImputedAs(kept, i, r)
  {
    var m := Median(Present(Ages(kept))).value;
    if kept[i].age.None? {
      var k :| 0 <= k < |kept| && Ages(kept)[k].Some?;
      assert kept[k].age.Some?;
      AgeMedianWithin(kept);
      assert r.age == Some(Truncate(m) as real);
    }
  }

  lemma ExperienceImputed(kept: seq<Record>, i: int, ageMedian: real, r: Record)
    requires 0 <= i < |kept|
    requires Median(Present(Experiences(kept))).Some?
    requires r == CleanRecord(kept[i], ageMedian, Median(Present(Experiences(kept))).value)
    ensures ExperienceImputedAs(kept, i, r)
  {
    var m := Median(Present(Experiences(kept))).value;
    if kept[i].yearsOfExperience.None? {
      var k :| 0 <= k < |kept| && Experiences(kept)[k].Some?;
      assert kept[k].yearsOfExperience.Some?;
      ExperienceMedianWithin(kept);
      assert r.yearsOfExperience == Some(Truncate(m) as real);
    }
  }

  /** The median of the present ages lies between two of them. */
  lemma AgeMedianWithin(kept: seq<Record>)
    requires exists k :: 0 <= k < |kept| && kept[k].age.Some?
    ensures var m := Median(Present(Ages(kept)));
      && m.Some?
      && (exists j :: 0 <= j < |kept| && kept[j].age.Some? && kept[j].age.value <= m.value)
      && (exists j :: 0 <= j < |kept| && kept[j].age.Some? && m.value <= kept[j].age.value)
  {
    var column := Ages(kept);
    var k :| 0 <= k < |kept| && kept[k].age.Some?;
    assert column[k] == kept[k].age;
    PresentHas(column, k);
    var values := Present(column);
    var m := Median(values).value;
    MedianWithinRange(values);
    var a :| 0 <= a < |values| && values[a] <= m;
    var b :| 0 <= b < |values| && m <= values[b];
    assert values[a] in values && values[b] in values;
    var ja :| 0 <= ja < |kept| && column[ja] == Some(values[a]);
    var jb :| 0 <= jb < |kept| && column[jb] == Some(values[b]);
    assert kept[ja].age.Some? && kept[ja].age.value <= m;
    assert kept[jb].age.Some? && m <= kept[jb].age.value;
  }

  /** The median of the present experiences lies between two of them. */
  lemma ExperienceMedianWithin(kept: seq<Record>)
    requires exists k :: 0 <= k < |kept| && kept[k].yearsOfExperience.Some?
    ensures var m := Median(Present(Experiences(kept)));
      && m.Some?
      && (exists j :: 0 <= j < |kept| && kept[j].yearsOfExperience.Some? && kept[j].yearsOfExperience.value <= m.value)
      && (exists j :: 0 <= j < |kept| && kept[j].yearsOfExperience.Some? && m.value <= kept[j].yearsOfExperience.value)
  {
    var column := Experiences(kept);
    var k :| 0 <= k < |kept| && kept[k].yearsOfExperience.Some?;
    assert column[k] == kept[k].yearsOfExperience;
    PresentHas(column, k);
    var values := Present(column);
    var m := Median(values).value;
    MedianWithinRange(values);
    var a :| 0 <= a < |values| && values[a] <= m;
    var b :| 0 <= b < |values| && m <= values[b];
    assert values[a] in values && values[b] in values;
    var ja :| 0 <= ja < |kept| && column[ja] == Some(values[a]);
    var jb :| 0 <= jb < |kept| && column[jb] == Some(values[b]);
    assert kept[ja].yearsOfExperience.Some? && kept[ja].yearsOfExperience.value <= m;
    assert kept[jb].yearsOfExperience.Some? && m <= kept[jb].yearsOfExperience.value;
  }

  /** A complete row is its own cleaned form, whatever the medians. */
  lemma CleanRecordOfComplete(r: Record, ageMedian: real, experienceMedian: real)
    requires IsComplete(r)
    ensures CleanRecord(r, ageMedian, experienceMedian) == r
  {
    TruncateIntegral(r.age.value);
    TruncateIntegral(r.yearsOfExperience.value);
  }

  /** A table of complete rows is already clean. */
  lemma CleanedOfComplete(rows: seq<Record>)
    requires forall i :: 0 <= i < |rows| ==> IsComplete(rows[i])
    ensures Cleaned(rows) == Success(rows)
  {
    DropMissingSalaryKeepsComplete(rows);
    if rows != [] {
      assert Ages(rows)[0] == rows[0].age;
      PresentHas(Ages(rows), 0);
      assert Experiences(rows)[0] == rows[0].yearsOfExperience;
      PresentHas(Experiences(rows), 0);
      var am := Median(Present(Ages(rows))).value;
      var em := Median(Present(Experiences(rows))).value;
      forall i | 0 <= i < |rows| ensures CleanRecord(rows[i], am, em) == rows[i] {
        CleanRecordOfComplete(rows[i], am, em);
      }
      assert CleanRows(rows, am, em) == rows;
    }
  }

  /** Cleaning a cleaned table changes nothing. */
  lemma CleanedIdempotent(df: seq<Record>, out: seq<Record>)
    requires Cleaned(df) == Success(out)
    ensures Cleaned(out) == Success(out)
  {
    CleanedIsComplete(df, out);
    CleanedOfComplete(out);
  }
}
