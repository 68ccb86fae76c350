/*
 * The Course Enrollment Tool's `get_courses` action: a fixed-precedence
 * cascade of mandatory-field checks over the tool's filter fields, followed by
 * the rule that an empty result is an error.
 *
 * The listing of Course Study records is passed in as a parameter; the records
 * are handed back untouched, so their type is a parameter too.
 */
module CourseEnrollmentTool {
  import opened Wrappers

  /* Options of the `academic_program` select field ("" when unset). */
  const ALL_PROGRAMS := "All Programs"
  const SPECIFIC_PROGRAM := "Specific Program"

  /* Options of the `level` select field ("" when unset). */
  const ALL_LEVELS := "All Levels"
  const SPECIFIC_LEVEL := "Specific Level"

  const MANDATORY := "Mandatory field - "

  /** The filter fields of the tool. A link or select field that is unset
      (empty or null) is the empty string. */
  datatype Filters = Filters(
    academicYear: string,
    academicTerm: string,
    academicProgram: string,
    specificProgram: string,
    level: string,
    specificLevel: string)

  /** The errors `get_courses` can raise. */
  datatype Error =
    | MandatoryAcademicYear
    | MandatoryAcademicTerm
    | MandatoryAcademicProgram
    | MandatorySpecificProgram
    | MandatoryLevel
    | MandatorySpecificLevel
    | NoCoursesFound

  /** The message each error is raised with. */
  function Message(e: Error): (s: string)
    ensures e != NoCoursesFound <==> |MANDATORY| < |s| && s[..|MANDATORY|] == MANDATORY
  {
    match e
    case MandatoryAcademicYear => MANDATORY + "Academic Year"
    case MandatoryAcademicTerm => MANDATORY + "Academic Term"
    case MandatoryAcademicProgram => MANDATORY + "Academic Program"
    case MandatorySpecificProgram => MANDATORY + "Specific Program"
    case MandatoryLevel => MANDATORY + "Level"
    case MandatorySpecificLevel => MANDATORY + "Specific Level"
    case NoCoursesFound => "No courses Found"
  }

  /** The validation cascade, in the order the branches are written: an error,
      or the rows the chosen branch collects. Only "All Programs" with "All
      Levels" collects anything (every Course Study record); the other three
      accepted combinations collect nothing. */
  function Collected<C>(f: Filters, courseStudy: seq<C>): (r: Result<seq<C>, Error>)
    ensures r.Err? ==> r.error != NoCoursesFound
    ensures r.Ok? ==> r.value == courseStudy || r.value == []
    ensures r.Ok? && r.value != [] ==> f.academicProgram == ALL_PROGRAMS && f.level == ALL_LEVELS
    ensures f.academicYear != "" && f.academicTerm != "" && f.academicProgram == ALL_PROGRAMS && f.level == ALL_LEVELS
      ==> r == Ok(courseStudy)
  {
    if f.academicYear == "" then Err(MandatoryAcademicYear)
    else if f.academicTerm == "" then Err(MandatoryAcademicTerm)
    else if f.academicProgram == ALL_PROGRAMS then
      if f.level == ALL_LEVELS then Ok(courseStudy)
      else if f.level == SPECIFIC_LEVEL then
        if f.specificLevel != "" then Ok([]) else Err(MandatorySpecificLevel)
      else Err(MandatoryLevel)
    else if f.academicProgram == SPECIFIC_PROGRAM then
      if f.specificProgram != "" then
        if f.level == ALL_LEVELS then Ok([])
        else if f.level == SPECIFIC_LEVEL then
          if f.specificLevel != "" then Ok([]) else Err(MandatorySpecificLevel)
        else Err(MandatoryLevel)
      else Err(MandatorySpecificProgram)
    else Err(MandatoryAcademicProgram)
  }

  /** `get_courses`: the cascade, then "No courses Found" for an empty result. */
  function Courses<C>(f: Filters, courseStudy: seq<C>): (r: Result<seq<C>, Error>)
    ensures f.academicYear == "" ==> r == Err(MandatoryAcademicYear)
    ensures f.academicYear != "" && f.academicTerm == "" ==> r == Err(MandatoryAcademicTerm)
    ensures r.Ok? ==> r.value != [] && r.value == courseStudy
    ensures r.Ok? <==>
      && f.academicYear != "" && f.academicTerm != ""
      && f.academicProgram == ALL_PROGRAMS && f.level == ALL_LEVELS
      && courseStudy != []
  {
    match Collected(f, courseStudy)
    case Err(e) => Err(e)
    case Ok(data) => if data != [] then Ok(data) else Err(NoCoursesFound)
  }

  /* ---------- A reference definition: the checks as a flat list ---------- */

  /** One mandatory-field check: it fails when `missing` holds. */
  datatype Check = Check(missing: bool, error: Error)

  /** The checks in the order they take effect. A program scope other than the
      two options fails before any level check, a missing specific program is
      checked before the level, and the level checks are the same under either
      program scope. */
  function Checks(f: Filters): seq<Check>
  {
    [ Check(f.academicYear == "", MandatoryAcademicYear),
      Check(f.academicTerm == "", MandatoryAcademicTerm),
      Check(f.academicProgram != ALL_PROGRAMS && f.academicProgram != SPECIFIC_PROGRAM, MandatoryAcademicProgram),
      Check(f.academicProgram == SPECIFIC_PROGRAM && f.specificProgram == "", MandatorySpecificProgram),
      Check(f.level != ALL_LEVELS && f.level != SPECIFIC_LEVEL, MandatoryLevel),
      Check(f.level == SPECIFIC_LEVEL && f.specificLevel == "", MandatorySpecificLevel) ]
  }

  /** The error of the first failing check, if any. */
  function FirstFailure(checks: seq<Check>): (e: Option<Error>)
    ensures e.None? <==> forall i :: 0 <= i < |checks| ==> !checks[i].missing
    ensures e.Some? ==> exists i :: && 0 <= i < |checks| && checks[i].missing && checks[i].error == e.value
                                   && forall j :: 0 <= j < i ==> !checks[j].missing
  {
    if checks == [] then None
    else if checks[0].missing then Some(checks[0].error)
    else
      var rest := FirstFailure(checks[1..]);
      assert forall i :: 1 <= i < |checks| ==> checks[i] == checks[1..][i - 1];
      assert rest.Some? ==> exists i :: && 0 <= i < |checks| && checks[i].missing && checks[i].error == rest.value
                                        && forall j :: 0 <= j < i ==> !checks[j].missing by {
        if rest.Some? {
          var k :| && 0 <= k < |checks[1..]| && checks[1..][k].missing && checks[1..][k].error == rest.value
                   && forall j :: 0 <= j < k ==> !checks[1..][j].missing;
          assert forall j :: 0 <= j < k + 1 ==> !checks[j].missing by {
            forall j | 0 <= j < k + 1 ensures !checks[j].missing {
              if 0 < j { assert checks[j] == checks[1..][j - 1]; }
            }
          }
        }
      }
      rest
  }

  /** Whether the accepted filters select the one branch that lists courses. */
  predicate ListsAllCourses(f: Filters)
  {
    f.academicProgram == ALL_PROGRAMS && f.level == ALL_LEVELS
  }

  /** `get_courses` from the flat checklist: the first failing check's error;
      otherwise every Course Study record for "All Programs" with "All Levels"
      when there is one; otherwise "No courses Found". */
  function Checklist<C>(f: Filters, courseStudy: seq<C>): Result<seq<C>, Error>
  {
    match FirstFailure(Checks(f))
    case Some(e) => Err(e)
    case None => if ListsAllCourses(f) && courseStudy != [] then Ok(courseStudy) else Err(NoCoursesFound)
  }

  /** The nested cascade and the flat checklist agree on every input. */
  lemma {:induction false} CoursesFollowsChecklist<C>(f: Filters, courseStudy: seq<C>)
    ensures Courses(f, courseStudy) == Checklist(f, courseStudy)
  {
    var cs := Checks(f);
    var c1, c2, c3, c4, c5 := cs[1..], cs[2..], cs[3..], cs[4..], cs[5..];
    assert c1[1..] == c2 && c2[1..] == c3 && c3[1..] == c4 && c4[1..] == c5 && c5[1..] == [];
    var e := FirstFailure(cs);
    assert e == if cs[0].missing then Some(cs[0].error) else FirstFailure(c1);
    assert FirstFailure(c1) == if cs[1].missing then Some(cs[1].error) else FirstFailure(c2);
    assert FirstFailure(c2) == if cs[2].missing then Some(cs[2].error) else FirstFailure(c3);
    assert FirstFailure(c3) == if cs[3].missing then Some(cs[3].error) else FirstFailure(c4);
    assert FirstFailure(c4) == if cs[4].missing then Some(cs[4].error) else FirstFailure(c5);
    assert FirstFailure(c5) == if cs[5].missing then Some(cs[5].error) else None;
  }

  /** A program scope that is neither option is an error once the year and
      the term are given, whatever the level fields hold. */
  lemma ProgramScopeRequired<C>(f: Filters, courseStudy: seq<C>)
    requires f.academicYear != "" && f.academicTerm != ""
    requires f.academicProgram != ALL_PROGRAMS && f.academicProgram != SPECIFIC_PROGRAM
    ensures Courses(f, courseStudy) == Err(MandatoryAcademicProgram)
  {
    CoursesFollowsChecklist(f, courseStudy);
  }

  /** Under "Specific Program", a missing specific program is reported before
      anything about the level. */
  lemma SpecificProgramBeforeLevel<C>(f: Filters, courseStudy: seq<C>)
    requires f.academicYear != "" && f.academicTerm != ""
    requires f.academicProgram == SPECIFIC_PROGRAM && f.specificProgram == ""
    ensures Courses(f, courseStudy) == Err(MandatorySpecificProgram)
  {
    CoursesFollowsChecklist(f, courseStudy);
  }

  /** Once the program scope is settled, the level checks are the same under
      either scope: an unset level, then a missing specific level. */
  lemma LevelChecksUnderEitherScope<C>(f: Filters, courseStudy: seq<C>)
    requires f.academicYear != "" && f.academicTerm != ""
    requires f.academicProgram == ALL_PROGRAMS || (f.academicProgram == SPECIFIC_PROGRAM && f.specificProgram != "")
    ensures f.level != ALL_LEVELS && f.level != SPECIFIC_LEVEL ==> Courses(f, courseStudy) == Err(MandatoryLevel)
    ensures f.level == SPECIFIC_LEVEL && f.specificLevel == "" ==> Courses(f, courseStudy) == Err(MandatorySpecificLevel)
  {
    CoursesFollowsChecklist(f, courseStudy);
  }

  /** The three accepted combinations other than "All Programs" with "All
      Levels" collect nothing, so they always end in "No courses Found". */
  lemma StubBranchesFindNothing<C>(f: Filters, courseStudy: seq<C>)
    requires FirstFailure(Checks(f)).None?
    requires !ListsAllCourses(f)
    ensures Courses(f, courseStudy) == Err(NoCoursesFound)
  {
    CoursesFollowsChecklist(f, courseStudy);
  }

  /** The errors that can come back: a mandatory-field error exactly when some
      check fails, and "No courses Found" exactly when none does. */
  lemma ErrorIsFirstFailure<C>(f: Filters, courseStudy: seq<C>)
    ensures Courses(f, courseStudy).Err? && Courses(f, courseStudy).error != NoCoursesFound
      <==> exists i :: 0 <= i < |Checks(f)| && Checks(f)[i].missing
  {
    CoursesFollowsChecklist(f, courseStudy);
    var e := FirstFailure(Checks(f));
    if e.Some? {
      var i :| 0 <= i < |Checks(f)| && Checks(f)[i].missing && Checks(f)[i].error == e.value;
      assert Checks(f)[i].error != NoCoursesFound;
    }
  }

  /* ---------- The imperative form ---------- */

  /** `get_courses` as written: the cascade, with the "All Programs" / "All
      Levels" branch appending every Course Study record in listing order. */
  method GetCourses<C>(f: Filters, courseStudy: seq<C>) returns (r: Result<seq<C>, Error>)
    ensures r == Courses(f, courseStudy)
  {
    var childTableData: seq<C> := [];
    if f.academicYear == "" {
      return Err(MandatoryAcademicYear);
    } else if f.academicTerm == "" {
      return Err(MandatoryAcademicTerm);
    } else if f.academicProgram == ALL_PROGRAMS {
      if f.level == ALL_LEVELS {
        var i := 0;
        while i < |courseStudy|
          invariant 0 <= i <= |courseStudy|
          invariant childTableData == courseStudy[..i]
        {
          childTableData := childTableData + [courseStudy[i]];
          i := i + 1;
        }
        assert courseStudy[..i] == courseStudy;
      } else if f.level == SPECIFIC_LEVEL {
        if f.specificLevel == "" {
          return Err(MandatorySpecificLevel);
        }
      } else {
        return Err(MandatoryLevel);
      }
    } else if f.academicProgram == SPECIFIC_PROGRAM {
      if f.specificProgram != "" {
        if f.level == ALL_LEVELS {
        } else if f.level == SPECIFIC_LEVEL {
          if f.specificLevel == "" {
            return Err(MandatorySpecificLevel);
          }
        } else {
          return Err(MandatoryLevel);
        }
      } else {
        return Err(MandatorySpecificProgram);
      }
    } else {
      return Err(MandatoryAcademicProgram);
    }

    if childTableData != [] {
      return Ok(childTableData);
    } else {
      return Err(NoCoursesFound);
    }
  }
}
