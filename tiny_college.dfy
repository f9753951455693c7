/** The document-store college: five collections loaded from CSV rows, and
    the queries over them. Each collection is a sequence of records in
    insertion order; what a query prints is the sequence it returns. */
module TinyCollege {
  import opened Wrappers
  import opened JavaText
  import opened TinyCollegeRecords
  import opened NestedScan
  import opened CsvRows

  // ---------------------------------------------------------------------
  // Loading: skip the header row, map the columns of every other row.
  // ---------------------------------------------------------------------

  function CourseOfRow(r: seq<string>): Course
    requires 3 <= |r|
  {
    Course(r[0], r[1], r[2])
  }

  function DepartmentOfRow(r: seq<string>): Department
    requires 2 <= |r|
  {
    Department(r[0], r[1])
  }

  function EnrollOfRow(r: seq<string>): Enroll
    requires 4 <= |r|
  {
    Enroll(r[0], r[1], r[2], r[3])
  }

  function SectionOfRow(r: seq<string>): Section
    requires 4 <= |r|
  {
    Section(r[0], r[1], r[2], r[3])
  }

  function StudentOfRow(r: seq<string>): Student
    requires 4 <= |r|
  {
    Student(r[0], r[1], r[2], r[3])
  }

  /** Inserting documents one at a time appends them to the collection in
      order. */
  method InsertAll<R>(collection: seq<R>, docs: seq<R>) returns (c: seq<R>)
    ensures c == collection + docs
  {
    c := collection;
    for i := 0 to |docs|
      invariant c == collection + docs[..i]
    {
      assert docs[..i + 1] == docs[..i] + [docs[i]];
      c := c + [docs[i]];
    }
    assert docs[..|docs|] == docs;
  }

  // ---------------------------------------------------------------------
  // Conditions of the queries.
  // ---------------------------------------------------------------------

  function MajorIs(value: string): Student -> bool
  {
    (s: Student) => s.majorId == value
  }

  function TitleIs(value: string): Course -> bool
  {
    (c: Course) => c.title == value
  }

  function GradeIs(value: string): Enroll -> bool
  {
    (e: Enroll) => e.grade == value
  }

  /** The graduation year parses and is before value. */
  function GradBefore(value: int): Student -> bool
  {
    (s: Student) => ParseInt(s.gradYear).Some? && ParseInt(s.gradYear).value < value
  }

  /** Integer.parseInt accepts the student's GradYear. */
  predicate YearParses(s: Student)
  {
    ParseInt(s.gradYear).Some?
  }

  /** The number of students at the front whose GradYear parses. */
  function Parsed(ss: seq<Student>): (k: nat)
    ensures k <= |ss|
    ensures forall j | 0 <= j < k :: ParseInt(ss[j].gradYear).Some?
    ensures k < |ss| ==> ParseInt(ss[k].gradYear).None?
  {
    Until(YearParses, ss)
  }

  function GradeOfStudent(value: string): (Enroll, Student) -> bool
  {
    (e: Enroll, s: Student) => e.grade == value && e.studentId == s.sId
  }

  predicate SameStudent(e: Enroll, s: Student)
  {
    e.studentId == s.sId
  }

  predicate Teaches(s: Section, c: Course)
  {
    s.courseId == c.cId
  }

  function OfSection(sectionId: string): (Section, Enroll) -> bool
  {
    (s: Section, e: Enroll) => s.sectId == sectionId && s.sectId == e.sectionId
  }

  function InSection(sectionId: string): Enroll -> bool
  {
    (e: Enroll) => e.sectionId == sectionId
  }

  function TaughtIn(dept: string): (Section, Course) -> bool
  {
    (s: Section, c: Course) => s.courseId == c.cId && c.deptId == dept
  }

  function TaughtBy(professor: string): (Section, Enroll) -> bool
  {
    (s: Section, e: Enroll) => s.prof == professor && s.sectId == e.sectionId
  }

  /** The line printed per picked course: the section's professor and the
      course's department. */
  function ProfLines(sections: seq<Section>, courses: seq<Course>, acc: seq<Pick>): (r: seq<string>)
    requires InBounds(acc, |sections|, |courses|)
    ensures |r| == |acc|
  {
    seq(|acc|, k requires 0 <= k < |acc| => sections[acc[k].0].prof + " " + courses[acc[k].1].deptId)
  }

  function Names(ss: seq<Student>): (r: seq<string>)
    ensures |r| == |ss| && forall k | 0 <= k < |ss| :: r[k] == ss[k].sName
  {
    seq(|ss|, k requires 0 <= k < |ss| => ss[k].sName)
  }

  // ---------------------------------------------------------------------
  // The database.
  // ---------------------------------------------------------------------

  class CollegeDB {
    var courses: seq<Course>
    var departments: seq<Department>
    var enrollments: seq<Enroll>
    var sections: seq<Section>
    var students: seq<Student>

    /** A database file with no collections yet. */
    constructor ()
      ensures courses == [] && departments == [] && enrollments == [] && sections == [] && students == []
    {
      courses, departments, enrollments, sections, students := [], [], [], [], [];
    }

    /** The collection named table holds documents. */
    predicate Holds(table: string)
      reads this
    {
      || (table == "Courses" && courses != [])
      || (table == "Departments" && departments != [])
      || (table == "Enrollments" && enrollments != [])
      || (table == "Sections" && sections != [])
      || (table == "Students" && students != [])
    }

    /** Drops Courses and refills it from the rows (CId, Title, DeptId). */
    method InitializeCourses(csv: Option<seq<seq<string>>>) returns (thrown: Option<Thrown>)
      modifies this`courses
      ensures courses == Reloaded(csv, 3, CourseOfRow)
      ensures thrown == Escaped(csv, 3, CourseOfRow)
      ensures departments == old(departments) && enrollments == old(enrollments)
      ensures sections == old(sections) && students == old(students)
    {
      courses := [];
      var courseList: seq<Course>;
      courseList, thrown := Reload(csv, 3, CourseOfRow);
      if thrown != None {
        return;
      }
      courses := InsertAll(courses, courseList);
    }

    /** Drops Departments and refills it from the rows (DId, DName). */
    method InitializeDepartments(csv: Option<seq<seq<string>>>) returns (thrown: Option<Thrown>)
      modifies this`departments
      ensures departments == Reloaded(csv, 2, DepartmentOfRow)
      ensures thrown == Escaped(csv, 2, DepartmentOfRow)
      ensures courses == old(courses) && enrollments == old(enrollments)
      ensures sections == old(sections) && students == old(students)
    {
      departments := [];
      var deptList: seq<Department>;
      deptList, thrown := Reload(csv, 2, DepartmentOfRow);
      if thrown != None {
        return;
      }
      departments := InsertAll(departments, deptList);
    }

    /** Drops Enrollments and refills it from the rows (EId, StudentId,
        SectionId, Grade). */
    method InitializeEnrollments(csv: Option<seq<seq<string>>>) returns (thrown: Option<Thrown>)
      modifies this`enrollments
      ensures enrollments == Reloaded(csv, 4, EnrollOfRow)
      ensures thrown == Escaped(csv, 4, EnrollOfRow)
      ensures courses == old(courses) && departments == old(departments)
      ensures sections == old(sections) && students == old(students)
    {
      enrollments := [];
      var enrollList: seq<Enroll>;
      enrollList, thrown := Reload(csv, 4, EnrollOfRow);
      if thrown != None {
        return;
      }
      enrollments := InsertAll(enrollments, enrollList);
    }

    /** Drops Sections and refills it from the rows (SectId, CourseId, Prof,
        YearOffered). */
    method InitializeSections(csv: Option<seq<seq<string>>>) returns (thrown: Option<Thrown>)
      modifies this`sections
      ensures sections == Reloaded(csv, 4, SectionOfRow)
      ensures thrown == Escaped(csv, 4, SectionOfRow)
      ensures courses == old(courses) && departments == old(departments)
      ensures enrollments == old(enrollments) && students == old(students)
    {
      sections := [];
      var sectionList: seq<Section>;
      sectionList, thrown := Reload(csv, 4, SectionOfRow);
      if thrown != None {
        return;
      }
      sections := InsertAll(sections, sectionList);
    }

    /** Drops Students and refills it from the rows (SId, SName, GradYear,
        MajorId). */
    method InitializeStudents(csv: Option<seq<seq<string>>>) returns (thrown: Option<Thrown>)
      modifies this`students
      ensures students == Reloaded(csv, 4, StudentOfRow)
      ensures thrown == Escaped(csv, 4, StudentOfRow)
      ensures courses == old(courses) && departments == old(departments)
      ensures enrollments == old(enrollments) && sections == old(sections)
    {
      students := [];
      var studentList: seq<Student>;
      studentList, thrown := Reload(csv, 4, StudentOfRow);
      if thrown != None {
        return;
      }
      students := InsertAll(students, studentList);
    }

    /** Students whose MajorId equals value. Any other non-empty collection
        has no MajorId field, so the first document throws; an unknown or
        empty collection prints nothing. */
    method QueryStudentMajors(table: string, value: string) returns (printed: seq<Student>, thrown: Option<Thrown>)
      ensures table == "Students" ==> printed == Filter(MajorIs(value), students) && thrown == None
      ensures table != "Students" ==> printed == [] && (thrown != None <==> Holds(table))
      ensures thrown != None ==> thrown == Some(NullPointer)
    {
      if table == "Students" {
        printed := FilterLoop(MajorIs(value), students);
        thrown := None;
      } else if Holds(table) {
        printed, thrown := [], Some(NullPointer);
      } else {
        printed, thrown := [], None;
      }
    }

    /** Courses whose Title equals value, in collection order. */
    method QueryCourseTitle(value: string) returns (printed: seq<Course>)
      ensures printed == Filter(TitleIs(value), courses)
    {
      printed := FilterLoop(TitleIs(value), courses);
    }

    /** Enrollments whose Grade equals value, in collection order. */
    method QueryEnrollmentGrade(value: string) returns (printed: seq<Enroll>)
      ensures printed == Filter(GradeIs(value), enrollments)
    {
      printed := FilterLoop(GradeIs(value), enrollments);
    }

    /** Students whose GradYear is before value, up to the first GradYear
        that is not a 32-bit integer, where the number format exception
        escapes. */
    method QueryStudentGradYear(value: int) returns (printed: seq<Student>, thrown: Option<Thrown>)
      requires -0x8000_0000 <= value < 0x8000_0000
      ensures var k := Parsed(students);
        && printed == Filter(GradBefore(value), students[..k])
        && thrown == if k < |students| then Some(NumberFormat(students[k].gradYear)) else None
    {
      var k;
      printed, k := FilterUntilLoop(YearParses, GradBefore(value), students);
      thrown := if k < |students| then Some(NumberFormat(students[k].gradYear)) else None;
    }

    /** For each enrollment with the grade, the students it belongs to. */
    method QueryEnrollmentGradeForStudent(value: string) returns (printed: seq<Student>)
      ensures printed == NestedFilter(GradeOfStudent(value), enrollments, students)
    {
      printed := NestedFilterLoop(GradeOfStudent(value), enrollments, students);
    }

    /** The courses some section teaches, each once, in the order they are
        first reached. */
    method QueryCoursesNotTaught() returns (printed: seq<Course>)
      ensures var acc := Collect(Teaches, sections, courses);
        InBounds(acc, |sections|, |courses|) && printed == Select(courses, Inner(acc))
    {
      var courseList := CollectLoop(Teaches, sections, courses);
      CollectInBounds(Teaches, sections, courses);
      printed := Select(courses, Inner(courseList));
    }

    /** The students of the enrollments collected for the section. */
    method QueryStudentsBySection(sectionId: string) returns (printed: seq<Student>)
      ensures var acc := Collect(OfSection(sectionId), sections, enrollments);
        && InBounds(acc, |sections|, |enrollments|)
        && printed == NestedFilter(SameStudent, Select(enrollments, Inner(acc)), students)
    {
      var enrollList := CollectLoop(OfSection(sectionId), sections, enrollments);
      CollectInBounds(OfSection(sectionId), sections, enrollments);
      printed := NestedFilterLoop(SameStudent, Select(enrollments, Inner(enrollList)), students);
    }

    /** A professor and department line per course of the department that
        some section teaches. */
    method QueryProfsByDepartment(dept: string) returns (printed: seq<string>)
      ensures var acc := Collect(TaughtIn(dept), sections, courses);
        InBounds(acc, |sections|, |courses|) && printed == ProfLines(sections, courses, acc)
    {
      var courseList := CollectLoop(TaughtIn(dept), sections, courses);
      CollectInBounds(TaughtIn(dept), sections, courses);
      printed := ProfLines(sections, courses, courseList);
    }

    /** The names of the students of the enrollments collected for the
        professor's sections. */
    method QueryStudentsByProfessor(professor: string) returns (printed: seq<string>)
      ensures var acc := Collect(TaughtBy(professor), sections, enrollments);
        && InBounds(acc, |sections|, |enrollments|)
        && printed == Names(NestedFilter(SameStudent, Select(enrollments, Inner(acc)), students))
    {
      var sectionList := CollectLoop(TaughtBy(professor), sections, enrollments);
      CollectInBounds(TaughtBy(professor), sections, enrollments);
      var found := NestedFilterLoop(SameStudent, Select(enrollments, Inner(sectionList)), students);
      printed := Names(found);
    }
  }

  // ---------------------------------------------------------------------
  // What the queries print.
  // ---------------------------------------------------------------------

  /** A loader keeps one record per row after the header, in order, with
      the columns in constructor order, unless a row is short. */
  lemma LoadedCourses(rows: seq<seq<string>>)
    ensures Loaded(rows, 3, CourseOfRow).Ok? <==> forall j | 1 <= j < |rows| :: 3 <= |rows[j]|
    ensures Loaded(rows, 3, CourseOfRow).Err? ==> Loaded(rows, 3, CourseOfRow).error == ArrayIndexOutOfBounds
    ensures Loaded(rows, 3, CourseOfRow).Ok? ==>
      var v := Loaded(rows, 3, CourseOfRow).value;
      |v| == |Body(rows)| &&
      forall j | 1 <= j < |rows| :: v[j - 1] == Course(rows[j][0], rows[j][1], rows[j][2])
  {
    LoadedFacts(rows, 3, CourseOfRow);
  }

  /** Students take SId, SName, GradYear and MajorId from columns 0 to 3. */
  lemma LoadedStudents(rows: seq<seq<string>>)
    ensures Loaded(rows, 4, StudentOfRow).Ok? <==> forall j | 1 <= j < |rows| :: 4 <= |rows[j]|
    ensures Loaded(rows, 4, StudentOfRow).Ok? ==>
      var v := Loaded(rows, 4, StudentOfRow).value;
      |v| == |Body(rows)| &&
      forall j | 1 <= j < |rows| :: v[j - 1] == Student(rows[j][0], rows[j][1], rows[j][2], rows[j][3])
  {
    LoadedFacts(rows, 4, StudentOfRow);
  }

  /** Every copy of a student with the major, and nothing else. */
  lemma StudentMajorsCounts(value: string, students: seq<Student>)
    ensures forall s :: multiset(Filter(MajorIs(value), students))[s] == if s.majorId == value then multiset(students)[s] else 0
  {
    FilterCounts(MajorIs(value), students);
  }

  /** Every copy of a course with the title, and nothing else. */
  lemma CourseTitleCounts(value: string, courses: seq<Course>)
    ensures forall c :: multiset(Filter(TitleIs(value), courses))[c] == if c.title == value then multiset(courses)[c] else 0
  {
    FilterCounts(TitleIs(value), courses);
  }

  /** Every copy of an enrollment with the grade, and nothing else. */
  lemma EnrollmentGradeCounts(value: string, enrollments: seq<Enroll>)
    ensures forall e :: multiset(Filter(GradeIs(value), enrollments))[e] == if e.grade == value then multiset(enrollments)[e] else 0
  {
    FilterCounts(GradeIs(value), enrollments);
  }

  /** The students printed before the exception are exactly those, among
      the ones whose year parsed, graduating strictly before value. */
  lemma GradYearMembers(value: int, students: seq<Student>, s: Student)
    ensures var k := Parsed(students);
      s in Filter(GradBefore(value), students[..k]) <==>
        s in students[..k] && ParseInt(s.gradYear).value < value
  {
    var k := Parsed(students);
    FilterCounts(GradBefore(value), students[..k]);
    if s in students[..k] {
      var j :| 0 <= j < k && students[..k][j] == s;
      assert ParseInt(students[j].gradYear).Some?;
    }
  }

  /** A student is printed once per enrollment with the grade that belongs
      to it, for each of its copies. */
  lemma GradeForStudentCounts(value: string, enrollments: seq<Enroll>, students: seq<Student>, s: Student)
    ensures multiset(NestedFilter(GradeOfStudent(value), enrollments, students))[s]
      == multiset(students)[s] * Matches(GradeOfStudent(value), enrollments, s)
  {
    NestedFilterCounts(GradeOfStudent(value), enrollments, students, s);
  }

  /** Each course is printed at most once, and a course is printed iff some
      section's CourseId equals its CId. */
  lemma CoursesTaught(sections: seq<Section>, courses: seq<Course>)
    ensures var acc := Collect(Teaches, sections, courses);
      && NoDup(Inner(acc))
      && forall j | 0 <= j < |courses| :: j in Inner(acc) <==> exists i | 0 <= i < |sections| :: sections[i].courseId == courses[j].cId
  {
    CollectPicked(Teaches, sections, courses);
  }

  /** The enrollments collected for a section are all those with that
      SectionId, in order, when some section has that SectId, and none
      otherwise. */
  lemma SectionEnrollments(sectionId: string, sections: seq<Section>, enrollments: seq<Enroll>)
    ensures var acc := Collect(OfSection(sectionId), sections, enrollments);
      && InBounds(acc, |sections|, |enrollments|)
      && Select(enrollments, Inner(acc)) ==
        if exists i | 0 <= i < |sections| :: sections[i].sectId == sectionId then Filter(InSection(sectionId), enrollments) else []
  {
    var g := (s: Section) => s.sectId == sectionId;
    CollectInBounds(OfSection(sectionId), sections, enrollments);
    CollectSeparable(OfSection(sectionId), g, InSection(sectionId), sections, enrollments);
    SelectPositions(InSection(sectionId), enrollments, |enrollments|);
    assert enrollments[..|enrollments|] == enrollments;
    assert (exists i | 0 <= i < |sections| :: g(sections[i])) == (exists i | 0 <= i < |sections| :: sections[i].sectId == sectionId);
  }

  /** Each course of the department is printed at most once; it is printed
      iff some section teaches it; and its line names the professor of the
      first section that does. */
  lemma ProfsByDepartment(dept: string, sections: seq<Section>, courses: seq<Course>)
    ensures var acc := Collect(TaughtIn(dept), sections, courses);
      && NoDup(Inner(acc))
      && (forall j | 0 <= j < |courses| :: j in Inner(acc) <==>
            courses[j].deptId == dept && exists i | 0 <= i < |sections| :: sections[i].courseId == courses[j].cId)
      && (forall k | 0 <= k < |acc| ::
            && acc[k].0 < |sections| && acc[k].1 < |courses|
            && sections[acc[k].0].courseId == courses[acc[k].1].cId
            && courses[acc[k].1].deptId == dept
            && forall i | 0 <= i < acc[k].0 :: sections[i].courseId != courses[acc[k].1].cId)
  {
    var acc := Collect(TaughtIn(dept), sections, courses);
    CollectPicked(TaughtIn(dept), sections, courses);
    forall j | 0 <= j < |courses|
      ensures j in Inner(acc) <==>
        courses[j].deptId == dept && exists i | 0 <= i < |sections| :: sections[i].courseId == courses[j].cId
    {
      assert j in Inner(acc) <==> Matched(TaughtIn(dept), sections, courses[j]);
    }
  }

  /** Each enrollment is collected at most once, and an enrollment is
      collected iff some section of the professor has its SectionId. */
  lemma ProfessorEnrollments(professor: string, sections: seq<Section>, enrollments: seq<Enroll>)
    ensures var acc := Collect(TaughtBy(professor), sections, enrollments);
      && NoDup(Inner(acc))
      && forall j | 0 <= j < |enrollments| :: j in Inner(acc) <==>
           exists i | 0 <= i < |sections| :: sections[i].prof == professor && sections[i].sectId == enrollments[j].sectionId
  {
    var acc := Collect(TaughtBy(professor), sections, enrollments);
    CollectPicked(TaughtBy(professor), sections, enrollments);
    forall j | 0 <= j < |enrollments|
      ensures j in Inner(acc) <==> exists i | 0 <= i < |sections| :: sections[i].prof == professor && sections[i].sectId == enrollments[j].sectionId
    {
      assert j in Inner(acc) <==> Matched(TaughtBy(professor), sections, enrollments[j]);
    }
  }

  /** A student is printed once per collected enrollment that belongs to
      it, for each of its copies. */
  lemma StudentsOfEnrollments(picked: seq<Enroll>, students: seq<Student>, s: Student)
    ensures multiset(NestedFilter(SameStudent, picked, students))[s] == multiset(students)[s] * Matches(SameStudent, picked, s)
  {
    NestedFilterCounts(SameStudent, picked, students, s);
  }
}
