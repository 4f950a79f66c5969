/** Course: a bounded roster of students, kept in enrollment order and
    free of duplicates, with an optional instructor. */
module Courses {
  import opened Results
  import opened Text
  import opened Lists
  import opened JavaInt
  import opened Professors
  import opened Students

  const CourseNameMessage := "Course name cannot be empty"
  const CourseCodeMessage := "Course code cannot be empty"
  const CapacityMessage := "Max capacity must be greater than zero"
  const NullStudentMessage := "Student cannot be null"

  function AlreadyEnrolledMessage(courseCode: string): (message: string) {
    "Student already enrolled in " + courseCode
  }

  function FullMessage(courseCode: string): (message: string) {
    "Course " + courseCode + " is full"
  }

  /** The roster invariant: within capacity and without a student twice. */
  predicate RosterInvariant(roster: seq<Student>, maxCapacity: int) {
    |roster| <= maxCapacity && NoDuplicates(roster)
  }

  /** The checks of the Course constructor, in its order. */
  function CheckCourse(courseName: Option<string>, courseCode: Option<string>, maxCapacity: int32)
    : (r: Outcome)
    ensures r.Pass? <==> && courseName.Some? && !IsBlank(courseName.value)
                         && courseCode.Some? && !IsBlank(courseCode.value)
                         && maxCapacity > 0
    ensures (courseName.None? || IsBlank(courseName.value)) ==> r == Fail(IllegalArgument(CourseNameMessage))
    ensures courseName.Some? && !IsBlank(courseName.value) && (courseCode.None? || IsBlank(courseCode.value)) ==>
              r == Fail(IllegalArgument(CourseCodeMessage))
    ensures (&& courseName.Some? && !IsBlank(courseName.value)
             && courseCode.Some? && !IsBlank(courseCode.value)
             && maxCapacity <= 0) ==> r == Fail(IllegalArgument(CapacityMessage))
  {
    if courseName.None? || IsBlank(courseName.value) then Fail(IllegalArgument(CourseNameMessage))
    else if courseCode.None? || IsBlank(courseCode.value) then Fail(IllegalArgument(CourseCodeMessage))
    else if maxCapacity <= 0 then Fail(IllegalArgument(CapacityMessage))
    else Pass
  }

  /** What one call of enrollStudent yields: the outcome and the roster after it. */
  datatype Admission = Admission(outcome: Outcome, roster: seq<Student>)

  /** The rule of Course.enrollStudent on a roster: a null student is
      refused, then a student already on the roster, then any student once
      the roster is full; otherwise the student is appended. */
  function Admit(roster: seq<Student>, maxCapacity: int, courseCode: string, student: Student?)
    : (a: Admission)
    ensures a.outcome.Pass? <==> student != null && student !in roster && |roster| < maxCapacity
    ensures a.outcome.Pass? ==> student != null && a.roster == roster + [student]
    ensures a.outcome.Fail? ==> a.roster == roster
    ensures student == null ==> a.outcome == Fail(IllegalArgument(NullStudentMessage))
    ensures student != null && student in roster ==> a.outcome == Fail(EnrollmentFailure(AlreadyEnrolledMessage(courseCode)))
    ensures student != null && student !in roster && |roster| >= maxCapacity ==>
              a.outcome == Fail(EnrollmentFailure(FullMessage(courseCode)))
  {
    if student == null then Admission(Fail(IllegalArgument(NullStudentMessage)), roster)
    else if student in roster then Admission(Fail(EnrollmentFailure(AlreadyEnrolledMessage(courseCode))), roster)
    else if |roster| >= maxCapacity then Admission(Fail(EnrollmentFailure(FullMessage(courseCode))), roster)
    else Admission(Pass, roster + [student])
  }

  /** Every call of enrollStudent, successful or not, keeps the roster
      invariant, and the roster only ever grows at its end. */
  lemma AdmitPreservesInvariant(roster: seq<Student>, maxCapacity: int, courseCode: string, student: Student?)
    requires RosterInvariant(roster, maxCapacity)
    ensures var a := Admit(roster, maxCapacity, courseCode, student);
      RosterInvariant(a.roster, maxCapacity) && roster <= a.roster && |a.roster| <= |roster| + 1
  {
  }

  /** A student already on a full roster is told it is already enrolled,
      not that the course is full: the duplicate check comes first. */
  lemma DuplicateReportedBeforeFull(roster: seq<Student>, maxCapacity: int, courseCode: string, student: Student)
    requires student in roster && |roster| >= maxCapacity
    ensures Admit(roster, maxCapacity, courseCode, student) ==
              Admission(Fail(EnrollmentFailure(AlreadyEnrolledMessage(courseCode))), roster)
  {
  }

  /** The outcomes of enrolling `students` one after another, and the final roster. */
  function AdmitAll(roster: seq<Student>, maxCapacity: int, courseCode: string, students: seq<Student>)
    : (r: (seq<Outcome>, seq<Student>))
    decreases |students|
  {
    if |students| == 0 then ([], roster)
    else
      var a := Admit(roster, maxCapacity, courseCode, students[0]);
      var rest := AdmitAll(a.roster, maxCapacity, courseCode, students[1..]);
      ([a.outcome] + rest.0, rest.1)
  }

  /** Distinct new students that fit are all accepted, in order, and end up
      appended to the roster in the order they came. */
  lemma {:induction false} AdmitAllThatFit(roster: seq<Student>, maxCapacity: int, courseCode: string, students: seq<Student>)
    requires NoDuplicates(roster + students)
    requires |roster| + |students| <= maxCapacity
    ensures |AdmitAll(roster, maxCapacity, courseCode, students).0| == |students|
    ensures forall i :: 0 <= i < |students| ==> AdmitAll(roster, maxCapacity, courseCode, students).0[i] == Pass
    ensures AdmitAll(roster, maxCapacity, courseCode, students).1 == roster + students
    decreases |students|
  {
    if |students| > 0 {
      var s := students[0];
      assert (roster + students)[|roster|] == s;
      assert s !in roster by {
        forall k | 0 <= k < |roster| ensures roster[k] != s {
          assert (roster + students)[k] == roster[k];
        }
      }
      assert roster + students == (roster + [s]) + students[1..];
      AdmitAllThatFit(roster + [s], maxCapacity, courseCode, students[1..]);
    }
  }

  /** For a course of capacity m: m distinct students are accepted in order;
      one more distinct student is refused as "full" and the roster keeps
      its m students. */
  lemma FillThenFull(maxCapacity: int, courseCode: string, students: seq<Student>, extra: Student)
    requires 0 < maxCapacity && |students| == maxCapacity
    requires NoDuplicates(students + [extra])
    ensures var (outcomes, roster) := AdmitAll([], maxCapacity, courseCode, students);
      && (forall i :: 0 <= i < |outcomes| ==> outcomes[i] == Pass)
      && roster == students
      && Admit(roster, maxCapacity, courseCode, extra) == Admission(Fail(EnrollmentFailure(FullMessage(courseCode))), students)
  {
    assert NoDuplicates(students) by {
      forall i, j | 0 <= i < j < |students| ensures students[i] != students[j] {
        assert (students + [extra])[i] == students[i];
        assert (students + [extra])[j] == students[j];
      }
    }
    assert [] + students == students;
    AdmitAllThatFit([], maxCapacity, courseCode, students);
    assert extra !in students by {
      forall k | 0 <= k < |students| ensures students[k] != extra {
        assert (students + [extra])[k] == students[k];
        assert (students + [extra])[|students|] == extra;
      }
    }
  }

  /** The part of Course.toString before the instructor. */
  function SummaryHead(courseCode: string, courseName: string): (head: string) {
    "Course [Code=" + courseCode + ", Name=" + courseName + ", Instructor="
  }

  /** The instructor's name, or "TBD" when there is none. */
  function InstructorLabel(instructor: Option<Professor>): (shown: string) {
    if instructor.Some? then instructor.value.Name() else "TBD"
  }

  /** The part of Course.toString after the instructor. */
  function SummaryLoad(enrolled: int, maxCapacity: int): (load: string) {
    ", Enrolled=" + IntToString(enrolled) + "/" + IntToString(maxCapacity) + "]"
  }

  class Course {
    const courseName: string
    const courseCode: string
    var instructor: Option<Professor>
    const maxCapacity: int32
    var enrolledStudents: seq<Student>

    /** The object invariant: the constructor's guarantees on the fields, and
        the roster invariant. */
    ghost predicate Valid()
      reads this
    {
      && !IsBlank(courseName) && !IsBlank(courseCode) && maxCapacity > 0
      && RosterInvariant(enrolledStudents, maxCapacity as int)
    }

    /** Allocation once the checks of NewCourse have passed. */
    constructor (courseName: string, courseCode: string, instructor: Option<Professor>, maxCapacity: int32)
      ensures this.courseName == courseName && this.courseCode == courseCode
      ensures this.instructor == instructor && this.maxCapacity == maxCapacity
      ensures enrolledStudents == []
    {
      this.courseName := courseName;
      this.courseCode := courseCode;
      this.instructor := instructor;
      this.maxCapacity := maxCapacity;
      enrolledStudents := [];
    }

    /** Course.enrollStudent: the roster changes exactly as Admit says and
        nothing else about the course changes. */
    method EnrollStudent(student: Student?) returns (r: Outcome)
      requires Valid()
      modifies this
      ensures Valid()
      ensures var a := Admit(old(enrolledStudents), maxCapacity as int, courseCode, student);
        r == a.outcome && enrolledStudents == a.roster
      ensures instructor == old(instructor)
    {
      if student == null {
        return Fail(IllegalArgument(NullStudentMessage));
      }
      if student in enrolledStudents {
        return Fail(EnrollmentFailure(AlreadyEnrolledMessage(courseCode)));
      }
      if |enrolledStudents| >= maxCapacity as int {
        return Fail(EnrollmentFailure(FullMessage(courseCode)));
      }
      enrolledStudents := enrolledStudents + [student];
      r := Pass;
    }

    /** Course.getEnrolledStudents: the current roster, in enrollment order. */
    method GetEnrolledStudents() returns (r: seq<Student>)
      requires Valid()
      ensures r == enrolledStudents
      ensures |r| <= maxCapacity as int && NoDuplicates(r)
    {
      r := enrolledStudents;
    }

    /** Course.setInstructor: replaces the instructor and nothing else. */
    method SetInstructor(instructor: Option<Professor>)
      modifies this
      ensures this.instructor == instructor
      ensures enrolledStudents == old(enrolledStudents)
    {
      this.instructor := instructor;
    }

    /** Course.toString: it starts with the code and the name, shows the
        instructor's name or "TBD" when there is none, and ends with the
        load "Enrolled=<size>/<capacity>]". */
    function ToString(): (r: string)
      reads this
      ensures var head := "Course [Code=" + courseCode + ", Name=" + courseName + ", Instructor=";
        var load := ", Enrolled=" + IntToString(|enrolledStudents|) + "/" + IntToString(maxCapacity as int) + "]";
        var who := if instructor.Some? then instructor.value.Name() else "TBD";
        && |r| == |head| + |who| + |load|
        && r[..|head|] == head
        && (instructor.None? ==> r[|head|..|head| + 3] == "TBD")
        && (instructor.Some? ==> r[|head|..|head| + |instructor.value.Name()|] == instructor.value.Name())
        && r[|r| - |load|..] == load
    {
      var head, who, load := SummaryHead(courseCode, courseName), InstructorLabel(instructor),
                             SummaryLoad(|enrolledStudents|, maxCapacity as int);
      var r := head + who + load;
      assert r[..|head|] == head;
      assert r[|head|..|head| + |who|] == who;
      assert r[|r| - |load|..] == load;
      r
    }
  }

  /** The Course constructor: the name, the code and the capacity are
      checked in that order; on success the fields hold the arguments and
      the roster is empty. */
  method NewCourse(courseName: Option<string>, courseCode: Option<string>, instructor: Option<Professor>, maxCapacity: int32)
    returns (r: Result<Course>)
    ensures CheckCourse(courseName, courseCode, maxCapacity).Fail? ==>
              r == Failure(CheckCourse(courseName, courseCode, maxCapacity).error)
    ensures CheckCourse(courseName, courseCode, maxCapacity).Pass? ==>
              && r.Success? && fresh(r.value) && r.value.Valid()
              && r.value.courseName == courseName.value && r.value.courseCode == courseCode.value
              && r.value.instructor == instructor && r.value.maxCapacity == maxCapacity
              && r.value.enrolledStudents == []
  {
    var checked := CheckCourse(courseName, courseCode, maxCapacity);
    if checked.Fail? {
      return Failure(checked.error);
    }
    var c := new Course(courseName.value, courseCode.value, instructor, maxCapacity);
    r := Success(c);
  }
}
