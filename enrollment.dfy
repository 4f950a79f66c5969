/** The enrollment directory: every distinct student and course that took
    part in a successful enrollment, in the order first seen. */
module Enrollment {
  import opened Results
  import opened Lists
  import opened Students
  import opened Courses

  const NullArgumentMessage := "Student or Course cannot be null"

  /** `if (!list.contains(x)) list.add(x)`: the list afterwards holds x, keeps
      every earlier element in place, grows by at most one element at its
      end, and stays free of duplicates if it was. */
  function AddIfAbsent<T(==)>(xs: seq<T>, x: T): (r: seq<T>)
    ensures x in r
    ensures xs <= r && |r| <= |xs| + 1
    ensures x in xs ==> r == xs
    ensures forall i :: 0 <= i < |r| ==> r[i] in xs || r[i] == x
    ensures NoDuplicates(xs) ==> NoDuplicates(r)
  {
    if x in xs then xs else xs + [x]
  }

  /** A student recorded by any number of enrollments, into however many
      courses, is listed exactly once. */
  lemma RecordedOnce<T>(xs: seq<T>, x: T)
    requires NoDuplicates(xs)
    ensures multiset(AddIfAbsent(xs, x))[x] == 1
  {
    NoDuplicatesOccurrences(AddIfAbsent(xs, x), x);
  }

  class EnrollmentService {
    var students: seq<Student>
    var courses: seq<Course>

    /** Both directories are free of duplicates. */
    ghost predicate Valid()
      reads this
    {
      NoDuplicates(students) && NoDuplicates(courses)
    }

    constructor ()
      ensures Valid() && students == [] && courses == []
    {
      students := [];
      courses := [];
    }

    /** EnrollmentService.enrollStudent. Null arguments are refused before
        anything is touched; otherwise the course decides, and only when it
        accepts are the student and the course recorded. */
    method EnrollStudent(student: Student?, course: Course?) returns (r: Outcome)
      requires Valid()
      requires course != null ==> course.Valid()
      modifies this, course
      ensures Valid()
      ensures student == null || course == null ==>
                && r == Fail(IllegalArgument(NullArgumentMessage))
                && students == old(students) && courses == old(courses)
                && (course != null ==>
                      course.enrolledStudents == old(course.enrolledStudents)
                      && course.instructor == old(course.instructor))
      ensures student != null && course != null ==>
                && course.Valid() && course.instructor == old(course.instructor)
                && var a := Admit(old(course.enrolledStudents), course.maxCapacity as int, course.courseCode, student);
                && r == a.outcome && course.enrolledStudents == a.roster
                && (r.Fail? ==> students == old(students) && courses == old(courses))
                && (r.Pass? ==>
                      students == AddIfAbsent(old(students), student) && courses == AddIfAbsent(old(courses), course))
    {
      if student == null || course == null {
        return Fail(IllegalArgument(NullArgumentMessage));
      }
      r := course.EnrollStudent(student);
      if r.Fail? {
        return;
      }
      if student !in students {
        students := students + [student];
      }
      if course !in courses {
        courses := courses + [course];
      }
    }

    /** EnrollmentService.getAllStudents: every recorded student, in the
        order first recorded, each once. */
    method GetAllStudents() returns (r: seq<Student>)
      requires Valid()
      ensures r == students && NoDuplicates(r)
    {
      r := students;
    }

    /** EnrollmentService.getAllCourses: every recorded course, in the
        order first recorded, each once. */
    method GetAllCourses() returns (r: seq<Course>)
      requires Valid()
      ensures r == courses && NoDuplicates(r)
    {
      r := courses;
    }
  }
}
