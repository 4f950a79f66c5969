/** Example traces through the model, each proved from the contracts of
    the operations alone. This module models no source file. */
module Scenarios {
  import opened Results
  import opened JavaInt
  import opened Students
  import opened Courses
  import opened Enrollment

  /** A fresh counter numbers the first two students "S1001" and "S1002". */
  method FirstTwoStudentIds() returns (first: string, second: string)
    ensures first == "S1001" && second == "S1002"
  {
    var counter := new StudentIdCounter();
    assert "Asha"[0] > ' ' && "asha@uni.edu"[4] == '@';
    ValidArgumentsAccepted("Asha", "asha@uni.edu", 8.5);
    var a := NewStudent(counter, Some("Asha"), Some("asha@uni.edu"), 8.5);
    assert "Ben"[0] > ' ' && "ben@uni.edu"[3] == '@';
    ValidArgumentsAccepted("Ben", "ben@uni.edu", 10.0);
    var b := NewStudent(counter, Some("Ben"), Some("ben@uni.edu"), 10.0);
    FirstStudentIds();
    first := a.value.studentId;
    second := b.value.studentId;
  }

  /** Three distinct students from one counter. */
  method ThreeStudents(counter: StudentIdCounter) returns (a: Student, b: Student, c: Student)
    modifies counter
    ensures a != b && b != c && a != c
  {
    assert "A"[0] > ' ' && "a@uni.edu"[1] == '@';
    ValidArgumentsAccepted("A", "a@uni.edu", 7.0);
    var ra := NewStudent(counter, Some("A"), Some("a@uni.edu"), 7.0);
    assert "B"[0] > ' ' && "b@uni.edu"[1] == '@';
    ValidArgumentsAccepted("B", "b@uni.edu", 0.0);
    var rb := NewStudent(counter, Some("B"), Some("b@uni.edu"), 0.0);
    assert "C"[0] > ' ' && "c@uni.edu"[1] == '@';
    ValidArgumentsAccepted("C", "c@uni.edu", 9.0);
    var rc := NewStudent(counter, Some("C"), Some("c@uni.edu"), 9.0);
    a, b, c := ra.value, rb.value, rc.value;
  }

  /** A new course, CS201 "Algorithms", with no instructor yet. */
  method Algorithms(maxCapacity: int32) returns (course: Course)
    requires maxCapacity > 0
    ensures fresh(course) && course.Valid() && course.enrolledStudents == []
    ensures course.courseCode == "CS201" && course.maxCapacity == maxCapacity
  {
    assert "Algorithms"[0] > ' ' && "CS201"[0] > ' ';
    var r := NewCourse(Some("Algorithms"), Some("CS201"), None, maxCapacity);
    course := r.value;
  }

  /** Capacity 2, course CS201: A and B are accepted, C is refused because
      the course is full, A is refused because it is already enrolled, and
      the roster stays [A, B]. */
  method CapacityTwoCourse() returns (outcomes: seq<Outcome>, roster: seq<Student>)
    ensures outcomes == [Pass, Pass, Fail(EnrollmentFailure("Course CS201 is full")),
                         Fail(EnrollmentFailure("Student already enrolled in CS201"))]
    ensures |roster| == 2
  {
    var counter := new StudentIdCounter();
    var sa, sb, sc := ThreeStudents(counter);
    var s := Algorithms(2);
    var r1 := s.EnrollStudent(sa);
    assert r1 == Pass && s.enrolledStudents == [sa];
    var r2 := s.EnrollStudent(sb);
    assert r2 == Pass && s.enrolledStudents == [sa, sb];
    var r3 := s.EnrollStudent(sc);
    assert r3 == Fail(EnrollmentFailure(FullMessage("CS201"))) && s.enrolledStudents == [sa, sb];
    var r4 := s.EnrollStudent(sa);
    assert r4 == Fail(EnrollmentFailure(AlreadyEnrolledMessage("CS201")));
    assert FullMessage("CS201") == "Course CS201 is full";
    assert AlreadyEnrolledMessage("CS201") == "Student already enrolled in CS201";
    outcomes := [r1, r2, r3, r4];
    roster := s.GetEnrolledStudents();
  }

  /** One student enrolled into two different courses is listed once by the
      directory, and both courses are listed. */
  method SharedStudentListedOnce() returns (students: seq<Student>, courses: seq<Course>)
    ensures |students| == 1 && |courses| == 2
  {
    var counter := new StudentIdCounter();
    var st, _, _ := ThreeStudents(counter);
    var c1 := Algorithms(30);
    assert "Databases"[0] > ' ' && "CS305"[0] > ' ';
    var r := NewCourse(Some("Databases"), Some("CS305"), None, 30);
    var c2 := r.value;
    var service := new EnrollmentService();
    var r1 := service.EnrollStudent(st, c1);
    assert service.students == [st] && service.courses == [c1];
    var r2 := service.EnrollStudent(st, c2);
    assert service.students == [st] && service.courses == [c1, c2];
    students := service.GetAllStudents();
    courses := service.GetAllCourses();
  }
}
