# University enrollment: a verified model

This project models the core of a small university enrollment service in
Dafny and proves properties of that model. The service keeps courses, each
with a roster of enrolled students bounded by a capacity, and a directory of
every student and course that took part in a successful enrollment. The
people involved (students and professors) are validated when they are
created, and students get identifiers "S1001", "S1002", … from a counter that
all students share.

Modules: four shared helpers, one module per source file, and one module of
example traces that models no source file:

- `Results` (results.dfy): the two exception kinds as `Error`
  (`IllegalArgument` for malformed input, `EnrollmentFailure` for a broken
  business rule, i.e. the EnrollmentException), and `Outcome`, `Result`,
  `Option` (a nullable reference to a value). Every constructor or method that
  throws in Java returns one of these.
- `JavaInt` (java_int.dfy): Java's 32-bit `int`, with `++` wrapping at
  MAX_VALUE. `Text` (text.dfy): the blank test and decimal rendering of
  integers. `Lists` (lists.dfy): "no duplicates" on a sequence.
- `People` (Person.java): Person becomes a value; its constructor is the
  function `NewPerson`.
- `Professors` (Professor.java): a Professor is an immutable value.
- `Students` (Student.java): Student is a class, because lists compare
  students by reference (no `equals` override). The static `idCounter` is an
  explicit `StudentIdCounter` object that `NewStudent` updates.
- `Courses` (Course.java): the class `Course`, whose roster is a `seq`
  field that `EnrollStudent` reassigns. `Admit` is the pure rule the method
  follows, and the lemmas about the roster are proved about `Admit`.
- `Enrollment` (EnrollmentService.java): the class `EnrollmentService` with
  the two directories as `seq` fields.
- `Scenarios` (scenarios.dfy): example traces proved from the contracts
  alone. It models no source file.

Nulls: a nullable String argument is an `Option<string>`, where `None` is
null; a nullable Student or Course is a nullable class reference
(`Student?`, `Course?`). "Blank" (`s.trim().isEmpty()`) means every character
is at or below U+0020, which is what `trim` removes.

The ID counter is a Java `int` (Student.java:17), so `++` wraps from
2147483647 to -2147483648, and the increasing-id lemmas hold only until that
wrap.

## Model

| member | source | states |
|---|---|---|
| People.NewPerson | university-enrollment-system/src/main/java/com/annu/university_enrollment_system/model/Person.java:30-39 | accepted exactly when the name is non-null and non-blank and the e-mail is non-null and contains '@'; a bad name gives "Name cannot be null or empty" even when the e-mail is bad too; otherwise a bad e-mail gives "Invalid email address"; on success name and e-mail are stored untrimmed, as given |
| People.AnyAtSignIsAccepted | university-enrollment-system/src/main/java/com/annu/university_enrollment_system/model/Person.java:34-36 | any e-mail containing '@' is accepted with a non-blank name, whatever surrounds the '@' |
| People.Person.ToString | university-enrollment-system/src/main/java/com/annu/university_enrollment_system/model/Person.java:62-64 | toString is "Name: ", the name, ", Email: ", the e-mail; each part can be read back at a fixed offset and the length is 15 plus both lengths |
| Professors.NewProfessor | src/main/java/com/annu/university_enrollment_system/model/Professor.java:27-36 | accepted exactly when name, e-mail and department are all valid; any Person error is reported unchanged before the department is looked at; a null or blank department gives "Department cannot be null or empty"; on success the fields hold the arguments and the role is "Professor" |
| Professors.Professor.Role | src/main/java/com/annu/university_enrollment_system/model/Professor.java:50-53 | every professor's role is "Professor" |
| Professors.NameErrorTakesPrecedence | src/main/java/com/annu/university_enrollment_system/model/Professor.java:28-33 | a null name is reported as the name error whatever the e-mail and department are |
| Professors.Professor.ToString | src/main/java/com/annu/university_enrollment_system/model/Professor.java:60-63 | toString is "Professor [Name=", name, ", Email=", e-mail, ", Department=", department, "]", each at a fixed offset |
| JavaInt.Increment | university-enrollment-system/src/main/java/com/annu/university_enrollment_system/model/Student.java:41 | `++` on the int counter adds one below MAX_VALUE and wraps to MIN_VALUE at MAX_VALUE |
| Students.CheckStudent | university-enrollment-system/src/main/java/com/annu/university_enrollment_system/model/Student.java:32-38 | the Student checks pass exactly when name, e-mail and cgpa are valid, cgpa in [0.0, 10.0] with both bounds inclusive; a Person error is reported before the cgpa is looked at; otherwise an out-of-range cgpa gives "CGPA must be between 0.0 and 10.0" |
| Students.ValidArgumentsAccepted | university-enrollment-system/src/main/java/com/annu/university_enrollment_system/model/Student.java:33-38 | a non-blank name, an e-mail with '@' and a cgpa in range (0.0 and 10.0 included) pass every check |
| Students.NewStudent | university-enrollment-system/src/main/java/com/annu/university_enrollment_system/model/Student.java:32-42 | a failed check returns that error and leaves the counter unchanged; on success the counter is incremented once, a fresh student is returned whose id is "S" followed by the new counter value, and whose person and cgpa are the arguments; its role is "Undergraduate Student" |
| Students.StudentIdCounter.constructor | university-enrollment-system/src/main/java/com/annu/university_enrollment_system/model/Student.java:17 | the shared counter starts at 1000 |
| Students.StudentId | university-enrollment-system/src/main/java/com/annu/university_enrollment_system/model/Student.java:41 | the id is an 'S' followed by the counter in decimal (with a '-' for a negative counter), and the counter can be read back from it |
| Text.IntToString | university-enrollment-system/src/main/java/com/annu/university_enrollment_system/model/Student.java:41 | Java's rendering of an int in a concatenation: decimal digits whose value is the number, after a '-' when it is negative |
| Students.Student.Role | university-enrollment-system/src/main/java/com/annu/university_enrollment_system/model/Student.java:63-66 | every student's role is "Undergraduate Student" |
| Students.StudentIdInjective | university-enrollment-system/src/main/java/com/annu/university_enrollment_system/model/Student.java:41 | different counter values give different ids |
| Students.FirstStudentIds | university-enrollment-system/src/main/java/com/annu/university_enrollment_system/model/Student.java:17-41 | from the starting value 1000, the first two increments give ids "S1001" and "S1002" |
| Students.IssuedCountersAreConsecutive | university-enrollment-system/src/main/java/com/annu/university_enrollment_system/model/Student.java:41 | until the int overflows, the i-th of k successive constructions gets counter value start + i + 1 |
| Students.IssuedIdsIncreaseAndDiffer | university-enrollment-system/src/main/java/com/annu/university_enrollment_system/model/Student.java:41 | until the int overflows, ids issued in sequence have strictly increasing numbers and are pairwise distinct |
| Courses.CheckCourse | university-enrollment-system/src/main/java/com/annu/university_enrollment_system/model/Course.java:47-55 | the Course checks pass exactly when name and code are non-null and non-blank and the capacity is positive; a bad name gives "Course name cannot be empty"; with a good name, a bad code gives "Course code cannot be empty"; with both good, a capacity of zero or less gives "Max capacity must be greater than zero"; all three are argument errors |
| Courses.NewCourse | university-enrollment-system/src/main/java/com/annu/university_enrollment_system/model/Course.java:43-62 | a failed check returns its error; on success a fresh course holds the arguments, has an empty roster and satisfies the course invariant |
| Courses.Course.constructor | university-enrollment-system/src/main/java/com/annu/university_enrollment_system/model/Course.java:57-61 | the fields hold the arguments and the roster starts empty |
| Courses.Admit | university-enrollment-system/src/main/java/com/annu/university_enrollment_system/model/Course.java:74-91 | enrollment succeeds exactly when the student is non-null, not on the roster, and the roster is below capacity; success appends the student at the end; every failure leaves the roster as it was; null gives "Student cannot be null", a duplicate "Student already enrolled in <code>", a full course "Course <code> is full" |
| Courses.AdmitPreservesInvariant | university-enrollment-system/src/main/java/com/annu/university_enrollment_system/model/Course.java:81-90 | every call, successful or not, keeps "size <= capacity and no duplicates"; the old roster stays a prefix of the new one, which is at most one longer |
| Courses.DuplicateReportedBeforeFull | university-enrollment-system/src/main/java/com/annu/university_enrollment_system/model/Course.java:81-88 | a student already on a full roster gets the duplicate error, not the full error, and the roster is unchanged |
| Courses.AdmitAllThatFit | university-enrollment-system/src/main/java/com/annu/university_enrollment_system/model/Course.java:86-90 | distinct new students that fit within the capacity are all accepted, one after another, and the roster becomes the old roster followed by them in order |
| Courses.FillThenFull | university-enrollment-system/src/main/java/com/annu/university_enrollment_system/model/Course.java:86-90 | for capacity m, m distinct students are accepted in order and the roster is exactly them; one more distinct student is refused as full and the roster keeps its m students |
| Courses.Course.ToString | university-enrollment-system/src/main/java/com/annu/university_enrollment_system/model/Course.java:112-118 | toString starts with the code and the name, shows the instructor's name or "TBD" when there is none, and ends with ", Enrolled=<size>/<capacity>]" |
| Courses.Course.EnrollStudent | university-enrollment-system/src/main/java/com/annu/university_enrollment_system/model/Course.java:74-91 | the outcome and the new roster are as Admit says for the old roster; the course invariant holds afterwards; the instructor is untouched |
| Courses.Course.GetEnrolledStudents | university-enrollment-system/src/main/java/com/annu/university_enrollment_system/model/Course.java:97-99 | returns the current roster in enrollment order, which is within capacity and has no duplicates |
| Courses.Course.SetInstructor | university-enrollment-system/src/main/java/com/annu/university_enrollment_system/model/Course.java:104-106 | replaces the instructor and leaves the roster unchanged |
| Enrollment.AddIfAbsent | university-enrollment-system/src/main/java/com/annu/university_enrollment_system/service/EnrollmentService.java:35-40 | contains-then-add: the element is present afterwards; the old list is a prefix of the new one, which is at most one longer; nothing changes if the element was present; nothing else is added; a duplicate-free list stays duplicate-free |
| Enrollment.RecordedOnce | university-enrollment-system/src/main/java/com/annu/university_enrollment_system/service/EnrollmentService.java:35-37 | in a duplicate-free directory, a recorded student occurs exactly once however often it is recorded |
| Enrollment.EnrollmentService.constructor | university-enrollment-system/src/main/java/com/annu/university_enrollment_system/service/EnrollmentService.java:19-20 | both directories start empty |
| Enrollment.EnrollmentService.EnrollStudent | university-enrollment-system/src/main/java/com/annu/university_enrollment_system/service/EnrollmentService.java:25-41 | a null student or course gives "Student or Course cannot be null" and changes neither directory nor the course's roster or instructor; otherwise the course decides as Admit says; a refusal leaves both directories unchanged; a success records the student and the course with contains-then-add; the directories stay duplicate-free |
| Enrollment.EnrollmentService.GetAllStudents | university-enrollment-system/src/main/java/com/annu/university_enrollment_system/service/EnrollmentService.java:46-48 | returns the student directory in insertion order, without duplicates |
| Enrollment.EnrollmentService.GetAllCourses | university-enrollment-system/src/main/java/com/annu/university_enrollment_system/service/EnrollmentService.java:53-55 | returns the course directory in insertion order, without duplicates |
| Scenarios.FirstTwoStudentIds | university-enrollment-system/src/main/java/com/annu/university_enrollment_system/model/Student.java:17-41 | the first two students made from a fresh counter get "S1001" and "S1002" |
| Scenarios.CapacityTwoCourse | university-enrollment-system/src/main/java/com/annu/university_enrollment_system/model/Course.java:74-91 | in CS201 with capacity 2, A and B are accepted, C is refused with "Course CS201 is full", A again is refused with "Student already enrolled in CS201", and the roster keeps two students |
| Scenarios.SharedStudentListedOnce | university-enrollment-system/src/main/java/com/annu/university_enrollment_system/service/EnrollmentService.java:25-41 | one student enrolled into two different courses is listed once, and both courses are listed |

## Left out

- EnrollmentController.java and EnrollmentRequest.java are not part of this model. They are HTTP routing and JSON binding, and only forward to the service.
- Spring's service lifecycle and Java serialization are not modelled. They are framework concerns with no rules of their own.
- Student.toString is not modelled, because it prints the cgpa as a Java `double`, and floating-point formatting is outside the model.
- Students.CheckStudent: cgpa is a Dafny `real`, so there is no NaN. In Java, `cgpa < 0.0 || cgpa > 10.0` is false for NaN, so the source accepts a NaN cgpa and the model cannot express that.
- Students.IssuedIdsIncreaseAndDiffer: stated only up to the point where the 32-bit counter would overflow. After that, Java's `++` wraps to a negative value, so ids stop increasing.
- The static counter is an explicit `StudentIdCounter` object passed to `NewStudent`, because Dafny has no mutable static fields. Callers that share one counter behave like the process-wide static.
- `Collections.unmodifiableList` and the live list that `getAllStudents` returns are both modelled as returning the current sequence. Aliasing and the view's mutability are Java library behaviour.
- The service requires `course.Valid()` of a non-null course. Every course built by `NewCourse` satisfies it, and only `EnrollStudent` and `SetInstructor` change a course. Both keep it.
- Course codes are not checked for uniqueness across courses, as in the source.
- Concurrency is not modelled. The source has none.
- Getters (`getName`, `getEmail`, `getDepartment`, `getStudentId`, `getCgpa`) are the fields themselves. Their values are fixed by the constructors' contracts.
