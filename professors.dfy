/** Professor: a Person with a department. Every field is final, so a
    Professor is a value. */
module Professors {
  import opened Results
  import opened Text
  import opened People

  datatype Professor = Professor(person: Person, department: string) {

    /** Person.getName, inherited. */
    function Name(): (r: string) { person.name }

    /** Professor.getRole: the same label for every professor. */
    function Role(): (r: string)
      ensures r == "Professor"
    {
      "Professor"
    }

    /** Professor.toString: the three fields can be read back from fixed
        places between the labels. */
    function ToString(): (r: string)
      ensures var n, e, d := |person.name|, |person.email|, |department|;
        && |r| == 38 + n + e + d
        && r[..16] == "Professor [Name="
        && r[16..16 + n] == person.name
        && r[16 + n..24 + n] == ", Email="
        && r[24 + n..24 + n + e] == person.email
        && r[24 + n + e..37 + n + e] == ", Department="
        && r[37 + n + e..37 + n + e + d] == department
        && r[37 + n + e + d..] == "]"
    {
      "Professor [Name=" + person.name + ", Email=" + person.email + ", Department=" + department + "]"
    }
  }

  const DepartmentMessage := "Department cannot be null or empty"

  /** The department check: not null, and not blank after trimming. */
  predicate ValidDepartment(department: Option<string>) {
    department.Some? && !IsBlank(department.value)
  }

  /** The Professor constructor: the Person checks run first (through
      `super`), then the department check; on success the department is
      stored exactly as given. */
  function NewProfessor(name: Option<string>, email: Option<string>, department: Option<string>)
    : (r: Result<Professor>)
    ensures r.Success? <==> ValidName(name) && ValidEmail(email) && ValidDepartment(department)
    ensures NewPerson(name, email).Failure? ==> r == Failure(NewPerson(name, email).error)
    ensures NewPerson(name, email).Success? && !ValidDepartment(department) ==>
              r == Failure(IllegalArgument(DepartmentMessage))
    ensures r.Success? ==>
              r.value.person == Person(name.value, email.value) && r.value.department == department.value
    ensures r.Success? ==> r.value.Role() == "Professor"
  {
    match NewPerson(name, email)
    case Failure(e) => Failure(e)
    case Success(p) =>
      if department.None? || IsBlank(department.value) then Failure(IllegalArgument(DepartmentMessage))
      else Success(Professor(p, department.value))
  }

  /** With every argument invalid, the name error is the one reported. */
  lemma NameErrorTakesPrecedence(email: Option<string>, department: Option<string>)
    ensures NewProfessor(None, email, department) == Failure(IllegalArgument(NameMessage))
  {
  }
}
