/** Student: a Person with a grade point average and an identifier issued
    from a counter that all students share. */
module Students {
  import opened Results
  import opened Text
  import opened JavaInt
  import opened People

  /** A constructed student. Java compares students by reference (no
      `equals` override), so this is a class and identity is `==`.
      Every field is fixed at construction; studentId and cgpa are what
      getStudentId and getCgpa return. */
  class Student {
    const person: Person
    const studentId: string
    const cgpa: real

    /** Allocation once every check has passed (see NewStudent). */
    constructor (person: Person, studentId: string, cgpa: real)
      ensures this.person == person && this.studentId == studentId && this.cgpa == cgpa
    {
      this.person := person;
      this.studentId := studentId;
      this.cgpa := cgpa;
    }

    /** Person.getName, inherited. */
    function Name(): (r: string) { person.name }

    /** Student.getRole: the same label for every student. */
    function Role(): (r: string)
      ensures r == "Undergraduate Student"
    {
      "Undergraduate Student"
    }
  }

  /** The static `idCounter` of the Student class: one shared, mutable
      32-bit integer, starting at 1000. */
  class StudentIdCounter {
    var value: int32

    constructor ()
      ensures value == 1000
    {
      value := 1000;
    }
  }

  const CgpaMessage := "CGPA must be between 0.0 and 10.0"

  /** The grade check, with both bounds inclusive. */
  predicate ValidCgpa(cgpa: real) {
    0.0 <= cgpa <= 10.0
  }

  /** Every check the Student constructor makes, in its order: the Person
      checks first (through `super`), then the grade range. */
  function CheckStudent(name: Option<string>, email: Option<string>, cgpa: real): (r: Result<Person>)
    ensures r.Success? <==> ValidName(name) && ValidEmail(email) && ValidCgpa(cgpa)
    ensures NewPerson(name, email).Failure? ==> r == Failure(NewPerson(name, email).error)
    ensures NewPerson(name, email).Success? && !ValidCgpa(cgpa) ==> r == Failure(IllegalArgument(CgpaMessage))
    ensures r.Success? ==> r == NewPerson(name, email)
  {
    match NewPerson(name, email)
    case Failure(e) => Failure(e)
    case Success(p) =>
      if cgpa < 0.0 || cgpa > 10.0 then Failure(IllegalArgument(CgpaMessage)) else Success(p)
  }

  /** The identifier built from a counter value, `"S" + counter` in Java:
      an 'S', then the counter in decimal, which can be read back. */
  function StudentId(counter: int): (id: string)
    ensures |id| > 1 && id[0] == 'S'
    ensures counter >= 0 ==> (forall i :: 1 <= i < |id| ==> IsDigit(id[i])) && ParseNat(id[1..]) == counter
    ensures counter < 0 ==>
              && |id| > 2 && id[1] == '-'
              && (forall i :: 2 <= i < |id| ==> IsDigit(id[i]))
              && ParseNat(id[2..]) == -counter
  {
    var id := "S" + IntToString(counter);
    assert id[1..] == IntToString(counter);
    assert id[2..] == IntToString(counter)[1..];
    id
  }

  /** Different counter values give different identifiers. */
  lemma StudentIdInjective(m: int, n: int)
    ensures StudentId(m) == StudentId(n) ==> m == n
  {
  }

  /** A fresh counter hands "S1001" to the first student and "S1002" to the
      second: the increment comes before the value is read. */
  lemma FirstStudentIds()
    ensures StudentId(Increment(1000) as int) == "S1001"
    ensures StudentId(Increment(Increment(1000)) as int) == "S1002"
  {
    assert NatToString(1) == "1";
    assert NatToString(10) == "10";
    assert NatToString(100) == "100";
    assert NatToString(1001) == "1001";
    assert NatToString(1002) == "1002";
  }

  /** A non-blank name, an e-mail with an '@' and a grade within bounds pass
      every check of the Student constructor. */
  lemma ValidArgumentsAccepted(name: string, email: string, cgpa: real)
    requires !IsBlank(name) && '@' in email && ValidCgpa(cgpa)
    ensures CheckStudent(Some(name), Some(email), cgpa) == Success(Person(name, email))
  {
  }

  /** The counter values that k successful constructions in a row obtain,
      starting from counter value `start`. */
  function IssuedCounters(start: int32, k: nat): (counters: seq<int32>)
    decreases k
  {
    if k == 0 then [] else [Increment(start)] + IssuedCounters(Increment(start), k - 1)
  }

  /** Until the 32-bit counter would overflow, the i-th of k successive
      students gets counter value start + i + 1. */
  lemma {:induction false} IssuedCountersAreConsecutive(start: int32, k: nat)
    requires start as int + k <= MaxInt32
    ensures |IssuedCounters(start, k)| == k
    ensures forall i :: 0 <= i < k ==> IssuedCounters(start, k)[i] as int == start as int + i + 1
    decreases k
  {
    if k > 0 {
      IssuedCountersAreConsecutive(Increment(start), k - 1);
    }
  }

  /** Until the counter would overflow, identifiers issued in sequence have
      strictly increasing numbers and are pairwise distinct. */
  lemma IssuedIdsIncreaseAndDiffer(start: int32, k: nat)
    requires start as int + k <= MaxInt32
    ensures forall i, j :: 0 <= i < j < |IssuedCounters(start, k)| ==>
              IssuedCounters(start, k)[i] < IssuedCounters(start, k)[j]
              && StudentId(IssuedCounters(start, k)[i] as int) != StudentId(IssuedCounters(start, k)[j] as int)
  {
    IssuedCountersAreConsecutive(start, k);
    var c := IssuedCounters(start, k);
    forall i, j | 0 <= i < j < |c|
      ensures c[i] < c[j] && StudentId(c[i] as int) != StudentId(c[j] as int)
    {
      StudentIdInjective(c[i] as int, c[j] as int);
    }
  }

  /** The Student constructor. All checks come first; only when they pass is
      the shared counter incremented and its new value used for the
      identifier, so a failed construction leaves the counter as it was. */
  method NewStudent(counter: StudentIdCounter, name: Option<string>, email: Option<string>, cgpa: real)
    returns (r: Result<Student>)
    modifies counter
    ensures CheckStudent(name, email, cgpa).Failure? ==>
              r == Failure(CheckStudent(name, email, cgpa).error) && counter.value == old(counter.value)
    ensures CheckStudent(name, email, cgpa).Success? ==>
              && counter.value == Increment(old(counter.value))
              && r.Success? && fresh(r.value)
              && r.value.person == Person(name.value, email.value)
              && r.value.cgpa == cgpa
              && r.value.studentId == StudentId(counter.value as int)
              && r.value.Role() == "Undergraduate Student"
  {
    var checked := CheckStudent(name, email, cgpa);
    if checked.Failure? {
      return Failure(checked.error);
    }
    counter.value := Increment(counter.value);
    var s := new Student(checked.value, StudentId(counter.value as int), cgpa);
    r := Success(s);
  }
}
