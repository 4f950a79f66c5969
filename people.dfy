/** Person: the identity (name and e-mail) that Student and Professor share.
    Java's abstract base class becomes a value; its constructor, which both
    subclasses call first through `super`, becomes NewPerson. */
module People {
  import opened Results
  import opened Text

  /** A validated identity; both fields are final in Java. */
  datatype Person = Person(name: string, email: string) {

    /** Person.toString: the name and the e-mail can be read back from
        fixed places between the two labels. */
    function ToString(): (r: string)
      ensures |r| == 15 + |name| + |email|
      ensures r[..6] == "Name: " && r[6..6 + |name|] == name
      ensures r[6 + |name|..15 + |name|] == ", Email: " && r[15 + |name|..] == email
    {
      "Name: " + name + ", Email: " + email
    }
  }

  const NameMessage := "Name cannot be null or empty"
  const EmailMessage := "Invalid email address"

  /** The name check: not null, and not blank after trimming. */
  predicate ValidName(name: Option<string>) {
    name.Some? && !IsBlank(name.value)
  }

  /** The e-mail check: not null, and containing an '@' somewhere. */
  predicate ValidEmail(email: Option<string>) {
    email.Some? && '@' in email.value
  }

  /** The Person constructor: the name is checked before the e-mail, and on
      success both arguments are stored exactly as given (not trimmed). */
  function NewPerson(name: Option<string>, email: Option<string>): (r: Result<Person>)
    ensures r.Success? <==> ValidName(name) && ValidEmail(email)
    ensures !ValidName(name) ==> r == Failure(IllegalArgument(NameMessage))
    ensures ValidName(name) && !ValidEmail(email) ==> r == Failure(IllegalArgument(EmailMessage))
    ensures r.Success? ==> r.value.name == name.value && r.value.email == email.value
  {
    if name.None? || IsBlank(name.value) then Failure(IllegalArgument(NameMessage))
    else if email.None? || '@' !in email.value then Failure(IllegalArgument(EmailMessage))
    else Success(Person(name.value, email.value))
  }

  /** Any non-blank name with any e-mail that contains '@' is accepted,
      however odd the rest of the address is. */
  lemma AnyAtSignIsAccepted(name: string, before: string, after: string)
    requires !IsBlank(name)
    ensures NewPerson(Some(name), Some(before + "@" + after)) == Success(Person(name, before + "@" + after))
  {
    assert (before + "@" + after)[|before|] == '@';
  }
}
