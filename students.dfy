/** A student record (src/classify/Student.java): the validation gate its
    constructor runs, the email setter that re-runs the email check, and the
    grade policy classifyGrade. */
module Students {
  import opened Wrappers
  import Utils

  // ---------------------------------------------------------------------
  // Field checks
  // ---------------------------------------------------------------------

  predicate IsAsciiLetter(c: char) { Utils.IsLower(c) || Utils.IsUpper(c) }

  /** [a-zA-Z]{2,} */
  predicate IsNameToken(t: string) {
    |t| >= 2 && forall k | 0 <= k < |t| :: IsAsciiLetter(t[k])
  }

  /** `name.matches("^[a-zA-Z]{2,} [a-zA-Z]{2,}$")`: two letter tokens of at
      least two letters around one space. */
  predicate IsValidName(name: string) {
    exists i | 0 <= i < |name| :: name[i] == ' ' && IsNameToken(name[..i]) && IsNameToken(name[i + 1..])
  }

  /** The grade check rejects `grade < 0 || grade > 200`. */
  predicate IsValidGrade(grade: real) {
    !(grade < 0.0 || grade > 200.0)
  }

  const ValidStudentStatus: seq<string> := ["REG", "TRAB", "BOLS"]

  /** `Arrays.asList(VALID_STUDENT_STATUS).contains(status)`: exact, case-sensitive. */
  predicate IsValidStatus(status: string) {
    status in ValidStudentStatus
  }

  /** The checks of the constructor, in the order it runs them; the first that
      fails decides the error. `grade` and `birthDate` are the results of
      parsing the grade and date texts, `None` where the parser throws. */
  function CheckFields(name: string, email: string, grade: Option<real>, status: string, birthDate: Option<Date>)
    : (r: Outcome<Error>)
    ensures r == Pass <==>
      && IsValidName(name) && Utils.IsEmailAddress(email)
      && grade.Some? && IsValidGrade(grade.value) && IsValidStatus(status) && birthDate.Some?
    ensures !IsValidName(name) ==> r == Fail(InvalidName(name))
    ensures IsValidName(name) && !Utils.IsEmailAddress(email) ==> r == Fail(InvalidEmail(email))
    ensures IsValidName(name) && Utils.IsEmailAddress(email) && grade.None? ==> r == Fail(UnparsableGrade)
    ensures IsValidName(name) && Utils.IsEmailAddress(email) && grade.Some? && !IsValidGrade(grade.value) ==>
      r == Fail(InvalidGrade(grade.value))
    ensures IsValidName(name) && Utils.IsEmailAddress(email) && grade.Some? && IsValidGrade(grade.value) ==>
      (!IsValidStatus(status) ==> r == Fail(InvalidStatus(status))) &&
      (IsValidStatus(status) && birthDate.None? ==> r == Fail(UnparsableDate))
  {
    if !IsValidName(name) then Fail(InvalidName(name))
    else if Utils.ValidateEmail(email).Fail? then Utils.ValidateEmail(email)
    else if grade.None? then Fail(UnparsableGrade)
    else if grade.value < 0.0 || grade.value > 200.0 then Fail(InvalidGrade(grade.value))
    else if !IsValidStatus(status) then Fail(InvalidStatus(status))
    else if birthDate.None? then Fail(UnparsableDate)
    else Pass
  }

  /** A birth date as the calendar library returns it. */
  datatype Date = Date(year: int, month: int, day: int)

  // ---------------------------------------------------------------------
  // What the name check accepts and rejects
  // ---------------------------------------------------------------------

  /** An accepted name has exactly one space and letters everywhere else, with
      at least two letters on each side of the space. */
  lemma ValidNameShape(name: string)
    requires IsValidName(name)
    ensures exists i | 2 <= i < |name| - 2 ::
      && name[i] == ' '
      && forall k | 0 <= k < |name| && k != i :: IsAsciiLetter(name[k])
  {
    var i :| 0 <= i < |name| && name[i] == ' ' && IsNameToken(name[..i]) && IsNameToken(name[i + 1..]);
    assert forall k | 0 <= k < i :: name[k] == name[..i][k];
    assert forall k | i < k < |name| :: name[k] == name[i + 1..][k - i - 1];
  }

  /** Two tokens joined by one space is accepted. */
  lemma TwoTokensAccepted(first: string, last: string)
    requires IsNameToken(first) && IsNameToken(last)
    ensures IsValidName(first + " " + last)
  {
    var name := first + " " + last;
    assert name[|first|] == ' ';
    assert name[..|first|] == first;
    assert name[|first| + 1..] == last;
  }

  /** The space of an accepted name is its only one. */
  lemma SpaceIsUnique(name: string, i: nat, j: nat)
    requires i < |name| && j < |name| && name[i] == ' ' && name[j] == ' '
    ensures IsValidName(name) ==> i == j
  {
    if IsValidName(name) {
      ValidNameShape(name);
    }
  }

  /** A third token is rejected: the regex allows only one space. */
  lemma ThreeTokensRejected(a: string, b: string, c: string)
    requires IsNameToken(a) && IsNameToken(b) && IsNameToken(c)
    ensures !IsValidName(a + " " + b + " " + c)
  {
    var name := a + " " + b + " " + c;
    assert name[|a|] == ' ';
    assert name[|a| + 1 + |b|] == ' ';
    SpaceIsUnique(name, |a|, |a| + 1 + |b|);
  }

  // ---------------------------------------------------------------------
  // The grade policy
  // ---------------------------------------------------------------------

  /** classifyGrade: the band whose lower bound the grade reaches. */
  function ClassifyGrade(grade: real): (band: string)
    ensures band == "Excelente" <==> grade >= 180.0
    ensures band == "Bom" <==> 150.0 <= grade < 180.0
    ensures band == "Suficiente" <==> 120.0 <= grade < 150.0
    ensures band == "Insuficiente" <==> grade < 120.0
  {
    if grade >= 180.0 then "Excelente"
    else if grade >= 150.0 then "Bom"
    else if grade >= 120.0 then "Suficiente"
    else "Insuficiente"
  }

  /** The order of the labels, from Insuficiente (0) to Excelente (3). */
  function LabelRank(band: string): nat {
    if band == "Excelente" then 3
    else if band == "Bom" then 2
    else if band == "Suficiente" then 1
    else 0
  }

  /** A larger grade never gets a lower band. */
  lemma ClassifyGradeIsMonotone(g1: real, g2: real)
    requires g1 <= g2
    ensures LabelRank(ClassifyGrade(g1)) <= LabelRank(ClassifyGrade(g2))
  {
  }

  // ---------------------------------------------------------------------
  // The record
  // ---------------------------------------------------------------------

  class Student {
    const name: string
    var email: string
    const birthDate: Date
    const grade: real
    const status: string

    /** Every field passes its check. */
    ghost predicate Valid()
      reads this
    {
      IsValidName(name) && Utils.IsEmailAddress(email) && IsValidGrade(grade) && IsValidStatus(status)
    }

    /** The field assignments that follow a passed validation. */
    constructor (name: string, email: string, birthDate: Date, grade: real, status: string)
      requires CheckFields(name, email, Some(grade), status, Some(birthDate)) == Pass
      ensures this.name == name && this.email == email && this.birthDate == birthDate
      ensures this.grade == grade && this.status == status
      ensures Valid()
    {
      this.name := name;
      this.email := email;
      this.birthDate := birthDate;
      this.grade := grade;
      this.status := status;
    }

    /** setEmail: the email check again; on failure the old email stays. */
    method SetEmail(newEmail: string) returns (r: Outcome<Error>)
      modifies this
      ensures Utils.IsEmailAddress(newEmail) ==> r == Pass && email == newEmail
      ensures !Utils.IsEmailAddress(newEmail) ==> r == Fail(InvalidEmail(newEmail)) && email == old(email)
      ensures old(Valid()) ==> Valid()
    {
      r := Utils.ValidateEmail(newEmail);
      if r.Fail? {
        return;
      }
      email := newEmail;
    }

    /** getTextualGrade: the band of this student's grade. */
    function GetTextualGrade(): (band: string)
      ensures band == ClassifyGrade(grade)
      ensures band == "Excelente" <==> grade >= 180.0
      ensures band == "Insuficiente" <==> grade < 120.0
    {
      ClassifyGrade(grade)
    }
  }

  /** The constructor `new Student(...)`: either a fresh, valid student holding
      exactly the (parsed) arguments, or the error of the first failing check
      and no student at all. */
  method NewStudent(name: string, email: string, birthDate: Option<Date>, grade: Option<real>, status: string)
    returns (r: Result<Student, Error>)
    ensures CheckFields(name, email, grade, status, birthDate) == Pass <==> r.Success?
    ensures r.Failure? ==> Fail(r.error) == CheckFields(name, email, grade, status, birthDate)
    ensures r.Success? ==> fresh(r.value) && r.value.Valid()
    ensures r.Success? ==>
      && r.value.name == name && r.value.email == email && Some(r.value.birthDate) == birthDate
      && Some(r.value.grade) == grade && r.value.status == status
  {
    var check := CheckFields(name, email, grade, status, birthDate);
    if check.Fail? {
      return Failure(check.error);
    }
    var st := new Student(name, email, birthDate.value, grade.value, status);
    r := Success(st);
  }
}
