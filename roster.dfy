/** The roster (src/classify/StudentCollection.java): an ordered list of
    students whose emails are unique up to letter case, the searches over it,
    the grade average and the collection's own iterator. */
module Roster {
  import opened Wrappers
  import Utils
  import opened Students

  // ---------------------------------------------------------------------
  // Case-insensitive comparison and substring search
  // ---------------------------------------------------------------------

  /** `Character.toLowerCase` restricted to ASCII: A-Z map to a-z. */
  function LowerChar(c: char): (d: char)
    ensures Utils.IsUpper(c) ==> Utils.IsLower(d) && d as int - c as int == 32
    ensures !Utils.IsUpper(c) ==> d == c
  {
    if Utils.IsUpper(c) then (c as int + 32) as char else c
  }

  /** `String.toLowerCase` on ASCII letters. */
  function ToLower(s: string): (t: string)
    ensures |t| == |s|
    ensures forall k | 0 <= k < |s| :: t[k] == LowerChar(s[k])
  {
    seq(|s|, k requires 0 <= k < |s| => LowerChar(s[k]))
  }

  /** `a.toLowerCase().equals(b.toLowerCase())` */
  predicate SameEmail(a: string, b: string) {
    ToLower(a) == ToLower(b)
  }

  /** `part` occurs in `s` starting at offset `i`. */
  predicate OccursAt(part: string, s: string, i: int) {
    0 <= i && i + |part| <= |s| && s[i..i + |part|] == part
  }

  /** `s.contains(part)`: `part` occurs at some offset of `s`. */
  predicate IsSubstring(part: string, s: string) {
    exists i | 0 <= i <= |s| - |part| :: OccursAt(part, s, i)
  }

  /** The name filter of searchByName: `name.toLowerCase().contains(query.toLowerCase())`. */
  predicate NameMatches(name: string, query: string) {
    IsSubstring(ToLower(query), ToLower(name))
  }

  /** The grade filter of searchByGrades: both bounds inclusive. */
  predicate GradeInRange(grade: real, minGrade: real, maxGrade: real) {
    grade >= minGrade && grade <= maxGrade
  }

  /** Lower-casing changes nothing in a string without upper-case letters. */
  lemma ToLowerOfLowerIsIdentity(s: string)
    requires forall k | 0 <= k < |s| :: !Utils.IsUpper(s[k])
    ensures ToLower(s) == s
  {
  }

  /** Addresses the email check accepts have no upper-case letters, so for them
      the case-insensitive comparison of the roster is plain equality. */
  lemma SameEmailOfValidIsEquality(a: string, b: string)
    requires Utils.IsEmailAddress(a) && Utils.IsEmailAddress(b)
    ensures SameEmail(a, b) <==> a == b
  {
    Utils.EmailHasNoUpperCase(a);
    Utils.EmailHasNoUpperCase(b);
    ToLowerOfLowerIsIdentity(a);
    ToLowerOfLowerIsIdentity(b);
  }

  /** The empty query is a substring of every name. */
  lemma EmptyQueryMatches(name: string)
    ensures NameMatches(name, "")
  {
    assert OccursAt(ToLower(""), ToLower(name), 0);
  }

  /** A query matches its own name, whatever the letter case. */
  lemma NameMatchesItself(name: string)
    ensures NameMatches(name, name)
  {
    assert ToLower(name)[0..|name|] == ToLower(name);
    assert OccursAt(ToLower(name), ToLower(name), 0);
  }

  // ---------------------------------------------------------------------
  // Lists of students
  // ---------------------------------------------------------------------

  /** Elements of `xs` that satisfy `p`, in their order in `xs`. */
  function Filter<T>(xs: seq<T>, p: T -> bool): (ys: seq<T>)
    ensures |ys| <= |xs|
  {
    if xs == [] then []
    else
      var init := Filter(xs[..|xs| - 1], p);
      if p(xs[|xs| - 1]) then init + [xs[|xs| - 1]] else init
  }

  /** The test searchByName applies to each student. */
  function NameFilter(query: string): Student -> bool {
    (st: Student) => NameMatches(st.name, query)
  }

  /** The test searchByGrades applies to each student. */
  function GradeFilter(minGrade: real, maxGrade: real): Student -> bool {
    (st: Student) => GradeInRange(st.grade, minGrade, maxGrade)
  }

  /** The students searchByName collects. */
  function ByName(xs: seq<Student>, query: string): seq<Student> {
    Filter(xs, NameFilter(query))
  }

  /** The students searchByGrades collects. */
  function ByGrades(xs: seq<Student>, minGrade: real, maxGrade: real): seq<Student> {
    Filter(xs, GradeFilter(minGrade, maxGrade))
  }

  /** Some student of `xs` has `email`, up to letter case. */
  ghost predicate HasEmail(xs: seq<Student>, email: string)
    reads xs
  {
    exists k | 0 <= k < |xs| :: SameEmail(xs[k].email, email)
  }

  /** No two students of `xs` share an email, up to letter case. */
  ghost predicate UniqueEmails(xs: seq<Student>)
    reads xs
  {
    forall i, j | 0 <= i < j < |xs| :: !SameEmail(xs[i].email, xs[j].email)
  }

  /** `xs[j]` is the first student a search with test `p` cannot `add`: it
      passes the test, the students selected before it have unique emails, and
      one of them already has its email. */
  ghost predicate RefusedAt(xs: seq<Student>, p: Student -> bool, j: int)
    reads xs, if 0 <= j <= |xs| then Filter(xs[..j], p) else []
  {
    && 0 <= j < |xs|
    && p(xs[j])
    && UniqueEmails(Filter(xs[..j], p))
    && HasEmail(Filter(xs[..j], p), xs[j].email)
  }

  /** The sum of the grades, added from the first student to the last. */
  function SumGrades(xs: seq<Student>): real {
    if xs == [] then 0.0 else SumGrades(xs[..|xs| - 1]) + xs[|xs| - 1].grade
  }

  // ---------------------------------------------------------------------
  // Properties of the list functions
  // ---------------------------------------------------------------------

  lemma FilterSnoc<T>(xs: seq<T>, x: T, p: T -> bool)
    ensures Filter(xs + [x], p) == if p(x) then Filter(xs, p) + [x] else Filter(xs, p)
  {
    assert (xs + [x])[..|xs|] == xs;
  }

  /** One more element of `xs` through the filter. */
  lemma FilterPrefixStep<T>(xs: seq<T>, i: nat, p: T -> bool)
    requires i < |xs|
    ensures Filter(xs[..i + 1], p) == if p(xs[i]) then Filter(xs[..i], p) + [xs[i]] else Filter(xs[..i], p)
  {
    assert xs[..i + 1] == xs[..i] + [xs[i]];
    FilterSnoc(xs[..i], xs[i], p);
  }

  /** An element is kept exactly when it is in the list and passes the filter. */
  lemma {:induction false} FilterMembers<T>(xs: seq<T>, p: T -> bool, y: T)
    ensures y in Filter(xs, p) <==> y in xs && p(y)
  {
    if xs != [] {
      var init, last := xs[..|xs| - 1], xs[|xs| - 1];
      assert xs == init + [last];
      FilterMembers(init, p, y);
    }
  }

  /** Filtering commutes with concatenation. */
  lemma {:induction false} FilterAppend<T>(xs: seq<T>, ys: seq<T>, p: T -> bool)
    ensures Filter(xs + ys, p) == Filter(xs, p) + Filter(ys, p)
  {
    if ys != [] {
      var init, last := ys[..|ys| - 1], ys[|ys| - 1];
      assert ys == init + [last];
      assert xs + ys == (xs + init) + [last];
      FilterAppend(xs, init, p);
      FilterSnoc(xs + init, last, p);
      FilterSnoc(init, last, p);
    } else {
      assert xs + ys == xs;
    }
  }

  /** When every element passes, the filter keeps the whole list. */
  lemma {:induction false} FilterKeepsAll<T>(xs: seq<T>, p: T -> bool)
    requires forall k | 0 <= k < |xs| :: p(xs[k])
    ensures Filter(xs, p) == xs
  {
    if xs != [] {
      var init, last := xs[..|xs| - 1], xs[|xs| - 1];
      assert xs == init + [last];
      FilterKeepsAll(init, p);
    }
  }

  /** When no element passes, the filter keeps nothing. */
  lemma {:induction false} FilterKeepsNone<T>(xs: seq<T>, p: T -> bool)
    requires forall k | 0 <= k < |xs| :: !p(xs[k])
    ensures Filter(xs, p) == []
  {
    if xs != [] {
      assert !p(xs[|xs| - 1]);
      FilterKeepsNone(xs[..|xs| - 1], p);
    }
  }

  lemma HasEmailSnoc(xs: seq<Student>, x: Student, email: string)
    ensures HasEmail(xs + [x], email) <==> HasEmail(xs, email) || SameEmail(x.email, email)
  {
    assert (xs + [x])[|xs|] == x;
    assert forall k | 0 <= k < |xs| :: (xs + [x])[k] == xs[k];
  }

  /** A list extended by one student has unique emails exactly when the list
      had and the newcomer's email is not yet present: the rule `add` keeps. */
  lemma UniqueEmailsSnoc(xs: seq<Student>, x: Student)
    ensures UniqueEmails(xs + [x]) <==> UniqueEmails(xs) && !HasEmail(xs, x.email)
  {
    var ys := xs + [x];
    assert ys[|xs|] == x;
    assert forall k | 0 <= k < |xs| :: ys[k] == xs[k];
    if UniqueEmails(ys) {
      forall k | 0 <= k < |xs| ensures !SameEmail(xs[k].email, x.email) {
        assert !SameEmail(ys[k].email, ys[|xs|].email);
      }
    }
  }

  lemma {:induction false} UniqueEmailsOfPrefix(xs: seq<Student>, ys: seq<Student>)
    requires UniqueEmails(xs + ys)
    ensures UniqueEmails(xs)
  {
    assert forall k | 0 <= k < |xs| :: (xs + ys)[k] == xs[k];
  }

  /** Every student the filter keeps comes from the list. */
  lemma HasEmailOfFilter(xs: seq<Student>, p: Student -> bool, email: string)
    requires HasEmail(Filter(xs, p), email)
    ensures HasEmail(xs, email)
  {
    var ys := Filter(xs, p);
    var k :| 0 <= k < |ys| && SameEmail(ys[k].email, email);
    FilterMembers(xs, p, ys[k]);
    var j :| 0 <= j < |xs| && xs[j] == ys[k];
  }

  /** Filtering a list with unique emails leaves unique emails. */
  lemma {:induction false} FilterKeepsUniqueEmails(xs: seq<Student>, p: Student -> bool)
    requires UniqueEmails(xs)
    ensures UniqueEmails(Filter(xs, p))
  {
    if xs != [] {
      var init, last := xs[..|xs| - 1], xs[|xs| - 1];
      assert xs == init + [last];
      UniqueEmailsSnoc(init, last);
      FilterKeepsUniqueEmails(init, p);
      FilterSnoc(init, last, p);
      if p(last) {
        if HasEmail(Filter(init, p), last.email) {
          HasEmailOfFilter(init, p, last.email);
        }
        UniqueEmailsSnoc(Filter(init, p), last);
      }
    }
  }

  /** searchByName keeps exactly the students whose name contains the query. */
  lemma ByNameMembers(xs: seq<Student>, query: string, st: Student)
    ensures st in ByName(xs, query) <==> st in xs && NameMatches(st.name, query)
  {
    FilterMembers(xs, NameFilter(query), st);
  }

  /** The empty query keeps everyone, in order. */
  lemma ByNameEmptyQuery(xs: seq<Student>)
    ensures ByName(xs, "") == xs
  {
    forall k | 0 <= k < |xs| ensures NameMatches(xs[k].name, "") {
      EmptyQueryMatches(xs[k].name);
    }
    FilterKeepsAll(xs, NameFilter(""));
  }

  /** Searching by a member's own name, in any letter case, finds that member. */
  lemma ByNameFindsOwnName(xs: seq<Student>, st: Student)
    requires st in xs
    ensures st in ByName(xs, st.name)
  {
    NameMatchesItself(st.name);
    ByNameMembers(xs, st.name, st);
  }

  /** searchByGrades keeps exactly the students whose grade is in [min, max]. */
  lemma ByGradesMembers(xs: seq<Student>, minGrade: real, maxGrade: real, st: Student)
    ensures st in ByGrades(xs, minGrade, maxGrade) <==> st in xs && minGrade <= st.grade <= maxGrade
  {
    FilterMembers(xs, GradeFilter(minGrade, maxGrade), st);
  }

  /** The whole grade scale keeps every student with a valid grade. */
  lemma ByGradesWholeScale(xs: seq<Student>)
    requires forall k | 0 <= k < |xs| :: IsValidGrade(xs[k].grade)
    ensures ByGrades(xs, 0.0, 200.0) == xs
  {
    FilterKeepsAll(xs, GradeFilter(0.0, 200.0));
  }

  /** An empty interval keeps no one. */
  lemma ByGradesEmptyInterval(xs: seq<Student>, minGrade: real, maxGrade: real)
    requires minGrade > maxGrade
    ensures ByGrades(xs, minGrade, maxGrade) == []
  {
    FilterKeepsNone(xs, GradeFilter(minGrade, maxGrade));
  }

  lemma {:induction false} SumGradesBounds(xs: seq<Student>, lo: real, hi: real)
    requires forall k | 0 <= k < |xs| :: lo <= xs[k].grade <= hi
    ensures lo * |xs| as real <= SumGrades(xs) <= hi * |xs| as real
  {
    if xs != [] {
      SumGradesBounds(xs[..|xs| - 1], lo, hi);
    }
  }

  /** Dividing by a positive count keeps a bound scaled by that count. */
  lemma DivideBounds(sum: real, n: real, lo: real, hi: real)
    requires n > 0.0 && lo * n <= sum <= hi * n
    ensures lo <= sum / n <= hi
  {
    assert sum / n - lo == (sum - lo * n) / n;
    assert hi - sum / n == (hi * n - sum) / n;
  }

  /** The mean of grades in [lo, hi] lies in [lo, hi]. */
  lemma MeanIsBetweenBounds(xs: seq<Student>, lo: real, hi: real)
    requires xs != []
    requires forall k | 0 <= k < |xs| :: lo <= xs[k].grade <= hi
    ensures lo <= SumGrades(xs) / |xs| as real <= hi
  {
    SumGradesBounds(xs, lo, hi);
    DivideBounds(SumGrades(xs), |xs| as real, lo, hi);
  }

  /** A roster of valid grades averages to a valid grade, which classifyGrade
      can then band. */
  lemma MeanIsValidGrade(xs: seq<Student>)
    requires xs != []
    requires forall k | 0 <= k < |xs| :: IsValidGrade(xs[k].grade)
    ensures IsValidGrade(SumGrades(xs) / |xs| as real)
  {
    MeanIsBetweenBounds(xs, 0.0, 200.0);
  }

  // ---------------------------------------------------------------------
  // The collection
  // ---------------------------------------------------------------------

  class StudentCollection {
    var students: seq<Student>

    /** An empty roster. */
    constructor ()
      ensures students == []
      ensures Unique()
    {
      students := [];
    }

    /** The roster's invariant: emails are unique up to letter case. It is kept
        by `Add`; `Student.SetEmail` on a member can break it. */
    ghost predicate Unique()
      reads this, students
    {
      UniqueEmails(students)
    }

    /** searchByEmail: the first student whose email equals `email` up to
        letter case, or null when there is none. */
    method SearchByEmail(email: string) returns (st: Student?)
      ensures st == null <==> !HasEmail(students, email)
      ensures st != null ==>
        exists i | 0 <= i < |students| :: students[i] == st && SameEmail(st.email, email) && !HasEmail(students[..i], email)
    {
      var i := 0;
      while i < |students|
        invariant 0 <= i <= |students|
        invariant !HasEmail(students[..i], email)
      {
        if SameEmail(students[i].email, email) {
          return students[i];
        }
        assert students[..i + 1] == students[..i] + [students[i]];
        HasEmailSnoc(students[..i], students[i], email);
        i := i + 1;
      }
      assert students[..i] == students;
      return null;
    }

    /** add: refuses a student whose email is already present (up to letter
        case) and otherwise appends it at the end. */
    method Add(st: Student) returns (r: Outcome<Error>)
      modifies this
      ensures HasEmail(old(students), st.email) ==>
        r == Fail(DuplicateEmail(st.email)) && students == old(students)
      ensures !HasEmail(old(students), st.email) ==> r == Pass && students == old(students) + [st]
      ensures old(Unique()) ==> Unique()
    {
      var found := SearchByEmail(st.email);
      if found != null {
        return Fail(DuplicateEmail(st.email));
      }
      UniqueEmailsSnoc(students, st);
      students := students + [st];
      r := Pass;
    }

    /** searchByName: a new roster of the students whose name contains `name`,
        ignoring letter case, in roster order. The new roster is filled with
        `add`, so it fails, with the email of the first student `add` refuses,
        when two of those students share an email. */
    method SearchByName(name: string) returns (r: Result<StudentCollection, Error>)
      ensures r.Success? <==> UniqueEmails(ByName(students, name))
      ensures r.Success? ==> fresh(r.value) && r.value.students == ByName(students, name)
      ensures r.Failure? ==> exists j | 0 <= j < |students| ::
        RefusedAt(students, NameFilter(name), j) && r.error == DuplicateEmail(students[j].email)
    {
      var p := NameFilter(name);
      var found := new StudentCollection();
      var i := 0;
      while i < |students|
        invariant 0 <= i <= |students|
        invariant fresh(found)
        invariant found.students == Filter(students[..i], p)
        invariant UniqueEmails(found.students)
      {
        var st := students[i];
        FilterPrefixStep(students, i, p);
        if p(st) {
          UniqueEmailsSnoc(found.students, st);
          var added := found.Add(st);
          if added.Fail? {
            FilterFailsAt(students, i, p);
            return Failure(added.error);
          }
        }
        i := i + 1;
      }
      assert students[..i] == students;
      return Success(found);
    }

    /** searchByGrades: a new roster of the students whose grade lies in
        [minGrade, maxGrade], in roster order, filled with `add` as searchByName. */
    method SearchByGrades(minGrade: real, maxGrade: real) returns (r: Result<StudentCollection, Error>)
      ensures r.Success? <==> UniqueEmails(ByGrades(students, minGrade, maxGrade))
      ensures r.Success? ==> fresh(r.value) && r.value.students == ByGrades(students, minGrade, maxGrade)
      ensures r.Failure? ==> exists j | 0 <= j < |students| ::
        RefusedAt(students, GradeFilter(minGrade, maxGrade), j) && r.error == DuplicateEmail(students[j].email)
    {
      ghost var p := GradeFilter(minGrade, maxGrade);
      var found := new StudentCollection();
      var i := 0;
      while i < |students|
        invariant 0 <= i <= |students|
        invariant fresh(found)
        invariant found.students == Filter(students[..i], p)
        invariant UniqueEmails(found.students)
      {
        var st := students[i];
        FilterPrefixStep(students, i, p);
        var grade := st.grade;
        if grade >= minGrade && grade <= maxGrade {
          UniqueEmailsSnoc(found.students, st);
          var added := found.Add(st);
          if added.Fail? {
            FilterFailsAt(students, i, p);
            return Failure(added.error);
          }
        }
        i := i + 1;
      }
      assert students[..i] == students;
      return Success(found);
    }

    /** isEmpty */
    function IsEmpty(): (b: bool)
      reads this
      ensures b <==> |students| == 0
    {
      students == []
    }

    /** average: the sum of the grades over their number. Java's 0.0 / 0 is NaN
        for an empty roster; here that is `None`. */
    method Average() returns (r: Option<real>)
      ensures r.None? <==> IsEmpty()
      ensures r.Some? ==> r.value == SumGrades(students) / |students| as real
      ensures r.Some? && (forall k | 0 <= k < |students| :: IsValidGrade(students[k].grade)) ==>
        IsValidGrade(r.value)
    {
      var sum := 0.0;
      var i := 0;
      while i < |students|
        invariant 0 <= i <= |students|
        invariant sum == SumGrades(students[..i])
      {
        assert students[..i + 1][..i] == students[..i];
        sum := sum + students[i].grade;
        i := i + 1;
      }
      assert students[..i] == students;
      if students == [] {
        return None;
      }
      if forall k | 0 <= k < |students| :: IsValidGrade(students[k].grade) {
        MeanIsValidGrade(students);
      }
      r := Some(sum / |students| as real);
    }

    /** iterator: a fresh cursor at the first student. */
    method Iterator() returns (it: StudentCollectionIterator)
      ensures fresh(it) && it.owner == this && it.pos == 0 && it.Valid()
    {
      it := new StudentCollectionIterator(this);
    }

    /** A for-each over the roster through its own iterator visits exactly its
        students, in order. */
    method Members() returns (xs: seq<Student>)
      ensures xs == students
    {
      var it := Iterator();
      xs := [];
      while it.HasNext()
        invariant fresh(it) && it.owner == this && it.Valid()
        invariant xs == students[..it.pos]
        decreases |students| - it.pos
      {
        var st := it.Next();
        assert students[..it.pos] == students[..it.pos - 1] + [st.value];
        xs := xs + [st.value];
      }
      assert students[..it.pos] == students;
    }
  }

  /** The step of searchByName and searchByGrades where `add` refuses: the
      students filtered so far plus the refused one form a prefix of the whole
      filtered list, so that list cannot have unique emails. */
  lemma FilterFailsAt(xs: seq<Student>, i: nat, p: Student -> bool)
    requires i < |xs| && p(xs[i])
    requires HasEmail(Filter(xs[..i], p), xs[i].email)
    ensures !UniqueEmails(Filter(xs, p))
  {
    var pre, post := xs[..i + 1], xs[i + 1..];
    assert xs == pre + post;
    assert pre == xs[..i] + [xs[i]];
    FilterSnoc(xs[..i], xs[i], p);
    UniqueEmailsSnoc(Filter(xs[..i], p), xs[i]);
    FilterAppend(pre, post, p);
    if UniqueEmails(Filter(xs, p)) {
      UniqueEmailsOfPrefix(Filter(pre, p), Filter(post, p));
    }
  }

  /** searchByName and searchByGrades cannot fail on a roster whose invariant holds. */
  lemma SearchesSucceedOnUniqueRoster(xs: seq<Student>, name: string, minGrade: real, maxGrade: real)
    requires UniqueEmails(xs)
    ensures UniqueEmails(ByName(xs, name))
    ensures UniqueEmails(ByGrades(xs, minGrade, maxGrade))
  {
    FilterKeepsUniqueEmails(xs, NameFilter(name));
    FilterKeepsUniqueEmails(xs, GradeFilter(minGrade, maxGrade));
  }

  /** The collection's iterator class: a position into the owner's live list. */
  class StudentCollectionIterator {
    const owner: StudentCollection
    var pos: nat

    /** The position never passes the end: the owner's list only grows. */
    ghost predicate Valid()
      reads this, owner
    {
      pos <= |owner.students|
    }

    constructor (owner: StudentCollection)
      ensures this.owner == owner && pos == 0
    {
      this.owner := owner;
      pos := 0;
    }

    /** hasNext */
    function HasNext(): (b: bool)
      reads this, owner
      ensures Valid() ==> (b <==> pos != |owner.students|)
    {
      pos < |owner.students|
    }

    /** next: the student at the position, which then advances. Past the end
        the list's get throws; here that is `None` and the position stays. */
    method Next() returns (st: Option<Student>)
      modifies this
      ensures old(pos) < |owner.students| ==> st == Some(owner.students[old(pos)]) && pos == old(pos) + 1
      ensures old(pos) >= |owner.students| ==> st == None && pos == old(pos)
      ensures old(Valid()) ==> Valid()
    {
      if pos >= |owner.students| {
        return None;
      }
      st := Some(owner.students[pos]);
      pos := pos + 1;
    }
  }
}
