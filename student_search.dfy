/**
 * The roster search shared by the dashboard and the roster management page:
 * a student is kept when the lowercased search term occurs in its
 * lowercased name, roll number or email.
 */
module StudentSearch {
  import opened Text
  import opened StudentSchema

  /**
   * The search predicate applied to one student: it holds exactly when the
   * lowercased term occurs, at some position, in one of the three
   * lowercased fields.
   */
  predicate Matches(s: Student, searchTerm: string)
    ensures Matches(s, searchTerm) <==>
      || (exists i :: OccursAt(Lower(s.name), Lower(searchTerm), i))
      || (exists i :: OccursAt(Lower(s.rollNumber), Lower(searchTerm), i))
      || (exists i :: OccursAt(Lower(s.email), Lower(searchTerm), i))
  {
    IncludesIff(Lower(s.name), Lower(searchTerm));
    IncludesIff(Lower(s.rollNumber), Lower(searchTerm));
    IncludesIff(Lower(s.email), Lower(searchTerm));
    var term := Lower(searchTerm);
    || Includes(Lower(OrElse(s.name, "")), term)
    || Includes(Lower(OrElse(s.rollNumber, "")), term)
    || Includes(Lower(OrElse(s.email, "")), term)
  }

  /** `students.filter(...)`: the matching students, in roster order. */
  function FilteredStudents(students: seq<Student>, searchTerm: string): (r: seq<Student>)
    ensures |r| <= |students|
    ensures forall s :: s in r <==> s in students && Matches(s, searchTerm)
  {
    if |students| == 0 then []
    else if Matches(students[0], searchTerm) then [students[0]] + FilteredStudents(students[1..], searchTerm)
    else FilteredStudents(students[1..], searchTerm)
  }

  /** The search ignores the case of ASCII letters in the term. */
  lemma MatchesIgnoresTermCase(s: Student, searchTerm: string)
    ensures Matches(s, Lower(searchTerm)) == Matches(s, searchTerm)
  {
    LowerIdempotent(searchTerm);
  }

  /** Filtering distributes over concatenation, so roster order is kept. */
  lemma {:induction false} FilterAppend(a: seq<Student>, b: seq<Student>, searchTerm: string)
    ensures FilteredStudents(a + b, searchTerm) == FilteredStudents(a, searchTerm) + FilteredStudents(b, searchTerm)
    decreases |a|
  {
    if |a| > 0 {
      assert (a + b)[1..] == a[1..] + b;
      FilterAppend(a[1..], b, searchTerm);
    } else {
      assert a + b == b;
    }
  }

  /** When every student matches, the filter keeps the roster unchanged. */
  lemma {:induction false} FilterKeepsAll(students: seq<Student>, searchTerm: string)
    requires forall k :: 0 <= k < |students| ==> Matches(students[k], searchTerm)
    ensures FilteredStudents(students, searchTerm) == students
    decreases |students|
  {
    if |students| > 0 {
      FilterKeepsAll(students[1..], searchTerm);
    }
  }

  /** An empty search term keeps everyone. */
  lemma EmptyTermKeepsAll(students: seq<Student>)
    ensures FilteredStudents(students, "") == students
  {
    FilterKeepsAll(students, "");
  }
}
