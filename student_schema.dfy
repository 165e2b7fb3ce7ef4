/**
 * The student document of the roster collection and the constraints its
 * schema places on the collection: `name`, `rollNumber` and `id` are
 * required (a required string must be non-empty), `rollNumber` and `id`
 * carry unique indexes, and `email` defaults to the empty string.
 */
module StudentSchema {

  datatype Student = Student(name: string, rollNumber: string, email: string, id: string)

  /** The value `email` takes when a student is created without one. */
  const DefaultEmail: string := ""

  /**
   * The per-document rules: every required field holds a non-empty string;
   * `email` is not required.
   */
  predicate WellFormed(s: Student)
    ensures WellFormed(s) <==> |s.name| > 0 && |s.rollNumber| > 0 && |s.id| > 0
  {
    s.name != "" && s.rollNumber != "" && s.id != ""
  }

  predicate RollNumberTaken(ss: seq<Student>, rollNumber: string)
  {
    exists i :: 0 <= i < |ss| && ss[i].rollNumber == rollNumber
  }

  predicate IdTaken(ss: seq<Student>, id: string)
  {
    exists i :: 0 <= i < |ss| && ss[i].id == id
  }

  /** The unique index on `rollNumber`. */
  predicate UniqueRollNumbers(ss: seq<Student>)
  {
    forall i, j :: 0 <= i < j < |ss| ==> ss[i].rollNumber != ss[j].rollNumber
  }

  /** The unique index on `id`. */
  predicate UniqueIds(ss: seq<Student>)
  {
    forall i, j :: 0 <= i < j < |ss| ==> ss[i].id != ss[j].id
  }

  /**
   * What the schema guarantees of every state of the collection: each
   * document is well formed, and `rollNumber` and `id` are each a key,
   * naming at most one document.
   */
  predicate StoreInvariant(ss: seq<Student>)
    ensures StoreInvariant(ss) ==> forall i :: 0 <= i < |ss| ==> WellFormed(ss[i])
    ensures StoreInvariant(ss) ==>
      forall i, j :: 0 <= i < |ss| && 0 <= j < |ss| && ss[i].id == ss[j].id ==> i == j
    ensures StoreInvariant(ss) ==>
      forall i, j :: 0 <= i < |ss| && 0 <= j < |ss| && ss[i].rollNumber == ss[j].rollNumber ==> i == j
  {
    && (forall i :: 0 <= i < |ss| ==> WellFormed(ss[i]))
    && UniqueRollNumbers(ss)
    && UniqueIds(ss)
  }

  /**
   * Adding one well-formed document keeps the collection valid exactly when
   * neither of its unique keys is already taken.
   */
  lemma AppendOneIff(ss: seq<Student>, s: Student)
    requires StoreInvariant(ss) && WellFormed(s)
    ensures StoreInvariant(ss + [s]) <==> !RollNumberTaken(ss, s.rollNumber) && !IdTaken(ss, s.id)
  {
    var t := ss + [s];
    if StoreInvariant(t) {
      forall i | 0 <= i < |ss| ensures ss[i].rollNumber != s.rollNumber && ss[i].id != s.id {
        assert t[i] == ss[i] && t[|ss|] == s;
      }
    }
  }
}
