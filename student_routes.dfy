/**
 * The student REST routes: list, create, partial update, delete with the
 * attendance cascade, and bulk create. The two database collections are
 * the fields of `StudentStore`; each route handler is one of its methods
 * and returns the HTTP status and JSON body it would send.
 */
module StudentRoutes {
  import opened Wrappers
  import opened Text
  import opened StudentSchema

  /** An attendance document. The routes here only ever look at `studentId`. */
  datatype AttendanceRecord = AttendanceRecord(date: string, period: string, studentId: string, status: string)

  /**
   * A student given in a request body. Every guard in the handlers is a
   * JavaScript truthiness test, so the empty string stands for a field that
   * is absent, null or empty.
   */
  datatype StudentBody = StudentBody(name: string, rollNumber: string, email: string, id: string)

  /** An HTTP status code with the JSON body sent alongside it. */
  datatype Response =
    | StudentsJson(status: nat, students: seq<Student>)
    | StudentJson(status: nat, student: Student)
    | MessageJson(status: nat, message: string)

  const RequiredMessage: string := "Name and rollNumber are required"
  const NotFoundMessage: string := "Student not found"
  const DeletedMessage: string := "Student deleted"
  const BulkInvalidMessage: string := "Each student must have a name and rollNumber"
  /** Stands for the text of the duplicate-key error that the database raises. */
  const DuplicateKeyMessage: string := "E11000 duplicate key error"

  /**
   * The `!name || !rollNumber` guard, negated: it accepts exactly the
   * bodies whose fields pass the schema's rules once an id is supplied.
   */
  predicate HasRequired(body: StudentBody)
    ensures HasRequired(body) <==>
      forall id :: id != "" ==> WellFormed(Student(body.name, body.rollNumber, body.email, id))
  {
    assert WellFormed(Student(body.name, body.rollNumber, body.email, "_")) ==> body.name != "" && body.rollNumber != "";
    body.name != "" && body.rollNumber != ""
  }

  /**
   * The document built from a request body: `email` falls back to the
   * schema default and `id` to a freshly generated one.
   */
  function NewStudent(body: StudentBody, freshId: string): (s: Student)
    ensures s.name == body.name && s.rollNumber == body.rollNumber
    ensures body.email != "" ==> s.email == body.email
    ensures body.email == "" ==> s.email == DefaultEmail
    ensures body.id != "" ==> s.id == body.id
    ensures body.id == "" ==> s.id == freshId
    ensures HasRequired(body) && freshId != "" ==> WellFormed(s)
  {
    Student(body.name, body.rollNumber, OrElse(body.email, DefaultEmail), OrElse(body.id, freshId))
  }

  /** `findOne({ id })`: the position of the first document carrying that id. */
  function FindById(ss: seq<Student>, id: string): (r: Option<nat>)
    ensures r.None? <==> !IdTaken(ss, id)
    ensures r.Some? ==> r.value < |ss| && ss[r.value].id == id
    ensures r.Some? ==> forall j :: 0 <= j < r.value ==> ss[j].id != id
  {
    if |ss| == 0 then None
    else if ss[0].id == id then Some(0)
    else
      match FindById(ss[1..], id)
      case None =>
        assert forall j :: 1 <= j < |ss| ==> ss[j] == ss[1..][j - 1];
        None
      case Some(k) => Some(k + 1)
  }

  /**
   * The merge of PUT: each of `name`, `rollNumber` and `email` is replaced
   * only by a truthy supplied value; `id` and everything else stay.
   */
  function Merge(s: Student, body: StudentBody): (r: Student)
    ensures r.id == s.id
    ensures body.name != "" ==> r.name == body.name
    ensures body.name == "" ==> r.name == s.name
    ensures body.rollNumber != "" ==> r.rollNumber == body.rollNumber
    ensures body.rollNumber == "" ==> r.rollNumber == s.rollNumber
    ensures body.email != "" ==> r.email == body.email
    ensures body.email == "" ==> r.email == s.email
    ensures WellFormed(s) ==> WellFormed(r)
  {
    s.(name := OrElse(body.name, s.name))
     .(rollNumber := OrElse(body.rollNumber, s.rollNumber))
     .(email := OrElse(body.email, s.email))
  }

  /** Applying the same update twice is the same as applying it once. */
  lemma MergeIdempotent(s: Student, body: StudentBody)
    ensures Merge(Merge(s, body), body) == Merge(s, body)
  {
  }

  /** An update whose fields are all missing leaves the student as it was. */
  lemma MergeEmptyBody(s: Student)
    ensures Merge(s, StudentBody("", "", "", "")) == s
  {
  }

  /**
   * Because the merge falls back on falsy values, an update cannot clear a
   * field: a student that has an email keeps a non-empty one.
   */
  lemma MergeCannotClear(s: Student, body: StudentBody)
    requires s.email != ""
    ensures Merge(s, body).email != ""
    ensures body.email == "" ==> Merge(s, body).email == s.email
  {
  }

  /** Some student other than the one at position `i` holds that roll number. */
  predicate RollNumberTakenByOther(ss: seq<Student>, i: nat, rollNumber: string)
  {
    exists j :: 0 <= j < |ss| && j != i && ss[j].rollNumber == rollNumber
  }

  /**
   * Saving a document back in place, with its id kept, keeps the collection
   * valid exactly when no other student holds its roll number.
   */
  lemma ReplaceAtIff(ss: seq<Student>, i: nat, t: Student)
    requires StoreInvariant(ss) && i < |ss|
    requires WellFormed(t) && t.id == ss[i].id
    ensures StoreInvariant(ss[i := t]) <==> !RollNumberTakenByOther(ss, i, t.rollNumber)
  {
    var u := ss[i := t];
    if StoreInvariant(u) {
      forall j | 0 <= j < |ss| && j != i ensures ss[j].rollNumber != t.rollNumber {
        assert u[j] == ss[j] && u[i] == t;
        if j < i { assert u[j].rollNumber != u[i].rollNumber; }
        else { assert u[i].rollNumber != u[j].rollNumber; }
      }
    }
  }

  /** `deleteOne`: the collection without the document at position `i`. */
  function RemoveAt(ss: seq<Student>, i: nat): (r: seq<Student>)
    requires i < |ss|
    ensures |r| == |ss| - 1
    ensures forall j :: 0 <= j < i ==> r[j] == ss[j]
    ensures forall j :: i < j < |ss| ==> r[j - 1] == ss[j]
  {
    ss[..i] + ss[i + 1..]
  }

  /**
   * Removing a document from a valid collection keeps it valid, leaves no
   * document with the removed id, and keeps every other document.
   */
  lemma RemoveAtProperties(ss: seq<Student>, i: nat)
    requires StoreInvariant(ss) && i < |ss|
    ensures StoreInvariant(RemoveAt(ss, i))
    ensures !IdTaken(RemoveAt(ss, i), ss[i].id)
    ensures forall j :: 0 <= j < |ss| && j != i ==> ss[j] in RemoveAt(ss, i)
  {
    var r := RemoveAt(ss, i);
    forall a, b | 0 <= a < b < |r|
      ensures r[a].rollNumber != r[b].rollNumber && r[a].id != r[b].id
    {
      var a', b' := if a < i then a else a + 1, if b < i then b else b + 1;
      assert r[a] == ss[a'] && r[b] == ss[b'] && a' < b';
    }
    forall k | 0 <= k < |r| ensures r[k].id != ss[i].id {
      var k' := if k < i then k else k + 1;
      assert r[k] == ss[k'] && k' != i;
      if k' < i { assert ss[k'].id != ss[i].id; } else { assert ss[i].id != ss[k'].id; }
    }
    forall j | 0 <= j < |ss| && j != i ensures ss[j] in r {
      if j < i { assert r[j] == ss[j]; } else { assert r[j - 1] == ss[j]; }
    }
  }

  /** `deleteMany({ studentId })`: the attendance records of every other student. */
  function WithoutAttendanceOf(att: seq<AttendanceRecord>, id: string): (r: seq<AttendanceRecord>)
    ensures |r| <= |att|
    ensures forall k :: 0 <= k < |r| ==> r[k].studentId != id
    ensures forall x :: x in r <==> x in att && x.studentId != id
  {
    if |att| == 0 then []
    else if att[0].studentId == id then WithoutAttendanceOf(att[1..], id)
    else [att[0]] + WithoutAttendanceOf(att[1..], id)
  }

  /** The attendance records of one student, in stored order. */
  function RecordsOf(att: seq<AttendanceRecord>, id: string): (r: seq<AttendanceRecord>)
    decreases |att|
  {
    if |att| == 0 then []
    else if att[0].studentId == id then [att[0]] + RecordsOf(att[1..], id)
    else RecordsOf(att[1..], id)
  }

  /**
   * The cascade leaves every other student's records exactly as they were:
   * same records, same order, same multiplicity.
   */
  lemma {:induction false} CascadeKeepsOthers(att: seq<AttendanceRecord>, id: string, other: string)
    requires other != id
    ensures RecordsOf(WithoutAttendanceOf(att, id), other) == RecordsOf(att, other)
    decreases |att|
  {
    if |att| > 0 {
      CascadeKeepsOthers(att[1..], id, other);
      if att[0].studentId != id {
        var rest := WithoutAttendanceOf(att[1..], id);
        assert ([att[0]] + rest)[1..] == rest;
      }
    }
  }

  /** The cascade removes exactly the records of the deleted student. */
  lemma {:induction false} CascadeRemovesExactly(att: seq<AttendanceRecord>, id: string)
    ensures |WithoutAttendanceOf(att, id)| + |RecordsOf(att, id)| == |att|
    ensures RecordsOf(WithoutAttendanceOf(att, id), id) == []
    decreases |att|
  {
    if |att| > 0 {
      CascadeRemovesExactly(att[1..], id);
      if att[0].studentId != id {
        var rest := WithoutAttendanceOf(att[1..], id);
        assert ([att[0]] + rest)[1..] == rest;
      }
    }
  }

  /** Running the cascade a second time removes nothing more. */
  lemma {:induction false} CascadeIdempotent(att: seq<AttendanceRecord>, id: string)
    ensures WithoutAttendanceOf(WithoutAttendanceOf(att, id), id) == WithoutAttendanceOf(att, id)
    decreases |att|
  {
    if |att| > 0 {
      CascadeIdempotent(att[1..], id);
      if att[0].studentId != id {
        var rest := WithoutAttendanceOf(att[1..], id);
        assert ([att[0]] + rest)[1..] == rest;
      }
    }
  }

  /**
   * The candidate `map` of POST /bulk: the whole batch is refused if any
   * candidate lacks `name` or `rollNumber`; otherwise every candidate gets
   * the same defaults as a single create, in input order.
   */
  function PrepareBulk(bodies: seq<StudentBody>, freshIds: seq<string>): (r: Result<seq<Student>, string>)
    requires |freshIds| == |bodies|
    ensures r.Failure? <==> exists i :: 0 <= i < |bodies| && !HasRequired(bodies[i])
    ensures r.Failure? ==> r.error == BulkInvalidMessage
    ensures r.Success? ==> |r.value| == |bodies|
    ensures r.Success? ==> forall i :: 0 <= i < |bodies| ==> r.value[i] == NewStudent(bodies[i], freshIds[i])
  {
    if |bodies| == 0 then Success([])
    else if !HasRequired(bodies[0]) then Failure(BulkInvalidMessage)
    else
      match PrepareBulk(bodies[1..], freshIds[1..])
      case Failure(e) =>
        var i :| 0 <= i < |bodies[1..]| && !HasRequired(bodies[1..][i]);
        assert !HasRequired(bodies[i + 1]);
        Failure(e)
      case Success(rest) =>
        assert forall i :: 1 <= i < |bodies| ==> bodies[i] == bodies[1..][i - 1];
        Success([NewStudent(bodies[0], freshIds[0])] + rest)
  }

  /** With non-empty generated ids, every prepared document meets the schema. */
  lemma PreparedWellFormed(bodies: seq<StudentBody>, freshIds: seq<string>)
    requires |freshIds| == |bodies|
    requires forall i :: 0 <= i < |freshIds| ==> freshIds[i] != ""
    requires PrepareBulk(bodies, freshIds).Success?
    ensures forall k :: 0 <= k < |bodies| ==> WellFormed(PrepareBulk(bodies, freshIds).value[k])
  {
    var batch := PrepareBulk(bodies, freshIds).value;
    forall k | 0 <= k < |bodies| ensures WellFormed(batch[k]) {
      assert HasRequired(bodies[k]);
    }
  }

  /**
   * A batch of well-formed documents can be added to a valid collection
   * exactly when the batch is itself free of duplicate keys and none of its
   * roll numbers or ids is already taken.
   */
  lemma BatchInsertableIff(ss: seq<Student>, batch: seq<Student>)
    requires StoreInvariant(ss)
    requires forall k :: 0 <= k < |batch| ==> WellFormed(batch[k])
    ensures StoreInvariant(ss + batch) <==>
      && StoreInvariant(batch)
      && forall k :: 0 <= k < |batch| ==> !RollNumberTaken(ss, batch[k].rollNumber) && !IdTaken(ss, batch[k].id)
  {
    var u := ss + batch;
    var n := |ss|;
    if StoreInvariant(u) {
      forall a, b | 0 <= a < b < |batch|
        ensures batch[a].rollNumber != batch[b].rollNumber && batch[a].id != batch[b].id
      {
        assert u[n + a] == batch[a] && u[n + b] == batch[b];
      }
      forall k | 0 <= k < |batch|
        ensures !RollNumberTaken(ss, batch[k].rollNumber) && !IdTaken(ss, batch[k].id)
      {
        forall i | 0 <= i < n ensures ss[i].rollNumber != batch[k].rollNumber && ss[i].id != batch[k].id {
          assert u[i] == ss[i] && u[n + k] == batch[k];
        }
      }
    }
    if && StoreInvariant(batch)
       && forall k :: 0 <= k < |batch| ==> !RollNumberTaken(ss, batch[k].rollNumber) && !IdTaken(ss, batch[k].id)
    {
      forall a, b | 0 <= a < b < |u|
        ensures u[a].rollNumber != u[b].rollNumber && u[a].id != u[b].id
      {
        if b < n {
          assert u[a] == ss[a] && u[b] == ss[b];
        } else if a < n {
          assert u[a] == ss[a] && u[b] == batch[b - n];
          assert !RollNumberTaken(ss, batch[b - n].rollNumber) && !IdTaken(ss, batch[b - n].id);
        } else {
          assert u[a] == batch[a - n] && u[b] == batch[b - n];
        }
      }
    }
  }

  /** The student collection and the attendance collection. */
  class StudentStore {
    var students: seq<Student>
    var attendance: seq<AttendanceRecord>

    /** The schema constraints hold of the stored students. */
    ghost predicate Valid()
      reads this
    {
      StoreInvariant(students)
    }

    constructor (students0: seq<Student>, attendance0: seq<AttendanceRecord>)
      requires StoreInvariant(students0)
      ensures Valid()
      ensures students == students0 && attendance == attendance0
    {
      students := students0;
      attendance := attendance0;
    }

    /** GET /: every stored student, in stored order. */
    method List() returns (r: Response)
      ensures r == StudentsJson(200, students)
    {
      r := StudentsJson(200, students);
    }

    /** POST /: validate, fill in defaults, then save (the unique indexes may refuse). */
    method Create(body: StudentBody, freshId: string) returns (r: Response)
      requires Valid() && freshId != ""
      modifies this
      ensures Valid() && attendance == old(attendance)
      ensures !HasRequired(body) ==> r == MessageJson(400, RequiredMessage) && students == old(students)
      ensures HasRequired(body) ==>
        var s := NewStudent(body, freshId);
        if RollNumberTaken(old(students), s.rollNumber) || IdTaken(old(students), s.id) then
          r == MessageJson(400, DuplicateKeyMessage) && students == old(students)
        else
          r == StudentJson(201, s) && students == old(students) + [s]
      ensures r.status == 201 ==> !IdTaken(old(students), r.student.id) && !RollNumberTaken(old(students), r.student.rollNumber)
    {
      if body.name == "" || body.rollNumber == "" {
        return MessageJson(400, RequiredMessage);
      }
      var student := NewStudent(body, freshId);
      // save(): the unique indexes on rollNumber and id refuse a clash
      if RollNumberTaken(students, student.rollNumber) || IdTaken(students, student.id) {
        return MessageJson(400, DuplicateKeyMessage);
      }
      AppendOneIff(students, student);
      students := students + [student];
      r := StudentJson(201, student);
    }

    /** PUT /:id: look the student up, merge the supplied fields into it, save it back. */
    method Update(id: string, body: StudentBody) returns (r: Response)
      requires Valid()
      modifies this
      ensures Valid() && attendance == old(attendance)
      ensures !IdTaken(old(students), id) ==> r == MessageJson(404, NotFoundMessage) && students == old(students)
      ensures IdTaken(old(students), id) ==>
        var i := FindById(old(students), id).value;
        var s := Merge(old(students)[i], body);
        if RollNumberTakenByOther(old(students), i, s.rollNumber) then
          r == MessageJson(400, DuplicateKeyMessage) && students == old(students)
        else
          r == StudentJson(200, s) && students == old(students)[i := s]
    {
      var found := FindById(students, id);
      if found.None? {
        return MessageJson(404, NotFoundMessage);
      }
      var i := found.value;
      var student := students[i];
      student := student.(name := OrElse(body.name, student.name));
      student := student.(rollNumber := OrElse(body.rollNumber, student.rollNumber));
      student := student.(email := OrElse(body.email, student.email));
      // save(): the unique index on rollNumber refuses a value another student holds
      if RollNumberTakenByOther(students, i, student.rollNumber) {
        return MessageJson(400, DuplicateKeyMessage);
      }
      ReplaceAtIff(students, i, student);
      students := students[i := student];
      r := StudentJson(200, student);
    }

    /** DELETE /:id: remove the student, then every attendance record of it. */
    method Delete(id: string) returns (r: Response)
      requires Valid()
      modifies this
      ensures Valid()
      ensures !IdTaken(old(students), id) ==>
        r == MessageJson(404, NotFoundMessage) && students == old(students) && attendance == old(attendance)
      ensures IdTaken(old(students), id) ==>
        && r == MessageJson(200, DeletedMessage)
        && students == RemoveAt(old(students), FindById(old(students), id).value)
        && attendance == WithoutAttendanceOf(old(attendance), id)
      ensures r.status == 200 ==>
        && !IdTaken(students, id)
        && (forall k :: 0 <= k < |attendance| ==> attendance[k].studentId != id)
        && (forall s :: s in old(students) && s.id != id ==> s in students)
    {
      var found := FindById(students, id);
      if found.None? {
        return MessageJson(404, NotFoundMessage);
      }
      RemoveAtProperties(students, found.value);
      forall s | s in students && s.id != id ensures s in RemoveAt(students, found.value) {
        var j :| 0 <= j < |students| && students[j] == s;
        assert j != found.value;
      }
      students := RemoveAt(students, found.value);
      attendance := WithoutAttendanceOf(attendance, id);
      r := MessageJson(200, DeletedMessage);
    }

    /**
     * POST /bulk: validate every candidate before anything is inserted, then
     * insert the batch. A batch the unique indexes refuse is taken to insert
     * nothing.
     */
    method BulkCreate(bodies: seq<StudentBody>, freshIds: seq<string>) returns (r: Response)
      requires Valid()
      requires |freshIds| == |bodies|
      requires forall i :: 0 <= i < |freshIds| ==> freshIds[i] != ""
      modifies this
      ensures Valid() && attendance == old(attendance)
      ensures PrepareBulk(bodies, freshIds).Failure? ==>
        r == MessageJson(400, BulkInvalidMessage) && students == old(students)
      ensures PrepareBulk(bodies, freshIds).Success? ==>
        var batch := PrepareBulk(bodies, freshIds).value;
        if StoreInvariant(old(students) + batch) then
          r == StudentsJson(201, batch) && students == old(students) + batch
        else
          r == MessageJson(400, DuplicateKeyMessage) && students == old(students)
    {
      var prepared := PrepareBulk(bodies, freshIds);
      if prepared.Failure? {
        return MessageJson(400, prepared.error);
      }
      var batch := prepared.value;
      // insertMany(): the unique indexes refuse a clash within the batch or with the store
      if !StoreInvariant(students + batch) {
        return MessageJson(400, DuplicateKeyMessage);
      }
      students := students + batch;
      r := StudentsJson(201, batch);
    }
  }
}
