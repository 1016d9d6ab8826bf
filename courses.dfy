/**
 * Courses and their enrollment table (`course_participant`).
 *
 * The store holds three tables: students, courses, and the ordered list of
 * enrollment rows. The class Database holds them and carries the two
 * enrollment operations of a course (assign and unassign a student) and the
 * cascading deletes declared on the row's two foreign keys. The functions
 * before it read the enrollment table (select, count) and give the new
 * table of each operation; the lemmas state what those operations promise.
 */
module Courses {
  import opened Tables
  import opened Students

  /** A course. Start and end dates are opaque timestamps; nothing orders them. */
  datatype Course = Course(name: string, description: string, startDate: string, endDate: string)

  /** One enrollment row: the course, the student, and whether the student completed the course. */
  datatype Participant = Participant(course: int, student: int, completed: bool)

  /** The target of one of the row's two foreign keys. */
  datatype Ref = CourseRef(id: int) | StudentRef(id: int)

  /** Why `assign_student` or `unassign_student` refused. */
  datatype EnrollError = StudentDoesNotExist | AlreadyAssigned | NotAssigned

  /** The result of an enrollment operation, in place of a raised exception. */
  datatype Outcome = Done | Failed(error: EnrollError)

  /** Row `p` points at `ref` through the matching foreign key. */
  predicate Refers(p: Participant, ref: Ref)
  {
    match ref
    case CourseRef(c) => p.course == c
    case StudentRef(s) => p.student == s
  }

  /** Row `p` is the enrollment of student `s` in course `c`. */
  predicate IsPair(p: Participant, c: int, s: int)
  {
    p.course == c && p.student == s
  }

  /** `CourseParticipant.objects.filter(course=c, student=s).exists()` */
  predicate Enrolled(rows: seq<Participant>, c: int, s: int)
  {
    exists i :: 0 <= i < |rows| && IsPair(rows[i], c, s)
  }

  /** `unique_together = ('course', 'student')`: at most one row per pair. */
  predicate UniquePairs(rows: seq<Participant>)
  {
    forall i, j :: 0 <= i < j < |rows| ==> !IsPair(rows[j], rows[i].course, rows[i].student)
  }

  /** Every enrollment row's student exists (the foreign key resolves). */
  predicate StudentsResolve(students: seq<Row<Student>>, rows: seq<Participant>)
  {
    forall k :: 0 <= k < |rows| ==> Has(students, rows[k].student)
  }

  /** Every enrollment row's course exists (the foreign key resolves). */
  predicate CoursesResolve(courses: seq<Row<Course>>, rows: seq<Participant>)
  {
    forall k :: 0 <= k < |rows| ==> Has(courses, rows[k].course)
  }

  /**
   * The whole store is consistent: primary keys are unique, the enrollment
   * pairs are unique, and every row's two foreign keys resolve.
   */
  predicate Consistent(students: seq<Row<Student>>, courses: seq<Row<Course>>, rows: seq<Participant>)
  {
    && UniqueIds(students)
    && UniqueIds(courses)
    && UniquePairs(rows)
    && StudentsResolve(students, rows)
    && CoursesResolve(courses, rows)
  }

  /** The number of rows that refer to `ref` (`participants.count()`, `Count('courses')`). */
  function Count(rows: seq<Participant>, ref: Ref): (n: nat)
    ensures n <= |rows|
    ensures n == 0 <==> forall k :: 0 <= k < |rows| ==> !Refers(rows[k], ref)
  {
    if |rows| == 0 then 0
    else
      var n := Count(rows[1..], ref);
      assert forall k :: 0 < k < |rows| ==> rows[k] == rows[1..][k - 1];
      (if Refers(rows[0], ref) then 1 else 0) + n
  }

  /** The rows that refer to `ref`, in table order (`filter(course=...)`). */
  function Select(rows: seq<Participant>, ref: Ref): (r: seq<Participant>)
    ensures |r| == Count(rows, ref)
    ensures forall k :: 0 <= k < |r| ==> Refers(r[k], ref) && r[k] in rows
    ensures forall k :: 0 <= k < |rows| && Refers(rows[k], ref) ==> rows[k] in r
  {
    if |rows| == 0 then []
    else
      var rest := Select(rows[1..], ref);
      assert forall k :: 0 < k < |rows| ==> rows[k] == rows[1..][k - 1];
      if Refers(rows[0], ref) then [rows[0]] + rest else rest
  }

  /** The rows of student `s` whose completed flag is set. */
  function CountCompleted(rows: seq<Participant>, s: int): (n: nat)
    ensures n <= Count(rows, StudentRef(s))
  {
    if |rows| == 0 then 0
    else (if rows[0].student == s && rows[0].completed then 1 else 0) + CountCompleted(rows[1..], s)
  }

  /** The rows that do not refer to `ref`, in table order: the cascade of deleting `ref`. */
  function Remove(rows: seq<Participant>, ref: Ref): (r: seq<Participant>)
    ensures Count(r, ref) == 0
    ensures |r| + Count(rows, ref) == |rows|
    ensures forall k :: 0 <= k < |r| ==> r[k] in rows
    ensures forall k :: 0 <= k < |rows| && !Refers(rows[k], ref) ==> rows[k] in r
  {
    if |rows| == 0 then []
    else
      var rest := Remove(rows[1..], ref);
      assert forall k :: 0 < k < |rows| ==> rows[k] == rows[1..][k - 1];
      if Refers(rows[0], ref) then rest else [rows[0]] + rest
  }

  /** The position of the first row for (`c`, `s`), if there is one. */
  function IndexOf(rows: seq<Participant>, c: int, s: int): (r: Option<nat>)
    ensures r.None? <==> !Enrolled(rows, c, s)
    ensures r.Some? ==> r.value < |rows| && IsPair(rows[r.value], c, s)
    ensures r.Some? ==> forall j :: 0 <= j < r.value ==> !IsPair(rows[j], c, s)
  {
    if |rows| == 0 then None
    else if IsPair(rows[0], c, s) then Some(0)
    else
      match IndexOf(rows[1..], c, s)
      case None => None
      case Some(i) => Some(i + 1)
  }

  /** The table after `objects.create(course=c, student=s)`: one new row, not completed. */
  function Enroll(rows: seq<Participant>, c: int, s: int): (r: seq<Participant>)
    ensures |r| == |rows| + 1 && r[..|rows|] == rows
    ensures IsPair(r[|rows|], c, s) && !r[|rows|].completed
  {
    rows + [Participant(c, s, false)]
  }

  /** The table after `objects.get(course=c, student=s).delete()`. */
  function Disenroll(rows: seq<Participant>, c: int, s: int): (r: seq<Participant>)
    requires Enrolled(rows, c, s)
    ensures |r| == |rows| - 1
    ensures exists i :: 0 <= i < |rows| && IsPair(rows[i], c, s) && r == rows[..i] + rows[i + 1..]
  {
    var i := IndexOf(rows, c, s).value;
    rows[..i] + rows[i + 1..]
  }

  /** Counting distributes over concatenation. */
  lemma {:induction false} CountConcat(a: seq<Participant>, b: seq<Participant>, ref: Ref)
    ensures Count(a + b, ref) == Count(a, ref) + Count(b, ref)
  {
    if |a| > 0 {
      assert (a + b)[0] == a[0] && (a + b)[1..] == a[1..] + b;
      CountConcat(a[1..], b, ref);
    } else {
      assert a + b == b;
    }
  }

  /** Selecting from one row keeps it exactly when it refers to `ref`. */
  lemma SelectOne(x: Participant, ref: Ref)
    ensures Select([x], ref) == if Refers(x, ref) then [x] else []
  {
    assert [x][1..] == [];
  }

  /** Selecting from a row followed by a table: the row, if it refers to `ref`, then the table's selection. */
  lemma SelectCons(x: Participant, t: seq<Participant>, ref: Ref)
    ensures Select([x] + t, ref) == (if Refers(x, ref) then [x] else []) + Select(t, ref)
  {
    assert ([x] + t)[0] == x && ([x] + t)[1..] == t;
  }

  /**
   * Selecting distributes over concatenation: the selected rows of a table
   * come in the table's own order. With SelectOne this fixes Select on every
   * table, row by row.
   */
  lemma {:induction false} SelectConcat(a: seq<Participant>, b: seq<Participant>, ref: Ref)
    ensures Select(a + b, ref) == Select(a, ref) + Select(b, ref)
  {
    if |a| > 0 {
      var x, t := a[0], a[1..];
      assert a == [x] + t && a + b == [x] + (t + b);
      SelectCons(x, t, ref);
      SelectCons(x, t + b, ref);
      SelectConcat(t, b, ref);
    } else {
      assert a + b == b;
    }
  }

  /** Enrolling adds one row for the course and one for the student, and no count of anything else changes. */
  lemma EnrollCounts(rows: seq<Participant>, c: int, s: int, ref: Ref)
    ensures Count(Enroll(rows, c, s), ref) == Count(rows, ref) + (if Refers(Participant(c, s, false), ref) then 1 else 0)
  {
    CountConcat(rows, [Participant(c, s, false)], ref);
  }

  /** Enrolling a pair that is not enrolled keeps the pairs unique, and the pair is enrolled afterwards. */
  lemma EnrollKeepsUnique(rows: seq<Participant>, c: int, s: int)
    requires UniquePairs(rows) && !Enrolled(rows, c, s)
    ensures UniquePairs(Enroll(rows, c, s)) && Enrolled(Enroll(rows, c, s), c, s)
  {
    var r := Enroll(rows, c, s);
    assert IsPair(r[|rows|], c, s);
  }

  /**
   * With unique pairs, disenrolling removes exactly the row of (`c`, `s`):
   * the pair is no longer enrolled, the pairs stay unique, every other row
   * is still there, and no row is added.
   */
  lemma DisenrollRemovesPair(rows: seq<Participant>, c: int, s: int)
    requires UniquePairs(rows) && Enrolled(rows, c, s)
    ensures !Enrolled(Disenroll(rows, c, s), c, s)
    ensures UniquePairs(Disenroll(rows, c, s))
    ensures forall k :: 0 <= k < |rows| && !IsPair(rows[k], c, s) ==> rows[k] in Disenroll(rows, c, s)
    ensures forall k :: 0 <= k < |Disenroll(rows, c, s)| ==> Disenroll(rows, c, s)[k] in rows
  {
    var i := IndexOf(rows, c, s).value;
    var r := Disenroll(rows, c, s);
    assert r == rows[..i] + rows[i + 1..];
    assert forall k :: 0 <= k < i ==> r[k] == rows[k];
    assert forall k :: i <= k < |r| ==> r[k] == rows[k + 1];
    forall k | 0 <= k < |rows| && !IsPair(rows[k], c, s)
      ensures rows[k] in r
    {
      if k < i {
        assert r[k] == rows[k];
      } else {
        assert k != i;
        assert r[k - 1] == rows[k];
      }
    }
  }

  /** Disenrolling changes the count of `ref` by one exactly when the removed row referred to it. */
  lemma DisenrollCounts(rows: seq<Participant>, c: int, s: int, ref: Ref)
    requires Enrolled(rows, c, s)
    ensures Count(Disenroll(rows, c, s), ref) + (if Refers(Participant(c, s, false), ref) then 1 else 0) == Count(rows, ref)
  {
    var i := IndexOf(rows, c, s).value;
    var a, x, b := rows[..i], rows[i], rows[i + 1..];
    assert rows == a + ([x] + b);
    assert Count([x], ref) == if Refers(Participant(c, s, false), ref) then 1 else 0 by {
      assert [x][1..] == [];
    }
    CountConcat(a, [x] + b, ref);
    CountConcat([x], b, ref);
    CountConcat(a, b, ref);
  }

  /** Assign followed by unassign of the same pair gives back the table as it was. */
  lemma EnrollThenDisenroll(rows: seq<Participant>, c: int, s: int)
    requires !Enrolled(rows, c, s)
    ensures Enrolled(Enroll(rows, c, s), c, s)
    ensures Disenroll(Enroll(rows, c, s), c, s) == rows
  {
    var r := Enroll(rows, c, s);
    assert IsPair(r[|rows|], c, s);
    var i := IndexOf(r, c, s).value;
    assert i == |rows|;
    assert r[..i] == rows;
  }

  /** Putting a row in front of a table keeps the pairs unique when its pair is not in the table. */
  lemma ConsKeepsUnique(x: Participant, rows: seq<Participant>)
    requires UniquePairs(rows) && !Enrolled(rows, x.course, x.student)
    ensures UniquePairs([x] + rows)
  {
    var r := [x] + rows;
    forall i, j | 0 <= i < j < |r|
      ensures !IsPair(r[j], r[i].course, r[i].student)
    {
      assert r[j] == rows[j - 1];
      if i > 0 {
        assert r[i] == rows[i - 1];
      }
    }
  }

  /** The cascade of a delete keeps the pairs unique. */
  lemma {:induction false} RemoveKeepsUnique(rows: seq<Participant>, ref: Ref)
    requires UniquePairs(rows)
    ensures UniquePairs(Remove(rows, ref))
  {
    if |rows| > 0 {
      var t := rows[1..];
      assert forall k :: 0 <= k < |t| ==> t[k] == rows[k + 1];
      RemoveKeepsUnique(t, ref);
      if !Refers(rows[0], ref) {
        var rest := Remove(t, ref);
        forall k | 0 <= k < |rest|
          ensures !IsPair(rest[k], rows[0].course, rows[0].student)
        {
          var m :| 0 <= m < |t| && t[m] == rest[k];
          assert rows[m + 1] == rest[k];
        }
        ConsKeepsUnique(rows[0], rest);
      }
    }
  }

  /**
   * The store: the students, the courses, and the enrollment rows. A course
   * instance's `assign_student` and `unassign_student` are methods here that
   * take the course's id.
   */
  class Database {
    var students: seq<Row<Student>>
    var courses: seq<Row<Course>>
    var participants: seq<Participant>

    ghost predicate Valid()
      reads this
    {
      Consistent(students, courses, participants)
    }

    constructor (students: seq<Row<Student>>, courses: seq<Row<Course>>, participants: seq<Participant>)
      requires Consistent(students, courses, participants)
      ensures Valid()
      ensures this.students == students && this.courses == courses && this.participants == participants
    {
      this.students := students;
      this.courses := courses;
      this.participants := participants;
    }

    /**
     * `Course.assign_student`: fails when the student does not exist or is
     * already enrolled in the course; otherwise appends one row, not completed.
     */
    method AssignStudent(course: int, student: int) returns (o: Outcome)
      requires Valid() && Has(courses, course)
      modifies this`participants
      ensures Valid()
      ensures o == Failed(StudentDoesNotExist) <==> !Has(students, student)
      ensures o == Failed(AlreadyAssigned) <==> Has(students, student) && Enrolled(old(participants), course, student)
      ensures o == Done <==> Has(students, student) && !Enrolled(old(participants), course, student)
      ensures participants == if o == Done then Enroll(old(participants), course, student) else old(participants)
    {
      if Find(students, student).None? {
        return Failed(StudentDoesNotExist);
      }
      if !Enrolled(participants, course, student) {
        EnrollKeepsUnique(participants, course, student);
        participants := Enroll(participants, course, student);
        o := Done;
      } else {
        o := Failed(AlreadyAssigned);
      }
    }

    /**
     * `Course.unassign_student`: fails when the student does not exist or is
     * not enrolled in the course; otherwise deletes that one row.
     */
    method UnassignStudent(course: int, student: int) returns (o: Outcome)
      requires Valid() && Has(courses, course)
      modifies this`participants
      ensures Valid()
      ensures o == Failed(StudentDoesNotExist) <==> !Has(students, student)
      ensures o == Failed(NotAssigned) <==> Has(students, student) && !Enrolled(old(participants), course, student)
      ensures o == Done <==> Has(students, student) && Enrolled(old(participants), course, student)
      ensures participants == if o == Done then Disenroll(old(participants), course, student) else old(participants)
    {
      if Find(students, student).None? {
        return Failed(StudentDoesNotExist);
      }
      if Enrolled(participants, course, student) {
        DisenrollRemovesPair(participants, course, student);
        participants := Disenroll(participants, course, student);
        o := Done;
      } else {
        o := Failed(NotAssigned);
      }
    }

    /** Deleting a course deletes, by cascade, every enrollment row of that course. */
    method DeleteCourse(course: int)
      requires Valid()
      modifies this`courses, this`participants
      ensures Valid()
      ensures courses == Delete(old(courses), course)
      ensures participants == Remove(old(participants), CourseRef(course))
    {
      RemoveKeepsUnique(participants, CourseRef(course));
      courses := Delete(courses, course);
      participants := Remove(participants, CourseRef(course));
    }

    /** Deleting a student deletes, by cascade, every enrollment row of that student. */
    method DeleteStudent(student: int)
      requires Valid()
      modifies this`students, this`participants
      ensures Valid()
      ensures students == Delete(old(students), student)
      ensures participants == Remove(old(participants), StudentRef(student))
    {
      RemoveKeepsUnique(participants, StudentRef(student));
      students := Delete(students, student);
      participants := Remove(participants, StudentRef(student));
    }
  }
}
