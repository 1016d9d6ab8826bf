/**
 * The course endpoints: assign and unassign a student (the outcome of the
 * enrollment operation mapped to a status code and a body) and the
 * per-student report.
 */
module Views {
  import opened Tables
  import opened Students
  import opened Courses
  import opened Serializers

  const HTTP_201_CREATED: int := 201
  const HTTP_400_BAD_REQUEST: int := 400
  const HTTP_404_NOT_FOUND: int := 404

  const StudentNotFoundMessage: string := "Student not found"
  const AlreadyAssignedMessage: string := "Already assigned to course"
  const NotAssignedMessage: string := "Student not assigned to course"

  /** The code a validation error carries. */
  const InvalidCode: string := "invalid"

  /** One entry of a validation error's list: a message and a machine code. */
  datatype ErrorDetail = ErrorDetail(message: string, code: string)

  datatype Body =
    | EmptyObject                           // `Response({})`
    | Detail(message: string)               // a not-found error raised with this message
    | DefaultNotFound                       // the not-found error of a course lookup, with the framework's own text
    | ErrorList(errors: seq<ErrorDetail>)   // a validation error raised with one message

  datatype Response = Response(status: int, body: Body)

  /** What `get_object` answers when the course id does not resolve. */
  const CourseNotFound: Response := Response(HTTP_404_NOT_FOUND, DefaultNotFound)

  /** How `assign` and `unassign` translate the enrollment outcome into a response. */
  function Respond(o: Outcome): (r: Response)
    ensures r.status == HTTP_201_CREATED <==> o == Done
    ensures r.status == HTTP_404_NOT_FOUND <==> o == Failed(StudentDoesNotExist)
    ensures r.status == HTTP_400_BAD_REQUEST <==> o == Failed(AlreadyAssigned) || o == Failed(NotAssigned)
    ensures o == Done ==> r.body == EmptyObject
    ensures o == Failed(StudentDoesNotExist) ==> r.body == Detail(StudentNotFoundMessage)
    ensures r.status == HTTP_400_BAD_REQUEST ==> r.body.ErrorList? && |r.body.errors| == 1 && r.body.errors[0].code == InvalidCode
    ensures o == Failed(AlreadyAssigned) ==> r.body.errors[0].message == AlreadyAssignedMessage
    ensures o == Failed(NotAssigned) ==> r.body.errors[0].message == NotAssignedMessage
  {
    match o
    case Done => Response(HTTP_201_CREATED, EmptyObject)
    case Failed(StudentDoesNotExist) => Response(HTTP_404_NOT_FOUND, Detail(StudentNotFoundMessage))
    case Failed(AlreadyAssigned) => Response(HTTP_400_BAD_REQUEST, ErrorList([ErrorDetail(AlreadyAssignedMessage, InvalidCode)]))
    case Failed(NotAssigned) => Response(HTTP_400_BAD_REQUEST, ErrorList([ErrorDetail(NotAssignedMessage, InvalidCode)]))
  }

  /**
   * `CoursesViewSet.assign`: 404 when the course or the student does not
   * exist, 400 when the student is already enrolled, otherwise 201 after
   * appending the enrollment row. Only a 201 changes the table.
   */
  method Assign(db: Database, course: int, student: int) returns (r: Response)
    requires db.Valid()
    modifies db`participants
    ensures db.Valid()
    ensures !Has(db.courses, course) ==> r == CourseNotFound
    ensures Has(db.courses, course) ==> r == Respond(
      if !Has(db.students, student) then Failed(StudentDoesNotExist)
      else if Enrolled(old(db.participants), course, student) then Failed(AlreadyAssigned)
      else Done)
    ensures db.participants == if r.status == HTTP_201_CREATED then Enroll(old(db.participants), course, student) else old(db.participants)
  {
    if Find(db.courses, course).None? {
      return CourseNotFound;
    }
    var o := db.AssignStudent(course, student);
    r := Respond(o);
  }

  /**
   * `CoursesViewSet.unassign`: 404 when the course or the student does not
   * exist, 400 when the student is not enrolled, otherwise 201 after
   * deleting the enrollment row. Only a 201 changes the table.
   */
  method Unassign(db: Database, course: int, student: int) returns (r: Response)
    requires db.Valid()
    modifies db`participants
    ensures db.Valid()
    ensures !Has(db.courses, course) ==> r == CourseNotFound
    ensures Has(db.courses, course) ==> r == Respond(
      if !Has(db.students, student) then Failed(StudentDoesNotExist)
      else if !Enrolled(old(db.participants), course, student) then Failed(NotAssigned)
      else Done)
    ensures r.status == HTTP_201_CREATED ==> Enrolled(old(db.participants), course, student)
    ensures db.participants == if r.status == HTTP_201_CREATED then Disenroll(old(db.participants), course, student) else old(db.participants)
  {
    if Find(db.courses, course).None? {
      return CourseNotFound;
    }
    var o := db.UnassignStudent(course, student);
    r := Respond(o);
  }

  /** Assigning the same student twice: 201, then 400 "Already assigned to course", and one row. */
  method AssignTwice(db: Database, course: int, student: int) returns (first: Response, second: Response)
    requires db.Valid() && Has(db.courses, course) && Has(db.students, student)
    requires !Enrolled(db.participants, course, student)
    modifies db`participants
    ensures first == Response(HTTP_201_CREATED, EmptyObject)
    ensures second == Response(HTTP_400_BAD_REQUEST, ErrorList([ErrorDetail(AlreadyAssignedMessage, InvalidCode)]))
    ensures db.participants == Enroll(old(db.participants), course, student)
    ensures Count(db.participants, CourseRef(course)) == Count(old(db.participants), CourseRef(course)) + 1
  {
    ghost var before := db.participants;
    first := Assign(db, course, student);
    assert first == Respond(Done);
    EnrollKeepsUnique(before, course, student);
    ghost var after := db.participants;
    assert after == Enroll(before, course, student) && Enrolled(after, course, student);
    second := Assign(db, course, student);
    assert second == Respond(Failed(AlreadyAssigned));
    EnrollCounts(before, course, student, CourseRef(course));
  }

  /** Assigning and then unassigning a student: 201 twice, and the table is as it was. */
  method AssignThenUnassign(db: Database, course: int, student: int) returns (first: Response, second: Response)
    requires db.Valid() && Has(db.courses, course) && Has(db.students, student)
    requires !Enrolled(db.participants, course, student)
    modifies db`participants
    ensures first == Response(HTTP_201_CREATED, EmptyObject) && second == first
    ensures db.participants == old(db.participants)
  {
    first := Assign(db, course, student);
    EnrollThenDisenroll(old(db.participants), course, student);
    second := Unassign(db, course, student);
  }

  /** A student's two counts in the report. */
  datatype Tally = Tally(numAssigned: nat, numCompleted: nat)

  /**
   * The report's aggregation: one pass over the enrollment table that groups
   * the rows by student and counts, per student, the rows and the completed rows.
   */
  function Aggregate(rows: seq<Participant>): (groups: map<int, Tally>)
    ensures forall s :: s in groups ==> groups[s].numCompleted <= groups[s].numAssigned
  {
    if |rows| == 0 then map[]
    else
      var groups := Aggregate(rows[1..]);
      var p := rows[0];
      var t := if p.student in groups then groups[p.student] else Tally(0, 0);
      groups[p.student := Tally(t.numAssigned + 1, t.numCompleted + if p.completed then 1 else 0)]
  }

  /** The outer join of a student with the groups: a student without rows gets zero and zero. */
  function TallyOf(groups: map<int, Tally>, s: int): Tally
  {
    if s in groups then groups[s] else Tally(0, 0)
  }

  /** The grouped counts of a student are that student's row count and completed-row count. */
  lemma {:induction false} AggregateCounts(rows: seq<Participant>, s: int)
    ensures TallyOf(Aggregate(rows), s) == Tally(Count(rows, StudentRef(s)), CountCompleted(rows, s))
  {
    if |rows| > 0 {
      AggregateCounts(rows[1..], s);
    }
  }

  /**
   * `CoursesViewSet.report`: one record per student, in student-table order,
   * holding the full name, the number of the student's enrollment rows and
   * the number of those that are completed.
   */
  function Report(students: seq<Row<Student>>, rows: seq<Participant>): (r: seq<Record>)
    ensures |r| == |students|
    ensures forall i :: 0 <= i < |r| ==>
      r[i] == ReportRecord(FullName(students[i].value), Count(rows, StudentRef(students[i].id)), CountCompleted(rows, students[i].id))
  {
    var groups := Aggregate(rows);
    assert forall s :: TallyOf(groups, s) == Tally(Count(rows, StudentRef(s)), CountCompleted(rows, s)) by {
      forall s ensures TallyOf(groups, s) == Tally(Count(rows, StudentRef(s)), CountCompleted(rows, s)) {
        AggregateCounts(rows, s);
      }
    }
    seq(|students|, i requires 0 <= i < |students| =>
      var t := TallyOf(groups, students[i].id);
      ReportRecord(FullName(students[i].value), t.numAssigned, t.numCompleted))
  }

  /**
   * In every report record the completed count is at most the assigned
   * count, and a student without enrollment rows is reported with 0 and 0.
   */
  lemma ReportCounts(students: seq<Row<Student>>, rows: seq<Participant>, i: nat)
    requires i < |students|
    ensures Report(students, rows)[i]["num_completed"].number <= Report(students, rows)[i]["num_assigned"].number
    ensures (forall k :: 0 <= k < |rows| ==> rows[k].student != students[i].id) ==>
      Report(students, rows)[i]["num_assigned"] == Number(0) && Report(students, rows)[i]["num_completed"] == Number(0)
  {
  }
}
