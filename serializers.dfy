/**
 * The serializers: what a course, one of its participants and one line of
 * the report look like on the wire. Each serialized object is a dictionary
 * from field name to value, so that "exactly these fields" is a statement
 * about its keys.
 */
module Serializers {
  import opened Tables
  import opened Students
  import opened Courses

  datatype Value = Text(text: string) | Number(number: int) | Records(records: seq<map<string, Value>>)

  /** One serialized object. */
  type Record = map<string, Value>

  /** How many participants a serialized course lists at most. */
  const MaxParticipants: nat := 10

  const ParticipantFields: set<string> := {"first_name", "last_name", "email"}
  const CourseFields: set<string> := {"name", "start_date", "end_date", "students_count", "participants"}
  const ReportFields: set<string> := {"full_name", "num_assigned", "num_completed"}

  function Min(a: nat, b: nat): nat
  {
    if a <= b then a else b
  }

  /**
   * `CourseParticipantSerializer`: the enrolled student's first name, a
   * `last_name` that is also read from the first name, and the email.
   */
  function ParticipantRecord(s: Student): (r: Record)
    ensures r.Keys == ParticipantFields
    ensures r["first_name"] == Text(s.firstName) && r["email"] == Text(s.email)
    ensures r["last_name"] == r["first_name"]
  {
    map["first_name" := Text(s.firstName), "last_name" := Text(s.firstName), "email" := Text(s.email)]
  }

  /** The student an enrollment row points at (`select_related('student')`). */
  function StudentOf(students: seq<Row<Student>>, p: Participant): (s: Student)
    requires Has(students, p.student)
    ensures exists i :: 0 <= i < |students| && students[i].id == p.student && students[i].value == s
  {
    Find(students, p.student).value
  }

  /**
   * The rows `get_participants` serializes: `filter(course=c)[:10]`, the
   * course's rows in table order, cut after the tenth.
   */
  function ParticipantRows(rows: seq<Participant>, c: int): (r: seq<Participant>)
    ensures |r| == Min(Count(rows, CourseRef(c)), MaxParticipants)
    ensures r == Select(rows, CourseRef(c))[..|r|]
    ensures forall k :: 0 <= k < |r| ==> r[k].course == c && r[k] in rows
  {
    var selected := Select(rows, CourseRef(c));
    if |selected| <= MaxParticipants then selected else selected[..MaxParticipants]
  }

  /** `get_participants`: the serialized first (at most ten) participants of course `c`. */
  function Participants(students: seq<Row<Student>>, rows: seq<Participant>, c: int): (r: seq<Record>)
    requires StudentsResolve(students, rows)
    ensures |r| == Min(Count(rows, CourseRef(c)), MaxParticipants)
    ensures forall k :: 0 <= k < |r| ==> r[k].Keys == ParticipantFields
    ensures forall k :: 0 <= k < |r| ==> r[k] == ParticipantRecord(StudentOf(students, ParticipantRows(rows, c)[k]))
  {
    var page := ParticipantRows(rows, c);
    seq(|page|, k requires 0 <= k < |page| => ParticipantRecord(StudentOf(students, page[k])))
  }

  /**
   * `CourseSerializer`: name and dates of the course, the true number of its
   * enrollment rows, and the capped list of serialized participants.
   */
  function CourseRecord(course: Row<Course>, students: seq<Row<Student>>, rows: seq<Participant>): (r: Record)
    requires StudentsResolve(students, rows)
    ensures r.Keys == CourseFields
    ensures r["name"] == Text(course.value.name)
    ensures r["start_date"] == Text(course.value.startDate) && r["end_date"] == Text(course.value.endDate)
    ensures r["students_count"] == Number(Count(rows, CourseRef(course.id)))
    ensures r["participants"] == Records(Participants(students, rows, course.id))
    ensures |r["participants"].records| == Min(r["students_count"].number, MaxParticipants)
  {
    var count := Count(rows, CourseRef(course.id));
    var participants := Participants(students, rows, course.id);
    assert |participants| == Min(count, MaxParticipants);
    map[
      "name" := Text(course.value.name),
      "start_date" := Text(course.value.startDate),
      "end_date" := Text(course.value.endDate),
      "students_count" := Number(count),
      "participants" := Records(participants)
    ]
  }

  /** The course list: one serialized course per course, in table order. */
  function CourseList(courses: seq<Row<Course>>, students: seq<Row<Student>>, rows: seq<Participant>): (r: seq<Record>)
    requires StudentsResolve(students, rows)
    ensures |r| == |courses|
    ensures forall i :: 0 <= i < |r| ==> r[i] == CourseRecord(courses[i], students, rows)
  {
    seq(|courses|, i requires 0 <= i < |courses| => CourseRecord(courses[i], students, rows))
  }

  /** `ReportSerializer`: a full name and two counts. */
  function ReportRecord(fullName: string, numAssigned: nat, numCompleted: nat): (r: Record)
    ensures r.Keys == ReportFields
    ensures r["full_name"] == Text(fullName)
    ensures r["num_assigned"] == Number(numAssigned) && r["num_completed"] == Number(numCompleted)
  {
    map["full_name" := Text(fullName), "num_assigned" := Number(numAssigned), "num_completed" := Number(numCompleted)]
  }

  /**
   * The k-th participant entry of a course belongs to the student of the
   * k-th row of the course, and its `last_name` is that student's first name.
   */
  lemma ParticipantLastNameIsFirstName(students: seq<Row<Student>>, rows: seq<Participant>, c: int, k: nat, i: nat)
    requires UniqueIds(students) && StudentsResolve(students, rows)
    requires k < |Participants(students, rows, c)|
    requires i < |students| && students[i].id == ParticipantRows(rows, c)[k].student
    ensures Participants(students, rows, c)[k]["first_name"] == Text(students[i].value.firstName)
    ensures Participants(students, rows, c)[k]["last_name"] == Text(students[i].value.firstName)
    ensures Participants(students, rows, c)[k]["email"] == Text(students[i].value.email)
  {
    FindUnique(students, i);
  }

  /** A course without enrollment rows serializes with a zero count and no participants. */
  lemma EmptyCourse(course: Row<Course>, students: seq<Row<Student>>, rows: seq<Participant>)
    requires StudentsResolve(students, rows)
    requires forall k :: 0 <= k < |rows| ==> rows[k].course != course.id
    ensures CourseRecord(course, students, rows)["students_count"] == Number(0)
    ensures CourseRecord(course, students, rows)["participants"] == Records([])
  {
    assert Count(rows, CourseRef(course.id)) == 0;
  }
}
