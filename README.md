# Course enrollment service — a Dafny model

The service keeps three tables: students, courses, and course participants. A
participant row is an enrollment: a course, a student, and a `completed` flag.
Its endpoints do four things:

- list the courses, each with its number of students and the first ten participants;
- assign a student to a course;
- unassign a student from a course;
- report, for every student, how many courses they are assigned to and how many of those they completed.

The model keeps the store as plain values: each table is a sequence of rows in
table order, and primary keys are integers.

- `tables.dfy` (module `Tables`): keyed rows, lookup by primary key (`objects.get`) and delete by key.
- `students.dfy` (module `Students`): the student record, `full_name` and `__str__`.
- `courses.dfy` (module `Courses`):
  - the enrollment row, the course record and the consistency of the store (unique keys, unique pairs, resolving foreign keys);
  - the read operations on the enrollment table (select, count, find a pair);
  - the table each operation leaves behind;
  - the class `Database`, whose methods are the enrollment operations of a course and the cascading deletes. They return an outcome instead of raising.
- `serializers.dfy` (module `Serializers`): serialized objects as dictionaries from field name to value, for a participant, a course, the course list and a report line.
- `views.dfy` (module `Views`):
  - the assign and unassign endpoints over a `Database`, with the mapping of outcomes to status codes and bodies;
  - the report, computed by grouping the enrollment rows by student and then outer-joining the groups with the student table. The query itself joins students to their rows first and groups afterwards; both give the same counts for every student.

Two choices follow the code:

- A participant entry's `last_name` is read from the student's first name (courses/serializers.py:14). The model keeps this and states it.
- Three queries give no ordering: the course list, `filter(course=...)[:10]`, and the report's query (api/views.py:49-52; `Student` declares no default ordering). The database may return their rows in any order. The model takes the table's own order in all three places.

## Model

| member | source | states |
|---|---|---|
| `Tables.Find` | courses/models.py:33 | A lookup by primary key finds nothing exactly when no row has the key; otherwise it returns the record of a row with that key. |
| `Tables.Delete` | courses/models.py:8-9 | Deleting a course or student by primary key leaves no row with that key. It keeps every row with another key, adds nothing, and keeps the keys unique. |
| `Tables.FindUnique` | courses/models.py:33 | With unique keys, the lookup returns the record stored under the key. |
| `Students.FullName` | students/models.py:15-17 | `full_name` is the first name, then one space, then the last name. Its length is the two lengths plus one. |
| `Students.Str` | students/models.py:12-13 | `__str__` starts with `full_name`, continues with " (" and the email, and ends with ")". |
| `Students.FullNameSplits` | students/models.py:15-17 | When the first name holds no space, splitting `full_name` at its first space gives back the first and last names. |
| `Courses.Count` | courses/serializers.py:26-27 | A row count per course or student (`participants.count()`, `Count('courses')`) is at most the table size. It is zero exactly when no row refers to that course or student. |
| `Courses.Select` | courses/serializers.py:30 | `filter(course=...)` holds only rows of that course and every row of that course, and its length is the count. |
| `Courses.SelectOne` | courses/serializers.py:30 | A one-row table selects its row exactly when the row belongs to the course. |
| `Courses.SelectCons` | courses/serializers.py:30 | The selection of a row followed by a table is that row, if it belongs to the course, followed by the table's selection. |
| `Courses.SelectConcat` | courses/serializers.py:30 | The selection of two tables joined end to end is the first table's selection followed by the second's. Together with `SelectOne`, the selected rows keep the table's order. |
| `Courses.CountCompleted` | api/views.py:51 | A student's number of completed rows never exceeds their number of rows. |
| `Courses.Remove` | courses/models.py:8-9 | The cascade of deleting a course or student keeps every row that does not refer to it and drops every row that does. Its length falls by exactly that count. |
| `Courses.RemoveKeepsUnique` | courses/models.py:8-9 | The cascade keeps the pairs unique. |
| `Courses.IndexOf` | courses/models.py:43-44 | Finding the row of a (course, student) pair fails exactly when the pair is not enrolled; otherwise it gives the first row of that pair. |
| `Courses.Enroll` | courses/models.py:35-36 | `create` keeps every existing row in place and appends one row for the pair, with `completed` false. |
| `Courses.Disenroll` | courses/models.py:43-44 | `get(...).delete()` removes one row of the pair and leaves the rows before and after it in order. |
| `Courses.EnrollCounts` | courses/models.py:35-36 | An assignment adds one to the count of its course and of its student, and leaves every other count alone. |
| `Courses.EnrollKeepsUnique` | courses/models.py:17 | Creating a pair that was not enrolled keeps `unique_together`, and the pair is enrolled afterwards. |
| `Courses.DisenrollRemovesPair` | courses/models.py:43-44 | With unique pairs, unassigning leaves the pair unenrolled and the pairs unique. Every other row stays and nothing is added. |
| `Courses.DisenrollCounts` | courses/models.py:43-44 | Unassigning subtracts one from the count of its course and of its student, and leaves every other count alone. |
| `Courses.EnrollThenDisenroll` | courses/models.py:32-46 | Assigning a pair that was not enrolled and then unassigning it gives back the table as it was. |
| `Courses.Database.AssignStudent` | courses/models.py:32-38 | Fails with StudentDoesNotExist exactly when the student is missing, and with AlreadyAssigned exactly when the pair is enrolled. Otherwise it succeeds and appends the row. Only success changes the table, and the store stays consistent. |
| `Courses.Database.UnassignStudent` | courses/models.py:40-46 | Fails with StudentDoesNotExist exactly when the student is missing, and with NotAssigned exactly when the pair is not enrolled. Otherwise it succeeds and deletes the pair's row. Only success changes the table, and the store stays consistent. |
| `Courses.Database.DeleteCourse` | courses/models.py:8 | Deleting a course removes its row and, by cascade, every enrollment row of that course. The store stays consistent. |
| `Courses.Database.DeleteStudent` | courses/models.py:9 | Deleting a student removes its row and, by cascade, every enrollment row of that student. The store stays consistent. |
| `Serializers.ParticipantRecord` | courses/serializers.py:12-19 | A participant entry has exactly the keys first_name, last_name and email. first_name and email come from the student, and last_name equals first_name. |
| `Serializers.ParticipantLastNameIsFirstName` | courses/serializers.py:13-15 | The k-th participant entry shows the first name and email of the student on the course's k-th row, under both first_name and last_name. |
| `Serializers.StudentOf` | courses/serializers.py:30 | `select_related('student')` gives, for an enrollment row whose student exists, the record of a student row with that row's student id. |
| `Serializers.ParticipantRows` | courses/serializers.py:30 | The serialized rows are a prefix of `Select`, the course's rows in table order (see `SelectConcat`). All belong to that course, and there are min(count, 10) of them. |
| `Serializers.Participants` | courses/serializers.py:29-32 | `participants` holds min(count, 10) entries. Each has the participant keys and is the entry of the student on the matching row. |
| `Serializers.CourseRecord` | courses/serializers.py:22-36 | A course has exactly the fields name, start_date, end_date, students_count and participants. students_count is the true row count of the course, and participants has min(students_count, 10) entries. |
| `Serializers.EmptyCourse` | courses/serializers.py:26-30 | A course without enrollment rows serializes with students_count 0 and an empty participants list. |
| `Serializers.CourseList` | api/views.py:17-18 | The course list has one serialized course per course, in table order. |
| `Serializers.ReportRecord` | courses/serializers.py:6-9 | A report line has exactly the fields full_name, num_assigned and num_completed. |
| `Views.Respond` | api/views.py:25-32 | Success gives 201 with an empty body. A missing student gives 404 "Student not found". A duplicate gives 400 "Already assigned to course", and a missing enrollment gives 400 "Student not assigned to course", each as one error with code "invalid". |
| `Views.Assign` | api/views.py:21-32 | A missing course gives 404 before anything else. Otherwise the response is the one for the outcome of assigning. Only a 201 changes the table, by appending the pair's row. |
| `Views.Unassign` | api/views.py:34-45 | A missing course gives 404 before anything else. Otherwise the response is the one for the outcome of unassigning. Only a 201 changes the table, by deleting the pair's row. |
| `Views.AssignTwice` | api/tests.py:150-156 | Assigning the same student twice gives 201, then 400 "Already assigned to course". The table gains exactly one row, and the course count rises by one. |
| `Views.AssignThenUnassign` | api/tests.py:198-215 | Assigning and then unassigning gives 201 twice and leaves the table as it was. |
| `Views.Aggregate` | api/views.py:49-52 | In the grouped counts, no student's completed count exceeds their assigned count. |
| `Views.AggregateCounts` | api/views.py:49-51 | The grouped counts for any student, with zero for a student without rows, are that student's row count and completed-row count. |
| `Views.Report` | api/views.py:47-56 | There is one report line per student, in student-table order (the order the model picks for an unordered query), including students without rows. It holds the full name, the student's number of enrollment rows and the number of those completed. |
| `Views.ReportCounts` | api/views.py:49-51 | In every report line num_completed ≤ num_assigned, and a student without enrollment rows is reported with 0 and 0. |

## Left out

- Query counts (`select_related`, the single-query report, the fixed number of queries for the course list): they concern round trips to the database, not the values returned.
- JSON and CSV rendering, content negotiation and the format-suffix routes (api/urls.py, api/views.py:19): the report is modelled as the list of records both renderers encode.
- Email format validation and timestamp semantics: emails and dates are opaque strings. No order between a course's start and end dates is enforced by the code, and the model enforces none.
- The race between two concurrent assigns of the same pair: operations are sequential, and `unique_together` is an invariant that every operation keeps.
- `Views.Assign` and `Views.Unassign` take an integer student id. A student id from the URL that is not a number, which the lookup rejects with a server error, is not modelled.
- The framework's own text for the 404 of a missing course: `Body.DefaultNotFound` stands for it without fixing its wording.
- Creating and editing students and courses (administrative actions) and setting `completed`: none of them is part of the modelled code. The `Database` constructor accepts any consistent store.
- `MultipleObjectsReturned` from `get(course=..., student=...)`: it cannot happen while pairs are unique, and every `Database` method keeps them unique.
- Other unhandled database errors, which surface as server errors.
