/**
 * Clients of the database manager that chain its operations the way the
 * application and its tests do; each follows from the operations' contracts alone.
 */
module DatabaseScenarios {
  import opened Wrappers
  import opened TextOrder
  import opened Sorting
  import opened Pagination
  import opened Scores
  import opened DbModels
  import opened DatabaseManagement

  /** Enrolling a second student under an id already stored fails and leaves one listed student. */
  method DuplicateIdRejected(first: Student, second: Student)
    returns (ok1: bool, ok2: bool, listed: Result<seq<StudentRecord>, DbError>)
    requires |first.studentFaceEmbedding| == EmbeddingDim
    requires second.studentId == first.studentId
    ensures ok1 && !ok2
    ensures listed == Ok([StudentRecord(first.studentId, first.studentName, first.studentImagePath)])
  {
    var db := new DatabaseManager();
    ok1 := db.AddStudent(first);
    ok2 := db.AddStudent(second);
    assert db.students == [StudentRow(1, first.studentId, first.studentName, first.studentImagePath)];
    listed := db.GetAllStudents("student_name", 1, 20);
    var only := [StudentRecord(first.studentId, first.studentName, first.studentImagePath)];
    assert Records(db.students) == only;
    assert SortBy(only, Ordering("student_name")) == only;
    assert Page(only, 20, PageOffset(1, 20)) == only;
  }

  /** The three students of the ordering test, as listed records. */
  function Charlie(): StudentRecord { StudentRecord("S03", "Charlie", "path/to/image1.png") }
  function Alice(): StudentRecord { StudentRecord("S01", "Alice", "path/to/image2.png") }
  function Bob(): StudentRecord { StudentRecord("S02", "Bob", "path/to/image3.png") }

  /** Sorting c, a, b where a precedes b and c precedes neither gives a, b, c. */
  lemma SortThree<T>(c: T, a: T, b: T, le: (T, T) -> bool)
    requires le(a, b) && !le(c, a) && !le(c, b)
    ensures SortBy([c, a, b], le) == [a, b, c]
  {
    var s := [c, a, b];
    assert s[1..] == [a, b] && s[1..][1..] == [b];
    assert SortBy([b], le) == [b];
    assert SortBy([a, b], le) == Insert(a, [b], le) == [a, b];
    assert Insert(c, [b], le) == [b, c];
    assert Insert(c, [a, b], le) == [a, b, c];
  }

  /** Sorting the records enrolled as Charlie, Alice, Bob by either column gives Alice, Bob, Charlie. */
  lemma AlphabeticalOrder(column: string)
    requires AllowedOrderColumn(column)
    ensures SortBy([Charlie(), Alice(), Bob()], Ordering(column)) == [Alice(), Bob(), Charlie()]
  {
    var le := Ordering(column);
    if column == "student_id" {
      assert TextLe("S01", "S02") && !TextLe("S03", "S01") && !TextLe("S03", "S02");
    } else {
      assert TextLe("Alice", "Bob") && !TextLe("Charlie", "Alice") && !TextLe("Charlie", "Bob");
    }
    SortThree(Charlie(), Alice(), Bob(), le);
  }

  /** With Charlie, Alice and Bob enrolled in that order, both listings return Alice, Bob, Charlie. */
  method StudentsListedInOrder(db: DatabaseManager)
    returns (byName: Result<seq<StudentRecord>, DbError>, byId: Result<seq<StudentRecord>, DbError>)
    requires db.Valid() && Records(db.students) == [Charlie(), Alice(), Bob()]
    ensures byName == Ok([Alice(), Bob(), Charlie()]) && byId == Ok([Alice(), Bob(), Charlie()])
  {
    byName := db.GetAllStudents("student_name", 1, 20);
    byId := db.GetAllStudents("student_id", 1, 20);
    AlphabeticalOrder("student_name");
    AlphabeticalOrder("student_id");
    assert Page([Alice(), Bob(), Charlie()], 20, PageOffset(1, 20)) == [Alice(), Bob(), Charlie()];
  }

  /** With fifteen students enrolled, pages of ten hold ten, then five, then none. */
  method PagesOfTen(db: DatabaseManager)
    returns (page1: Result<seq<StudentRecord>, DbError>, page2: Result<seq<StudentRecord>, DbError>,
             page3: Result<seq<StudentRecord>, DbError>)
    requires db.Valid() && |db.students| == 15
    ensures page1.Ok? && page2.Ok? && page3.Ok?
    ensures |page1.value| == 10 && |page2.value| == 5 && |page3.value| == 0
  {
    page1 := db.GetAllStudents("student_name", 1, 10);
    page2 := db.GetAllStudents("student_name", 2, 10);
    page3 := db.GetAllStudents("student_name", 3, 10);
  }

  /**
   * Searching with an enrolled student's own embedding finds that student with
   * score 1, for any distance under which a vector scores 1 against itself
   * (EuclideanSelfMatch shows the Euclidean distance is one).
   */
  method ExactMatchFound(student: Student, dist: (seq<real>, seq<real>) -> real)
    returns (hits: Result<seq<StudentResult>, DbError>)
    requires |student.studentFaceEmbedding| == EmbeddingDim
    requires forall a, b :: dist(a, b) >= 0.0
    requires forall a :: Similarity(dist(a, a)) == 1.0
    ensures hits.Ok? && |hits.value| == 1
    ensures hits.value[0].studentId == student.studentId
    ensures hits.value[0].similarityScore == 1.0
  {
    var db := new DatabaseManager();
    var ok := db.AddStudent(student);
    hits := db.FindSimilarStudents(student.studentFaceEmbedding, 1, dist);
    assert db.vec[db.students[0].rowid] == student.studentFaceEmbedding;
  }

  /**
   * The Euclidean distance the vector table computes meets the premise of
   * ExactMatchFound: every vector scores 1 against itself.
   */
  lemma EuclideanSelfMatch(dist: (seq<real>, seq<real>) -> real)
    requires forall a, b :: dist(a, b) >= 0.0
    requires forall a, b :: |a| == |b| ==> dist(a, b) * dist(a, b) == SquaredDistance(a, b)
    ensures forall a :: Similarity(dist(a, a)) == 1.0
  {
    forall a ensures Similarity(dist(a, a)) == 1.0 {
      SelfQueryScoresOne(a, dist(a, a));
    }
  }

  /** Attendance for a student who was never enrolled is refused and the ledger stays empty. */
  method UnknownStudentAttendanceRejected(record: AttendanceRecord)
    returns (ok: bool, listed: seq<AttendanceRecord>)
    ensures !ok && listed == []
  {
    var db := new DatabaseManager();
    ok := db.AddAttendanceRecord(record);
    listed := db.GetAllAttendance(1, 20);
  }

  /** A fresh database with one student enrolled and no attendance. */
  method EnrolOne(student: Student) returns (db: DatabaseManager)
    requires |student.studentFaceEmbedding| == EmbeddingDim
    ensures fresh(db) && db.Valid()
    ensures student.studentId in db.StudentIds() && db.attendance == []
  {
    db := new DatabaseManager();
    var enrolled := db.AddStudent(student);
    assert db.students[0].studentId == student.studentId;
  }

  /** A table holding one attendance row lists that row on its first page. */
  lemma OnlyRowListed(row: AttendanceRow)
    ensures Page(SortBy([row], NewestFirst()), 20, PageOffset(1, 20)) == [row]
  {
    assert SortBy([row], NewestFirst()) == [row];
  }

  /** An enrolled student's attendance is accepted and is the one record listed. */
  method AttendanceRecorded(student: Student, record: AttendanceRecord)
    returns (ok: bool, listed: seq<AttendanceRecord>)
    requires |student.studentFaceEmbedding| == EmbeddingDim
    requires record.studentId == student.studentId
    ensures ok && listed == [record]
  {
    var db := EnrolOne(student);
    ok := db.AddAttendanceRecord(record);
    var row := AttendanceRow(record.attendId, record.studentId, record.recordedFrame,
                             DateTimes.DateTimeText(record.attendDatetime));
    assert db.attendance == [row];
    listed := db.GetAllAttendance(1, 20);
    OnlyRowListed(row);
    assert listed == AttendanceRecords([row]);
    RecordReadBack(record);
  }

  /** A record written as a row reads back as the same record. */
  lemma RecordReadBack(record: AttendanceRecord)
    ensures StoredTimestamp(DateTimes.DateTimeText(record.attendDatetime))
    ensures AttendanceRecords([AttendanceRow(record.attendId, record.studentId, record.recordedFrame,
                                             DateTimes.DateTimeText(record.attendDatetime))]) == [record]
  {
    var row := AttendanceRow(record.attendId, record.studentId, record.recordedFrame,
                             DateTimes.DateTimeText(record.attendDatetime));
    assert StoredTimestamp(row.attendDatetime);
    var r := AttendanceRecords([row]);
    DateTimes.DateTimeTextInjective(r[0].attendDatetime, record.attendDatetime);
  }
}
