/**
 * The attendance database: a `students` table, the `vec_students` vector table
 * holding one 512-float face embedding per student row (joined by rowid), and
 * an `attendance` table whose `student_id` is a foreign key into `students`.
 * The three tables are held as abstract state; the SQL engine and the vector
 * extension are represented by what their statements do to that state.
 */
module DatabaseManagement {
  import opened Wrappers
  import opened TextOrder
  import opened Sorting
  import opened Pagination
  import opened DateTimes
  import opened Scores
  import opened DbModels

  /** The width of the `face_embedding float[512]` column. */
  const EmbeddingDim: nat := 512

  /** A row of `students`, with the implicit rowid SQLite assigns to it. */
  datatype StudentRow = StudentRow(
    rowid: nat,
    studentId: string,
    studentName: string,
    studentImagePath: string)

  /** A row of `attendance`; the timestamp is stored as text. */
  datatype AttendanceRow = AttendanceRow(
    attendId: string,
    studentId: string,
    recordedFrame: string,
    attendDatetime: string)

  /** A student row joined with its `vec_students` embedding on rowid. */
  datatype Candidate = Candidate(row: StudentRow, embedding: seq<real>)

  /** What a read operation raises instead of returning rows. */
  datatype DbError =
    | InvalidOrderBy(column: string)   // ValueError: order_by is not a whitelisted column
    | DimensionMismatch                // the query vector is not 512 floats wide
    | NegativeK                        // the vector extension refuses a negative k

  function ToRecord(row: StudentRow): StudentRecord {
    StudentRecord(row.studentId, row.studentName, row.studentImagePath)
  }

  /** The projection `SELECT student_id, student_name, student_image_path FROM students`. */
  function Records(rows: seq<StudentRow>): (r: seq<StudentRecord>)
    ensures |r| == |rows|
    ensures forall i :: 0 <= i < |rows| ==> r[i] == ToRecord(rows[i])
  {
    if rows == [] then [] else [ToRecord(rows[0])] + Records(rows[1..])
  }

  /** The columns `order_by` may name. */
  predicate AllowedOrderColumn(column: string) {
    column == "student_name" || column == "student_id"
  }

  /** `ORDER BY column` over student records, ascending. */
  function Ordering(column: string): (StudentRecord, StudentRecord) -> bool {
    if column == "student_id"
    then (a: StudentRecord, b: StudentRecord) => TextLe(a.studentId, b.studentId)
    else (a: StudentRecord, b: StudentRecord) => TextLe(a.studentName, b.studentName)
  }

  lemma OrderingIsTotalPreorder(column: string)
    ensures TotalPreorder(Ordering(column))
  {
    var le := Ordering(column);
    forall a, b ensures le(a, b) || le(b, a) {
      TextLeTotal(a.studentId, b.studentId);
      TextLeTotal(a.studentName, b.studentName);
    }
    forall a, b, c | le(a, b) && le(b, c) ensures le(a, c) {
      if column == "student_id" {
        TextLeTransitive(a.studentId, b.studentId, c.studentId);
      } else {
        TextLeTransitive(a.studentName, b.studentName, c.studentName);
      }
    }
  }

  /** `ORDER BY attend_datetime DESC`: compares the stored texts, newest first. */
  function NewestFirst(): (AttendanceRow, AttendanceRow) -> bool {
    (a: AttendanceRow, b: AttendanceRow) => TextLe(b.attendDatetime, a.attendDatetime)
  }

  lemma NewestFirstIsTotalPreorder()
    ensures TotalPreorder(NewestFirst())
  {
    var le := NewestFirst();
    forall a, b ensures le(a, b) || le(b, a) {
      TextLeTotal(a.attendDatetime, b.attendDatetime);
    }
    forall a, b, c | le(a, b) && le(b, c) ensures le(a, c) {
      TextLeTransitive(c.attendDatetime, b.attendDatetime, a.attendDatetime);
    }
  }

  /** The order a k-nearest-neighbour query returns its rows in: nearest first. */
  function ByDistance(query: seq<real>, dist: (seq<real>, seq<real>) -> real): (Candidate, Candidate) -> bool {
    (a: Candidate, b: Candidate) => dist(a.embedding, query) <= dist(b.embedding, query)
  }

  lemma ByDistanceIsTotalPreorder(query: seq<real>, dist: (seq<real>, seq<real>) -> real)
    ensures TotalPreorder(ByDistance(query, dist))
  {
  }

  /** The k candidates nearest to query (all of them when there are fewer), nearest first. */
  function Nearest(candidates: seq<Candidate>, query: seq<real>, k: nat,
                   dist: (seq<real>, seq<real>) -> real): (r: seq<Candidate>)
    ensures |r| == Min(k, |candidates|)
  {
    SortBy(candidates, ByDistance(query, dist))[..Min(k, |candidates|)]
  }

  /** A stored timestamp text: what `str` writes for some datetime. */
  ghost predicate StoredTimestamp(text: string) {
    exists dt: PyDateTime :: DateTimeText(dt) == text
  }

  lemma StoredTimestampParses(text: string)
    requires StoredTimestamp(text)
    ensures ParseDateTime(text).Some? && DateTimeText(ParseDateTime(text).value) == text
  {
    var dt: PyDateTime :| DateTimeText(dt) == text;
    DateTimeTextRoundTrip(dt);
  }

  /** The record `AttendanceRecord(**dict(row))` builds from a row, reading the text back into a datetime. */
  function ToAttendanceRecord(row: AttendanceRow): (r: AttendanceRecord)
    requires StoredTimestamp(row.attendDatetime)
    ensures DateTimeText(r.attendDatetime) == row.attendDatetime
  {
    StoredTimestampParses(row.attendDatetime);
    AttendanceRecord(row.attendId, row.studentId, row.recordedFrame, ParseDateTime(row.attendDatetime).value)
  }

  function AttendanceRecords(rows: seq<AttendanceRow>): (r: seq<AttendanceRecord>)
    requires forall i :: 0 <= i < |rows| ==> StoredTimestamp(rows[i].attendDatetime)
    ensures |r| == |rows|
    ensures forall i :: 0 <= i < |rows| ==>
              && r[i].attendId == rows[i].attendId
              && r[i].studentId == rows[i].studentId
              && r[i].recordedFrame == rows[i].recordedFrame
              && DateTimeText(r[i].attendDatetime) == rows[i].attendDatetime
  {
    seq(|rows|, i requires 0 <= i < |rows| => ToAttendanceRecord(rows[i]))
  }

  /** The search hit built from a joined row: its data, its embedding and the score of its distance. */
  function ToResult(c: Candidate, query: seq<real>, dist: (seq<real>, seq<real>) -> real): StudentResult {
    StudentResult(c.row.studentId, c.row.studentName, c.row.studentImagePath, c.embedding,
                  Similarity(dist(c.embedding, query)))
  }

  function CandidateId(c: Candidate): string {
    c.row.studentId
  }

  /** Every row the nearest-neighbour query returns is one of the candidates. */
  lemma NearestAreCandidates(candidates: seq<Candidate>, query: seq<real>, k: nat,
                             dist: (seq<real>, seq<real>) -> real, j: nat)
    requires j < |Nearest(candidates, query, k, dist)|
    ensures Nearest(candidates, query, k, dist)[j] in candidates
  {
    var sorted := SortBy(candidates, ByDistance(query, dist));
    assert Nearest(candidates, query, k, dist)[j] == sorted[j];
    assert sorted[j] in multiset(candidates);
  }

  /** The rows come nearest first. */
  lemma NearestInDistanceOrder(candidates: seq<Candidate>, query: seq<real>, k: nat,
                               dist: (seq<real>, seq<real>) -> real)
    ensures var rows := Nearest(candidates, query, k, dist);
      forall i, j :: 0 <= i < j < |rows| ==> dist(rows[i].embedding, query) <= dist(rows[j].embedding, query)
  {
    ByDistanceIsTotalPreorder(query, dist);
    SortBySorted(candidates, ByDistance(query, dist));
  }

  /** Candidates of distinct students give rows of distinct students. */
  lemma NearestDistinct(candidates: seq<Candidate>, query: seq<real>, k: nat,
                        dist: (seq<real>, seq<real>) -> real)
    requires DistinctBy(candidates, CandidateId)
    ensures DistinctBy(Nearest(candidates, query, k, dist), CandidateId)
  {
    SortByDistinct(candidates, ByDistance(query, dist), CandidateId);
  }

  /** No candidate left out is nearer than a row returned. */
  lemma NearestAreNearest(candidates: seq<Candidate>, query: seq<real>, k: nat,
                          dist: (seq<real>, seq<real>) -> real, x: Candidate, y: Candidate)
    requires x in candidates && x !in Nearest(candidates, query, k, dist)
    requires y in Nearest(candidates, query, k, dist)
    ensures dist(y.embedding, query) <= dist(x.embedding, query)
  {
    ByDistanceIsTotalPreorder(query, dist);
    KeptPrecedeDropped(candidates, ByDistance(query, dist), Min(k, |candidates|), x);
  }

  /**
   * The hits built from the nearest rows of the joined tables: each is a stored
   * student with its own embedding, no student twice, best score first, and no
   * student left out is nearer than one returned.
   */
  lemma SearchHits(students: seq<StudentRow>, vec: map<nat, seq<real>>, candidates: seq<Candidate>,
                   query: seq<real>, k: nat, dist: (seq<real>, seq<real>) -> real, results: seq<StudentResult>)
    requires forall i :: 0 <= i < |students| ==> students[i].rowid in vec
    requires forall i, j :: 0 <= i < j < |students| ==> students[i].studentId != students[j].studentId
    requires |candidates| == |students|
    requires forall i :: 0 <= i < |candidates| ==> candidates[i] == Candidate(students[i], vec[students[i].rowid])
    requires forall a, b :: dist(a, b) >= 0.0
    requires var rows := Nearest(candidates, query, k, dist);
      |results| == |rows| && forall j :: 0 <= j < |rows| ==> results[j] == ToResult(rows[j], query, dist)
    ensures forall j :: 0 <= j < |results| ==>
              exists i :: 0 <= i < |students| && results[j] == ToResult(Candidate(students[i], vec[students[i].rowid]), query, dist)
    ensures forall i, j :: 0 <= i < j < |results| ==> results[i].studentId != results[j].studentId
    ensures forall i, j :: 0 <= i < j < |results| ==> results[j].similarityScore <= results[i].similarityScore
    ensures forall j, i ::
              (0 <= j < |results| && 0 <= i < |students| &&
               forall m :: 0 <= m < |results| ==> results[m].studentId != students[i].studentId) ==>
              dist(results[j].studentFaceEmbedding, query) <= dist(vec[students[i].rowid], query)
  {
    var rows := Nearest(candidates, query, k, dist);
    forall j | 0 <= j < |results|
      ensures exists i :: 0 <= i < |students| && results[j] == ToResult(Candidate(students[i], vec[students[i].rowid]), query, dist)
    {
      NearestAreCandidates(candidates, query, k, dist, j);
      var i :| 0 <= i < |candidates| && candidates[i] == rows[j];
      assert results[j] == ToResult(Candidate(students[i], vec[students[i].rowid]), query, dist);
    }
    NearestInDistanceOrder(candidates, query, k, dist);
    forall i, j | 0 <= i < j < |results| ensures results[j].similarityScore <= results[i].similarityScore {
      SimilarityAntitone(dist(rows[i].embedding, query), dist(rows[j].embedding, query));
    }
    assert DistinctBy(candidates, CandidateId);
    NearestDistinct(candidates, query, k, dist);
    forall i, j | 0 <= i < j < |results| ensures results[i].studentId != results[j].studentId {
      assert CandidateId(rows[i]) != CandidateId(rows[j]);
    }
    forall j, i | 0 <= j < |results| && 0 <= i < |students| &&
        forall m :: 0 <= m < |results| ==> results[m].studentId != students[i].studentId
      ensures dist(results[j].studentFaceEmbedding, query) <= dist(vec[students[i].rowid], query)
    {
      NearestAreNearest(candidates, query, k, dist, candidates[i], rows[j]);
    }
  }

  /** The loop over the fetched rows: one hit per row, in order, scored by its distance. */
  method ScoreRows(rows: seq<Candidate>, query: seq<real>, dist: (seq<real>, seq<real>) -> real)
    returns (results: seq<StudentResult>)
    ensures |results| == |rows|
    ensures forall j :: 0 <= j < |rows| ==> results[j] == ToResult(rows[j], query, dist)
  {
    results := [];
    for n := 0 to |rows|
      invariant |results| == n
      invariant forall j :: 0 <= j < n ==> results[j] == ToResult(rows[j], query, dist)
    {
      var l2Distance := dist(rows[n].embedding, query);
      var similarity := Similarity(l2Distance);
      results := results + [StudentResult(rows[n].row.studentId, rows[n].row.studentName,
                                          rows[n].row.studentImagePath, rows[n].embedding, similarity)];
    }
  }

  /** Records read from rows in newest-first text order are in newest-first time order. */
  lemma RecordsNewestFirst(rows: seq<AttendanceRow>)
    requires forall i :: 0 <= i < |rows| ==> StoredTimestamp(rows[i].attendDatetime)
    requires SortedBy(rows, NewestFirst())
    ensures var r := AttendanceRecords(rows);
      forall i, j :: 0 <= i < j < |r| ==> ChronoLe(r[j].attendDatetime, r[i].attendDatetime)
  {
    var r := AttendanceRecords(rows);
    forall i, j | 0 <= i < j < |r| ensures ChronoLe(r[j].attendDatetime, r[i].attendDatetime) {
      assert NewestFirst()(rows[i], rows[j]);
      TextOrderIsChronological(r[j].attendDatetime, r[i].attendDatetime);
    }
  }

  /** Every row on a page of the attendance listing is a stored row. */
  lemma AttendancePageRowsStored(attendance: seq<AttendanceRow>, limit: int, offset: int)
    requires forall i :: 0 <= i < |attendance| ==> StoredTimestamp(attendance[i].attendDatetime)
    ensures forall x :: x in Page(SortBy(attendance, NewestFirst()), limit, offset) ==>
              x in attendance && StoredTimestamp(x.attendDatetime)
  {
    forall x | x in Page(SortBy(attendance, NewestFirst()), limit, offset)
      ensures x in attendance && StoredTimestamp(x.attendDatetime)
    {
      PageOfSortedIsFromRows(attendance, NewestFirst(), limit, offset, x);
    }
  }

  /** A page of the attendance listing is in newest-first text order. */
  lemma AttendancePageSorted(attendance: seq<AttendanceRow>, limit: int, offset: int)
    ensures SortedBy(Page(SortBy(attendance, NewestFirst()), limit, offset), NewestFirst())
  {
    NewestFirstIsTotalPreorder();
    SortBySorted(attendance, NewestFirst());
  }

  /** Every element of a page of a sorted copy of rows is one of rows. */
  lemma PageOfSortedIsFromRows<T>(rows: seq<T>, le: (T, T) -> bool, limit: int, offset: int, x: T)
    requires x in Page(SortBy(rows, le), limit, offset)
    ensures x in rows
  {
    var sorted := SortBy(rows, le);
    var p := Page(sorted, limit, offset);
    var i :| 0 <= i < |p| && p[i] == x;
    assert sorted[Start(|sorted|, offset) + i] == x;
    assert x in multiset(sorted);
  }

  class DatabaseManager {
    var students: seq<StudentRow>
    var vec: map<nat, seq<real>>
    var attendance: seq<AttendanceRow>
    /** The rowid the next student row gets: one more than the largest rowid in use. */
    var nextRowid: nat

    function StudentIds(): set<string>
      reads this
    {
      set i | 0 <= i < |students| :: students[i].studentId
    }

    function AttendIds(): set<string>
      reads this
    {
      set i | 0 <= i < |attendance| :: attendance[i].attendId
    }

    ghost function RowIds(): set<nat>
      reads this
    {
      set i | 0 <= i < |students| :: students[i].rowid
    }

    /**
     * The schema's constraints and the link between the tables: `student_id`
     * and `attend_id` are primary keys, rowids are increasing and below the
     * counter, `vec_students` holds exactly one 512-float embedding per student
     * row, every attendance row references a stored student, and every stored
     * timestamp is the text of a datetime.
     */
    ghost predicate Valid()
      reads this
    {
      && (forall i, j :: 0 <= i < j < |students| ==> students[i].rowid < students[j].rowid)
      && 1 <= nextRowid
      && (forall i :: 0 <= i < |students| ==> 1 <= students[i].rowid < nextRowid)
      && (forall i, j :: 0 <= i < j < |students| ==> students[i].studentId != students[j].studentId)
      && vec.Keys == RowIds()
      && (forall r :: r in vec ==> |vec[r]| == EmbeddingDim)
      && (forall i, j :: 0 <= i < j < |attendance| ==> attendance[i].attendId != attendance[j].attendId)
      && (forall i :: 0 <= i < |attendance| ==> attendance[i].studentId in StudentIds())
      && (forall i :: 0 <= i < |attendance| ==> StoredTimestamp(attendance[i].attendDatetime))
    }

    /**
     * The rows `vec_students JOIN students ON rowid` yields, in rowid order:
     * every stored embedding takes part, each with its own student row.
     */
    function Candidates(): (c: seq<Candidate>)
      reads this
      requires Valid()
      ensures |c| == |students|
      ensures forall i :: 0 <= i < |c| ==> c[i] == Candidate(students[i], vec[students[i].rowid])
      ensures forall r :: r in vec <==> exists i :: 0 <= i < |c| && c[i].row.rowid == r
      ensures forall i, j :: 0 <= i < j < |c| ==> c[i].row.rowid < c[j].row.rowid
    {
      seq(|students|, i reads this requires 0 <= i < |students| && Valid() =>
        assert students[i].rowid in RowIds();
        Candidate(students[i], vec[students[i].rowid]))
    }

    /** A fresh database after the tables are created: all three tables empty. */
    constructor ()
      ensures Valid()
      ensures students == [] && vec == map[] && attendance == [] && nextRowid == 1
    {
      students := [];
      vec := map[];
      attendance := [];
      nextRowid := 1;
    }

    /**
     * Inserts the student row and then its embedding in one transaction. A
     * student id already stored fails the first insert, an embedding that is
     * not 512 floats fails the second; either failure rolls both back.
     */
    method AddStudent(student: Student) returns (ok: bool)
      requires Valid()
      modifies this
      ensures Valid()
      ensures ok <==> student.studentId !in old(StudentIds()) && |student.studentFaceEmbedding| == EmbeddingDim
      ensures ok ==> && students == old(students) + [StudentRow(old(nextRowid), student.studentId,
                                                                 student.studentName, student.studentImagePath)]
                     && vec == old(vec)[old(nextRowid) := student.studentFaceEmbedding]
                     && old(nextRowid) !in old(vec)
                     && nextRowid == old(nextRowid) + 1
      ensures !ok ==> students == old(students) && vec == old(vec) && nextRowid == old(nextRowid)
      ensures attendance == old(attendance)
    {
      // INSERT INTO students: the primary key rejects a duplicate id
      if student.studentId in StudentIds() {
        return false;
      }
      var rowid := nextRowid;
      var row := StudentRow(rowid, student.studentId, student.studentName, student.studentImagePath);
      var stagedStudents := students + [row];
      // INSERT INTO vec_students: the column takes exactly 512 floats
      if |student.studentFaceEmbedding| != EmbeddingDim {
        return false;
      }
      assert rowid !in RowIds();
      var stagedVec := vec[rowid := student.studentFaceEmbedding];
      // COMMIT
      var oldIds := StudentIds();
      students, vec, nextRowid := stagedStudents, stagedVec, nextRowid + 1;
      assert forall i :: 0 <= i < |old(students)| ==> students[i] == old(students)[i];
      assert students[|students| - 1] == row;
      assert RowIds() == old(RowIds()) + {rowid};
      assert oldIds <= StudentIds();
      ok := true;
    }

    /**
     * `SELECT ... FROM students ORDER BY order_by LIMIT page_size OFFSET
     * (page - 1) * page_size`, after refusing an order_by outside the whitelist.
     */
    method GetAllStudents(orderBy: string, page: int, pageSize: int)
      returns (r: Result<seq<StudentRecord>, DbError>)
      requires Valid()
      ensures r.Ok? <==> AllowedOrderColumn(orderBy)
      ensures r.Err? ==> r.error == InvalidOrderBy(orderBy)
      ensures r.Ok? ==> r.value == Page(SortBy(Records(students), Ordering(orderBy)), pageSize, PageOffset(page, pageSize))
      ensures r.Ok? ==> SortedBy(r.value, Ordering(orderBy))
      ensures r.Ok? ==> forall x :: x in r.value ==> x in Records(students)
      ensures r.Ok? && 0 <= pageSize ==>
                |r.value| == Min(pageSize, |students| - Start(|students|, PageOffset(page, pageSize)))
    {
      var offset := (page - 1) * pageSize;
      if !AllowedOrderColumn(orderBy) {
        return Err(InvalidOrderBy(orderBy));
      }
      var sorted := SortBy(Records(students), Ordering(orderBy));
      var rows := Page(sorted, pageSize, offset);
      OrderingIsTotalPreorder(orderBy);
      SortBySorted(Records(students), Ordering(orderBy));
      forall x | x in rows ensures x in Records(students) {
        PageOfSortedIsFromRows(Records(students), Ordering(orderBy), pageSize, offset, x);
      }
      r := Ok(rows);
    }

    /**
     * The k nearest stored embeddings to query, each joined to its student
     * row, turned one by one into search hits whose score is the similarity
     * of its distance.
     */
    method FindSimilarStudents(query: seq<real>, k: int, dist: (seq<real>, seq<real>) -> real)
      returns (r: Result<seq<StudentResult>, DbError>)
      requires Valid()
      requires forall a, b :: dist(a, b) >= 0.0
      ensures r.Err? <==> |query| != EmbeddingDim || k < 0
      ensures r.Ok? ==> |r.value| == Min(k, |students|)
      ensures r.Ok? ==> forall j :: 0 <= j < |r.value| ==>
                exists i :: 0 <= i < |students| && r.value[j] == ToResult(Candidate(students[i], vec[students[i].rowid]), query, dist)
      ensures r.Ok? ==> forall j :: 0 <= j < |r.value| ==>
                r.value[j].similarityScore == Similarity(dist(r.value[j].studentFaceEmbedding, query))
      ensures r.Ok? ==> forall i, j :: 0 <= i < j < |r.value| ==> r.value[i].studentId != r.value[j].studentId
      ensures r.Ok? ==> forall i, j :: 0 <= i < j < |r.value| ==> r.value[j].similarityScore <= r.value[i].similarityScore
      ensures r.Ok? ==> forall j, i ::
                (0 <= j < |r.value| && 0 <= i < |students| &&
                 forall m :: 0 <= m < |r.value| ==> r.value[m].studentId != students[i].studentId) ==>
                dist(r.value[j].studentFaceEmbedding, query) <= dist(vec[students[i].rowid], query)
    {
      if |query| != EmbeddingDim {
        return Err(DimensionMismatch);
      }
      if k < 0 {
        return Err(NegativeK);
      }
      var candidates := Candidates();
      var rows := Nearest(candidates, query, k, dist);
      var results := ScoreRows(rows, query, dist);
      assert forall i :: 0 <= i < |students| ==> students[i].rowid in vec by {
        forall i | 0 <= i < |students| ensures students[i].rowid in vec {
          assert students[i].rowid in RowIds();
        }
      }
      SearchHits(students, vec, candidates, query, k, dist, results);
      r := Ok(results);
    }

    /**
     * `SELECT ... FROM attendance ORDER BY attend_datetime DESC LIMIT page_size
     * OFFSET (page - 1) * page_size`, each row read back into a record.
     */
    method GetAllAttendance(page: int, pageSize: int) returns (r: seq<AttendanceRecord>)
      requires Valid()
      ensures forall x :: x in Page(SortBy(attendance, NewestFirst()), pageSize, PageOffset(page, pageSize)) ==>
                x in attendance && StoredTimestamp(x.attendDatetime)
      ensures r == AttendanceRecords(Page(SortBy(attendance, NewestFirst()), pageSize, PageOffset(page, pageSize)))
      ensures 0 <= pageSize ==>
                |r| == Min(pageSize, |attendance| - Start(|attendance|, PageOffset(page, pageSize)))
      ensures forall i, j :: 0 <= i < j < |r| ==> ChronoLe(r[j].attendDatetime, r[i].attendDatetime)
    {
      var offset := (page - 1) * pageSize;
      var sorted := SortBy(attendance, NewestFirst());
      var rows := Page(sorted, pageSize, offset);
      AttendancePageRowsStored(attendance, pageSize, offset);
      AttendancePageSorted(attendance, pageSize, offset);
      RecordsNewestFirst(rows);
      r := AttendanceRecords(rows);
    }

    /**
     * Inserts one attendance row, its timestamp written as `str(datetime)`.
     * A duplicate attendance id (primary key) or a student id with no stored
     * student (foreign key) fails the insert and nothing changes.
     */
    method AddAttendanceRecord(record: AttendanceRecord) returns (ok: bool)
      requires Valid()
      modifies this
      ensures Valid()
      ensures ok <==> record.attendId !in old(AttendIds()) && record.studentId in old(StudentIds())
      ensures ok ==> attendance == old(attendance) + [AttendanceRow(record.attendId, record.studentId,
                                                                    record.recordedFrame, DateTimeText(record.attendDatetime))]
      ensures !ok ==> attendance == old(attendance)
      ensures students == old(students) && vec == old(vec) && nextRowid == old(nextRowid)
    {
      if record.attendId in AttendIds() || record.studentId !in StudentIds() {
        return false;
      }
      var text := DateTimeText(record.attendDatetime);
      attendance := attendance + [AttendanceRow(record.attendId, record.studentId, record.recordedFrame, text)];
      ok := true;
    }
  }
}
