/** The record shapes the database layer accepts and returns. */
module DbModels {
  import opened DateTimes

  /** A student as enrolled: identity, display data and the face embedding. */
  datatype Student = Student(
    studentId: string,
    studentName: string,
    studentImagePath: string,
    studentFaceEmbedding: seq<real>)

  /** Only the human-readable part of a student, as listings return it. */
  datatype StudentRecord = StudentRecord(
    studentId: string,
    studentName: string,
    studentImagePath: string)

  /** A nearest-neighbour search hit: the student, its stored embedding and the score. */
  datatype StudentResult = StudentResult(
    studentId: string,
    studentName: string,
    studentImagePath: string,
    studentFaceEmbedding: seq<real>,
    similarityScore: real)

  /** One attendance event of a student. */
  datatype AttendanceRecord = AttendanceRecord(
    attendId: string,
    studentId: string,
    recordedFrame: string,
    attendDatetime: PyDateTime)
}
