/** The `StudentGrade` record of backend/models/grades.go. */
module Models {

  /** One row of the `student_grades` table. */
  datatype StudentGrade = StudentGrade(id: string, subject: string, grade: int, studentName: string)
}
