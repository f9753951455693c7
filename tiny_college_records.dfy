/** The value classes of the document-store college, field order as in
    their constructors. Every field is a String read from a CSV cell. */
module TinyCollegeRecords {

  datatype Course = Course(cId: string, title: string, deptId: string)

  datatype Department = Department(dId: string, dName: string)

  datatype Enroll = Enroll(eId: string, studentId: string, sectionId: string, grade: string)

  datatype Section = Section(sectId: string, courseId: string, prof: string, yearOffered: string)

  datatype Student = Student(sId: string, sName: string, gradYear: string, majorId: string)
}
