/** The value classes of the Luther database loader. Every field is a Java
    String, which may be null: None stands for null. Field order follows the
    constructors. */
module LutherRecords {
  import opened Wrappers

  datatype Departments = Departments(
    dName: Option<string>,
    dHead: Option<string>,
    dHeadEmail: Option<string>,
    dHeadOffice: Option<string>,
    dHeadPhone: Option<string>)

  datatype Faculty = Faculty(name: string, office: string, extension: string, username: string)

  /** Course(Name, Title, Professor, Credits, Day, Location, Start, End). */
  datatype Course = Course(
    name: string,
    title: string,
    professor: string,
    credits: string,
    day: string,
    location: string,
    start: string,
    end: string)

  datatype Section = Section(name: string, title: string, student: string)

  datatype Enrollment = Enrollment(student: string, section: string, grade: string)
}
