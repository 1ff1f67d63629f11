/** The two document schemas: Server/models/Course.js (a course with its
    embedded lectures, resources, quizzes and homeworks) and
    Server/models/User.js (a user with a roll number, a password hash and the
    list of courses the user is enrolled in). */
module Models {
  import opened Common
  import opened JsText

  /** One student's hand-in for a homework. */
  datatype Submission = Submission(studentId: Id, fileUrl: string, submittedAt: Date)

  /** A homework owns its own list of submissions. Its id is the sub-document
      id that the submit route looks the homework up by. */
  datatype Homework = Homework(id: Id, title: string, description: string, dueDate: Date,
                               submissions: seq<Submission>)

  datatype Question = Question(questionText: string, options: seq<string>, correctAnswer: string)

  /** A quiz owns an ordered list of questions; there is no answer or grade. */
  datatype Quiz = Quiz(title: string, dueDate: Date, questions: seq<Question>)

  datatype Lecture = Lecture(title: string, date: Date, notification: string)

  datatype Resource = Resource(name: string, url: string)

  datatype Course = Course(
    name: string,
    courseCode: string,
    teacher: Id,
    students: seq<Id>,
    lectures: seq<Lecture>,
    syllabus: string,
    resources: seq<Resource>,
    quizzes: seq<Quiz>,
    homeworks: seq<Homework>)

  /** The schema declares no role path, so no role is ever stored on a user. */
  datatype User = User(rollNo: string, password: string, enrolledCourses: seq<Id>)

  const DefaultSyllabus := "Syllabus not available yet."

  /** Mongoose's `required` check on a String path: present and not empty. */
  predicate Present(s: string) { s != "" }

  /** A course document as `new Course({name, courseCode, teacher})` builds it:
      the trim setter has run on name and courseCode, the syllabus holds its
      default text and every list starts empty. */
  function NewCourse(name: string, courseCode: string, teacher: Id): (c: Course)
    ensures c.name == Trim(name) && c.courseCode == Trim(courseCode)
    ensures c.teacher == teacher && c.syllabus == DefaultSyllabus
    ensures c.students == [] && c.lectures == [] && c.resources == [] && c.quizzes == [] && c.homeworks == []
  {
    Course(Trim(name), Trim(courseCode), teacher, [], [], DefaultSyllabus, [], [], [])
  }

  /** The document-level validators of the course schema: name and courseCode
      are required and stored trimmed (the teacher reference is always set). */
  predicate CourseSchemaOk(c: Course) {
    Present(c.name) && Present(c.courseCode) && IsTrimmed(c.name) && IsTrimmed(c.courseCode)
  }

  /** A freshly built course passes validation exactly when neither name nor
      courseCode is blank. */
  lemma NewCourseValidation(name: string, courseCode: string, teacher: Id)
    ensures CourseSchemaOk(NewCourse(name, courseCode, teacher)) <==> !IsBlank(name) && !IsBlank(courseCode)
  {
  }

  /** The document-level validators of the user schema: rollNo required and
      trimmed, password required. */
  predicate UserSchemaOk(u: User) {
    Present(u.rollNo) && IsTrimmed(u.rollNo) && Present(u.password)
  }
}
