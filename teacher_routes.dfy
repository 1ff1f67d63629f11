/** The teachers' router, Server/routes/teachers.js: the `isTeacher` gate and
    the handlers behind `[auth, isTeacher]`. Each handler is a specification
    function on the store (the reply and the store afterwards) and a method
    that updates the store in place as the route does: load the course,
    check, change the loaded document, save. A handler receives the id of the
    teacher the gates admitted (`req.user.id`). Dates in request bodies go
    through `castDate`, Mongoose's cast to Date, which yields None where the
    cast fails and makes `save` reject. */
module TeacherRoutes {
  import opened Common
  import opened JsText
  import opened Models
  import opened Store
  import opened Http
  import opened AuthMiddleware
  import opened AuthRoutes

  // ---------------------------------------------------------------------
  // The gates
  // ---------------------------------------------------------------------

  const TeachersOnly := Reply(403, Msg("Access denied. Teachers only."))

  /** Express's answer when a middleware throws, as `req.user.role` does when
      the verified token carried no `user`. */
  const MiddlewareThrew := Reply(500, Msg("Internal Server Error"))

  /** `isTeacher`: only a bound user whose role is 'teacher' passes; any other
      role, or none, is refused with 403, and nothing is changed either way. */
  function IsTeacher(user: Option<Principal>): (step: Step)
    ensures step == Next <==> user.Some? && user.value.role == Some("teacher")
    ensures user.Some? && step != Next ==> step == Respond(TeachersOnly)
    ensures user.None? ==> step == Respond(MiddlewareThrew)
  {
    match user
    case None => Respond(MiddlewareThrew)
    case Some(p) => if p.role != Some("teacher") then Respond(TeachersOnly) else Next
  }

  /** What `[auth, isTeacher]` lets through: the admitted teacher's id. */
  datatype Admission = Admit(teacherId: Id) | Refuse(reply: Reply)

  /** The two gates in the order the routes chain them. */
  function TeacherChain(headers: map<string, string>, verify: string -> Option<Claims>): (a: Admission)
    ensures a.Admit? <==>
              var token := HeaderValue(headers, TokenHeader);
              && token.Some? && token.value != ""
              && verify(token.value).Some?
              && verify(token.value).value.user.Some?
              && verify(token.value).value.user.value.role == Some("teacher")
    ensures a.Admit? ==> a.teacherId == verify(headers[TokenHeader]).value.user.value.id
    ensures a.Refuse? ==> a.reply.status in {401, 403, 500}
  {
    match Check(HeaderValue(headers, TokenHeader), verify)
    case Reject(reply) => Refuse(reply)
    case Bind(user) =>
      match IsTeacher(user)
      case Next => Admit(user.value.id)
      case Respond(reply) => Refuse(reply)
  }

  /** A token that verifies to what login signs carries no role, so it never
      gets past `isTeacher`: every teacher route answers 403 to it. */
  lemma LoginTokenNeverAdmitted(headers: map<string, string>, verify: string -> Option<Claims>, id: Id)
    requires TokenHeader in headers && headers[TokenHeader] != ""
    requires verify(headers[TokenHeader]) == Some(LoginClaims(id))
    ensures TeacherChain(headers, verify) == Refuse(TeachersOnly)
  {
  }

  // ---------------------------------------------------------------------
  // POST /courses: create a course
  // ---------------------------------------------------------------------

  /** Some stored course already has this code. */
  predicate CodeTaken(s: State, code: string) {
    exists d :: d in s.courses && s.courses[d].courseCode == code
  }

  /** Course creation. The course is built with the teacher as owner, the
      trimmed name and code, the default syllabus and empty lists, and saved
      under a fresh id with reply 201. A blank name or code (the `required`
      validators) or a code some course already has (the unique index) makes
      the save fail: 500, and the courses are as they were. */
  function CreateCourseSpec(s: State, teacherId: Id, name: string, courseCode: string): (o: Outcome)
    ensures o.reply.status == 201 <==> !IsBlank(name) && !IsBlank(courseCode) && !CodeTaken(s, Trim(courseCode))
    ensures o.reply.status != 201 ==> o == Outcome(s, ServerError)
    ensures o.reply.status == 201 ==>
              && o.state.users == s.users
              && o.state.nextId == s.nextId + 1
              && o.state.courses.Keys == s.courses.Keys + {s.nextId}
    ensures o.reply.status == 201 ==>
              var c := o.state.courses[s.nextId];
              && o.state.courses == s.courses[s.nextId := c]
              && c.teacher == teacherId && c.name == Trim(name) && c.courseCode == Trim(courseCode)
              && c.syllabus == DefaultSyllabus
              && c.students == [] && c.lectures == [] && c.resources == [] && c.quizzes == [] && c.homeworks == []
              && o.reply.body == CourseDoc(StoredCourse(s.nextId, c))
  {
    var course := NewCourse(name, courseCode, teacherId);
    NewCourseValidation(name, courseCode, teacherId);
    if !CourseSchemaOk(course) || CodeTaken(s, course.courseCode) then Outcome(s, ServerError)
    else Outcome(State(s.users, s.courses[s.nextId := course], s.nextId + 1),
                 Reply(201, CourseDoc(StoredCourse(s.nextId, course))))
  }

  lemma CreateCourseKeepsInv(s: State, teacherId: Id, name: string, courseCode: string)
    requires Inv(s)
    ensures Inv(CreateCourseSpec(s, teacherId, name, courseCode).state)
  {
    var o := CreateCourseSpec(s, teacherId, name, courseCode);
    if o.reply.status == 201 {
      var c := NewCourse(name, courseCode, teacherId);
      NewCourseValidation(name, courseCode, teacherId);
      assert !CodeTaken(s, c.courseCode);
      AddCourseKeepsInv(s, c);
    }
  }

  /** Two successful creations never share a code: a second creation with the
      same code fails and changes nothing. */
  lemma CreateCourseCodeOnce(s: State, t1: Id, t2: Id, n1: string, n2: string, code: string)
    requires CreateCourseSpec(s, t1, n1, code).reply.status == 201
    ensures var t := CreateCourseSpec(s, t1, n1, code).state;
      CreateCourseSpec(t, t2, n2, code) == Outcome(t, ServerError)
  {
    var t := CreateCourseSpec(s, t1, n1, code).state;
    assert s.nextId in t.courses && t.courses[s.nextId].courseCode == Trim(code);
  }

  method CreateCourse(db: Db, teacherId: Id, name: string, courseCode: string) returns (reply: Reply)
    requires db.Valid()
    modifies db
    ensures db.Valid()
    ensures Outcome(db.View(), reply) == CreateCourseSpec(old(db.View()), teacherId, name, courseCode)
  {
    var before := db.View();
    CreateCourseKeepsInv(before, teacherId, name, courseCode);
    var course := NewCourse(name, courseCode, teacherId);
    var id := db.nextId;
    ghost var o := CreateCourseSpec(before, teacherId, name, courseCode);
    assert o == if !CourseSchemaOk(course) || CodeTaken(before, course.courseCode) then Outcome(before, ServerError)
              else Outcome(State(before.users, before.courses[id := course], id + 1),
                           Reply(201, CourseDoc(StoredCourse(id, course))));
    if !CourseSchemaOk(course) || CodeTaken(before, course.courseCode) {
      return ServerError;
    }
    db.courses := db.courses[id := course];
    db.nextId := db.nextId + 1;
    reply := Reply(201, CourseDoc(StoredCourse(id, course)));
    assert db.View() == o.state;
  }

  // ---------------------------------------------------------------------
  // POST /courses/:courseId/enroll
  // ---------------------------------------------------------------------

  const StudentNotFound := Reply(404, Msg("Student not found"))

  const EnrollForbidden := Reply(403, Msg("You are not authorized to modify this course"))

  const Enrolled := Reply(200, Msg("Student enrolled successfully"))

  /** `User.findOne({ rollNo, role: 'student' })`. The user schema has no
      `role` path. When Mongoose's `strictQuery` option is on it strips that
      condition and the query is `findOne({ rollNo })`; when it is off,
      MongoDB receives the condition and no stored user, having no role,
      meets it. */
  function FindStudent(s: State, rollNo: string, strictQuery: bool): (r: Option<Id>)
    ensures r.Some? ==> strictQuery && r.value in s.users && s.users[r.value].rollNo == Trim(rollNo)
    ensures strictQuery ==> r == FindOne(s, rollNo)
  {
    if strictQuery then FindOne(s, rollNo) else None
  }

  /** `after` is `before` with `x` added as a set element: appended when
      absent, nothing done when present. */
  predicate AddedOnce<T(==)>(before: seq<T>, after: seq<T>, x: T) {
    after == if x in before then before else before + [x]
  }

  /** Enrolment. The checks come in a fixed order: an unknown course is 404,
      then a student the query does not find is 404, then a teacher who does
      not own the course is 403; none of them changes anything. Otherwise the
      course is added to the student's list and the student to the course's
      roster, each only when absent, and nothing else changes. */
  function EnrollSpec(s: State, teacherId: Id, courseId: Id, rollNo: string, strictQuery: bool): (o: Outcome)
    ensures courseId !in s.courses ==> o == Outcome(s, CourseNotFound)
    ensures courseId in s.courses && FindStudent(s, rollNo, strictQuery).None? ==> o == Outcome(s, StudentNotFound)
    ensures courseId in s.courses && FindStudent(s, rollNo, strictQuery).Some? && s.courses[courseId].teacher != teacherId
            ==> o == Outcome(s, EnrollForbidden)
    ensures o.reply.status == 200 <==>
              courseId in s.courses && FindStudent(s, rollNo, strictQuery).Some? && s.courses[courseId].teacher == teacherId
    ensures o.reply.status == 200 ==>
              && o.reply == Enrolled
              && o.state.nextId == s.nextId
              && o.state.users.Keys == s.users.Keys
              && o.state.courses.Keys == s.courses.Keys
    ensures o.reply.status == 200 ==>
              var sid := FindStudent(s, rollNo, strictQuery).value;
              var student := o.state.users[sid];
              var course := o.state.courses[courseId];
              && AddedOnce(s.users[sid].enrolledCourses, student.enrolledCourses, courseId)
              && AddedOnce(s.courses[courseId].students, course.students, sid)
              && o.state.users == s.users[sid := s.users[sid].(enrolledCourses := student.enrolledCourses)]
              && o.state.courses == s.courses[courseId := s.courses[courseId].(students := course.students)]
  {
    if courseId !in s.courses then Outcome(s, CourseNotFound)
    else match FindStudent(s, rollNo, strictQuery)
      case None => Outcome(s, StudentNotFound)
      case Some(sid) =>
        var course := s.courses[courseId];
        if course.teacher != teacherId then Outcome(s, EnrollForbidden)
        else Outcome(Enrol(s, sid, courseId), Enrolled)
  }

  /** Enrolling again changes nothing and gives the same reply. */
  lemma EnrollIdempotent(s: State, teacherId: Id, courseId: Id, rollNo: string, strictQuery: bool)
    ensures var o := EnrollSpec(s, teacherId, courseId, rollNo, strictQuery);
      EnrollSpec(o.state, teacherId, courseId, rollNo, strictQuery) == o
  {
    var o := EnrollSpec(s, teacherId, courseId, rollNo, strictQuery);
    if o.reply.status == 200 {
      var t := o.state;
      var sid := FindStudent(s, rollNo, strictQuery).value;
      assert t == Enrol(s, sid, courseId);
      FindUserSameRollNos(s.users, t.users, Trim(rollNo), 0, s.nextId);
      assert FindStudent(t, rollNo, strictQuery) == Some(sid);
      assert courseId in t.users[sid].enrolledCourses && sid in t.courses[courseId].students;
      assert Enrol(t, sid, courseId) == t;
    }
  }

  /** After a successful enrolment the course occurs exactly once in the
      student's list and the student exactly once on the course's roster. */
  lemma EnrollExactlyOnce(s: State, teacherId: Id, courseId: Id, rollNo: string, strictQuery: bool)
    requires Inv(s)
    requires EnrollSpec(s, teacherId, courseId, rollNo, strictQuery).reply.status == 200
    ensures var t := EnrollSpec(s, teacherId, courseId, rollNo, strictQuery).state;
      var sid := FindStudent(s, rollNo, strictQuery).value;
      && Count(t.users[sid].enrolledCourses, courseId) == 1
      && Count(t.courses[courseId].students, sid) == 1
  {
    InvParts(s);
    var t := EnrollSpec(s, teacherId, courseId, rollNo, strictQuery).state;
    var sid := FindStudent(s, rollNo, strictQuery).value;
    var before := s.users[sid].enrolledCourses;
    if courseId !in before {
      NoDupAppend(before, courseId);
    }
    CountNoDup(t.users[sid].enrolledCourses, courseId);
    var roster := s.courses[courseId].students;
    if sid !in roster {
      NoDupAppend(roster, sid);
    }
    CountNoDup(t.courses[courseId].students, sid);
  }

  /** Without `strictQuery` the student query never finds anyone, so no
      enrolment succeeds. */
  lemma EnrollNeedsStrictQuery(s: State, teacherId: Id, courseId: Id, rollNo: string)
    ensures EnrollSpec(s, teacherId, courseId, rollNo, false).reply.status != 200
    ensures EnrollSpec(s, teacherId, courseId, rollNo, false).state == s
  {
  }

  lemma EnrollKeepsInv(s: State, teacherId: Id, courseId: Id, rollNo: string, strictQuery: bool)
    requires Inv(s)
    ensures Inv(EnrollSpec(s, teacherId, courseId, rollNo, strictQuery).state)
  {
    var o := EnrollSpec(s, teacherId, courseId, rollNo, strictQuery);
    if o.reply.status == 200 {
      EnrolKeepsInv(s, FindStudent(s, rollNo, strictQuery).value, courseId);
    }
  }

  /** The route as written: two independent "push if absent" steps, each
      followed by a save of the document it changed. */
  method Enroll(db: Db, teacherId: Id, courseId: Id, rollNo: string, strictQuery: bool) returns (reply: Reply)
    requires db.Valid()
    modifies db
    ensures db.Valid()
    ensures Outcome(db.View(), reply) == EnrollSpec(old(db.View()), teacherId, courseId, rollNo, strictQuery)
  {
    var before := db.View();
    ghost var o := EnrollSpec(before, teacherId, courseId, rollNo, strictQuery);
    EnrollKeepsInv(before, teacherId, courseId, rollNo, strictQuery);
    if courseId !in db.courses {
      return CourseNotFound;
    }
    var course := db.courses[courseId];
    var found := FindStudent(before, rollNo, strictQuery);
    if found.None? {
      return StudentNotFound;
    }
    var sid := found.value;
    var student := db.users[sid];
    if course.teacher != teacherId {
      return EnrollForbidden;
    }
    assert o.state == Enrol(before, sid, courseId);
    if courseId !in student.enrolledCourses {
      student := student.(enrolledCourses := student.enrolledCourses + [courseId]);
      db.users := db.users[sid := student];
    }
    if sid !in course.students {
      course := course.(students := course.students + [sid]);
      db.courses := db.courses[courseId := course];
    }
    assert db.View() == o.state;
    reply := Enrolled;
  }

  // ---------------------------------------------------------------------
  // POST /courses/:courseId/homeworks
  // ---------------------------------------------------------------------

  const HomeworkFieldsMissing := Reply(400, Msg("Please provide title, description, and dueDate"))

  const HomeworkForbidden := Reply(403, Msg("You are not authorized to add homework to this course"))

  /** Adding a homework. A missing (empty) title, description or dueDate is
      400 before any lookup; then an unknown course is 404 and a course the
      teacher does not own is 403; a dueDate that cannot be cast to a Date
      fails the save with 500. None of these changes anything. Otherwise the
      new homework, under a fresh id and with no submissions, goes in front of
      the earlier ones, whose order is kept; nothing else in the store
      changes, and the reply (201) is the new list. */
  function AddHomeworkSpec(s: State, teacherId: Id, courseId: Id, title: string, description: string,
                           dueDate: string, castDate: string -> Option<Date>): (o: Outcome)
    ensures title == "" || description == "" || dueDate == "" ==> o == Outcome(s, HomeworkFieldsMissing)
    ensures title != "" && description != "" && dueDate != "" ==>
              && (courseId !in s.courses ==> o == Outcome(s, CourseNotFound))
              && (courseId in s.courses && s.courses[courseId].teacher != teacherId ==> o == Outcome(s, HomeworkForbidden))
    ensures o.reply.status == 201 <==>
              title != "" && description != "" && dueDate != "" && courseId in s.courses
              && s.courses[courseId].teacher == teacherId && castDate(dueDate).Some?
    ensures (title != "" && description != "" && dueDate != "" && courseId in s.courses
             && s.courses[courseId].teacher == teacherId && castDate(dueDate).None?) ==>
              o == Outcome(s, ServerError)
    ensures o.reply.status != 201 ==> o.state == s
    ensures o.reply.status == 201 ==> EditsOnly(s, o.state, courseId) && courseId in o.state.courses
    ensures o.reply.status == 201 ==>
              var before := s.courses[courseId];
              var after := o.state.courses[courseId];
              && o.state.nextId == s.nextId + 1
              && |after.homeworks| == |before.homeworks| + 1
              && after.homeworks[0] == Homework(s.nextId, title, description, castDate(dueDate).value, [])
              && after.homeworks[1..] == before.homeworks
              && after == before.(homeworks := after.homeworks)
              && o.reply == Reply(201, HomeworkList(after.homeworks))
  {
    if title == "" || description == "" || dueDate == "" then Outcome(s, HomeworkFieldsMissing)
    else if courseId !in s.courses then Outcome(s, CourseNotFound)
    else
      var course := s.courses[courseId];
      if course.teacher != teacherId then Outcome(s, HomeworkForbidden)
      else match castDate(dueDate)
        case None => Outcome(s, ServerError)
        case Some(due) =>
          var course' := course.(homeworks := [Homework(s.nextId, title, description, due, [])] + course.homeworks);
          Outcome(State(s.users, s.courses[courseId := course'], s.nextId + 1),
                  Reply(201, HomeworkList(course'.homeworks)))
  }

  lemma AddHomeworkKeepsInv(s: State, teacherId: Id, courseId: Id, title: string, description: string,
                            dueDate: string, castDate: string -> Option<Date>)
    requires Inv(s)
    ensures Inv(AddHomeworkSpec(s, teacherId, courseId, title, description, dueDate, castDate).state)
  {
    assert Holds(s, Ids);
    var o := AddHomeworkSpec(s, teacherId, courseId, title, description, dueDate, castDate);
    if o.reply.status == 201 {
      var c' := o.state.courses[courseId];
      assert forall i :: 1 <= i < |c'.homeworks| ==> c'.homeworks[i] == s.courses[courseId].homeworks[i - 1];
      CourseEditKeepsInv(s, courseId, c', s.nextId + 1);
      assert o.state == State(s.users, s.courses[courseId := c'], s.nextId + 1);
    }
  }

  method AddHomework(db: Db, teacherId: Id, courseId: Id, title: string, description: string,
                     dueDate: string, castDate: string -> Option<Date>) returns (reply: Reply)
    requires db.Valid()
    modifies db
    ensures db.Valid()
    ensures Outcome(db.View(), reply) ==
            AddHomeworkSpec(old(db.View()), teacherId, courseId, title, description, dueDate, castDate)
  {
    AddHomeworkKeepsInv(db.View(), teacherId, courseId, title, description, dueDate, castDate);
    if title == "" || description == "" || dueDate == "" {
      return HomeworkFieldsMissing;
    }
    if courseId !in db.courses {
      return CourseNotFound;
    }
    var course := db.courses[courseId];
    if course.teacher != teacherId {
      return HomeworkForbidden;
    }
    var due := castDate(dueDate);
    if due.None? {
      return ServerError;
    }
    course := course.(homeworks := [Homework(db.nextId, title, description, due.value, [])] + course.homeworks);
    db.courses := db.courses[courseId := course];
    db.nextId := db.nextId + 1;
    reply := Reply(201, HomeworkList(course.homeworks));
  }

  // ---------------------------------------------------------------------
  // POST /courses/:courseId/lectures
  // ---------------------------------------------------------------------

  const LectureFieldsMissing := Reply(400, Msg("Please provide title, date, and notification"))

  const NotAuthorized := Reply(403, Msg("Not authorized"))

  /** Adding a lecture: the same checks in the same order as for a homework,
      then the lecture goes in front of the earlier ones, whose order is kept,
      and nothing else changes; the reply (201) is the new list. */
  function AddLectureSpec(s: State, teacherId: Id, courseId: Id, title: string, date: string,
                          notification: string, castDate: string -> Option<Date>): (o: Outcome)
    ensures title == "" || date == "" || notification == "" ==> o == Outcome(s, LectureFieldsMissing)
    ensures title != "" && date != "" && notification != "" ==>
              && (courseId !in s.courses ==> o == Outcome(s, CourseNotFound))
              && (courseId in s.courses && s.courses[courseId].teacher != teacherId ==> o == Outcome(s, NotAuthorized))
    ensures o.reply.status == 201 <==>
              title != "" && date != "" && notification != "" && courseId in s.courses
              && s.courses[courseId].teacher == teacherId && castDate(date).Some?
    ensures (title != "" && date != "" && notification != "" && courseId in s.courses
             && s.courses[courseId].teacher == teacherId && castDate(date).None?) ==>
              o == Outcome(s, ServerError)
    ensures o.reply.status != 201 ==> o.state == s
    ensures o.reply.status == 201 ==> EditsOnly(s, o.state, courseId) && courseId in o.state.courses
    ensures o.reply.status == 201 ==>
              var before := s.courses[courseId];
              var after := o.state.courses[courseId];
              && o.state.nextId == s.nextId
              && |after.lectures| == |before.lectures| + 1
              && after.lectures[0] == Lecture(title, castDate(date).value, notification)
              && after.lectures[1..] == before.lectures
              && after == before.(lectures := after.lectures)
              && o.reply == Reply(201, LectureList(after.lectures))
  {
    if title == "" || date == "" || notification == "" then Outcome(s, LectureFieldsMissing)
    else if courseId !in s.courses then Outcome(s, CourseNotFound)
    else
      var course := s.courses[courseId];
      if course.teacher != teacherId then Outcome(s, NotAuthorized)
      else match castDate(date)
        case None => Outcome(s, ServerError)
        case Some(when) =>
          var course' := course.(lectures := [Lecture(title, when, notification)] + course.lectures);
          Outcome(State(s.users, s.courses[courseId := course'], s.nextId), Reply(201, LectureList(course'.lectures)))
  }

  lemma AddLectureKeepsInv(s: State, teacherId: Id, courseId: Id, title: string, date: string,
                           notification: string, castDate: string -> Option<Date>)
    requires Inv(s)
    ensures Inv(AddLectureSpec(s, teacherId, courseId, title, date, notification, castDate).state)
  {
    assert Holds(s, Ids);
    var o := AddLectureSpec(s, teacherId, courseId, title, date, notification, castDate);
    if o.reply.status == 201 {
      CourseEditKeepsInv(s, courseId, o.state.courses[courseId], s.nextId);
      assert o.state == State(s.users, s.courses[courseId := o.state.courses[courseId]], s.nextId);
    }
  }

  method AddLecture(db: Db, teacherId: Id, courseId: Id, title: string, date: string,
                    notification: string, castDate: string -> Option<Date>) returns (reply: Reply)
    requires db.Valid()
    modifies db
    ensures db.Valid()
    ensures Outcome(db.View(), reply) ==
            AddLectureSpec(old(db.View()), teacherId, courseId, title, date, notification, castDate)
  {
    AddLectureKeepsInv(db.View(), teacherId, courseId, title, date, notification, castDate);
    if title == "" || date == "" || notification == "" {
      return LectureFieldsMissing;
    }
    if courseId !in db.courses {
      return CourseNotFound;
    }
    var course := db.courses[courseId];
    if course.teacher != teacherId {
      return NotAuthorized;
    }
    var when := castDate(date);
    if when.None? {
      return ServerError;
    }
    course := course.(lectures := [Lecture(title, when.value, notification)] + course.lectures);
    db.courses := db.courses[courseId := course];
    reply := Reply(201, LectureList(course.lectures));
  }

  // ---------------------------------------------------------------------
  // PUT /courses/:courseId/syllabus
  // ---------------------------------------------------------------------

  const SyllabusMissing := Reply(400, Msg("Syllabus content is required"))

  /** Setting the syllabus. The body's `syllabus` is None when it is not a
      string; that is 400 before any lookup (an empty string is accepted).
      Then 404 and 403 as for every course edit. Otherwise the syllabus is
      replaced wholesale, nothing else changes, and the reply (200) echoes it. */
  function SetSyllabusSpec(s: State, teacherId: Id, courseId: Id, syllabus: Option<string>): (o: Outcome)
    ensures syllabus.None? ==> o == Outcome(s, SyllabusMissing)
    ensures syllabus.Some? ==>
              && (courseId !in s.courses ==> o == Outcome(s, CourseNotFound))
              && (courseId in s.courses && s.courses[courseId].teacher != teacherId ==> o == Outcome(s, NotAuthorized))
    ensures o.reply.status == 200 <==>
              syllabus.Some? && courseId in s.courses && s.courses[courseId].teacher == teacherId
    ensures o.reply.status != 200 ==> o.state == s
    ensures o.reply.status == 200 ==> EditsOnly(s, o.state, courseId) && courseId in o.state.courses
    ensures o.reply.status == 200 ==>
              var after := o.state.courses[courseId];
              && o.state.nextId == s.nextId
              && after == s.courses[courseId].(syllabus := syllabus.value)
              && o.reply == Reply(200, SyllabusDoc(syllabus.value))
  {
    if syllabus.None? then Outcome(s, SyllabusMissing)
    else if courseId !in s.courses then Outcome(s, CourseNotFound)
    else
      var course := s.courses[courseId];
      if course.teacher != teacherId then Outcome(s, NotAuthorized)
      else
        var course' := course.(syllabus := syllabus.value);
        Outcome(State(s.users, s.courses[courseId := course'], s.nextId), Reply(200, SyllabusDoc(course'.syllabus)))
  }

  /** Setting the syllabus twice is setting it to the second text. */
  lemma SetSyllabusLastWins(s: State, teacherId: Id, courseId: Id, first: string, second: string)
    requires SetSyllabusSpec(s, teacherId, courseId, Some(first)).reply.status == 200
    ensures var t := SetSyllabusSpec(s, teacherId, courseId, Some(first)).state;
      SetSyllabusSpec(t, teacherId, courseId, Some(second)) == SetSyllabusSpec(s, teacherId, courseId, Some(second))
  {
    var t := SetSyllabusSpec(s, teacherId, courseId, Some(first)).state;
    var c := s.courses[courseId];
    assert t.courses[courseId].(syllabus := second) == c.(syllabus := second);
    assert t.courses[courseId := c.(syllabus := second)] == s.courses[courseId := c.(syllabus := second)];
  }

  lemma SetSyllabusKeepsInv(s: State, teacherId: Id, courseId: Id, syllabus: Option<string>)
    requires Inv(s)
    ensures Inv(SetSyllabusSpec(s, teacherId, courseId, syllabus).state)
  {
    assert Holds(s, Ids);
    var o := SetSyllabusSpec(s, teacherId, courseId, syllabus);
    if o.reply.status == 200 {
      CourseEditKeepsInv(s, courseId, o.state.courses[courseId], s.nextId);
      assert o.state == State(s.users, s.courses[courseId := o.state.courses[courseId]], s.nextId);
    }
  }

  method SetSyllabus(db: Db, teacherId: Id, courseId: Id, syllabus: Option<string>) returns (reply: Reply)
    requires db.Valid()
    modifies db
    ensures db.Valid()
    ensures Outcome(db.View(), reply) == SetSyllabusSpec(old(db.View()), teacherId, courseId, syllabus)
  {
    SetSyllabusKeepsInv(db.View(), teacherId, courseId, syllabus);
    if syllabus.None? {
      return SyllabusMissing;
    }
    if courseId !in db.courses {
      return CourseNotFound;
    }
    var course := db.courses[courseId];
    if course.teacher != teacherId {
      return NotAuthorized;
    }
    course := course.(syllabus := syllabus.value);
    db.courses := db.courses[courseId := course];
    reply := Reply(200, SyllabusDoc(course.syllabus));
  }

  // ---------------------------------------------------------------------
  // POST /courses/:courseId/resources
  // ---------------------------------------------------------------------

  const ResourceFieldsMissing := Reply(400, Msg("Please provide a name and a url"))

  /** Adding a resource: 400 for a missing name or url before any lookup, then
      404 and 403; otherwise the resource goes after the earlier ones and
      nothing else changes; the reply (201) is the new list. */
  function AddResourceSpec(s: State, teacherId: Id, courseId: Id, name: string, url: string): (o: Outcome)
    ensures name == "" || url == "" ==> o == Outcome(s, ResourceFieldsMissing)
    ensures name != "" && url != "" ==>
              && (courseId !in s.courses ==> o == Outcome(s, CourseNotFound))
              && (courseId in s.courses && s.courses[courseId].teacher != teacherId ==> o == Outcome(s, NotAuthorized))
    ensures o.reply.status == 201 <==>
              name != "" && url != "" && courseId in s.courses && s.courses[courseId].teacher == teacherId
    ensures o.reply.status != 201 ==> o.state == s
    ensures o.reply.status == 201 ==> EditsOnly(s, o.state, courseId) && courseId in o.state.courses
    ensures o.reply.status == 201 ==>
              var before := s.courses[courseId];
              var after := o.state.courses[courseId];
              && o.state.nextId == s.nextId
              && |after.resources| == |before.resources| + 1
              && after.resources[..|before.resources|] == before.resources
              && after.resources[|before.resources|] == Resource(name, url)
              && after == before.(resources := after.resources)
              && o.reply == Reply(201, ResourceList(after.resources))
  {
    if name == "" || url == "" then Outcome(s, ResourceFieldsMissing)
    else if courseId !in s.courses then Outcome(s, CourseNotFound)
    else
      var course := s.courses[courseId];
      if course.teacher != teacherId then Outcome(s, NotAuthorized)
      else
        var course' := course.(resources := course.resources + [Resource(name, url)]);
        Outcome(State(s.users, s.courses[courseId := course'], s.nextId), Reply(201, ResourceList(course'.resources)))
  }

  lemma AddResourceKeepsInv(s: State, teacherId: Id, courseId: Id, name: string, url: string)
    requires Inv(s)
    ensures Inv(AddResourceSpec(s, teacherId, courseId, name, url).state)
  {
    assert Holds(s, Ids);
    var o := AddResourceSpec(s, teacherId, courseId, name, url);
    if o.reply.status == 201 {
      CourseEditKeepsInv(s, courseId, o.state.courses[courseId], s.nextId);
      assert o.state == State(s.users, s.courses[courseId := o.state.courses[courseId]], s.nextId);
    }
  }

  method AddResource(db: Db, teacherId: Id, courseId: Id, name: string, url: string) returns (reply: Reply)
    requires db.Valid()
    modifies db
    ensures db.Valid()
    ensures Outcome(db.View(), reply) == AddResourceSpec(old(db.View()), teacherId, courseId, name, url)
  {
    AddResourceKeepsInv(db.View(), teacherId, courseId, name, url);
    if name == "" || url == "" {
      return ResourceFieldsMissing;
    }
    if courseId !in db.courses {
      return CourseNotFound;
    }
    var course := db.courses[courseId];
    if course.teacher != teacherId {
      return NotAuthorized;
    }
    course := course.(resources := course.resources + [Resource(name, url)]);
    db.courses := db.courses[courseId := course];
    reply := Reply(201, ResourceList(course.resources));
  }

  // ---------------------------------------------------------------------
  // POST /courses/:courseId/quizzes
  // ---------------------------------------------------------------------

  const QuizFieldsMissing := Reply(400, Msg("Please provide title, dueDate, and at least one question"))

  /** Adding a quiz. The body's `questions` is None when it is not an array.
      A missing title or dueDate, a non-array or an empty array is 400 before
      any lookup; then 404 and 403; a dueDate that cannot be cast fails the
      save with 500. Otherwise the quiz, with its questions in order, goes
      after the earlier ones and nothing else changes; the reply (201) is the
      new list. */
  function AddQuizSpec(s: State, teacherId: Id, courseId: Id, title: string, dueDate: string,
                       questions: Option<seq<Question>>, castDate: string -> Option<Date>): (o: Outcome)
    ensures title == "" || dueDate == "" || questions.None? || questions.value == [] ==> o == Outcome(s, QuizFieldsMissing)
    ensures title != "" && dueDate != "" && questions.Some? && questions.value != [] ==>
              && (courseId !in s.courses ==> o == Outcome(s, CourseNotFound))
              && (courseId in s.courses && s.courses[courseId].teacher != teacherId ==> o == Outcome(s, NotAuthorized))
    ensures o.reply.status == 201 <==>
              title != "" && dueDate != "" && questions.Some? && questions.value != [] && courseId in s.courses
              && s.courses[courseId].teacher == teacherId && castDate(dueDate).Some?
    ensures (title != "" && dueDate != "" && questions.Some? && questions.value != [] && courseId in s.courses
             && s.courses[courseId].teacher == teacherId && castDate(dueDate).None?) ==>
              o == Outcome(s, ServerError)
    ensures o.reply.status != 201 ==> o.state == s
    ensures o.reply.status == 201 ==> EditsOnly(s, o.state, courseId) && courseId in o.state.courses
    ensures o.reply.status == 201 ==>
              var before := s.courses[courseId];
              var after := o.state.courses[courseId];
              && o.state.nextId == s.nextId
              && |after.quizzes| == |before.quizzes| + 1
              && after.quizzes[..|before.quizzes|] == before.quizzes
              && after.quizzes[|before.quizzes|] == Quiz(title, castDate(dueDate).value, questions.value)
              && after == before.(quizzes := after.quizzes)
              && o.reply == Reply(201, QuizList(after.quizzes))
  {
    if title == "" || dueDate == "" || questions.None? || questions.value == [] then Outcome(s, QuizFieldsMissing)
    else if courseId !in s.courses then Outcome(s, CourseNotFound)
    else
      var course := s.courses[courseId];
      if course.teacher != teacherId then Outcome(s, NotAuthorized)
      else match castDate(dueDate)
        case None => Outcome(s, ServerError)
        case Some(due) =>
          var course' := course.(quizzes := course.quizzes + [Quiz(title, due, questions.value)]);
          Outcome(State(s.users, s.courses[courseId := course'], s.nextId), Reply(201, QuizList(course'.quizzes)))
  }

  lemma AddQuizKeepsInv(s: State, teacherId: Id, courseId: Id, title: string, dueDate: string,
                        questions: Option<seq<Question>>, castDate: string -> Option<Date>)
    requires Inv(s)
    ensures Inv(AddQuizSpec(s, teacherId, courseId, title, dueDate, questions, castDate).state)
  {
    assert Holds(s, Ids);
    var o := AddQuizSpec(s, teacherId, courseId, title, dueDate, questions, castDate);
    if o.reply.status == 201 {
      CourseEditKeepsInv(s, courseId, o.state.courses[courseId], s.nextId);
      assert o.state == State(s.users, s.courses[courseId := o.state.courses[courseId]], s.nextId);
    }
  }

  method AddQuiz(db: Db, teacherId: Id, courseId: Id, title: string, dueDate: string,
                 questions: Option<seq<Question>>, castDate: string -> Option<Date>) returns (reply: Reply)
    requires db.Valid()
    modifies db
    ensures db.Valid()
    ensures Outcome(db.View(), reply) ==
            AddQuizSpec(old(db.View()), teacherId, courseId, title, dueDate, questions, castDate)
  {
    AddQuizKeepsInv(db.View(), teacherId, courseId, title, dueDate, questions, castDate);
    if title == "" || dueDate == "" || questions.None? || questions.value == [] {
      return QuizFieldsMissing;
    }
    if courseId !in db.courses {
      return CourseNotFound;
    }
    var course := db.courses[courseId];
    if course.teacher != teacherId {
      return NotAuthorized;
    }
    var due := castDate(dueDate);
    if due.None? {
      return ServerError;
    }
    course := course.(quizzes := course.quizzes + [Quiz(title, due.value, questions.value)]);
    db.courses := db.courses[courseId := course];
    reply := Reply(201, QuizList(course.quizzes));
  }

  // ---------------------------------------------------------------------
  // Ownership, across all course edits
  // ---------------------------------------------------------------------

  /** A teacher who does not own an existing course gets 403 from every
      handler that edits it, once the request body passes validation, and the
      store is left as it was. */
  lemma NonOwnerChangesNothing(s: State, teacherId: Id, courseId: Id, rollNo: string, strictQuery: bool,
                               title: string, text: string, date: string, name: string, url: string,
                               questions: seq<Question>, castDate: string -> Option<Date>)
    requires courseId in s.courses && s.courses[courseId].teacher != teacherId
    requires title != "" && text != "" && date != "" && name != "" && url != "" && questions != []
    requires FindStudent(s, rollNo, strictQuery).Some?
    ensures EnrollSpec(s, teacherId, courseId, rollNo, strictQuery) == Outcome(s, EnrollForbidden)
    ensures AddHomeworkSpec(s, teacherId, courseId, title, text, date, castDate) == Outcome(s, HomeworkForbidden)
    ensures AddLectureSpec(s, teacherId, courseId, title, date, text, castDate) == Outcome(s, NotAuthorized)
    ensures SetSyllabusSpec(s, teacherId, courseId, Some(text)) == Outcome(s, NotAuthorized)
    ensures AddResourceSpec(s, teacherId, courseId, name, url) == Outcome(s, NotAuthorized)
    ensures AddQuizSpec(s, teacherId, courseId, title, date, Some(questions), castDate) == Outcome(s, NotAuthorized)
  {
  }

  // ---------------------------------------------------------------------
  // GET /my-courses
  // ---------------------------------------------------------------------

  /** The listed courses, each with its roster populated. */
  function Describe(s: State, ids: seq<Id>): (r: seq<TaughtCourse>)
    requires forall k :: 0 <= k < |ids| ==> ids[k] in s.courses
    ensures |r| == |ids|
    ensures forall k :: 0 <= k < |r| ==>
              r[k] == TaughtCourse(ids[k], s.courses[ids[k]], PopulateRoster(s.users, s.courses[ids[k]].students))
  {
    if ids == [] then []
    else [TaughtCourse(ids[0], s.courses[ids[0]], PopulateRoster(s.users, s.courses[ids[0]].students))]
         + Describe(s, ids[1..])
  }

  /** `Course.find({ teacher }).populate('students', 'rollNo')`: every course
      the teacher owns, oldest first, each with its students' roll numbers;
      nothing changes. */
  function TeacherCourses(s: State, teacherId: Id): (r: Reply)
    ensures r.status == 200 && r.body.TaughtList?
    ensures forall k :: 0 <= k < |r.body.taught| ==>
              var e := r.body.taught[k];
              e.id in s.courses && e.course == s.courses[e.id] && e.course.teacher == teacherId
              && e.roster == PopulateRoster(s.users, e.course.students)
    ensures forall j, k :: 0 <= j < k < |r.body.taught| ==> r.body.taught[j].id < r.body.taught[k].id
  {
    Reply(200, TaughtList(Describe(s, TaughtBy(s.courses, teacherId, 0, s.nextId))))
  }

  /** The list leaves out none of the teacher's courses. */
  lemma TeacherCoursesComplete(s: State, teacherId: Id, c: Id)
    requires IdsIssued(s) && c in s.courses && s.courses[c].teacher == teacherId
    ensures var list := TeacherCourses(s, teacherId).body.taught;
      exists k :: 0 <= k < |list| && list[k].id == c
  {
    var ids := TaughtBy(s.courses, teacherId, 0, s.nextId);
    var list := Describe(s, ids);
    assert TeacherCourses(s, teacherId).body.taught == list;
    TaughtByComplete(s.courses, teacherId, 0, s.nextId, c);
    var k :| 0 <= k < |ids| && ids[k] == c;
    assert list[k].id == c;
  }

  /** The course holding the most recently issued id, when the teacher owns
      it, closes the teacher's list. */
  lemma NewestListedLast(s: State, teacherId: Id)
    requires IdsIssued(s) && s.nextId > 0
    requires s.nextId - 1 in s.courses && s.courses[s.nextId - 1].teacher == teacherId
    ensures var list := TeacherCourses(s, teacherId).body.taught;
      |list| > 0 && list[|list| - 1].id == s.nextId - 1
  {
    var ids := TaughtBy(s.courses, teacherId, 0, s.nextId);
    TaughtByComplete(s.courses, teacherId, 0, s.nextId, s.nextId - 1);
    var k :| 0 <= k < |ids| && ids[k] == s.nextId - 1;
    assert ids[|ids| - 1] < s.nextId;
    assert k == |ids| - 1;
    var list := Describe(s, ids);
    assert TeacherCourses(s, teacherId).body.taught == list;
    assert list[|list| - 1].id == ids[|ids| - 1];
  }

  /** A course just created is the last one in its teacher's list. */
  lemma CreatedCourseListedLast(s: State, teacherId: Id, name: string, courseCode: string)
    requires Inv(s)
    requires CreateCourseSpec(s, teacherId, name, courseCode).reply.status == 201
    ensures var list := TeacherCourses(CreateCourseSpec(s, teacherId, name, courseCode).state, teacherId).body.taught;
      |list| > 0 && list[|list| - 1].id == s.nextId
  {
    var t := CreateCourseSpec(s, teacherId, name, courseCode).state;
    CreateCourseKeepsInv(s, teacherId, name, courseCode);
    InvParts(t);
    NewestListedLast(t, teacherId);
  }
}
