/** The students' course routes, Server/routes/courses.js: the list of a
    user's courses, one course's details, and handing in a homework. None of
    them sits behind the token gate; the user id is whatever the request
    carries. */
module CourseRoutes {
  import opened Common
  import opened Models
  import opened Store
  import opened Http
  import TeacherRoutes

  const UserNotFound := Reply(404, Msg("User not found"))

  const HomeworkNotFound := Reply(404, Msg("Homework not found"))

  const Submitted := Reply(200, Msg("Homework submitted successfully"))

  // ---------------------------------------------------------------------
  // GET /my-courses/:userId
  // ---------------------------------------------------------------------

  /** `User.findById(userId).populate('enrolledCourses')`: 404 for an unknown
      user, otherwise the user's courses as documents, in the order of the
      user's list, leaving out references to courses that are gone. */
  function MyCourses(s: State, userId: Id): (r: Reply)
    ensures userId !in s.users <==> r == UserNotFound
    ensures userId in s.users ==>
              && r.status == 200 && r.body.CourseList?
              && |r.body.docs| <= |s.users[userId].enrolledCourses|
              && forall k :: 0 <= k < |r.body.docs| ==>
                   var d := r.body.docs[k];
                   d.id in s.users[userId].enrolledCourses && d.id in s.courses && d.course == s.courses[d.id]
  {
    if userId !in s.users then UserNotFound
    else Reply(200, CourseList(PopulateCourses(s.courses, s.users[userId].enrolledCourses)))
  }

  /** In a consistent store nothing is dropped: the list is the user's list,
      entry by entry, and a course is on it exactly when the user is on the
      course's roster. */
  lemma MyCoursesMatchRosters(s: State, userId: Id)
    requires Inv(s) && userId in s.users
    ensures var docs := MyCourses(s, userId).body.docs;
      && |docs| == |s.users[userId].enrolledCourses|
      && (forall k :: 0 <= k < |docs| ==> docs[k].id == s.users[userId].enrolledCourses[k])
      && forall c :: c in s.courses ==>
           ((exists k :: 0 <= k < |docs| && docs[k].id == c) <==> userId in s.courses[c].students)
  {
    InvParts(s);
    var ids := s.users[userId].enrolledCourses;
    var docs := MyCourses(s, userId).body.docs;
    assert forall k :: 0 <= k < |ids| ==> ids[k] in s.courses;
    PopulateCoursesKeepsAll(s.courses, ids);
    forall c | c in s.courses
      ensures (exists k :: 0 <= k < |docs| && docs[k].id == c) <==> userId in s.courses[c].students
    {
      if userId in s.courses[c].students {
        assert c in ids;
        var k :| 0 <= k < |ids| && ids[k] == c;
        assert docs[k].id == c;
      }
    }
  }

  /** After a successful enrolment the course shows up in the student's
      course list. */
  lemma EnrolledCourseListed(s: State, teacherId: Id, courseId: Id, rollNo: string, strictQuery: bool)
    requires Inv(s)
    requires TeacherRoutes.EnrollSpec(s, teacherId, courseId, rollNo, strictQuery).reply.status == 200
    ensures var t := TeacherRoutes.EnrollSpec(s, teacherId, courseId, rollNo, strictQuery).state;
      var sid := TeacherRoutes.FindStudent(s, rollNo, strictQuery).value;
      var docs := MyCourses(t, sid).body.docs;
      exists k :: 0 <= k < |docs| && docs[k].id == courseId
  {
    var t := TeacherRoutes.EnrollSpec(s, teacherId, courseId, rollNo, strictQuery).state;
    var sid := TeacherRoutes.FindStudent(s, rollNo, strictQuery).value;
    TeacherRoutes.EnrollKeepsInv(s, teacherId, courseId, rollNo, strictQuery);
    assert t == Enrol(s, sid, courseId);
    assert sid in t.users && courseId in t.courses;
    assert sid in t.courses[courseId].students;
    MyCoursesMatchRosters(t, sid);
  }

  // ---------------------------------------------------------------------
  // GET /:courseId
  // ---------------------------------------------------------------------

  /** `Course.findById(courseId)`: the stored course, or 404. */
  function GetCourse(s: State, courseId: Id): (r: Reply)
    ensures courseId !in s.courses <==> r == CourseNotFound
    ensures courseId in s.courses ==> r == Reply(200, CourseDoc(StoredCourse(courseId, s.courses[courseId])))
  {
    if courseId !in s.courses then CourseNotFound
    else Reply(200, CourseDoc(StoredCourse(courseId, s.courses[courseId])))
  }

  /** Reading a course back right after creating it gives the document the
      creation answered with. */
  lemma CreatedCourseReadBack(s: State, teacherId: Id, name: string, courseCode: string)
    requires TeacherRoutes.CreateCourseSpec(s, teacherId, name, courseCode).reply.status == 201
    ensures var o := TeacherRoutes.CreateCourseSpec(s, teacherId, name, courseCode);
      GetCourse(o.state, s.nextId) == Reply(200, o.reply.body)
  {
    var o := TeacherRoutes.CreateCourseSpec(s, teacherId, name, courseCode);
    assert s.nextId in o.state.courses;
  }

  /** A course read right after a successful teacher edit is the course as
      it was with just the edited list or text replaced by what the edit
      replied with; every other course reads as before. */
  lemma TeacherEditsReadBack(s: State, teacherId: Id, courseId: Id, other: Id,
                             title: string, text: string, date: string, name: string, url: string,
                             syllabus: Option<string>, questions: Option<seq<Question>>,
                             castDate: string -> Option<Date>)
    requires other != courseId
    ensures var o := TeacherRoutes.AddHomeworkSpec(s, teacherId, courseId, title, text, date, castDate);
      o.reply.status == 201 ==>
        && GetCourse(o.state, courseId)
           == Reply(200, CourseDoc(StoredCourse(courseId, s.courses[courseId].(homeworks := o.reply.body.homeworks))))
        && GetCourse(o.state, other) == GetCourse(s, other)
    ensures var o := TeacherRoutes.AddLectureSpec(s, teacherId, courseId, title, date, text, castDate);
      o.reply.status == 201 ==>
        && GetCourse(o.state, courseId)
           == Reply(200, CourseDoc(StoredCourse(courseId, s.courses[courseId].(lectures := o.reply.body.lectures))))
        && GetCourse(o.state, other) == GetCourse(s, other)
    ensures var o := TeacherRoutes.SetSyllabusSpec(s, teacherId, courseId, syllabus);
      o.reply.status == 200 ==>
        && GetCourse(o.state, courseId)
           == Reply(200, CourseDoc(StoredCourse(courseId, s.courses[courseId].(syllabus := o.reply.body.syllabus))))
        && GetCourse(o.state, other) == GetCourse(s, other)
    ensures var o := TeacherRoutes.AddResourceSpec(s, teacherId, courseId, name, url);
      o.reply.status == 201 ==>
        && GetCourse(o.state, courseId)
           == Reply(200, CourseDoc(StoredCourse(courseId, s.courses[courseId].(resources := o.reply.body.resources))))
        && GetCourse(o.state, other) == GetCourse(s, other)
    ensures var o := TeacherRoutes.AddQuizSpec(s, teacherId, courseId, title, date, questions, castDate);
      o.reply.status == 201 ==>
        && GetCourse(o.state, courseId)
           == Reply(200, CourseDoc(StoredCourse(courseId, s.courses[courseId].(quizzes := o.reply.body.quizzes))))
        && GetCourse(o.state, other) == GetCourse(s, other)
  {
  }

  /** A course read right after a successful hand-in shows the submission
      last in that homework's list; every other course reads as before. */
  lemma SubmitReadBack(s: State, courseId: Id, homeworkId: Id, userId: Id, fileUrl: string, now: Date, other: Id)
    requires SubmitSpec(s, courseId, homeworkId, userId, fileUrl, now).reply == Submitted
    requires other != courseId
    ensures var t := SubmitSpec(s, courseId, homeworkId, userId, fileUrl, now).state;
      var i := HomeworkIndex(s.courses[courseId].homeworks, homeworkId).value;
      var r := GetCourse(t, courseId);
      && r.status == 200 && r.body.CourseDoc? && r.body.doc.id == courseId
      && i < |r.body.doc.course.homeworks|
      && r.body.doc.course.homeworks[i].submissions
         == s.courses[courseId].homeworks[i].submissions + [Submission(userId, fileUrl, now)]
      && GetCourse(t, other) == GetCourse(s, other)
  {
    var t := SubmitSpec(s, courseId, homeworkId, userId, fileUrl, now).state;
    var i := HomeworkIndex(s.courses[courseId].homeworks, homeworkId).value;
    var before := s.courses[courseId].homeworks[i].submissions;
    var after := t.courses[courseId].homeworks[i].submissions;
    assert after == after[..|before|] + [after[|before|]];
  }

  // ---------------------------------------------------------------------
  // POST /:courseId/homework/:homeworkId/submit
  // ---------------------------------------------------------------------

  /** `course.homeworks.id(homeworkId)`: the position of the first homework
      with that id, if any. */
  function HomeworkIndex(homeworks: seq<Homework>, homeworkId: Id): (r: Option<nat>)
    ensures r.None? <==> forall i :: 0 <= i < |homeworks| ==> homeworks[i].id != homeworkId
    ensures r.Some? ==> r.value < |homeworks| && homeworks[r.value].id == homeworkId
    ensures r.Some? ==> forall i :: 0 <= i < r.value ==> homeworks[i].id != homeworkId
  {
    if homeworks == [] then None
    else if homeworks[0].id == homeworkId then Some(0)
    else
      match HomeworkIndex(homeworks[1..], homeworkId)
      case None => None
      case Some(i) => Some(i + 1)
  }

  /** Handing in a homework. An unknown course, then an unknown homework, is
      404 and nothing changes. Otherwise a submission by `userId` with the
      file URL, stamped `now`, goes after the earlier submissions of that
      homework, and the reply is 200. There is no check that the user exists,
      is enrolled or has handed in before: every call adds one more entry. */
  function SubmitSpec(s: State, courseId: Id, homeworkId: Id, userId: Id, fileUrl: string, now: Date): (o: Outcome)
    ensures courseId !in s.courses ==> o == Outcome(s, CourseNotFound)
    ensures courseId in s.courses && HomeworkIndex(s.courses[courseId].homeworks, homeworkId).None? ==>
              o == Outcome(s, HomeworkNotFound)
    ensures o.reply == Submitted <==>
              courseId in s.courses && HomeworkIndex(s.courses[courseId].homeworks, homeworkId).Some?
    ensures o.reply != Submitted ==> o.state == s
    ensures o.reply == Submitted ==> EditsOnly(s, o.state, courseId) && courseId in o.state.courses
    ensures o.reply == Submitted ==>
              var before := s.courses[courseId];
              var after := o.state.courses[courseId];
              var i := HomeworkIndex(before.homeworks, homeworkId).value;
              && o.state.nextId == s.nextId
              && after == before.(homeworks := after.homeworks)
              && |after.homeworks| == |before.homeworks|
              && (forall j :: 0 <= j < |before.homeworks| && j != i ==> after.homeworks[j] == before.homeworks[j])
              && var hw := before.homeworks[i];
              && after.homeworks[i] == hw.(submissions := after.homeworks[i].submissions)
              && |after.homeworks[i].submissions| == |hw.submissions| + 1
              && after.homeworks[i].submissions[..|hw.submissions|] == hw.submissions
              && after.homeworks[i].submissions[|hw.submissions|] == Submission(userId, fileUrl, now)
  {
    if courseId !in s.courses then Outcome(s, CourseNotFound)
    else
      var course := s.courses[courseId];
      match HomeworkIndex(course.homeworks, homeworkId)
      case None => Outcome(s, HomeworkNotFound)
      case Some(i) =>
        var hw := course.homeworks[i];
        var hw' := hw.(submissions := hw.submissions + [Submission(userId, fileUrl, now)]);
        var course' := course.(homeworks := course.homeworks[i := hw']);
        Outcome(State(s.users, s.courses[courseId := course'], s.nextId), Submitted)
  }

  lemma SubmitKeepsInv(s: State, courseId: Id, homeworkId: Id, userId: Id, fileUrl: string, now: Date)
    requires Inv(s)
    ensures Inv(SubmitSpec(s, courseId, homeworkId, userId, fileUrl, now).state)
  {
    assert Holds(s, Ids);
    var o := SubmitSpec(s, courseId, homeworkId, userId, fileUrl, now);
    if o.reply == Submitted {
      var after := o.state.courses[courseId];
      assert forall j :: 0 <= j < |after.homeworks| ==> after.homeworks[j].id == s.courses[courseId].homeworks[j].id;
      CourseEditKeepsInv(s, courseId, after, s.nextId);
      assert o.state == State(s.users, s.courses[courseId := after], s.nextId);
    }
  }

  /** Two hand-ins of the same homework by the same student are both kept, in
      order: the route appends and never replaces an earlier submission. */
  lemma {:induction false} SubmitTwiceKeepsBoth(s: State, courseId: Id, homeworkId: Id, userId: Id,
                                               url1: string, url2: string, t1: Date, t2: Date)
    requires SubmitSpec(s, courseId, homeworkId, userId, url1, t1).reply == Submitted
    ensures var s1 := SubmitSpec(s, courseId, homeworkId, userId, url1, t1).state;
      var s2 := SubmitSpec(s1, courseId, homeworkId, userId, url2, t2).state;
      var i := HomeworkIndex(s.courses[courseId].homeworks, homeworkId).value;
      var before := s.courses[courseId].homeworks[i].submissions;
      && SubmitSpec(s1, courseId, homeworkId, userId, url2, t2).reply == Submitted
      && courseId in s2.courses && i < |s2.courses[courseId].homeworks|
      && s2.courses[courseId].homeworks[i].submissions
         == before + [Submission(userId, url1, t1), Submission(userId, url2, t2)]
  {
    var s1 := SubmitSpec(s, courseId, homeworkId, userId, url1, t1).state;
    var hws := s.courses[courseId].homeworks;
    var i := HomeworkIndex(hws, homeworkId).value;
    var hws1 := s1.courses[courseId].homeworks;
    assert forall j :: 0 <= j < |hws1| ==> hws1[j].id == hws[j].id;
    assert HomeworkIndex(hws1, homeworkId) == Some(i);
    var mid := hws1[i].submissions;
    assert mid == hws[i].submissions + [Submission(userId, url1, t1)];
    var s2 := SubmitSpec(s1, courseId, homeworkId, userId, url2, t2).state;
    var last := s2.courses[courseId].homeworks[i].submissions;
    assert last == mid + [Submission(userId, url2, t2)];
  }

  /** The route: find the course, find the homework, push the submission,
      save the course. */
  method Submit(db: Db, courseId: Id, homeworkId: Id, userId: Id, fileUrl: string, now: Date) returns (reply: Reply)
    requires db.Valid()
    modifies db
    ensures db.Valid()
    ensures Outcome(db.View(), reply) == SubmitSpec(old(db.View()), courseId, homeworkId, userId, fileUrl, now)
  {
    SubmitKeepsInv(db.View(), courseId, homeworkId, userId, fileUrl, now);
    if courseId !in db.courses {
      return CourseNotFound;
    }
    var course := db.courses[courseId];
    var found := HomeworkIndex(course.homeworks, homeworkId);
    if found.None? {
      return HomeworkNotFound;
    }
    var i := found.value;
    var homework := course.homeworks[i];
    homework := homework.(submissions := homework.submissions + [Submission(userId, fileUrl, now)]);
    course := course.(homeworks := course.homeworks[i := homework]);
    db.courses := db.courses[courseId := course];
    reply := Submitted;
  }
}
