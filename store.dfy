/** The document store: the `users` and `courses` collections as maps from
    document id to document, with the counter that hands out fresh ids. The
    lookups here are the Mongoose queries the routes issue (`findOne`,
    `find`, `populate`), with MongoDB's natural order taken to be the order of
    creation, that is, the order of ids. */
module Store {
  import opened Common
  import opened JsText
  import opened Models

  datatype State = State(users: map<Id, User>, courses: map<Id, Course>, nextId: Id)

  /** A course together with its document id, as `res.json(course)` shows it. */
  datatype StoredCourse = StoredCourse(id: Id, course: Course)

  /** A student reference after `populate('students', 'rollNo')`. */
  datatype RosterEntry = RosterEntry(id: Id, rollNo: string)

  /** A course as the teachers' course list shows it: its roster populated. */
  datatype TaughtCourse = TaughtCourse(id: Id, course: Course, roster: seq<RosterEntry>)

  // ---------------------------------------------------------------------
  // The store invariant. It holds of the empty store and every handler
  // keeps it; the schema validators and unique indexes guarantee its parts
  // about single documents, and the handlers' checks guarantee the rest.
  // ---------------------------------------------------------------------

  /** Every id in use (documents and homework sub-documents) was handed out. */
  ghost predicate IdsIssued(s: State) {
    && (forall u :: u in s.users ==> u < s.nextId)
    && (forall c :: c in s.courses ==> c < s.nextId)
    && (forall c, i :: c in s.courses && 0 <= i < |s.courses[c].homeworks| ==> s.courses[c].homeworks[i].id < s.nextId)
  }

  /** Stored users pass the schema; their course lists have no repetitions and
      refer to stored courses. */
  ghost predicate UsersOk(s: State) {
    forall u :: u in s.users ==>
      && UserSchemaOk(s.users[u])
      && NoDup(s.users[u].enrolledCourses)
      && (forall k :: 0 <= k < |s.users[u].enrolledCourses| ==> s.users[u].enrolledCourses[k] in s.courses)
  }

  /** The unique index on `rollNo`. */
  ghost predicate UniqueRollNos(s: State) {
    forall u, v :: u in s.users && v in s.users && s.users[u].rollNo == s.users[v].rollNo ==> u == v
  }

  /** Stored courses pass the schema; their rosters have no repetitions and
      refer to stored users. */
  ghost predicate CoursesOk(s: State) {
    forall c :: c in s.courses ==>
      && CourseSchemaOk(s.courses[c])
      && NoDup(s.courses[c].students)
      && (forall k :: 0 <= k < |s.courses[c].students| ==> s.courses[c].students[k] in s.users)
  }

  /** The unique index on `courseCode`. */
  ghost predicate UniqueCourseCodes(s: State) {
    forall c, d :: c in s.courses && d in s.courses && s.courses[c].courseCode == s.courses[d].courseCode ==> c == d
  }

  /** A student is on a course's roster exactly when the course is on the
      student's list. */
  ghost predicate RostersAgree(s: State) {
    forall c, u :: c in s.courses && u in s.users ==>
      (u in s.courses[c].students <==> c in s.users[u].enrolledCourses)
  }

  /** The parts of the invariant, named so that a proof asks for them. */
  datatype InvPart = Ids | Users | RollNos | Courses | Codes | Rosters

  ghost predicate Holds(s: State, part: InvPart) {
    match part
    case Ids => IdsIssued(s)
    case Users => UsersOk(s)
    case RollNos => UniqueRollNos(s)
    case Courses => CoursesOk(s)
    case Codes => UniqueCourseCodes(s)
    case Rosters => RostersAgree(s)
  }

  /** The store invariant: every part holds. It is stated over the parts so
      that a proof which only passes it on does not unfold it;
      `InvParts` spells it out. */
  ghost predicate Inv(s: State) {
    forall part :: Holds(s, part)
  }

  lemma InvParts(s: State)
    ensures Inv(s) <==>
              && IdsIssued(s) && UsersOk(s) && UniqueRollNos(s)
              && CoursesOk(s) && UniqueCourseCodes(s) && RostersAgree(s)
  {
    if IdsIssued(s) && UsersOk(s) && UniqueRollNos(s) && CoursesOk(s) && UniqueCourseCodes(s) && RostersAgree(s) {
      forall part | true
        ensures Holds(s, part)
      {
      }
    }
    if Inv(s) {
      assert Holds(s, Ids) && Holds(s, Users) && Holds(s, RollNos);
      assert Holds(s, Courses) && Holds(s, Codes) && Holds(s, Rosters);
    }
  }

  lemma EmptyStoreInv()
    ensures Inv(State(map[], map[], 0))
  {
    InvParts(State(map[], map[], 0));
  }

  /** Replacing one course by a version with the same name, code and roster,
      whose homework ids were handed out, keeps the invariant. Every handler
      that edits a course's content ends in this case. */
  lemma CourseEditKeepsInv(s: State, id: Id, c': Course, n: Id)
    requires Inv(s) && id in s.courses && s.nextId <= n
    requires c'.name == s.courses[id].name && c'.courseCode == s.courses[id].courseCode
    requires c'.students == s.courses[id].students
    requires forall i :: 0 <= i < |c'.homeworks| ==> c'.homeworks[i].id < n
    ensures Inv(State(s.users, s.courses[id := c'], n))
  {
    InvParts(s);
    InvParts(State(s.users, s.courses[id := c'], n));
    CourseEditKeepsRosters(s, id, c', n);
    var t := State(s.users, s.courses[id := c'], n);
    assert t.courses.Keys == s.courses.Keys;
  }

  /** The course-side parts of the invariant survive an edit that keeps the
      course's code and roster. */
  lemma CourseEditKeepsRosters(s: State, id: Id, c': Course, n: Id)
    requires CoursesOk(s) && UniqueCourseCodes(s) && RostersAgree(s) && id in s.courses
    requires c'.name == s.courses[id].name && c'.courseCode == s.courses[id].courseCode
    requires c'.students == s.courses[id].students
    ensures var t := State(s.users, s.courses[id := c'], n);
      CoursesOk(t) && UniqueCourseCodes(t) && RostersAgree(t)
  {
    var t := State(s.users, s.courses[id := c'], n);
    assert forall c :: c in t.courses ==> c in s.courses && t.courses[c].students == s.courses[c].students;
    assert forall c :: c in t.courses ==> t.courses[c].courseCode == s.courses[c].courseCode;
  }

  /** Saving a new user, with an empty course list and a roll number no
      stored user has, under the next fresh id keeps the invariant. */
  lemma AddUserKeepsInv(s: State, user: User)
    requires Inv(s) && UserSchemaOk(user) && user.enrolledCourses == []
    requires forall u :: u in s.users ==> s.users[u].rollNo != user.rollNo
    ensures Inv(State(s.users[s.nextId := user], s.courses, s.nextId + 1))
  {
    InvParts(s);
    InvParts(State(s.users[s.nextId := user], s.courses, s.nextId + 1));
    AddUserKeepsUsers(s, user);
    var t := State(s.users[s.nextId := user], s.courses, s.nextId + 1);
    assert IdsIssued(t);
    assert CoursesOk(t);
    assert UniqueCourseCodes(t);
  }

  /** The user-side parts of the invariant, for a new user under a fresh id. */
  lemma AddUserKeepsUsers(s: State, user: User)
    requires IdsIssued(s) && UsersOk(s) && UniqueRollNos(s) && CoursesOk(s) && RostersAgree(s)
    requires UserSchemaOk(user) && user.enrolledCourses == []
    requires forall u :: u in s.users ==> s.users[u].rollNo != user.rollNo
    ensures var t := State(s.users[s.nextId := user], s.courses, s.nextId + 1);
      UsersOk(t) && UniqueRollNos(t) && RostersAgree(t)
  {
    assert s.nextId !in s.users;
    assert forall c, k :: c in s.courses && 0 <= k < |s.courses[c].students| ==> s.courses[c].students[k] != s.nextId;
  }

  /** Saving a new course, with an empty roster, no homework and a code no
      stored course has, under the next fresh id keeps the invariant. */
  lemma AddCourseKeepsInv(s: State, c: Course)
    requires Inv(s) && CourseSchemaOk(c) && c.students == [] && c.homeworks == []
    requires forall d :: d in s.courses ==> s.courses[d].courseCode != c.courseCode
    ensures Inv(State(s.users, s.courses[s.nextId := c], s.nextId + 1))
  {
    InvParts(s);
    InvParts(State(s.users, s.courses[s.nextId := c], s.nextId + 1));
    AddCourseKeepsRosters(s, c);
    var t := State(s.users, s.courses[s.nextId := c], s.nextId + 1);
    assert s.nextId !in s.courses;
    assert IdsIssued(t);
    assert UsersOk(t);
    assert UniqueRollNos(t);
    assert UniqueCourseCodes(t);
  }

  /** The roster-side parts of the invariant, for a new course with an empty
      roster under a fresh id. */
  lemma AddCourseKeepsRosters(s: State, c: Course)
    requires IdsIssued(s) && UsersOk(s) && CoursesOk(s) && RostersAgree(s)
    requires CourseSchemaOk(c) && c.students == []
    ensures var t := State(s.users, s.courses[s.nextId := c], s.nextId + 1);
      CoursesOk(t) && RostersAgree(t)
  {
    var t := State(s.users, s.courses[s.nextId := c], s.nextId + 1);
    assert s.nextId !in s.courses;
    assert CoursesOk(t) by {
      forall d | d in t.courses
        ensures CourseSchemaOk(t.courses[d]) && NoDup(t.courses[d].students)
        ensures forall k :: 0 <= k < |t.courses[d].students| ==> t.courses[d].students[k] in t.users
      {
        if d != s.nextId {
          assert t.courses[d] == s.courses[d];
        }
      }
    }
    assert RostersAgree(t) by {
      forall d, u | d in t.courses && u in t.users
        ensures u in t.courses[d].students <==> d in t.users[u].enrolledCourses
      {
        if d == s.nextId {
          assert d !in s.users[u].enrolledCourses;
        }
      }
    }
  }

  /** Enrolment's two pushes: the course goes onto the student's list and
      the student onto the course's roster, each only when not already there. */
  function Enrol(s: State, sid: Id, cid: Id): (t: State)
    requires sid in s.users && cid in s.courses
  {
    var student := s.users[sid];
    var course := s.courses[cid];
    var users := if cid in student.enrolledCourses then s.users
                 else s.users[sid := student.(enrolledCourses := student.enrolledCourses + [cid])];
    var courses := if sid in course.students then s.courses
                   else s.courses[cid := course.(students := course.students + [sid])];
    State(users, courses, s.nextId)
  }

  /** The state after both pushes, for the proof below. */
  function Pushed(s: State, sid: Id, cid: Id): State
    requires sid in s.users && cid in s.courses
  {
    var student := s.users[sid];
    var course := s.courses[cid];
    State(s.users[sid := student.(enrolledCourses := student.enrolledCourses + [cid])],
          s.courses[cid := course.(students := course.students + [sid])],
          s.nextId)
  }

  lemma PushedKeepsIds(s: State, sid: Id, cid: Id)
    requires IdsIssued(s) && sid in s.users && cid in s.courses
    ensures IdsIssued(Pushed(s, sid, cid))
  {
    var t := Pushed(s, sid, cid);
    assert forall c :: c in t.courses ==> t.courses[c].homeworks == s.courses[c].homeworks;
  }

  lemma PushedKeepsUsers(s: State, sid: Id, cid: Id)
    requires UsersOk(s) && sid in s.users && cid in s.courses
    requires cid !in s.users[sid].enrolledCourses
    ensures UsersOk(Pushed(s, sid, cid))
  {
    var t := Pushed(s, sid, cid);
    var before := s.users[sid].enrolledCourses;
    NoDupAppend(before, cid);
    forall u | u in t.users
      ensures UserSchemaOk(t.users[u]) && NoDup(t.users[u].enrolledCourses)
      ensures forall k :: 0 <= k < |t.users[u].enrolledCourses| ==> t.users[u].enrolledCourses[k] in t.courses
    {
      if u == sid {
        assert t.users[u].enrolledCourses == before + [cid];
      } else {
        assert t.users[u] == s.users[u];
      }
    }
  }

  lemma PushedKeepsCourses(s: State, sid: Id, cid: Id)
    requires CoursesOk(s) && sid in s.users && cid in s.courses
    requires sid !in s.courses[cid].students
    ensures CoursesOk(Pushed(s, sid, cid))
  {
    var t := Pushed(s, sid, cid);
    var roster := s.courses[cid].students;
    NoDupAppend(roster, sid);
    forall c | c in t.courses
      ensures CourseSchemaOk(t.courses[c]) && NoDup(t.courses[c].students)
      ensures forall k :: 0 <= k < |t.courses[c].students| ==> t.courses[c].students[k] in t.users
    {
      if c == cid {
        assert t.courses[c].students == roster + [sid];
      } else {
        assert t.courses[c] == s.courses[c];
      }
    }
  }

  lemma PushedKeepsIndexes(s: State, sid: Id, cid: Id)
    requires UniqueRollNos(s) && UniqueCourseCodes(s) && sid in s.users && cid in s.courses
    ensures UniqueRollNos(Pushed(s, sid, cid)) && UniqueCourseCodes(Pushed(s, sid, cid))
  {
    var t := Pushed(s, sid, cid);
    assert forall u :: u in t.users ==> t.users[u].rollNo == s.users[u].rollNo;
    assert forall c :: c in t.courses ==> t.courses[c].courseCode == s.courses[c].courseCode;
  }

  lemma PushedKeepsRosters(s: State, sid: Id, cid: Id)
    requires RostersAgree(s) && sid in s.users && cid in s.courses
    ensures RostersAgree(Pushed(s, sid, cid))
  {
    var t := Pushed(s, sid, cid);
    forall c, u | c in t.courses && u in t.users
      ensures u in t.courses[c].students <==> c in t.users[u].enrolledCourses
    {
      if c == cid && u == sid {
        assert u in t.courses[c].students && c in t.users[u].enrolledCourses;
      } else if c == cid {
        assert t.users[u] == s.users[u];
        assert u in t.courses[c].students <==> u in s.courses[c].students;
      } else if u == sid {
        assert t.courses[c] == s.courses[c];
        assert c in t.users[u].enrolledCourses <==> c in s.users[u].enrolledCourses;
      } else {
        assert t.users[u] == s.users[u] && t.courses[c] == s.courses[c];
      }
    }
  }

  lemma EnrolKeepsInv(s: State, sid: Id, cid: Id)
    requires Inv(s) && sid in s.users && cid in s.courses
    ensures Inv(Enrol(s, sid, cid))
  {
    InvParts(s);
    InvParts(Enrol(s, sid, cid));
    if cid !in s.users[sid].enrolledCourses {
      assert sid !in s.courses[cid].students;
      assert Enrol(s, sid, cid) == Pushed(s, sid, cid);
      PushedKeepsIds(s, sid, cid);
      PushedKeepsUsers(s, sid, cid);
      PushedKeepsCourses(s, sid, cid);
      PushedKeepsIndexes(s, sid, cid);
      PushedKeepsRosters(s, sid, cid);
    } else {
      assert sid in s.courses[cid].students;
      assert Enrol(s, sid, cid) == s;
    }
  }

  /** `t` differs from `s` at most in the course `id` and the id counter:
      the users and every other course are as they were. */
  ghost predicate EditsOnly(s: State, t: State, id: Id) {
    && t.users == s.users
    && t.courses.Keys == s.courses.Keys
    && (forall c :: c in s.courses && c != id ==> t.courses[c] == s.courses[c])
  }

  // ---------------------------------------------------------------------
  // Queries
  // ---------------------------------------------------------------------

  /** The oldest user among ids `from` up to `bound` with this roll number. */
  function FindUser(users: map<Id, User>, rollNo: string, from: nat, bound: nat): (r: Option<Id>)
    decreases bound - from
    ensures r.Some? ==> from <= r.value < bound && r.value in users && users[r.value].rollNo == rollNo
    ensures r.Some? ==> forall i :: from <= i < r.value && i in users ==> users[i].rollNo != rollNo
    ensures r.None? ==> forall i :: from <= i < bound && i in users ==> users[i].rollNo != rollNo
  {
    if bound <= from then None
    else if from in users && users[from].rollNo == rollNo then Some(from)
    else FindUser(users, rollNo, from + 1, bound)
  }

  /** `User.findOne({ rollNo })`. Mongoose runs the path's trim setter on the
      query value too, so the lookup is by the trimmed roll number. */
  function FindOne(s: State, rollNo: string): (r: Option<Id>)
    ensures r.Some? ==> r.value in s.users && s.users[r.value].rollNo == Trim(rollNo)
    ensures r.None? && IdsIssued(s) ==> forall u :: u in s.users ==> s.users[u].rollNo != Trim(rollNo)
  {
    FindUser(s.users, Trim(rollNo), 0, s.nextId)
  }

  /** The lookup looks only at which ids hold which roll numbers, so it
      gives the same answer on two user maps that differ elsewhere (in the
      users' course lists, say). */
  lemma {:induction false} FindUserSameRollNos(u1: map<Id, User>, u2: map<Id, User>, rollNo: string, from: nat, bound: nat)
    requires u1.Keys == u2.Keys
    requires forall i :: i in u1 ==> u1[i].rollNo == u2[i].rollNo
    decreases bound - from
    ensures FindUser(u1, rollNo, from, bound) == FindUser(u2, rollNo, from, bound)
  {
    if from < bound {
      FindUserSameRollNos(u1, u2, rollNo, from + 1, bound);
    }
  }

  /** With unique roll numbers the lookup finds exactly the user that holds
      the trimmed roll number. */
  lemma FindOneUnique(s: State, rollNo: string, u: Id)
    requires IdsIssued(s) && UniqueRollNos(s)
    ensures FindOne(s, rollNo) == Some(u) <==> u in s.users && s.users[u].rollNo == Trim(rollNo)
  {
  }

  /** The ids among `from` up to `bound` of the courses taught by `teacher`, oldest first. */
  function TaughtBy(courses: map<Id, Course>, teacher: Id, from: nat, bound: nat): (r: seq<Id>)
    decreases bound - from
    ensures forall k :: 0 <= k < |r| ==> from <= r[k] < bound && r[k] in courses && courses[r[k]].teacher == teacher
    ensures forall j, k :: 0 <= j < k < |r| ==> r[j] < r[k]
  {
    if bound <= from then []
    else if from in courses && courses[from].teacher == teacher then [from] + TaughtBy(courses, teacher, from + 1, bound)
    else TaughtBy(courses, teacher, from + 1, bound)
  }

  /** The query leaves out none of the teacher's courses in the range. */
  lemma {:induction false} TaughtByComplete(courses: map<Id, Course>, teacher: Id, from: nat, bound: nat, c: Id)
    requires from <= c < bound && c in courses && courses[c].teacher == teacher
    decreases bound - from
    ensures c in TaughtBy(courses, teacher, from, bound)
  {
    if c != from {
      TaughtByComplete(courses, teacher, from + 1, bound, c);
    }
  }

  /** `populate` of an array of course references: each id that names a
      course becomes that course, the others are dropped, the order is kept. */
  function PopulateCourses(courses: map<Id, Course>, ids: seq<Id>): (r: seq<StoredCourse>)
    ensures |r| <= |ids|
    ensures forall k :: 0 <= k < |r| ==> r[k].id in ids && r[k].id in courses && r[k].course == courses[r[k].id]
  {
    if ids == [] then []
    else
      var rest := PopulateCourses(courses, ids[1..]);
      if ids[0] in courses then [StoredCourse(ids[0], courses[ids[0]])] + rest else rest
  }

  /** When every id names a course nothing is dropped: the list holds the
      ids one for one, in order. */
  lemma {:induction false} PopulateCoursesKeepsAll(courses: map<Id, Course>, ids: seq<Id>)
    requires forall k :: 0 <= k < |ids| ==> ids[k] in courses
    ensures var r := PopulateCourses(courses, ids);
      |r| == |ids| && forall k :: 0 <= k < |r| ==> r[k].id == ids[k]
  {
    if ids != [] {
      PopulateCoursesKeepsAll(courses, ids[1..]);
    }
  }

  /** `populate('students', 'rollNo')`: each id that names a user becomes its
      id and roll number, the others are dropped, the order is kept. */
  function PopulateRoster(users: map<Id, User>, ids: seq<Id>): (r: seq<RosterEntry>)
    ensures |r| <= |ids|
    ensures forall k :: 0 <= k < |r| ==> r[k].id in ids && r[k].id in users && r[k].rollNo == users[r[k].id].rollNo
  {
    if ids == [] then []
    else
      var rest := PopulateRoster(users, ids[1..]);
      if ids[0] in users then [RosterEntry(ids[0], users[ids[0]].rollNo)] + rest else rest
  }

  /** When every id names a user nothing is dropped: the roster lists the
      ids one for one, in order. */
  lemma {:induction false} PopulateRosterKeepsAll(users: map<Id, User>, ids: seq<Id>)
    requires forall k :: 0 <= k < |ids| ==> ids[k] in users
    ensures var r := PopulateRoster(users, ids);
      |r| == |ids| && forall k :: 0 <= k < |r| ==> r[k].id == ids[k]
  {
    if ids != [] {
      PopulateRosterKeepsAll(users, ids[1..]);
    }
  }

  // ---------------------------------------------------------------------
  // The store as the handlers see it: two collections updated in place.
  // ---------------------------------------------------------------------

  class Db {
    var users: map<Id, User>
    var courses: map<Id, Course>
    var nextId: Id

    function View(): State
      reads this
    {
      State(users, courses, nextId)
    }

    ghost predicate Valid()
      reads this
    {
      Inv(View())
    }

    constructor ()
      ensures Valid() && View() == State(map[], map[], 0)
    {
      users, courses, nextId := map[], map[], 0;
    }
  }
}
