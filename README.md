# Course-management backend: a verified model of its routes

This project models the server core of a small course-management backend:
- an Express application over MongoDB through Mongoose;
- students register, log in, list their courses, read one course and hand in homework;
- teachers create courses, enrol students and publish homework, lectures, the syllabus, resources and quizzes.

The model covers these parts of the server:
- the token gate (`middleware/auth.js`);
- the registration and login routes (`routes/auth.js`);
- the teachers' router with its `isTeacher` gate (`routes/teachers.js`);
- the students' course router (`routes/courses.js`);
- the two Mongoose schemas (`models/Course.js`, `models/User.js`).

The database is a value, `Store.State`:
- `users` and `courses` are maps from document id to document;
- `nextId` is a counter that hands out fresh ids, standing in for ObjectId generation;
- MongoDB's natural order is taken to be creation order, that is, id order;
- the ghost predicate `Store.Inv` collects what the schemas and the handlers maintain between requests:
  - every id in use was issued;
  - stored documents pass their schema's validators and are stored trimmed;
  - roll numbers are unique, and so are course codes;
  - course lists and rosters have no repetitions and refer to stored documents;
  - a student is on a course's roster exactly when the course is on the student's list.

Every state-changing handler appears twice:
- as a specification function `...Spec` from the store and the request to an `Outcome` (the store afterwards and the reply), whose contract carries the route's promises;
- as a method that takes the database object (`Store.Db`) and updates its collections in place, in the order the route does.

The method's postcondition ties its effect to the specification function and keeps `Db.Valid()`. A `...KeepsInv` lemma proves that the function keeps the invariant. Read-only handlers are functions.

Foreign code is passed in as function-valued parameters:
- bcrypt: `genSalt`, `hash`, `compare`;
- JSON Web Tokens: `sign`, and `verify`, whose `None` stands for a throw;
- Mongoose's cast of a request string to a Date: `castDate`, whose `None` makes the save fail.

Request body fields are taken to be strings, with the empty string standing for a missing or empty field. The exceptions are the password of registration and login, which is an `Option` (a missing password makes bcrypt throw), the syllabus, and the quiz questions. Quiz questions are taken to be well-formed question objects. "## Left out" lists what the routes do with other values.

Five behaviours of the code are stated as written, the first three with lemmas of their own:
- **Login tokens never pass `isTeacher`.** Login signs `{ user: { id } }` with no role, and the user schema has no role path. So a token that login issues is refused by `isTeacher` with 403 (`TeacherRoutes.LoginTokenNeverAdmitted`).
- **Enrolment depends on `strictQuery`.** Enrolment looks the student up with `findOne({ rollNo, role: 'student' })`, but the schema has no `role` path, so the outcome depends on Mongoose's `strictQuery` option. It is a parameter. With it off, no enrolment can succeed (`TeacherRoutes.EnrollNeedsStrictQuery`).
- **Homework submission appends.** Every submission is pushed onto the homework's list, with no upsert and no deduplication (Server/routes/courses.js:58, `CourseRoutes.SubmitTwiceKeepsBoth`).
- **The students' course routes have no token gate.** They take the user id from the path or from the request body (Server/routes/courses.js:5, 9, 44).
- **Login answers with `{ token, userId }`.** The token's payload carries only the id (Server/routes/auth.js:47-60).

## Model

| member | source | states |
|---|---|---|
| JsText.Trim | Server/models/User.js:10 | the trim setter: the result has no white space at either end, is no longer than the input, is empty exactly when the input is blank, and leaves a trimmed string unchanged |
| JsText.TrimStartDropsBlanks | Server/models/User.js:10 | trimming the front removes exactly a leading run of white space: the result is a suffix of the input and what was cut off is blank |
| JsText.TrimEndDropsBlanks | Server/models/User.js:10 | trimming the back removes exactly a trailing run of white space: the result is a prefix of the input and what was cut off is blank |
| JsText.TrimKeepsInfix | Server/models/User.js:10 | the trimmed string is a contiguous piece of the input with only white space on either side of it |
| JsText.TrimIdempotent | Server/models/Course.js:35 | trimming a stored (already trimmed) value again changes nothing |
| Models.NewCourseValidation | Server/models/Course.js:31-60 | a new course passes the `required` validators exactly when neither name nor code is blank |
| Store.EmptyStoreInv | Server/server.js:17-20 | the empty database satisfies the store invariant |
| Store.CourseEditKeepsInv | Server/models/Course.js:31-69 | replacing a course's content, while keeping its name, code and roster, keeps the invariant |
| Store.AddCourseKeepsInv | Server/routes/teachers.js:20-25 | saving a valid new course with a code no other course has, under a fresh id, keeps the invariant and the unique index on codes |
| Store.EnrolKeepsInv | Server/routes/teachers.js:51-59 | the two "push if absent" steps of enrolment keep lists and rosters free of repetitions and in agreement |
| Store.AddUserKeepsInv | Server/routes/auth.js:16-19 | saving a valid new user with an empty course list and a roll number no other user has, under a fresh id, keeps the invariant and the unique index on roll numbers |
| Store.FindUser | Server/routes/auth.js:12 | the lookup returns the oldest user holding the roll number, or reports that no user holds it |
| Store.FindOne | Server/routes/auth.js:12 | `User.findOne({ rollNo })` looks the roll number up trimmed; a hit holds it, and a miss means no user holds it |
| Store.FindUserSameRollNos | Server/routes/auth.js:35 | the lookup depends only on which ids hold which roll numbers |
| Store.FindOneUnique | Server/models/User.js:6-11 | with the unique index, the lookup finds exactly the user holding the trimmed roll number |
| Store.TaughtBy | Server/routes/teachers.js:116 | `Course.find({ teacher })` returns only stored courses of that teacher, oldest first |
| Store.TaughtByComplete | Server/routes/teachers.js:116 | the query leaves out none of the teacher's courses |
| Store.PopulateCourses | Server/routes/courses.js:12 | `populate('enrolledCourses')` yields only stored courses the list refers to, each as stored, dropping dangling references |
| Store.PopulateCoursesKeepsAll | Server/routes/courses.js:12 | when no reference dangles, the populated list matches the references one for one, in order |
| Store.PopulateRoster | Server/routes/teachers.js:116 | `populate('students', 'rollNo')` yields only students on the roster, each with its stored roll number, dropping dangling references |
| Store.PopulateRosterKeepsAll | Server/routes/teachers.js:116 | when no reference dangles, the populated roster matches the roster one for one, in order |
| Store.Db.constructor | Server/server.js:17-20 | a fresh database is empty and valid |
| AuthMiddleware.Check | Server/middleware/auth.js:4-17 | the gate admits exactly a present, non-empty token that verifies; it refuses a missing one with 401 "No token" and a bad one with 401 "Token is not valid"; when it admits, it binds the token's `user` claim |
| AuthMiddleware.Authenticate | Server/middleware/auth.js:4-17 | exactly one of "respond" and "call next" happens; `req.user` is written only on "next", and then to the `user` claim |
| AuthRoutes.RegisterSpec | Server/routes/auth.js:9-25 | a taken roll number gives 400 and no change; a missing password gives 500 and no change; otherwise the user is saved with the trimmed roll number and the hash under a cost-10 salt, with reply 201; a blank roll number or an empty hash gives 500 and no change |
| AuthRoutes.RegisterAddsOneUser | Server/routes/auth.js:12-19 | a successful registration adds exactly one user, and that user is then the only one holding the roll number |
| AuthRoutes.RegisterKeepsInv | Server/routes/auth.js:16-19 | registration keeps the store invariant |
| AuthRoutes.RegisterTwiceRefused | Server/routes/auth.js:12-15 | registering the same roll number again is refused with "User already exists", whatever the password |
| AuthRoutes.Register | Server/routes/auth.js:9-25 | the route updates the database as RegisterSpec says and keeps it valid |
| AuthRoutes.Login | Server/routes/auth.js:30-68 | 200 exactly when the user exists, a password is given and bcrypt accepts it; the reply then carries a 5-hour token over `{ user: { id } }` with no role, and the id; an unknown roll number and a wrong password give the same "Invalid credentials" reply; a missing password for a known user gives 500 |
| AuthRoutes.RegisterThenLogin | Server/routes/auth.js:16-60 | after registering, logging in with the same password yields a token for the new user's id |
| TeacherRoutes.IsTeacher | Server/routes/teachers.js:8-13 | only a bound user whose role is 'teacher' passes; any other user gets 403; an unbound `req.user` throws, which Express answers with 500 |
| TeacherRoutes.TeacherChain | Server/routes/teachers.js:17 | `[auth, isTeacher]` admits exactly a verified token whose user has role 'teacher', and hands on its id; every refusal is 401, 403 or 500 |
| TeacherRoutes.LoginTokenNeverAdmitted | Server/routes/teachers.js:8-13 | a token carrying what login signs is refused with 403 "Teachers only" |
| TeacherRoutes.CreateCourseSpec | Server/routes/teachers.js:17-31 | 201 exactly when name and code are not blank and the trimmed code is not taken; the course is then saved under a fresh id with the teacher as owner; otherwise 500 and no change |
| TeacherRoutes.CreateCourseKeepsInv | Server/routes/teachers.js:20-25 | course creation keeps the store invariant |
| TeacherRoutes.CreateCourseCodeOnce | Server/models/Course.js:37-42 | a second creation with the same code fails with 500 and changes nothing |
| TeacherRoutes.CreateCourse | Server/routes/teachers.js:17-31 | the route updates the database as CreateCourseSpec says and keeps it valid |
| TeacherRoutes.FindStudent | Server/routes/teachers.js:43 | with `strictQuery` the student query is the roll-number lookup; without it, it finds nobody |
| TeacherRoutes.EnrollSpec | Server/routes/teachers.js:35-66 | checks in order: 404 unknown course, 404 student not found, 403 not the owner, each changing nothing; on 200 the course joins the student's list and the student joins the roster, each only if absent, and nothing else changes |
| TeacherRoutes.EnrollIdempotent | Server/routes/teachers.js:51-59 | enrolling again changes nothing and gives the same reply |
| TeacherRoutes.EnrollExactlyOnce | Server/routes/teachers.js:52-58 | after a successful enrolment the course occurs once in the student's list and the student occurs once on the roster |
| TeacherRoutes.EnrollNeedsStrictQuery | Server/routes/teachers.js:43-44 | without `strictQuery`, enrolment never succeeds and changes nothing |
| TeacherRoutes.EnrollKeepsInv | Server/routes/teachers.js:51-59 | enrolment keeps the store invariant |
| TeacherRoutes.Enroll | Server/routes/teachers.js:35-66 | the route, with its two separate push-if-absent steps, updates the database as EnrollSpec says |
| TeacherRoutes.AddHomeworkSpec | Server/routes/teachers.js:70-108 | 400 for a missing title, description or due date before any lookup; then 404, 403, and 500 for an uncastable date, none changing anything; on 201 the new homework (fresh id, no submissions) goes first, the earlier ones keep their order, and the reply is the new list |
| TeacherRoutes.AddHomeworkKeepsInv | Server/routes/teachers.js:90-100 | adding a homework keeps the store invariant |
| TeacherRoutes.AddHomework | Server/routes/teachers.js:70-108 | the route updates the database as AddHomeworkSpec says |
| TeacherRoutes.AddLectureSpec | Server/routes/teachers.js:130-148 | 400 for missing fields, then 404 and 403 "Not authorized", then 500 for an uncastable date; on 201 the lecture goes first and the reply is the new list |
| TeacherRoutes.AddLectureKeepsInv | Server/routes/teachers.js:141-142 | adding a lecture keeps the store invariant |
| TeacherRoutes.AddLecture | Server/routes/teachers.js:130-148 | the route updates the database as AddLectureSpec says |
| TeacherRoutes.SetSyllabusSpec | Server/routes/teachers.js:152-170 | a non-string syllabus gives 400, then 404 and 403; otherwise the syllabus (possibly empty) replaces the old one, nothing else changes, and the reply echoes it |
| TeacherRoutes.SetSyllabusLastWins | Server/routes/teachers.js:163-164 | two updates in a row leave the second text |
| TeacherRoutes.SetSyllabusKeepsInv | Server/routes/teachers.js:163-164 | a syllabus update keeps the store invariant |
| TeacherRoutes.SetSyllabus | Server/routes/teachers.js:152-170 | the route updates the database as SetSyllabusSpec says |
| TeacherRoutes.AddResourceSpec | Server/routes/teachers.js:174-192 | 400 for a missing name or url, then 404 and 403; on 201 the resource goes last, the earlier ones are kept, and the reply is the new list |
| TeacherRoutes.AddResourceKeepsInv | Server/routes/teachers.js:185-186 | adding a resource keeps the store invariant |
| TeacherRoutes.AddResource | Server/routes/teachers.js:174-192 | the route updates the database as AddResourceSpec says |
| TeacherRoutes.AddQuizSpec | Server/routes/teachers.js:196-214 | 400 for a missing title or due date, or questions that are not a non-empty array; then 404, 403, and 500 for an uncastable date; on 201 the quiz with its questions in order goes last |
| TeacherRoutes.AddQuizKeepsInv | Server/routes/teachers.js:207-208 | adding a quiz keeps the store invariant |
| TeacherRoutes.AddQuiz | Server/routes/teachers.js:196-214 | the route updates the database as AddQuizSpec says |
| TeacherRoutes.NonOwnerChangesNothing | Server/routes/teachers.js:86-88 | a teacher who does not own the course changes nothing through any editing route |
| TeacherRoutes.Describe | Server/routes/teachers.js:116 | each listed id becomes its course with the students' roll numbers, in list order |
| TeacherRoutes.TeacherCourses | Server/routes/teachers.js:114-122 | the list holds only the teacher's own stored courses, oldest first, each with its populated roster; nothing changes |
| TeacherRoutes.TeacherCoursesComplete | Server/routes/teachers.js:116 | no course of the teacher is missing from the list |
| TeacherRoutes.NewestListedLast | Server/routes/teachers.js:116 | the teacher's most recently created course closes the list |
| TeacherRoutes.CreatedCourseListedLast | Server/routes/teachers.js:114-122 | a course just created appears last in its teacher's list |
| CourseRoutes.MyCourses | Server/routes/courses.js:9-21 | 404 "User not found" exactly for an unknown user; otherwise 200 with stored courses from the user's list |
| CourseRoutes.MyCoursesMatchRosters | Server/routes/courses.js:12-16 | in a consistent store the list is the user's list entry by entry, and a course is on it exactly when the user is on its roster |
| CourseRoutes.EnrolledCourseListed | Server/routes/courses.js:12-16 | after a successful enrolment the course shows up in the student's course list |
| CourseRoutes.TeacherEditsReadBack | Server/routes/courses.js:25-36 | after a successful homework, lecture, syllabus, resource or quiz edit, reading the course gives the old course with just that field replaced by what the edit replied with, and every other course reads as before |
| CourseRoutes.SubmitReadBack | Server/routes/courses.js:25-36 | after a successful hand-in, reading the course shows the submission last in that homework's list, and every other course reads as before |
| CourseRoutes.CreatedCourseReadBack | Server/routes/courses.js:27-31 | reading a course right after creating it gives the document the creation answered with |
| CourseRoutes.HomeworkIndex | Server/routes/courses.js:52 | `course.homeworks.id(homeworkId)` finds the first homework with that id, or reports that there is none |
| CourseRoutes.SubmitSpec | Server/routes/courses.js:42-66 | 404 unknown course, then 404 unknown homework, neither changing anything; otherwise the submission (user, file URL, time) goes after that homework's earlier submissions and nothing else changes |
| CourseRoutes.SubmitKeepsInv | Server/routes/courses.js:58-59 | a submission keeps the store invariant |
| CourseRoutes.SubmitTwiceKeepsBoth | Server/routes/courses.js:58 | two submissions by the same student are both kept, in order; nothing is overwritten |
| CourseRoutes.Submit | Server/routes/courses.js:42-66 | the route updates the database as SubmitSpec says |

## Left out

- Process bootstrap, the database connection and the route mounting in `server.js` are not modelled. The teachers' router is not mounted there (Server/server.js:30-35), so its routes are modelled as though they were reachable. `routes/test.js` is not modelled either.
- bcrypt, JSON Web Tokens and Mongoose's Date cast are parameters. Token expiry and the signing secret live inside `verify` and `sign`.
- The `jwt.sign` callback error (Server/routes/auth.js:58-59) is not modelled. `sign` always yields a token.
- Ids are natural numbers. The 500 that Mongoose raises when it cannot cast a malformed id string to an ObjectId is not modelled. Comparing `course.teacher.toString()` with `req.user.id` becomes equality of ids.
- RegisterSpec, Login, EnrollSpec: a missing roll number is taken as a blank one. What `findOne({ rollNo: undefined })` matches is up to Mongoose and the database driver, and is not modelled.
- AddHomeworkSpec, AddLectureSpec, AddResourceSpec, AddQuizSpec: body fields are strings. In the source a truthy value that is not a string passes the presence checks (Server/routes/teachers.js:75, 132, 176, 198). A numeric due date then casts and the route answers 201. An object title fails the String cast at save and the route answers 500. The model has no such values.
- AddQuizSpec: questions are well-formed `Question` values. Array elements that do not cast to the question schema, a bare string say, fail the save with 500 (Server/routes/teachers.js:207-208), which the model does not represent.
- SubmitSpec: the user id and the file URL are values. A request without `userId` saves a submission with no student id (Server/routes/courses.js:44, 58), which the model cannot represent.
- TaughtBy, TeacherCourses, NewestListedLast, CreatedCourseListedLast, FindUser: `Course.find({ teacher })` and `findOne` have no `.sort()` (Server/routes/teachers.js:116, Server/routes/auth.js:12), so MongoDB promises no order. The order these members state (oldest first, the newest course last, the oldest holder of a roll number) follows from the model's assumption that natural order is creation order. The routes do not promise it.
- Failures of the database itself (the `catch` that answers 500) are not modelled, except where a save is refused by validation, by the unique index or by a failed cast.
- Enroll: the two saves are one step in the model. A failure between them, which would leave the student's list and the roster disagreeing, is not modelled.
- Concurrency is not modelled. Requests run one after another, so the read-modify-write races between concurrent requests are outside the model.
- The `createdAt`/`updatedAt` timestamps and sub-document ids are not modelled. The one exception is homework ids, which are drawn from the same counter as documents. `submittedAt` is the handler's `now` parameter.
- Response serialisation, headers and logging are not modelled. Replies are a status and a body value.
- Fields that the `populate` projections leave out of the JSON are not modelled.
