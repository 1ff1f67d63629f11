/** What a handler sees of the HTTP exchange: the request's headers and the
    `req.user` slot the token gate fills, and what it sends back (a status
    code and the body's content; JSON serialisation is not modelled). */
module Http {
  import opened Common
  import opened Models
  import opened Store

  /** The `user` object inside a verified token: an id and, perhaps, a role. */
  datatype Principal = Principal(id: Id, role: Option<string>)

  /** A decoded token payload; its `user` member may be missing. */
  datatype Claims = Claims(user: Option<Principal>)

  /** A reply body. `Msg` is a short message, whether the route sends it as
      plain text (`res.send('...')`) or as the `msg` or `message` member of a
      JSON object; which of these it is, is not modelled. */
  datatype Body =
    | Msg(text: string)
    | CourseDoc(doc: StoredCourse)
    | CourseList(docs: seq<StoredCourse>)
    | TaughtList(taught: seq<TaughtCourse>)
    | HomeworkList(homeworks: seq<Homework>)
    | LectureList(lectures: seq<Lecture>)
    | ResourceList(resources: seq<Resource>)
    | QuizList(quizzes: seq<Quiz>)
    | SyllabusDoc(syllabus: string)
    | TokenDoc(token: string, userId: Id)

  datatype Reply = Reply(status: nat, body: Body)

  /** What a middleware does with a request: answer it, or call `next()`. */
  datatype Step = Next | Respond(reply: Reply)

  /** A handler's effect: the store afterwards and the reply. */
  datatype Outcome = Outcome(state: State, reply: Reply)

  /** `res.status(500).send('Server Error')` after a failed save (teachers' routes). */
  const ServerError := Reply(500, Msg("Server Error"))

  const CourseNotFound := Reply(404, Msg("Course not found"))

  class Request {
    /** Header names as Node delivers them, in lower case. */
    const headers: map<string, string>
    /** `req.user`: undefined until the token gate binds it. */
    var user: Option<Principal>

    constructor (headers: map<string, string>)
      ensures this.headers == headers && user == None
    {
      this.headers := headers;
      user := None;
    }
  }
}
