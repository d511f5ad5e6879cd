/** The rows of the application's tables, as the route handlers of main.py
    read and write them, and the values the handlers answer with. */
module Records {

  datatype Option<T> = None | Some(value: T)

  /** A row of `lessons`. `status` and `kind` (the `type` column) are the
      TEXT values the handlers store: "approved", "pending" or "rejected",
      and "lesson" for rows the handlers insert. */
  datatype Lesson = Lesson(
    title: string,
    content: string,
    codeExample: string,
    exercise: string,
    videoUrl: string,
    author: string,
    createdAt: string,
    status: string,
    kind: string)

  /** A row of `solutions`, linked to a lesson by `lessonId`. */
  datatype Solution = Solution(lessonId: nat, code: string, explanation: string)

  /** A row of `questions`; `answers` is the stored answer counter. */
  datatype Question = Question(
    title: string,
    content: string,
    author: string,
    createdAt: string,
    answers: nat)

  /** A row of `answers`, linked to a question by `questionId`. */
  datatype Answer = Answer(questionId: nat, content: string, author: string, createdAt: string)

  /** A row of `contacts`. */
  datatype Contact = Contact(username: string, subject: string, message: string, createdAt: string)

  /** A row of `users`; `password` holds the hex SHA-256 digest, never the password. */
  datatype User = User(username: string, password: string, createdAt: string)

  /** What a route handler answers: a redirect to a named endpoint, a rendered
      template, or an unhandled exception (HTTP 500). */
  datatype Response = Redirect(endpoint: string) | Render(template: string) | ServerError

  const Approved: string := "approved"
  const Pending: string := "pending"
  const Rejected: string := "rejected"
  const LessonKind: string := "lesson"
  const AdminName: string := "admin"
}
