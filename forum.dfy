/** The lesson, moderation, question/answer, contact and account handlers of
    main.py, as one store of tables plus the current session's username. Every
    state-changing handler is a method whose effect is the SQL it issues. */
module Forum {
  import opened Records
  import opened RowIds
  import opened Ordering
  import opened Queries

  function LessonCreated(l: Lesson): string { l.createdAt }
  function QuestionCreated(q: Question): string { q.createdAt }
  function ContactCreated(c: Contact): string { c.createdAt }

  /** The ids of the answer rows whose `question_id` is q. */
  function AnswersTo(answers: map<nat, Answer>, q: nat): set<nat>
  {
    set a | a in answers && answers[a].questionId == q
  }

  /** `SELECT 1 FROM users WHERE username = name` finds a row. */
  predicate HasUser(users: map<nat, User>, name: string)
  {
    exists u :: u in users && users[u].username == name
  }

  /** `SELECT * FROM users WHERE username = name AND password = digest` finds a row. */
  predicate HasCredentials(users: map<nat, User>, name: string, digest: string)
  {
    exists u :: u in users && users[u].username == name && users[u].password == digest
  }

  /** The UNIQUE constraint on `users.username`. */
  ghost predicate UniqueUsernames(users: map<nat, User>)
  {
    forall u, v :: u in users && v in users && users[u].username == users[v].username ==> u == v
  }

  /** `UPDATE users SET username = newName ... WHERE username = current` breaks
      the UNIQUE constraint: it changes some row, and another row already
      holds the new name. */
  predicate RenameConflict(users: map<nat, User>, current: string, newName: string)
  {
    newName != current && HasUser(users, current) && HasUser(users, newName)
  }

  /** `SELECT * FROM lessons WHERE status = ? ORDER BY created_at DESC`. */
  function LessonsWithStatus(lessons: map<nat, Lesson>, status: string): (r: seq<Row<Lesson>>)
    ensures forall x :: x in r ==> x.id in lessons && x.rec == lessons[x.id] && x.rec.status == status
    ensures forall id :: id in lessons && lessons[id].status == status ==> Row(id, lessons[id]) in r
    ensures forall i, j :: 0 <= i < j < |r| ==> r[i].id != r[j].id
    ensures SortedDesc(r, LessonCreated)
  {
    var r := Select(lessons, (l: Lesson) => l.status == status, LessonCreated);
    DistinctIds(lessons, r);
    r
  }

  /** `SELECT * FROM contacts ORDER BY created_at DESC`. */
  function ContactsNewestFirst(contacts: map<nat, Contact>): (r: seq<Row<Contact>>)
    ensures forall x :: x in r ==> x.id in contacts && x.rec == contacts[x.id]
    ensures forall id :: id in contacts ==> Row(id, contacts[id]) in r
    ensures forall i, j :: 0 <= i < j < |r| ==> r[i].id != r[j].id
    ensures SortedDesc(r, ContactCreated)
  {
    var r := Select(contacts, (c: Contact) => true, ContactCreated);
    DistinctIds(contacts, r);
    r
  }

  /** What GET /admin/view_contacts answers: a redirect home for a non-admin,
      HTTP 500 before the `contacts` table exists, or the listed messages. */
  datatype ContactsPage = Denied | Missing | Listed(rows: seq<Row<Contact>>)

  class App {
    var lessons: map<nat, Lesson>
    var solutions: map<nat, Solution>
    var questions: map<nat, Question>
    var answers: map<nat, Answer>
    var contacts: map<nat, Contact>
    var users: map<nat, User>
    /** Whether the `contacts` table exists. The SQLite branch of `init_db`
        does not create it; the first POST /contact does. */
    var contactsTable: bool
    /** `session['username']`, absent when nobody is logged in. */
    var session: Option<string>
    /** `hashlib.sha256(password.encode()).hexdigest()`. */
    const hash: string -> string

    /** Usernames are unique, and every solution belongs to an existing lesson. */
    ghost predicate Valid()
      reads this
    {
      && UniqueUsernames(users)
      && (forall s :: s in solutions ==> solutions[s].lessonId in lessons)
      && (!contactsTable ==> contacts == map[])
    }

    /** The tables `init_db` creates, empty, no `contacts` table, and no session. */
    constructor (hash: string -> string)
      ensures Valid()
      ensures lessons == map[] && solutions == map[] && questions == map[]
      ensures answers == map[] && contacts == map[] && users == map[]
      ensures !contactsTable && session == None && this.hash == hash
    {
      lessons, solutions, questions := map[], map[], map[];
      answers, contacts, users := map[], map[], map[];
      contactsTable := false;
      session := None;
      this.hash := hash;
    }

    /** The admin gate: `session.get('username') != 'admin'` sends the caller home. */
    predicate IsAdmin(): (b: bool)
      reads this
      ensures b ==> LoggedIn() && session.value == AdminName
      ensures session == Some(AdminName) ==> b
    {
      session == Some(AdminName)
    }

    /** `'username' in session`. */
    predicate LoggedIn(): (b: bool)
      reads this
      ensures b <==> session != None
    {
      session.Some?
    }

    /** The two INSERTs shared by lesson creation and contribution: the lesson
        row, then a solution row for the new lesson id only if the solution
        code is non-empty. */
    method InsertLesson(lesson: Lesson, solutionCode: string, solutionExplanation: string)
      requires Valid()
      modifies this
      ensures Valid()
      ensures lessons == old(lessons)[NextRowId(old(lessons).Keys) := lesson]
      ensures solutionCode == "" ==> solutions == old(solutions)
      ensures solutionCode != "" ==>
                solutions == old(solutions)[NextRowId(old(solutions).Keys) :=
                                            Solution(NextRowId(old(lessons).Keys), solutionCode, solutionExplanation)]
      ensures questions == old(questions) && answers == old(answers) && contacts == old(contacts) && contactsTable == old(contactsTable)
      ensures users == old(users) && session == old(session)
    {
      var lessonId := NextRowId(lessons.Keys);
      lessons := lessons[lessonId := lesson];
      if solutionCode != "" {
        solutions := solutions[NextRowId(solutions.Keys) := Solution(lessonId, solutionCode, solutionExplanation)];
      }
    }

    /** POST /admin/create_lesson: an approved lesson by "admin". */
    method AdminCreateLesson(title: string, content: string, codeExample: string, exercise: string,
                             videoUrl: string, solutionCode: string, solutionExplanation: string,
                             now: string) returns (resp: Response)
      requires Valid()
      modifies this
      ensures Valid()
      ensures !old(IsAdmin()) ==> resp == Redirect("home") && unchanged(this)
      ensures old(IsAdmin()) ==>
                && resp == Redirect("lessons")
                && lessons == old(lessons)[NextRowId(old(lessons).Keys) :=
                   Lesson(title, content, codeExample, exercise, videoUrl, AdminName, now, Approved, LessonKind)]
                && (solutionCode == "" ==> solutions == old(solutions))
                && (solutionCode != "" ==>
                      solutions == old(solutions)[NextRowId(old(solutions).Keys) :=
                                                  Solution(NextRowId(old(lessons).Keys), solutionCode, solutionExplanation)])
                && questions == old(questions) && answers == old(answers) && contacts == old(contacts) && contactsTable == old(contactsTable)
                && users == old(users) && session == old(session)
    {
      if !IsAdmin() {
        return Redirect("home");
      }
      InsertLesson(Lesson(title, content, codeExample, exercise, videoUrl, AdminName, now, Approved, LessonKind),
                   solutionCode, solutionExplanation);
      resp := Redirect("lessons");
    }

    /** POST /contribute_lesson: a pending lesson by the session user. */
    method ContributeLesson(title: string, content: string, codeExample: string, exercise: string,
                            videoUrl: string, solutionCode: string, solutionExplanation: string,
                            now: string) returns (resp: Response)
      requires Valid()
      modifies this
      ensures Valid()
      ensures !old(LoggedIn()) ==> resp == Redirect("auth") && unchanged(this)
      ensures old(LoggedIn()) ==>
                && resp == Redirect("lessons")
                && lessons == old(lessons)[NextRowId(old(lessons).Keys) :=
                   Lesson(title, content, codeExample, exercise, videoUrl, old(session).value, now, Pending, LessonKind)]
                && (solutionCode == "" ==> solutions == old(solutions))
                && (solutionCode != "" ==>
                      solutions == old(solutions)[NextRowId(old(solutions).Keys) :=
                                                  Solution(NextRowId(old(lessons).Keys), solutionCode, solutionExplanation)])
                && questions == old(questions) && answers == old(answers) && contacts == old(contacts) && contactsTable == old(contactsTable)
                && users == old(users) && session == old(session)
    {
      if !LoggedIn() {
        return Redirect("auth");
      }
      InsertLesson(Lesson(title, content, codeExample, exercise, videoUrl, session.value, now, Pending, LessonKind),
                   solutionCode, solutionExplanation);
      resp := Redirect("lessons");
    }

    /** `UPDATE lessons SET status = ? WHERE id = ?`, behind the admin gate. */
    method SetStatus(lessonId: nat, status: string) returns (resp: Response)
      requires Valid()
      modifies this
      ensures Valid()
      ensures !old(IsAdmin()) ==> resp == Redirect("home") && unchanged(this)
      ensures old(IsAdmin()) ==>
                && resp == Redirect("lessons")
                && lessons.Keys == old(lessons).Keys
                && (lessonId in lessons ==> lessons[lessonId] == old(lessons)[lessonId].(status := status))
                && (forall id :: id in lessons && id != lessonId ==> lessons[id] == old(lessons)[id])
                && solutions == old(solutions) && questions == old(questions) && answers == old(answers)
                && contacts == old(contacts) && contactsTable == old(contactsTable) && users == old(users) && session == old(session)
    {
      if !IsAdmin() {
        return Redirect("home");
      }
      if lessonId in lessons {
        lessons := lessons[lessonId := lessons[lessonId].(status := status)];
      }
      resp := Redirect("lessons");
    }

    /** GET /approve_lesson/<id>: the lesson becomes "approved", whatever its status was. */
    method ApproveLesson(lessonId: nat) returns (resp: Response)
      requires Valid()
      modifies this
      ensures Valid()
      ensures !old(IsAdmin()) ==> resp == Redirect("home") && unchanged(this)
      ensures old(IsAdmin()) ==>
                && resp == Redirect("lessons")
                && lessons.Keys == old(lessons).Keys
                && (lessonId in lessons ==> lessons[lessonId] == old(lessons)[lessonId].(status := Approved))
                && (forall id :: id in lessons && id != lessonId ==> lessons[id] == old(lessons)[id])
                && solutions == old(solutions) && questions == old(questions) && answers == old(answers)
                && contacts == old(contacts) && contactsTable == old(contactsTable) && users == old(users) && session == old(session)
    {
      resp := SetStatus(lessonId, Approved);
    }

    /** GET /reject_lesson/<id>: the lesson becomes "rejected", whatever its status was. */
    method RejectLesson(lessonId: nat) returns (resp: Response)
      requires Valid()
      modifies this
      ensures Valid()
      ensures !old(IsAdmin()) ==> resp == Redirect("home") && unchanged(this)
      ensures old(IsAdmin()) ==>
                && resp == Redirect("lessons")
                && lessons.Keys == old(lessons).Keys
                && (lessonId in lessons ==> lessons[lessonId] == old(lessons)[lessonId].(status := Rejected))
                && (forall id :: id in lessons && id != lessonId ==> lessons[id] == old(lessons)[id])
                && solutions == old(solutions) && questions == old(questions) && answers == old(answers)
                && contacts == old(contacts) && contactsTable == old(contactsTable) && users == old(users) && session == old(session)
    {
      resp := SetStatus(lessonId, Rejected);
    }

    /** POST /admin/edit_lesson/<id>: only the five editable columns change. */
    method AdminEditLesson(lessonId: nat, title: string, content: string, codeExample: string,
                           exercise: string, videoUrl: string) returns (resp: Response)
      requires Valid()
      modifies this
      ensures Valid()
      ensures !old(IsAdmin()) ==> resp == Redirect("home") && unchanged(this)
      ensures old(IsAdmin()) ==>
                && resp == Redirect("lessons")
                && lessons.Keys == old(lessons).Keys
                && (lessonId in lessons ==>
                      var was := old(lessons)[lessonId];
                      lessons[lessonId] == Lesson(title, content, codeExample, exercise, videoUrl,
                                                  was.author, was.createdAt, was.status, was.kind))
                && (forall id :: id in lessons && id != lessonId ==> lessons[id] == old(lessons)[id])
                && solutions == old(solutions) && questions == old(questions) && answers == old(answers)
                && contacts == old(contacts) && contactsTable == old(contactsTable) && users == old(users) && session == old(session)
    {
      if !IsAdmin() {
        return Redirect("home");
      }
      if lessonId in lessons {
        lessons := lessons[lessonId := lessons[lessonId].(title := title, content := content,
                                                          codeExample := codeExample, exercise := exercise,
                                                          videoUrl := videoUrl)];
      }
      resp := Redirect("lessons");
    }

    /** GET /admin/delete_lesson/<id>: the lesson and every solution linked to it go. */
    method AdminDeleteLesson(lessonId: nat) returns (resp: Response)
      requires Valid()
      modifies this
      ensures Valid()
      ensures !old(IsAdmin()) ==> resp == Redirect("home") && unchanged(this)
      ensures old(IsAdmin()) ==>
                && resp == Redirect("lessons")
                && lessons == old(lessons) - {lessonId}
                && (forall s :: s in solutions <==> s in old(solutions) && old(solutions)[s].lessonId != lessonId)
                && (forall s :: s in solutions ==> solutions[s] == old(solutions)[s])
                && questions == old(questions) && answers == old(answers) && contacts == old(contacts) && contactsTable == old(contactsTable)
                && users == old(users) && session == old(session)
    {
      if !IsAdmin() {
        return Redirect("home");
      }
      lessons := lessons - {lessonId};
      solutions := map s | s in solutions && solutions[s].lessonId != lessonId :: solutions[s];
      resp := Redirect("lessons");
    }

    /** GET /lessons: the approved lessons, newest first. */
    function PublicLessons(): (r: seq<Row<Lesson>>)
      reads this
      ensures forall x :: x in r ==> x.id in lessons && x.rec == lessons[x.id] && x.rec.status == Approved
      ensures forall id :: id in lessons && lessons[id].status == Approved ==> Row(id, lessons[id]) in r
      ensures forall i, j :: 0 <= i < j < |r| ==> r[i].id != r[j].id
      ensures SortedDesc(r, LessonCreated)
    {
      LessonsWithStatus(lessons, Approved)
    }

    /** GET /review_lesson_contributions: the pending lessons, newest first, for the admin only. */
    function ReviewContributions(): (r: Option<seq<Row<Lesson>>>)
      reads this
      ensures r.None? <==> !IsAdmin()
      ensures r.Some? ==>
                && (forall x :: x in r.value ==> x.id in lessons && x.rec == lessons[x.id] && x.rec.status == Pending)
                && (forall id :: id in lessons && lessons[id].status == Pending ==> Row(id, lessons[id]) in r.value)
                && (forall i, j :: 0 <= i < j < |r.value| ==> r.value[i].id != r.value[j].id)
                && SortedDesc(r.value, LessonCreated)
    {
      if IsAdmin() then Some(LessonsWithStatus(lessons, Pending)) else None
    }

    /** GET /qa: the 20 newest questions, for a logged-in user only. */
    function Qa(): (r: Option<seq<Row<Question>>>)
      reads this
      ensures r.None? <==> !LoggedIn()
      ensures r.Some? ==> |r.value| <= 20 && forall x :: x in r.value ==> x.id in questions && x.rec == questions[x.id]
      ensures r.Some? ==> forall i, j :: 0 <= i < j < |r.value| ==> r.value[i].id != r.value[j].id
      ensures r.Some? ==> SortedDesc(r.value, QuestionCreated)
      ensures r.Some? ==> forall id :: id in questions && Row(id, questions[id]) !in r.value ==>
                |r.value| == 20 && forall j :: 0 <= j < 20 ==> LexLeq(QuestionCreated(questions[id]), QuestionCreated(r.value[j].rec))
    {
      if LoggedIn() then Some(Newest(questions, QuestionCreated, 20)) else None
    }

    /** GET /admin/view_contacts: every contact message, newest first, for the
        admin only. Before the `contacts` table exists its SELECT raises
        OperationalError (HTTP 500). */
    function ViewContacts(): (r: ContactsPage)
      reads this
      ensures r.Denied? <==> !IsAdmin()
      ensures r.Missing? <==> IsAdmin() && !contactsTable
      ensures r.Listed? ==> forall x :: x in r.rows ==> x.id in contacts && x.rec == contacts[x.id]
      ensures r.Listed? ==> forall id :: id in contacts ==> Row(id, contacts[id]) in r.rows
      ensures r.Listed? ==> forall i, j :: 0 <= i < j < |r.rows| ==> r.rows[i].id != r.rows[j].id
      ensures r.Listed? ==> SortedDesc(r.rows, ContactCreated)
    {
      if !IsAdmin() then Denied
      else if !contactsTable then Missing
      else Listed(ContactsNewestFirst(contacts))
    }

    /** POST /ask_question: a question by the session user with a zero counter. */
    method AskQuestion(title: string, content: string, now: string) returns (resp: Response)
      requires Valid()
      modifies this
      ensures Valid()
      ensures !old(LoggedIn()) ==> resp == Redirect("auth") && unchanged(this)
      ensures old(LoggedIn()) ==>
                && resp == Redirect("qa")
                && questions == old(questions)[NextRowId(old(questions).Keys) :=
                                               Question(title, content, old(session).value, now, 0)]
                && lessons == old(lessons) && solutions == old(solutions) && answers == old(answers)
                && contacts == old(contacts) && contactsTable == old(contactsTable) && users == old(users) && session == old(session)
    {
      if !LoggedIn() {
        return Redirect("auth");
      }
      questions := questions[NextRowId(questions.Keys) := Question(title, content, session.value, now, 0)];
      resp := Redirect("qa");
    }

    /** POST /answer_question/<id>: one answer row, and the question's counter
        goes up by one when the question exists. The row is inserted even when
        it does not. For every question, the counter minus the number of its
        answer rows stays what it was. */
    method AnswerQuestion(questionId: nat, content: string, now: string) returns (resp: Response)
      requires Valid()
      modifies this
      ensures Valid()
      ensures !old(LoggedIn()) ==> resp == Redirect("auth") && unchanged(this)
      ensures old(LoggedIn()) ==>
                var answerId := NextRowId(old(answers).Keys);
                && resp == Redirect("view_question")
                && answers == old(answers)[answerId := Answer(questionId, content, old(session).value, now)]
                && AnswersTo(answers, questionId) == AnswersTo(old(answers), questionId) + {answerId}
                && (forall q :: q != questionId ==> AnswersTo(answers, q) == AnswersTo(old(answers), q))
                && questions.Keys == old(questions).Keys
                && (questionId in questions ==>
                      questions[questionId] == old(questions)[questionId].(answers := old(questions)[questionId].answers + 1))
                && (forall q :: q in questions && q != questionId ==> questions[q] == old(questions)[q])
                && (forall q :: q in questions ==>
                      questions[q].answers - |AnswersTo(answers, q)| == old(questions)[q].answers - |AnswersTo(old(answers), q)|)
                && lessons == old(lessons) && solutions == old(solutions) && contacts == old(contacts) && contactsTable == old(contactsTable)
                && users == old(users) && session == old(session)
    {
      if !LoggedIn() {
        return Redirect("auth");
      }
      var answerId := NextRowId(answers.Keys);
      ghost var before := answers;
      answers := answers[answerId := Answer(questionId, content, session.value, now)];
      assert AnswersTo(answers, questionId) == AnswersTo(before, questionId) + {answerId};
      forall q | q != questionId ensures AnswersTo(answers, q) == AnswersTo(before, q) { }
      if questionId in questions {
        questions := questions[questionId := questions[questionId].(answers := questions[questionId].answers + 1)];
      }
      resp := Redirect("view_question");
    }

    /** GET /admin/delete_question/<id>: its answer rows, then the question. */
    method DeleteQuestion(questionId: nat) returns (resp: Response)
      requires Valid()
      modifies this
      ensures Valid()
      ensures !old(IsAdmin()) ==> resp == Redirect("home") && unchanged(this)
      ensures old(IsAdmin()) ==>
                && resp == Redirect("qa")
                && questions == old(questions) - {questionId}
                && (forall a :: a in answers <==> a in old(answers) && old(answers)[a].questionId != questionId)
                && (forall a :: a in answers ==> answers[a] == old(answers)[a])
                && AnswersTo(answers, questionId) == {}
                && lessons == old(lessons) && solutions == old(solutions) && contacts == old(contacts) && contactsTable == old(contactsTable)
                && users == old(users) && session == old(session)
    {
      if !IsAdmin() {
        return Redirect("home");
      }
      answers := map a | a in answers && answers[a].questionId != questionId :: answers[a];
      questions := questions - {questionId};
      resp := Redirect("qa");
    }

    /** POST /contact: creates the `contacts` table if needed, then stores a
        message from the session user. */
    method SendContact(subject: string, message: string, now: string) returns (resp: Response)
      requires Valid()
      modifies this
      ensures Valid()
      ensures !old(LoggedIn()) ==> resp == Redirect("auth") && unchanged(this)
      ensures old(LoggedIn()) ==>
                && resp == Redirect("contact")
                && contacts == old(contacts)[NextRowId(old(contacts).Keys) :=
                                             Contact(old(session).value, subject, message, now)]
                && contactsTable
                && lessons == old(lessons) && solutions == old(solutions) && questions == old(questions)
                && answers == old(answers) && users == old(users) && session == old(session)
    {
      if !LoggedIn() {
        return Redirect("auth");
      }
      contactsTable := true;
      contacts := contacts[NextRowId(contacts.Keys) := Contact(session.value, subject, message, now)];
      resp := Redirect("contact");
    }

    /** GET /admin/delete_contact/<id>. Before the `contacts` table exists its
        DELETE raises OperationalError (HTTP 500). */
    method DeleteContact(contactId: nat) returns (resp: Response)
      requires Valid()
      modifies this
      ensures Valid()
      ensures !old(IsAdmin()) ==> resp == Redirect("home") && unchanged(this)
      ensures old(IsAdmin()) && !old(contactsTable) ==> resp == ServerError && unchanged(this)
      ensures old(IsAdmin()) && old(contactsTable) ==>
                && resp == Redirect("view_contacts")
                && contacts == old(contacts) - {contactId} && contactsTable
                && lessons == old(lessons) && solutions == old(solutions) && questions == old(questions)
                && answers == old(answers) && users == old(users) && session == old(session)
    {
      if !IsAdmin() {
        return Redirect("home");
      }
      if !contactsTable {
        return ServerError;
      }
      contacts := contacts - {contactId};
      resp := Redirect("view_contacts");
    }

    /** POST /auth. "register" inserts the user unless the name is taken (the
        UNIQUE constraint raises IntegrityError) and logs them in; "login"
        logs in exactly when a row with that name and digest exists. */
    method Auth(action: string, username: string, password: string, now: string) returns (resp: Response)
      requires Valid()
      modifies this
      ensures Valid()
      ensures action == "register" && HasUser(old(users), username) ==>
                resp == Render("auth.html") && unchanged(this)
      ensures action == "register" && !HasUser(old(users), username) ==>
                && resp == Redirect("home")
                && users == old(users)[NextRowId(old(users).Keys) := User(username, hash(password), now)]
                && session == Some(username)
                && lessons == old(lessons) && solutions == old(solutions) && questions == old(questions)
                && answers == old(answers) && contacts == old(contacts) && contactsTable == old(contactsTable)
      ensures action == "login" ==>
                && (resp == Redirect("home") <==> HasCredentials(old(users), username, hash(password)))
                && (resp != Redirect("home") ==> resp == Render("auth.html"))
                && session == (if HasCredentials(old(users), username, hash(password)) then Some(username) else old(session))
                && lessons == old(lessons) && solutions == old(solutions) && questions == old(questions)
                && answers == old(answers) && contacts == old(contacts) && contactsTable == old(contactsTable) && users == old(users)
      ensures action != "register" && action != "login" ==> resp == Render("auth.html") && unchanged(this)
    {
      if action == "register" {
        if HasUser(users, username) {
          return Render("auth.html");
        }
        var userId := NextRowId(users.Keys);
        users := users[userId := User(username, hash(password), now)];
        session := Some(username);
        return Redirect("home");
      } else if action == "login" {
        if HasCredentials(users, username, hash(password)) {
          session := Some(username);
          return Redirect("home");
        }
        return Render("auth.html");
      }
      resp := Render("auth.html");
    }

    /** POST /profile: rename the session user's row, and replace its digest
        only when a new password is given. A rename onto another user's name
        raises IntegrityError (HTTP 500) and changes nothing. Otherwise the
        session takes the new name, even when no row had the old one. */
    method Profile(newUsername: string, newPassword: string) returns (resp: Response)
      requires Valid()
      modifies this
      ensures Valid()
      ensures !old(LoggedIn()) ==> resp == Redirect("auth") && unchanged(this)
      ensures old(LoggedIn()) && RenameConflict(old(users), old(session).value, newUsername) ==>
                resp == ServerError && unchanged(this)
      ensures old(LoggedIn()) && !RenameConflict(old(users), old(session).value, newUsername) ==>
                var current := old(session).value;
                && resp == Redirect("profile")
                && session == Some(newUsername)
                && users.Keys == old(users).Keys
                && (forall u :: u in users && old(users)[u].username != current ==> users[u] == old(users)[u])
                && (forall u :: u in users && old(users)[u].username == current ==>
                      users[u] == User(newUsername,
                                       if newPassword == "" then old(users)[u].password else hash(newPassword),
                                       old(users)[u].createdAt))
                && lessons == old(lessons) && solutions == old(solutions) && questions == old(questions)
                && answers == old(answers) && contacts == old(contacts) && contactsTable == old(contactsTable)
    {
      if !LoggedIn() {
        return Redirect("auth");
      }
      var current := session.value;
      if RenameConflict(users, current, newUsername) {
        return ServerError;
      }
      ghost var before := users;
      if newPassword != "" {
        var digest := hash(newPassword);
        users := map u | u in users :: if users[u].username == current
                                         then users[u].(username := newUsername, password := digest)
                                         else users[u];
      } else {
        users := map u | u in users :: if users[u].username == current
                                         then users[u].(username := newUsername)
                                         else users[u];
      }
      RenameKeepsUnique(before, users, current, newUsername);
      session := Some(newUsername);
      resp := Redirect("profile");
    }

    /** GET /logout. */
    method Logout() returns (resp: Response)
      requires Valid()
      modifies this
      ensures Valid()
      ensures resp == Redirect("home") && session == None
      ensures lessons == old(lessons) && solutions == old(solutions) && questions == old(questions)
      ensures answers == old(answers) && contacts == old(contacts) && contactsTable == old(contactsTable) && users == old(users)
    {
      session := None;
      resp := Redirect("home");
    }
  }

  /** A rename without a conflict keeps usernames unique. */
  lemma RenameKeepsUnique(before: map<nat, User>, after: map<nat, User>, current: string, newName: string)
    requires UniqueUsernames(before)
    requires !RenameConflict(before, current, newName)
    requires after.Keys == before.Keys
    requires forall u :: u in before && before[u].username != current ==> after[u] == before[u]
    requires forall u :: u in before && before[u].username == current ==> after[u].username == newName
    ensures UniqueUsernames(after)
  {
  }

  /** A contribution stays out of the public list, and its author cannot approve it. */
  method ContributionScenario(hash: string -> string)
  {
    var app := new App(hash);
    var r := app.Auth("register", "ana", "secret", "2024-05-01T09:00:00");
    assert app.users == map[1 := User("ana", hash("secret"), "2024-05-01T09:00:00")];
    r := app.ContributeLesson("Loops", "for x in xs", "", "", "", "print(1)", "", "2024-05-01T09:05:00");
    assert app.lessons[1].status == Pending && app.solutions[1].lessonId == 1;
    assert Row(1, app.lessons[1]) !in app.PublicLessons();
    r := app.ApproveLesson(1);
    assert r == Redirect("home") && app.lessons[1].status == Pending;
  }

  /** A rejected lesson leaves the public list and an approval brings it back. */
  method ApprovalScenario(hash: string -> string)
  {
    var app := new App(hash);
    var r := app.Auth("register", "admin", "admin123", "2024-05-01T09:00:00");
    r := app.AdminCreateLesson("Loops", "for x in xs", "", "", "", "", "", "2024-05-01T09:05:00");
    assert 1 in app.lessons;
    r := app.RejectLesson(1);
    assert Row(1, app.lessons[1]) !in app.PublicLessons();
    r := app.ApproveLesson(1);
    assert Row(1, app.lessons[1]) in app.PublicLessons();
  }

  /** Deleting a lesson removes the solution created with it. */
  method DeletionScenario(hash: string -> string)
  {
    var app := new App(hash);
    var r := app.Auth("register", "admin", "admin123", "2024-05-01T09:00:00");
    r := app.AdminCreateLesson("Loops", "for x in xs", "", "", "", "print(1)", "", "2024-05-01T09:05:00");
    assert app.solutions == map[1 := Solution(1, "print(1)", "")];
    r := app.AdminDeleteLesson(1);
    assert app.lessons == map[] && app.solutions == map[];
  }

  /** Listing contact messages fails until the first message creates the
      table; afterwards the admin sees the message. */
  method ContactScenario(hash: string -> string)
  {
    var app := new App(hash);
    var r := app.Auth("register", "admin", "admin123", "2024-05-01T09:00:00");
    assert app.ViewContacts() == Missing;
    r := app.DeleteContact(1);
    assert r == ServerError;
    r := app.SendContact("Hi", "Thanks!", "2024-05-01T09:01:00");
    assert app.ViewContacts().Listed?;
    assert Row(1, Contact(AdminName, "Hi", "Thanks!", "2024-05-01T09:01:00")) in app.ViewContacts().rows;
  }

  /** An answer posted to a question id that does not exist yet is kept; the
      question that later receives that id starts with a zero counter although
      one answer row refers to it. */
  method OrphanAnswerScenario(hash: string -> string)
  {
    var app := new App(hash);
    var r := app.Auth("register", "ana", "secret", "2024-05-01T09:00:00");
    r := app.AnswerQuestion(1, "use a loop", "2024-05-01T09:01:00");
    assert app.answers[1].questionId == 1 && app.questions == map[];
    r := app.AskQuestion("How do I loop?", "", "2024-05-01T09:02:00");
    assert app.questions[1].answers == 0;
    assert AnswersTo(app.answers, 1) == {1};
  }
}
