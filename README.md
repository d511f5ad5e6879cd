# A verified model of the python-learning-app forum and moderation core

The application is a Flask site for learning Python. It has lessons that
contributors submit and the admin moderates, a question/answer forum, contact
messages, user accounts, and an AI chat whose offline fallback picks a canned
reply by keyword. This project models the logic of those route handlers in
`main.py` and proves what they do to the tables.

- `records.dfy` (module `Records`): one datatype per table row (`Lesson`,
  `Solution`, `Question`, `Answer`, `Contact`, `User`), the handler `Response`
  (a redirect to an endpoint, a rendered template, or an unhandled exception),
  and the constants the handlers store (`"approved"`, `"pending"`,
  `"rejected"`, `"lesson"`, `"admin"`).
- `row_ids.dfy` (module `RowIds`): SQLite's choice of id for an INSERT that
  gives none, which is one more than the largest id in the table. This is the
  `c.lastrowid` that links a new solution to its new lesson.
- `ordering.dfy` (module `Ordering`): `ORDER BY created_at DESC` over ISO-8601
  TEXT timestamps. `LexLeq` is SQLite's BINARY collation: it compares strings
  character by character, and a proper prefix sorts first. The module proves
  it is a total order and sorts result rows newest first.
- `queries.dfy` (module `Queries`): `SELECT * … WHERE … ORDER BY created_at
  DESC` over a table (`Select`) and `LIMIT n` (`Limit`).
- `forum.dfy` (module `Forum`): class `App`. It holds the tables `lessons`,
  `solutions`, `questions`, `answers`, `contacts` and `users` as maps from row
  id to row, the session's `username`, and the hash function. Every handler
  that writes is a method. Its effect is the SQL the handler issues, and its
  contract states the whole new state and that no other table or row changes.
  Handlers that only read are functions. The admin gate is `IsAdmin()`, which
  is true exactly when the session username is `"admin"`. Every admin handler
  leaves the object unchanged when the gate fails. `Valid()` is kept by every
  method. It says that usernames are unique, which is the UNIQUE constraint,
  and that every solution belongs to an existing lesson, which the cascade
  delete keeps true.
- `chat.dfy` (module `Chat`): the `/chat` reply. The upstream completion
  request is an input (`Upstream`). When it raises, the reply is the value of
  the first key, in table order `"xin chào"`, `"hello"`, `"python"`, that occurs
  in the lowercased message. When no key occurs, the reply is
  `"Tôi giúp học Python."`.

External functions are parameters. `hash` stands for
`hashlib.sha256(...).hexdigest()`, `now` for
`datetime.datetime.now().isoformat()`, and `lower` for `str.lower()`.

A consequence of the answer handler as written is that it inserts an answer row
even when no question has that id. The question that later gets that id starts
with a counter of 0 while an answer row already points at it
(`Forum.OrphanAnswerScenario`). `AnswerQuestion` instead proves that, for every
question, the counter minus the number of its answer rows does not change.

The SQLite branch of `init_db` creates every table except `contacts`, which
the first POST /contact creates. Until then the admin's contact list and
contact deletion raise OperationalError (HTTP 500). `App.contactsTable` records
whether the table exists (`Forum.ContactScenario`).

## Model

| member | source | states |
|---|---|---|
| RowIds.NextRowId | main.py:350-353 | the id of an inserted row is fresh: it is above every existing id, and it is one more than the largest id, or 1 for an empty table |
| Ordering.LexLeqTotal | main.py:122 | any two timestamps are ordered one way or the other |
| Ordering.LexLeqTransitive | main.py:122 | the timestamp order is transitive |
| Ordering.LexLeqAntisymmetric | main.py:122 | two timestamps ordered both ways are equal |
| Ordering.InsertDesc | main.py:122 | inserting a row into a newest-first sequence keeps it newest-first and adds exactly that row |
| Ordering.SortDesc | main.py:122 | the sorted result is newest-first and is a permutation of its input |
| Queries.Select | main.py:122 | a filtered, ordered SELECT holds exactly the table rows that pass the filter, each once, newest first |
| Queries.DistinctIds | main.py:122 | a SELECT result without repeated rows never has two rows with the same id |
| Queries.Limit | main.py:161 | LIMIT n keeps a prefix of at most n rows, and all rows when there are at most n |
| Queries.LimitOfSorted | main.py:161 | a table row that LIMIT drops from a sorted result is no newer than every kept row, and rows are dropped only when n rows are kept |
| Forum.App.IsAdmin | main.py:336 | the admin gate passes exactly when the session username is "admin", and only for a logged-in session |
| Forum.App.LoggedIn | main.py:157 | the login check passes exactly when the session holds a username |
| Forum.App.SetStatus | main.py:472-498 | for a non-admin, nothing changes and the reply redirects home; for the admin, only the target lesson's status is set, whatever it was, a missing id changes nothing, and every other lesson and table is unchanged |
| Forum.LessonsWithStatus | main.py:413 | exactly the lessons with the given status, each once, newest first |
| Queries.Newest | main.py:161 | at most n questions, each once, newest first; a question that is left out is no newer than any listed one, and questions are left out only when n are listed |
| Forum.ContactsNewestFirst | main.py:577 | exactly the contact messages, each once, newest first |
| Forum.RenameKeepsUnique | main.py:292-296 | a rename that does not clash with another user's name keeps usernames unique |
| Forum.App.InsertLesson | main.py:350-356 | the lesson is inserted at the next lesson id; a solution row linked to that id is inserted if and only if the solution code is non-empty; nothing else changes |
| Forum.App.AdminCreateLesson | main.py:334-362 | for a non-admin, nothing changes and the reply redirects home; for the admin, the lesson is inserted with author "admin", status "approved" and type "lesson", plus a solution row exactly when the solution code is non-empty |
| Forum.App.ContributeLesson | main.py:369-397 | without a session, nothing changes and the reply redirects to auth; otherwise the lesson is inserted with the session user as author, status "pending" and type "lesson", plus a solution row exactly when the solution code is non-empty |
| Forum.App.ApproveLesson | main.py:472-484 | for a non-admin, nothing changes; for the admin, only the target lesson's status becomes "approved", whatever it was, and every other lesson and table is unchanged |
| Forum.App.RejectLesson | main.py:486-498 | for a non-admin, nothing changes; for the admin, only the target lesson's status becomes "rejected", whatever it was, and every other lesson and table is unchanged |
| Forum.App.AdminEditLesson | main.py:515-536 | for the admin, the target lesson gets the new title, content, code example, exercise and video URL and keeps its author, created_at, status and type; every other lesson and table is unchanged |
| Forum.App.AdminDeleteLesson | main.py:544-557 | for the admin, the lesson and exactly the solutions with that lesson id are removed; every other row stays as it was |
| Forum.App.PublicLessons | main.py:120-123 | the public list holds exactly the approved lessons, each once, newest first |
| Forum.App.ReviewContributions | main.py:406-417 | only the admin gets a list; it holds exactly the pending lessons, each once, newest first |
| Forum.App.Qa | main.py:155-162 | only a logged-in user gets a list; it holds at most 20 questions, each once, newest first, and leaves out only questions no newer than those listed |
| Forum.App.ViewContacts | main.py:570-581 | a non-admin is sent home; before the `contacts` table exists the admin gets HTTP 500; otherwise the admin's list holds exactly the contact messages, each once, newest first |
| Forum.App.AskQuestion | main.py:164-178 | a logged-in user's question is inserted with that user as author and an answer counter of 0; nothing else changes |
| Forum.App.AnswerQuestion | main.py:199-215 | exactly one answer row is added; the question's counter goes up by exactly 1 when the question exists, no counter changes when it does not, and for every question the counter minus its number of answer rows is preserved |
| Forum.App.DeleteQuestion | main.py:583-596 | for the admin, the question and exactly the answers with that question id are removed; every other row stays as it was |
| Forum.App.SendContact | main.py:307-329 | a logged-in user's message is inserted with that user's name, and the `contacts` table then exists; nothing else changes |
| Forum.App.DeleteContact | main.py:598-610 | a non-admin is sent home; before the `contacts` table exists the admin gets HTTP 500 and nothing changes; otherwise only that contact message is removed |
| Forum.App.Auth | main.py:425-462 | registering a taken username renders the form and changes nothing; registering a new one inserts it with the digest of the password and logs it in; login succeeds if and only if a row with that username and digest exists, and only then changes the session |
| Forum.App.Profile | main.py:277-303 | the session user's row is renamed; its digest is replaced only when the new password is non-empty, and kept otherwise; a rename onto another user's name is a server error that changes nothing; otherwise the session takes the new name |
| Forum.App.Logout | main.py:612-616 | the session is cleared; no table changes |
| Chat.Contains | main.py:269 | the scan is true exactly when the key occurs as a substring of the text |
| Chat.FirstMatch | main.py:267-271 | the reply is the value of the first key in table order that occurs in the text, or the default when none occurs |
| Chat.FirstMatchIsScan | main.py:261-271 | that first-match reply is exactly the one a recursive scan of the table gives, so the table and the text determine the reply |
| Chat.ChatReply | main.py:224-273 | a readable 200 reply is passed through; any other status gives "AI đang bận. Thử lại sau!"; an exception, including an unreadable 200 body, gives the fallback reply for the lowercased message |
| Chat.HelloBeforePython | main.py:261-271 | every message that holds "hello" but not "xin chào" gets the "hello" reply, whether or not it also holds "python", because "hello" comes before "python" in the table |
| Chat.NoKeyGivesDefault | main.py:261-271 | every message that holds none of the three keys gets "Tôi giúp học Python." |

## Left out

- `run_code` (main.py:136-151): it `exec`s arbitrary Python in the server process and swaps the global `sys.stdout`. Neither can be stated in Dafny.
- The Groq request in `chat` (headers, model, prompt, timeout): it is a network client. It is an input (`Upstream`), and only what the handler does with the outcome is modelled.
- Database plumbing: `get_db_connection`, `execute_query`, the Postgres/SQLite switch and the `init_db` DDL. The tables are maps, and `App`'s constructor starts them empty. Of `init_db`'s effect only the missing `contacts` table is modelled (`contactsTable`); a database file that already holds rows is not.
- Ids follow SQLite's rowid rule: largest id plus one, so the id of a deleted newest row is used again. Postgres SERIAL ids, used when `execute_query` runs on Postgres, never repeat. SQLite's random choice once the largest id reaches 2^63-1 is not modelled.
- Transactions and concurrency: each handler runs alone and all at once. Two requests that interleave are not modelled.
- The answer counter and ids are unbounded integers, so SQLite's 64-bit INTEGER limits are not modelled.
- Ties in `ORDER BY created_at DESC`: SQL leaves the order of rows with equal timestamps open. The model fixes one order, and no contract depends on it.
- SHA-256, `datetime.now()` and `str.lower()` are parameters (`hash`, `now`, `lower`), not definitions.
- A form field missing from `request.form[...]` (HTTP 400) is not modelled. Form fields are method parameters.
- Presentation: `render_template`, `flash` and `url_for`. The GET-only pages `home`, `code_editor`, `lesson_detail`, `exercise_page`, `get_solution`, `view_question`, `ai_chat`, `login` and `register` read single rows and render them, with no logic beyond a redirect. The GET branches of `admin_create_lesson`, `contribute_lesson`, `ask_question`, `contact`, `profile`, `auth` and `admin_edit_lesson` only render a form; the methods model the POST branches. Responses keep only the redirect endpoint or the template name.
- Chat.ChatReply: a 200 reply whose `content` is JSON null or not a string is passed through as is (main.py:255-256), for example as `{"response": null}`; `Option<string>` sends every unreadable 200 body to the fallback instead.
- Chat.ChatReply: a `message` that is not a string makes `message.lower()` raise inside the `except` block (main.py:269), which is HTTP 500. The message is a `string` here, so that case does not arise.
- The startup code under `if __name__ == '__main__'` (main.py:618-636), which creates the admin account.
