# Classroom quiz app — a Dafny model of its forms and views

The app lets teachers author quizzes, each a set of questions with answers. Students take the
quizzes of subjects they are interested in, one question per request. This project models three
parts of it:

- the answer-set rule that a teacher's batch of answer forms must pass;
- the quiz-taking step and the answer form it uses;
- the sign-up saves, the list filters, the results count and the question add and change
  handlers.

The store is modelled as the class `Models.Database`, with one `seq` of rows per table. Each
operation that writes the store is a method with a field-level `modifies` frame. So everything
outside that frame, for instance the `TakenQuiz` table during `take_quiz`, is unchanged by
construction. The read-only queries are functions over the tables.

Files:

- `wrappers.dfy`: `Option` and `Result`.
- `models.dfy`: the records, the store and its key constraints (`Database.Valid`). It also has
  key lookups, the filter and count used by the views, and the assumed
  `get_unanswered_questions` together with its lemmas.
- `ordering.dfy`: `order_by('text')` on answers. It sorts by insertion, comparing texts
  lexicographically by character code.
- `forms.dfy`: `BaseAnswerInlineFormSet.clean`, `TakeQuizForm` and the two sign-up `save`
  methods.
- `views.dfy`: the student lists, `take_quiz`, the results count, `question_add` and
  `question_change`.

Assumptions:

- The models module is not part of this model. Its records carry only the fields the forms and
  views use.
- A `Student` is identified by its user's key.
- The `User` model's `is_student` and `is_teacher` default to false. The sign-up saves set only
  one of them, so the other keeps this default.
- `get_unanswered_questions(quiz)` is assumed to return the quiz's questions that have no
  `StudentAnswer` from the student, in the order of the question table. "The first unanswered
  question" therefore means the first in table order.
- A new row's key is one more than the largest key in its table.
- The text ordering compares character codes, not the database collation. Answers with equal
  text may come out in either order, as they may from the database.

Three things the code does that a reader might not expect:

- The code accepts an answer set when at least one kept answer is correct and at least one is
  not. Several correct answers pass: `clean` does not require exactly one correct answer.
- `take_quiz` creates no `TakenQuiz` and computes no score. When the last question is answered
  it only redirects to the taken-quiz list.
- `take_quiz` presents the first unanswered question (`[0]`), not an arbitrary one.

Two consequences of the code, stated in the model:

- An extra answer form left blank has empty cleaned data. It therefore counts as a kept answer
  that is not correct (`Forms.BlankFormCountsAsIncorrect`).
- `question_change` looks its question up by key alone. It edits a question of another quiz just
  as well, then redirects to the quiz named in the URL (`Views.QuestionChange`).

Error outcomes of the views:

- A quiz or question that is not found gives `NotFound`.
- In `take_quiz`, a user without a student profile, or an empty set of unanswered questions
  (the code indexes `[0]` unguarded), gives `ServerError`.
- In the two student list views a failed profile lookup gives `None`.
- The model does not require these cases away; it gives each an explicit outcome.

## Model

| member | source | states |
|---|---|---|
| `Forms.CleanAnswerFormSet` | django_school/classroom/forms.py:68-86 | The loop over the forms sets its two flags exactly as "some kept form is correct" and "no kept form is incorrect", over the forms seen so far. It returns `no_correct_answer` when no kept form is correct. Otherwise it returns `all_correct_answers` when no kept form is incorrect, and otherwise accepts. |
| `Forms.VerdictByCounts` | django_school/classroom/forms.py:72-86 | In terms of the kept forms' `is_correct` flags, the batch is accepted iff 1 <= #correct < #kept. It is rejected with `no_correct_answer` iff #correct = 0, and with `all_correct_answers` iff 1 <= #correct = #kept. Several correct answers are accepted. |
| `Forms.FlagsMatchCounts` | django_school/classroom/forms.py:75-80 | There is a kept correct form iff the count of true flags among the kept forms is positive. There is a kept incorrect form iff that count is below the number of kept forms. |
| `Forms.NothingKeptLacksCorrectAnswer` | django_school/classroom/forms.py:72-83 | An empty batch, or one whose every form is marked `DELETE`, is rejected with `no_correct_answer`, never with `all_correct_answers`. |
| `Forms.DeletedFormIgnored` | django_school/classroom/forms.py:75-77 | Removing a form marked `DELETE` from the batch does not change the verdict. |
| `Forms.BlankFormCountsAsIncorrect` | django_school/classroom/forms.py:76-80 | A form whose cleaned data lacks both `DELETE` and `is_correct` counts as kept and not correct. Appended to a batch with a correct answer, it makes the batch acceptable. |
| `Forms.AnswersOf` | django_school/classroom/forms.py:105 | `question.answers` holds exactly the answer rows whose question is the given one. |
| `Ordering.ByText` | django_school/classroom/forms.py:105 | The ordered answers are a permutation of the input: the same multiset. |
| `Ordering.ByTextSorted` | django_school/classroom/forms.py:105 | The result of ordering is sorted by text: every answer's text sorts no later than that of every later answer. |
| `Ordering.TextLeTotal` | django_school/classroom/forms.py:105 | Any two texts are comparable in the text order used for `order_by('text')`. |
| `Forms.AnswerChoicesAreQuestionAnswersByText` | django_school/classroom/forms.py:103-105 | The form's selectable answers are exactly the question's answers, as a multiset equal to `question.answers`, and they are ordered by text. |
| `Forms.TakeQuizForm.constructor` | django_school/classroom/forms.py:102-105 | Initialising the form keeps the question and sets the answer field's choices to that question's answers ordered by text. |
| `Forms.TakeQuizForm.CleanAnswer` | django_school/classroom/forms.py:90-96 | The field is required: no submitted key gives `Required`. A key gives the chosen answer iff some choice has that key; the answer returned is that choice. Any other key is `InvalidChoice`. |
| `Forms.TeacherSignUpSave` | django_school/classroom/forms.py:14-19 | The returned user has `is_teacher` set and, by the assumed model default, not `is_student`, with the form's username and email. When `commit` holds it is stored as exactly one new row under a key no stored user has. Without `commit` it is unsaved and the users table is unchanged. |
| `Forms.StudentSignUpSave` | django_school/classroom/forms.py:34-41 | The returned user has `is_student` set and, by the assumed model default, not `is_teacher`. It is stored as exactly one new user row with a fresh key. Exactly one `Student` row is added for it, its interests being the selected subjects, and no other student row belongs to that user. The key constraints of the store still hold. |
| `Models.QuizWithPk` | django_school/classroom/views.py:44 | `get_object_or_404(Quiz, pk=pk)`: it finds a quiz iff some quiz has that key, and the quiz found has it. `None` stands for not found. |
| `Models.StudentOf` | django_school/classroom/views.py:45 | `request.user.student`: it finds a profile iff some student row belongs to the user, and the profile found does. |
| `Models.QuestionIndex` | django_school/classroom/views.py:118 | `get_object_or_404(Question, pk=question_pk)`: the position of a question with that key, or `None` iff no question has it. |
| `Models.UnansweredAmong` | django_school/classroom/views.py:46 | The assumed `get_unanswered_questions`: a question is unanswered iff it is a row of the quiz whose key is not among the student's answered questions. |
| `Models.AnsweredQuestionsMeans` | django_school/classroom/views.py:46 | A question counts as answered iff some `StudentAnswer` of the student refers to an answer under that question. |
| `Models.AnsweringAddsItsQuestion` | django_school/classroom/views.py:52 | With unique answer keys, recording an answer marks exactly that answer's question as answered. |
| `Models.AnsweringFirstDropsIt` | django_school/classroom/views.py:49-52 | With unique question keys, marking the first unanswered question answered leaves the rest of the unanswered list, in order. |
| `Models.SubmittingShrinksUnanswered` | django_school/classroom/views.py:46-52 | Recording an answer under the first unanswered question leaves the unanswered questions minus that first one. The unanswered list shrinks by exactly one. |
| `Models.FilterCount` | django_school/classroom/views.py:93-94 | The number of rows a filter keeps equals the number of table positions that satisfy it. |
| `Models.NextPk` | django_school/classroom/views.py:107 | A new row's key is at least 1 and larger than every key in use. |
| `Views.TakeQuiz` | django_school/classroom/views.py:43-63 | An unknown quiz gives `NotFound`. A missing profile or no unanswered question gives `ServerError`. Otherwise it presents the first unanswered question with its answers ordered by text. On a POST whose answer is one of those choices it inserts exactly `StudentAnswer(student, answer)`. The unanswered list then loses exactly that question, and the view redirects to the taken-quiz list iff nothing remains, else back to the same quiz. A GET or an invalid POST writes nothing and re-renders the same question. No `TakenQuiz` is written. |
| `Views.StudentQuizList` | django_school/classroom/views.py:31-33 | A logged-in user without a student profile gets the error (`None`), exactly when the profile lookup fails. Otherwise the list is exactly the quizzes whose subject is among that student's interests. |
| `Views.TakenQuizList` | django_school/classroom/views.py:39-41 | A logged-in user without a student profile gets the error (`None`), exactly when the profile lookup fails. Otherwise the list is exactly the `TakenQuiz` rows of that student. |
| `Views.QuizResults` | django_school/classroom/views.py:86-94 | An unknown quiz is not found. Otherwise `taken_quizzes` is exactly the attempts at that quiz, and `total_taken_quizzes` equals the number of `TakenQuiz` rows for that quiz. |
| `Views.QuestionAdd` | django_school/classroom/views.py:100-114 | An unknown quiz gives `NotFound`. A valid POST appends exactly one question, with a fresh key and the posted text, attached to the URL's quiz, then redirects to that quiz's change page. A GET or an invalid POST changes nothing and renders the form. |
| `Views.QuestionChange` | django_school/classroom/views.py:116-130 | An unknown quiz or question gives `NotFound`. A valid POST replaces only that question's text, keeping its key and its own quiz, whichever quiz the URL names. A GET or an invalid POST changes nothing. |

## Left out

- `super().clean()` in `BaseAnswerInlineFormSet.clean`: the framework's inherited formset validation, which runs before the two checks and can raise its own errors. The model starts at the loop.
- Role decorators (`classroom/decorators.py`): a wrapper over the framework's `user_passes_test`. Their only logic is "active and has the role", and no modelled view applies them.
- URL routing and app configuration (`urls.py`, `apps.py`): no behaviour beyond dispatch.
- Login, logout and `auth_login` after sign-up: session handling by the framework.
- Rendering and redirects: modelled only as the `Response` tags.
- The average score on the results page (`Avg('score')`): a floating-point database aggregation.
- Score computation and `TakenQuiz` creation: the modelled code has neither.
- The generic teacher views (quiz list, create, update and delete, question delete): they only name a model, fields and a success URL. The teacher `QuizListView` lists every quiz. It shadows the student list view of the same name, which is modelled separately as `StudentQuizList`.
- Password handling and the username and email validation of the framework's user-creation form: library code. The model keeps username and email only.
- Validation of `QuestionForm`'s text field and of the sign-up interests field: the framework validates them. A request carries either the cleaned text or `None` for a rejected form, and the interests are the selected subject keys.
- The database transaction around the student sign-up: no step of the modelled save can fail, so the save is always all-or-nothing.
- Concurrent and duplicate submissions: requests are modelled one at a time.
- Views.StudentQuizList: the code passes the related manager `student.interests` to the `__in` lookup. The model gives the intended result, membership of the quiz's subject in the student's interests. It does not model what the framework does with a manager there.
