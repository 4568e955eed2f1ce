/**
 * The classroom views: the student's quiz lists, the quiz-taking step, the teacher's results
 * page and the question add and change handlers. A view's HTTP response is modelled only as
 * an outcome tag; templates, sessions and redirects as responses are not modelled.
 */
module Views {
  import opened Wrappers
  import opened Models
  import opened Forms

  datatype Response =
    | NotFound
      /** An exception escaping the view, such as indexing an empty queryset. */
    | ServerError
    | TakeQuizPage(quiz: Quiz, question: Question, choices: seq<Answer>, rejected: bool)
    | QuestionFormPage(quiz: Quiz, editing: Option<Question>, rejected: bool)
    | RedirectToTakenQuizList
    | RedirectToTakeQuiz(quizPk: Pk)
    | RedirectToQuizChange(quizPk: Pk)

  /** A request to the quiz-taking view: a GET, or a POST carrying the chosen answer's key, if any. */
  datatype TakeQuizRequest = TakeQuizGet | TakeQuizPost(answer: Option<Pk>)

  /** A request to a question form: a GET, or a POST whose text is `None` when the form rejects it. */
  datatype QuestionRequest = QuestionGet | QuestionPost(text: Option<string>)

  // ----- Student lists -----

  /**
   * The student `QuizListView.get_queryset`: the quizzes on subjects the student is interested
   * in. `None` stands for the error raised by `request.user.student` when the logged-in user
   * `user` has no student profile.
   */
  function StudentQuizList(quizzes: seq<Quiz>, students: seq<Student>, user: Pk): (r: Option<seq<Quiz>>)
    ensures r.None? <==> StudentOf(students, user).None?
    ensures r.Some? ==> forall q :: q in r.value <==> q in quizzes && q.subject in StudentOf(students, user).value.interests
  {
    match StudentOf(students, user)
    case None => None
    case Some(student) => Some(Filter(quizzes, (q: Quiz) => q.subject in student.interests))
  }

  /**
   * `TakenQuizListView.get_queryset`: the attempts of the logged-in user's student profile;
   * `None` when the user `user` has no student profile.
   */
  function TakenQuizList(takenQuizzes: seq<TakenQuiz>, students: seq<Student>, user: Pk): (r: Option<seq<TakenQuiz>>)
    ensures r.None? <==> StudentOf(students, user).None?
    ensures r.Some? ==> forall t :: t in r.value <==> t in takenQuizzes && t.student == user
  {
    match StudentOf(students, user)
    case None => None
    case Some(student) => Some(Filter(takenQuizzes, (t: TakenQuiz) => t.student == student.user))
  }

  // ----- Teacher results -----

  datatype QuizResultsContext = QuizResultsContext(quiz: Quiz, takenQuizzes: seq<TakenQuiz>, totalTakenQuizzes: nat)

  /** `QuizResultsView`: the quiz, its attempts and their number; `None` when the quiz is not found. */
  function QuizResults(quizzes: seq<Quiz>, takenQuizzes: seq<TakenQuiz>, pk: Pk): (r: Option<QuizResultsContext>)
    ensures r.None? <==> QuizWithPk(quizzes, pk).None?
    ensures r.Some? ==> r.value.quiz in quizzes && r.value.quiz.pk == pk
    ensures r.Some? ==> forall t :: t in r.value.takenQuizzes <==> t in takenQuizzes && t.quiz == pk
    ensures r.Some? ==> r.value.totalTakenQuizzes == |set i | 0 <= i < |takenQuizzes| && takenQuizzes[i].quiz == pk|
  {
    match QuizWithPk(quizzes, pk)
    case None => None
    case Some(quiz) =>
      var p := (t: TakenQuiz) => t.quiz == quiz.pk;
      var taken := Filter(takenQuizzes, p);
      FilterCount(takenQuizzes, p);
      assert Positions(takenQuizzes, p) == set i | 0 <= i < |takenQuizzes| && takenQuizzes[i].quiz == pk;
      Some(QuizResultsContext(quiz, taken, |taken|))
  }

  // ----- Taking a quiz -----

  /**
   * `take_quiz`: presents the first of the student's unanswered questions of the quiz with its
   * answers ordered by text, and on a valid POST records exactly one `StudentAnswer`. Nothing
   * else changes: in particular no `TakenQuiz` is created.
   */
  method TakeQuiz(db: Database, user: Pk, pk: Pk, request: TakeQuizRequest) returns (response: Response)
    requires db.Valid()
    modifies db`studentAnswers
    ensures db.Valid()
    ensures db.takenQuizzes == old(db.takenQuizzes)
    ensures var quiz := QuizWithPk(db.quizzes, pk);
            var current := UnansweredQuestions(db.questions, db.answers, old(db.studentAnswers), user, pk);
            if quiz.None? then
              response == NotFound && db.studentAnswers == old(db.studentAnswers)
            else if StudentOf(db.students, user).None? || current == [] then
              response == ServerError && db.studentAnswers == old(db.studentAnswers)
            else if request.TakeQuizPost? && request.answer.Some?
                    && Offers(AnswerChoices(db.answers, current[0]), request.answer.value) then
              && db.studentAnswers == old(db.studentAnswers) + [StudentAnswer(user, request.answer.value)]
              && UnansweredQuestions(db.questions, db.answers, db.studentAnswers, user, pk) == current[1..]
              && response == (if |current| == 1 then RedirectToTakenQuizList else RedirectToTakeQuiz(pk))
            else
              && db.studentAnswers == old(db.studentAnswers)
              && response == TakeQuizPage(quiz.value, current[0], AnswerChoices(db.answers, current[0]), request.TakeQuizPost?)
  {
    var quiz := QuizWithPk(db.quizzes, pk);
    if quiz.None? {
      return NotFound;
    }
    var student := StudentOf(db.students, user);
    if student.None? {
      return ServerError;
    }
    var unanswered := UnansweredQuestions(db.questions, db.answers, db.studentAnswers, user, quiz.value.pk);
    if unanswered == [] {
      return ServerError;
    }
    var form := new TakeQuizForm(unanswered[0], db.answers);
    match request {
      case TakeQuizGet =>
        response := TakeQuizPage(quiz.value, unanswered[0], form.choices, false);
      case TakeQuizPost(data) =>
        var answer := form.CleanAnswer(data);
        if answer.Err? {
          return TakeQuizPage(quiz.value, unanswered[0], form.choices, true);
        }
        AnswerChoicesAreQuestionAnswersByText(db.answers, unanswered[0]);
        SubmittingShrinksUnanswered(db.questions, db.answers, db.studentAnswers, user, pk, answer.value);
        db.studentAnswers := db.studentAnswers + [StudentAnswer(user, answer.value.pk)];
        var remaining := UnansweredQuestions(db.questions, db.answers, db.studentAnswers, user, quiz.value.pk);
        if remaining == [] {
          response := RedirectToTakenQuizList;
        } else {
          response := RedirectToTakeQuiz(quiz.value.pk);
        }
    }
  }

  // ----- Authoring questions -----

  /** `question_add`: a valid POST stores one new question of the quiz named in the URL. */
  method QuestionAdd(db: Database, quizPk: Pk, request: QuestionRequest) returns (response: Response)
    requires db.Valid()
    modifies db`questions
    ensures db.Valid()
    ensures var quiz := QuizWithPk(db.quizzes, quizPk);
            if quiz.None? then
              response == NotFound && db.questions == old(db.questions)
            else match request
              case QuestionPost(Some(text)) =>
                && db.questions == old(db.questions) + [Question(NextPk(QuestionPks(old(db.questions))), quizPk, text)]
                && (forall i :: 0 <= i < |old(db.questions)| ==> old(db.questions)[i].pk != db.questions[|db.questions| - 1].pk)
                && response == RedirectToQuizChange(quizPk)
              case _ =>
                db.questions == old(db.questions) && response == QuestionFormPage(quiz.value, None, request.QuestionPost?)
  {
    var quiz := QuizWithPk(db.quizzes, quizPk);
    if quiz.None? {
      return NotFound;
    }
    match request {
      case QuestionPost(Some(text)) =>
        var pk := NextPk(QuestionPks(db.questions));
        var question := Question(pk, quiz.value.pk, text);
        assert forall i :: 0 <= i < |db.questions| ==> QuestionPks(db.questions)[i] == db.questions[i].pk;
        db.questions := db.questions + [question];
        response := RedirectToQuizChange(quiz.value.pk);
      case _ =>
        response := QuestionFormPage(quiz.value, None, request.QuestionPost?);
    }
  }

  /**
   * `question_change`: a valid POST replaces the text of the question with key `questionPk`
   * and nothing else. The question is looked up by its key alone: it need not belong to the
   * quiz named in the URL.
   */
  method QuestionChange(db: Database, quizPk: Pk, questionPk: Pk, request: QuestionRequest) returns (response: Response)
    requires db.Valid()
    modifies db`questions
    ensures db.Valid()
    ensures var quiz := QuizWithPk(db.quizzes, quizPk);
            var index := QuestionIndex(old(db.questions), questionPk);
            if quiz.None? || index.None? then
              response == NotFound && db.questions == old(db.questions)
            else
              var question := old(db.questions)[index.value];
              match request
              case QuestionPost(Some(text)) =>
                && db.questions == old(db.questions)[index.value := question.(text := text)]
                && response == RedirectToQuizChange(quizPk)
              case _ =>
                db.questions == old(db.questions) && response == QuestionFormPage(quiz.value, Some(question), request.QuestionPost?)
  {
    var quiz := QuizWithPk(db.quizzes, quizPk);
    if quiz.None? {
      return NotFound;
    }
    var index := QuestionIndex(db.questions, questionPk);
    if index.None? {
      return NotFound;
    }
    var question := db.questions[index.value];
    match request {
      case QuestionPost(Some(text)) =>
        db.questions := db.questions[index.value := question.(text := text)];
        response := RedirectToQuizChange(quiz.value.pk);
      case _ =>
        response := QuestionFormPage(quiz.value, Some(question), request.QuestionPost?);
    }
  }
}
