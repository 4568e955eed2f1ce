/**
 * The records of the classroom app and the relational store that holds them.
 *
 * The app's models module is not part of this model: each record carries only the fields
 * that the forms and views read or write, and every reference to another row is that row's
 * primary key. A `Student` row is identified by the primary key of its `User`.
 */
module Models {
  import opened Wrappers

  type Pk = nat

  /** An account; `pk` is `None` until the row is saved. */
  datatype User = User(pk: Option<Pk>, username: string, email: string, isStudent: bool, isTeacher: bool)

  /** The student profile of user `user`, with the subjects the student is interested in. */
  datatype Student = Student(user: Pk, interests: set<Pk>)

  datatype Quiz = Quiz(pk: Pk, name: string, subject: Pk)

  datatype Question = Question(pk: Pk, quiz: Pk, text: string)

  datatype Answer = Answer(pk: Pk, question: Pk, text: string, isCorrect: bool)

  /** The choice `answer` recorded for the student whose user key is `student`. */
  datatype StudentAnswer = StudentAnswer(student: Pk, answer: Pk)

  /** A finished attempt; its score is stored, never computed by the modelled code. */
  datatype TakenQuiz = TakenQuiz(pk: Pk, student: Pk, quiz: Pk, score: int)

  // ----- Queries shared by the forms and the views -----

  /** The rows of `s` that satisfy `p`, each as often as in `s` (a `filter` over a table). */
  function Filter<T(!new)>(s: seq<T>, p: T -> bool): (r: seq<T>)
    ensures |r| <= |s|
    ensures multiset(r) <= multiset(s)
    ensures forall x :: x in r <==> x in s && p(x)
  {
    if s == [] then []
    else
      var n := |s| - 1;
      assert s == s[..n] + [s[n]];
      var rest := Filter(s[..n], p);
      if p(s[n]) then rest + [s[n]] else rest
  }

  /** The positions of `s` whose row satisfies `p`. */
  function Positions<T>(s: seq<T>, p: T -> bool): set<nat> {
    set i | 0 <= i < |s| && p(s[i])
  }

  /** The positions of a sequence are those of its prefix and possibly its last index. */
  lemma PositionsOfLast<T>(s: seq<T>, p: T -> bool)
    requires s != []
    ensures |Positions(s, p)| == |Positions(s[..|s| - 1], p)| + (if p(s[|s| - 1]) then 1 else 0)
  {
    var n := |s| - 1;
    var prefix := s[..n];
    var before := Positions(prefix, p);
    var extra: set<nat> := if p(s[n]) then {n} else {};
    assert Positions(s, p) == before + extra by {
      forall i | i in Positions(s, p) ensures i in before + extra {
        if i < n { assert prefix[i] == s[i]; }
      }
      forall i | i in before ensures i in Positions(s, p) {
        assert prefix[i] == s[i];
      }
    }
    assert before !! extra;
  }

  /** The number of rows a filter keeps is the number of positions of `s` that satisfy `p`. */
  lemma {:induction false} FilterCount<T(!new)>(s: seq<T>, p: T -> bool)
    ensures |Filter(s, p)| == |Positions(s, p)|
  {
    if s != [] {
      FilterCount(s[..|s| - 1], p);
      PositionsOfLast(s, p);
    }
  }

  /** The position of the first row of `s` whose key is `k` (a lookup by primary key). */
  function IndexOfKey<T>(s: seq<T>, key: T -> Pk, k: Pk): (r: Option<nat>)
    ensures r.Some? ==> r.value < |s| && key(s[r.value]) == k
    ensures r.Some? ==> forall j :: 0 <= j < r.value ==> key(s[j]) != k
    ensures r.None? <==> forall j :: 0 <= j < |s| ==> key(s[j]) != k
  {
    if s == [] then None
    else if key(s[0]) == k then Some(0)
    else match IndexOfKey(s[1..], key, k)
      case None => None
      case Some(i) => Some(i + 1)
  }

  /** `Quiz.objects.get(pk=pk)`; `None` stands for the row not being found. */
  function QuizWithPk(quizzes: seq<Quiz>, pk: Pk): (r: Option<Quiz>)
    ensures r.Some? <==> exists i :: 0 <= i < |quizzes| && quizzes[i].pk == pk
    ensures r.Some? ==> r.value in quizzes && r.value.pk == pk
  {
    match IndexOfKey(quizzes, (q: Quiz) => q.pk, pk)
    case None => None
    case Some(i) => Some(quizzes[i])
  }

  /** The position of the question with key `pk`, if there is one. */
  function QuestionIndex(questions: seq<Question>, pk: Pk): (r: Option<nat>)
    ensures r.Some? ==> r.value < |questions| && questions[r.value].pk == pk
    ensures r.None? <==> forall j :: 0 <= j < |questions| ==> questions[j].pk != pk
  {
    IndexOfKey(questions, (q: Question) => q.pk, pk)
  }

  /** `user.student`: the student profile of the user with key `user`, if there is one. */
  function StudentOf(students: seq<Student>, user: Pk): (r: Option<Student>)
    ensures r.Some? <==> exists i :: 0 <= i < |students| && students[i].user == user
    ensures r.Some? ==> r.value in students && r.value.user == user
  {
    match IndexOfKey(students, (s: Student) => s.user, user)
    case None => None
    case Some(i) => Some(students[i])
  }

  // ----- Primary keys -----

  predicate UniqueQuizPks(quizzes: seq<Quiz>) {
    forall i, j :: 0 <= i < j < |quizzes| ==> quizzes[i].pk != quizzes[j].pk
  }

  predicate UniqueQuestionPks(questions: seq<Question>) {
    forall i, j :: 0 <= i < j < |questions| ==> questions[i].pk != questions[j].pk
  }

  predicate UniqueAnswerPks(answers: seq<Answer>) {
    forall i, j :: 0 <= i < j < |answers| ==> answers[i].pk != answers[j].pk
  }

  /** Every stored user has been saved, and no two share a key. */
  predicate SavedUsers(users: seq<User>) {
    && (forall i :: 0 <= i < |users| ==> users[i].pk.Some?)
    && (forall i, j :: 0 <= i < j < |users| ==> users[i].pk != users[j].pk)
  }

  /** Some stored user has key `pk`. */
  predicate HasUser(users: seq<User>, pk: Pk) {
    exists j :: 0 <= j < |users| && users[j].pk == Some(pk)
  }

  /** Every student profile belongs to a stored user, and no user has two. */
  predicate StudentsOfUsers(students: seq<Student>, users: seq<User>) {
    && (forall i :: 0 <= i < |students| ==> HasUser(users, students[i].user))
    && (forall i, j :: 0 <= i < j < |students| ==> students[i].user != students[j].user)
  }

  function QuestionPks(questions: seq<Question>): seq<Pk> {
    seq(|questions|, i requires 0 <= i < |questions| => questions[i].pk)
  }

  function UserPks(users: seq<User>): seq<Pk> {
    seq(|users|, i requires 0 <= i < |users| => if users[i].pk.Some? then users[i].pk.value else 0)
  }

  /** The key the store gives a new row: larger than every key in use, and at least 1. */
  function NextPk(pks: seq<Pk>): (r: Pk)
    ensures r >= 1
    ensures forall i :: 0 <= i < |pks| ==> pks[i] < r
  {
    if pks == [] then 1
    else
      var rest := NextPk(pks[1..]);
      if pks[0] < rest then rest else pks[0] + 1
  }

  // ----- Unanswered questions -----
  // The models module is not part of this model. `Student.get_unanswered_questions(quiz)` is
  // taken to be: the questions of `quiz` for which the student has no `StudentAnswer`, in the
  // order of the question table.

  /** The questions that the answer with key `answer` belongs to. */
  function QuestionsOfAnswer(answers: seq<Answer>, answer: Pk): set<Pk> {
    set j | 0 <= j < |answers| && answers[j].pk == answer :: answers[j].question
  }

  /** The questions that `student` has recorded an answer for. */
  function AnsweredQuestions(answers: seq<Answer>, studentAnswers: seq<StudentAnswer>, student: Pk): set<Pk> {
    if studentAnswers == [] then {}
    else
      var n := |studentAnswers| - 1;
      var last := studentAnswers[n];
      AnsweredQuestions(answers, studentAnswers[..n], student)
        + (if last.student == student then QuestionsOfAnswer(answers, last.answer) else {})
  }

  /** A question is answered exactly when some answer of the student refers to an answer under it. */
  lemma {:induction false} AnsweredQuestionsMeans(answers: seq<Answer>, studentAnswers: seq<StudentAnswer>, student: Pk, q: Pk)
    ensures q in AnsweredQuestions(answers, studentAnswers, student) <==>
      exists i, j :: 0 <= i < |studentAnswers| && 0 <= j < |answers| &&
        studentAnswers[i].student == student && studentAnswers[i].answer == answers[j].pk && answers[j].question == q
  {
    if studentAnswers != [] {
      var n := |studentAnswers| - 1;
      var prefix := studentAnswers[..n];
      AnsweredQuestionsMeans(answers, prefix, student, q);
      if q in AnsweredQuestions(answers, studentAnswers, student) {
        if q !in AnsweredQuestions(answers, prefix, student) {
          var j :| 0 <= j < |answers| && answers[j].pk == studentAnswers[n].answer && answers[j].question == q;
          assert studentAnswers[n].student == student;
        }
      } else {
        forall i, j | 0 <= i < |studentAnswers| && 0 <= j < |answers|
          ensures !(studentAnswers[i].student == student && studentAnswers[i].answer == answers[j].pk && answers[j].question == q)
        {
          if i < n {
            assert studentAnswers[i] == prefix[i];
          }
        }
      }
    }
  }

  /** Recording `answer` for `student` marks exactly the answer's own question as answered. */
  lemma AnsweringAddsItsQuestion(answers: seq<Answer>, studentAnswers: seq<StudentAnswer>, student: Pk, answer: Answer)
    requires UniqueAnswerPks(answers) && answer in answers
    ensures AnsweredQuestions(answers, studentAnswers + [StudentAnswer(student, answer.pk)], student)
         == AnsweredQuestions(answers, studentAnswers, student) + {answer.question}
  {
    var all := studentAnswers + [StudentAnswer(student, answer.pk)];
    assert all[..|all| - 1] == studentAnswers;
    var k :| 0 <= k < |answers| && answers[k] == answer;
    assert QuestionsOfAnswer(answers, answer.pk) == {answer.question};
  }

  /** The questions of `quiz` whose key is not in `answered`, in table order. */
  function UnansweredAmong(questions: seq<Question>, quiz: Pk, answered: set<Pk>): (r: seq<Question>)
    ensures |r| <= |questions|
    ensures forall q :: q in r <==> q in questions && q.quiz == quiz && q.pk !in answered
  {
    if questions == [] then []
    else if questions[0].quiz == quiz && questions[0].pk !in answered then
      [questions[0]] + UnansweredAmong(questions[1..], quiz, answered)
    else
      UnansweredAmong(questions[1..], quiz, answered)
  }

  /** `student.get_unanswered_questions(quiz)`, as assumed above. */
  function UnansweredQuestions(questions: seq<Question>, answers: seq<Answer>, studentAnswers: seq<StudentAnswer>,
                               student: Pk, quiz: Pk): seq<Question>
  {
    UnansweredAmong(questions, quiz, AnsweredQuestions(answers, studentAnswers, student))
  }

  /** Marking a key answered that no question carries leaves the unanswered questions as they were. */
  lemma {:induction false} AnsweringAbsentKeepsUnanswered(questions: seq<Question>, quiz: Pk, answered: set<Pk>, x: Pk)
    requires forall i :: 0 <= i < |questions| ==> questions[i].pk != x
    ensures UnansweredAmong(questions, quiz, answered + {x}) == UnansweredAmong(questions, quiz, answered)
  {
    if questions != [] {
      AnsweringAbsentKeepsUnanswered(questions[1..], quiz, answered, x);
    }
  }

  /** Marking the first unanswered question answered removes exactly that question. */
  lemma {:induction false} AnsweringFirstDropsIt(questions: seq<Question>, quiz: Pk, answered: set<Pk>, x: Pk)
    requires UniqueQuestionPks(questions)
    requires UnansweredAmong(questions, quiz, answered) != []
    requires UnansweredAmong(questions, quiz, answered)[0].pk == x
    ensures UnansweredAmong(questions, quiz, answered + {x}) == UnansweredAmong(questions, quiz, answered)[1..]
  {
    var q := questions[0];
    var rest := questions[1..];
    assert UniqueQuestionPks(rest) by {
      forall i, j | 0 <= i < j < |rest| ensures rest[i].pk != rest[j].pk {
        assert rest[i] == questions[i + 1] && rest[j] == questions[j + 1];
      }
    }
    if q.quiz == quiz && q.pk !in answered {
      forall i | 0 <= i < |rest| ensures rest[i].pk != x {
        assert rest[i] == questions[i + 1];
      }
      AnsweringAbsentKeepsUnanswered(rest, quiz, answered, x);
    } else {
      AnsweringFirstDropsIt(rest, quiz, answered, x);
    }
  }

  /**
   * Recording an answer to the first unanswered question of a quiz removes that question and
   * nothing else from the student's unanswered questions: the set shrinks by exactly one.
   */
  lemma SubmittingShrinksUnanswered(questions: seq<Question>, answers: seq<Answer>, studentAnswers: seq<StudentAnswer>,
                                    student: Pk, quiz: Pk, answer: Answer)
    requires UniqueQuestionPks(questions) && UniqueAnswerPks(answers) && answer in answers
    requires UnansweredQuestions(questions, answers, studentAnswers, student, quiz) != []
    requires answer.question == UnansweredQuestions(questions, answers, studentAnswers, student, quiz)[0].pk
    ensures var before := UnansweredQuestions(questions, answers, studentAnswers, student, quiz);
            var after := UnansweredQuestions(questions, answers, studentAnswers + [StudentAnswer(student, answer.pk)], student, quiz);
            after == before[1..] && |after| == |before| - 1
  {
    AnsweringAddsItsQuestion(answers, studentAnswers, student, answer);
    AnsweringFirstDropsIt(questions, quiz, AnsweredQuestions(answers, studentAnswers, student), answer.question);
  }

  // ----- The store -----

  /** The relational store: one sequence of rows per table, in insertion order. */
  class Database {
    var users: seq<User>
    var students: seq<Student>
    var quizzes: seq<Quiz>
    var questions: seq<Question>
    var answers: seq<Answer>
    var studentAnswers: seq<StudentAnswer>
    var takenQuizzes: seq<TakenQuiz>

    /** The key constraints the store enforces. */
    ghost predicate Valid()
      reads this
    {
      && SavedUsers(users)
      && StudentsOfUsers(students, users)
      && UniqueQuizPks(quizzes)
      && UniqueQuestionPks(questions)
      && UniqueAnswerPks(answers)
    }

    constructor ()
      ensures Valid()
      ensures users == [] && students == [] && quizzes == [] && questions == []
      ensures answers == [] && studentAnswers == [] && takenQuizzes == []
    {
      users, students, quizzes, questions := [], [], [], [];
      answers, studentAnswers, takenQuizzes := [], [], [];
    }
  }
}
