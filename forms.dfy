/**
 * The classroom forms: the rule a question's answer set must satisfy, the form a student
 * answers a question with, and the two sign-up forms.
 */
module Forms {
  import opened Wrappers
  import opened Models
  import opened Ordering

  // ===== Answer formset validation =====

  /**
   * The cleaned data of one answer form in the inline formset. An entry is `None` when the
   * form's cleaned data has no such key, as for an extra form left blank.
   */
  datatype AnswerFormData = AnswerFormData(delete: Option<bool>, isCorrect: Option<bool>)

  datatype FormSetError = NoCorrectAnswer | AllCorrectAnswers

  datatype Verdict = Accepted | Rejected(error: FormSetError)

  /** The code the validation error carries. */
  function ErrorCode(e: FormSetError): string {
    match e
    case NoCorrectAnswer => "no_correct_answer"
    case AllCorrectAnswers => "all_correct_answers"
  }

  /** The message the validation error carries. */
  function ErrorMessage(e: FormSetError): string {
    match e
    case NoCorrectAnswer => "Mark at least one answer as correct."
    case AllCorrectAnswers => "Not all answers can be marked as correct."
  }

  /** `cleaned_data.get(key, False)`: a missing entry reads as false. */
  function Flag(v: Option<bool>): bool {
    v == Some(true)
  }

  /** The form is not marked for deletion. */
  predicate Kept(form: AnswerFormData) {
    !Flag(form.delete)
  }

  predicate MarkedCorrect(form: AnswerFormData) {
    Flag(form.isCorrect)
  }

  /** Some form that is kept is marked correct. */
  predicate HasCorrectAnswer(forms: seq<AnswerFormData>) {
    exists i :: 0 <= i < |forms| && Kept(forms[i]) && MarkedCorrect(forms[i])
  }

  /** Some form that is kept is not marked correct. */
  predicate HasIncorrectAnswer(forms: seq<AnswerFormData>) {
    exists i :: 0 <= i < |forms| && Kept(forms[i]) && !MarkedCorrect(forms[i])
  }

  /** What the formset's clean decides, the missing correct answer being checked first. */
  function AnswerSetVerdict(forms: seq<AnswerFormData>): Verdict {
    if !HasCorrectAnswer(forms) then Rejected(NoCorrectAnswer)
    else if !HasIncorrectAnswer(forms) then Rejected(AllCorrectAnswers)
    else Accepted
  }

  /**
   * `BaseAnswerInlineFormSet.clean` after the inherited `super().clean()`, which is not modelled:
   * one pass over the forms, then the two checks in order.
   */
  method CleanAnswerFormSet(forms: seq<AnswerFormData>) returns (verdict: Verdict)
    ensures verdict == AnswerSetVerdict(forms)
  {
    var hasOneCorrectAnswer := false;
    var allAnswersMarkedCorrect := true;
    for i := 0 to |forms|
      invariant hasOneCorrectAnswer == HasCorrectAnswer(forms[..i])
      invariant allAnswersMarkedCorrect == !HasIncorrectAnswer(forms[..i])
    {
      assert forall k :: 0 <= k < i ==> forms[..i + 1][k] == forms[..i][k];
      assert forms[..i + 1][i] == forms[i];
      if !Flag(forms[i].delete) {
        if Flag(forms[i].isCorrect) {
          hasOneCorrectAnswer := true;
        } else {
          allAnswersMarkedCorrect := false;
        }
      }
    }
    assert forms[..|forms|] == forms;
    if !hasOneCorrectAnswer {
      return Rejected(NoCorrectAnswer);
    }
    if allAnswersMarkedCorrect {
      return Rejected(AllCorrectAnswers);
    }
    return Accepted;
  }

  /** The `is_correct` flags of the forms that are kept, in order. */
  function KeptCorrectness(forms: seq<AnswerFormData>): seq<bool> {
    if forms == [] then []
    else (if Kept(forms[0]) then [MarkedCorrect(forms[0])] else []) + KeptCorrectness(forms[1..])
  }

  function CountTrue(flags: seq<bool>): (r: nat)
    ensures r <= |flags|
  {
    if flags == [] then 0 else (if flags[0] then 1 else 0) + CountTrue(flags[1..])
  }

  lemma {:induction false} FlagsMatchCounts(forms: seq<AnswerFormData>)
    ensures HasCorrectAnswer(forms) <==> CountTrue(KeptCorrectness(forms)) > 0
    ensures HasIncorrectAnswer(forms) <==> CountTrue(KeptCorrectness(forms)) < |KeptCorrectness(forms)|
  {
    if forms != [] {
      var rest := forms[1..];
      FlagsMatchCounts(rest);
      var head: seq<bool> := if Kept(forms[0]) then [MarkedCorrect(forms[0])] else [];
      var flags := head + KeptCorrectness(rest);
      assert KeptCorrectness(forms) == flags;
      if head != [] {
        assert flags[0] == MarkedCorrect(forms[0]) && flags[1..] == KeptCorrectness(rest);
      } else {
        assert flags == KeptCorrectness(rest);
      }
      assert CountTrue(flags) == CountTrue(head) + CountTrue(KeptCorrectness(rest));
      assert HasCorrectAnswer(forms) <==> (Kept(forms[0]) && MarkedCorrect(forms[0])) || HasCorrectAnswer(rest) by {
        if HasCorrectAnswer(rest) {
          var i :| 0 <= i < |rest| && Kept(rest[i]) && MarkedCorrect(rest[i]);
          assert forms[i + 1] == rest[i];
        }
        if HasCorrectAnswer(forms) && !(Kept(forms[0]) && MarkedCorrect(forms[0])) {
          var i :| 0 <= i < |forms| && Kept(forms[i]) && MarkedCorrect(forms[i]);
          assert rest[i - 1] == forms[i];
        }
      }
      assert HasIncorrectAnswer(forms) <==> (Kept(forms[0]) && !MarkedCorrect(forms[0])) || HasIncorrectAnswer(rest) by {
        if HasIncorrectAnswer(rest) {
          var i :| 0 <= i < |rest| && Kept(rest[i]) && !MarkedCorrect(rest[i]);
          assert forms[i + 1] == rest[i];
        }
        if HasIncorrectAnswer(forms) && !(Kept(forms[0]) && !MarkedCorrect(forms[0])) {
          var i :| 0 <= i < |forms| && Kept(forms[i]) && !MarkedCorrect(forms[i]);
          assert rest[i - 1] == forms[i];
        }
      }
    }
  }

  /**
   * The verdict in terms of the kept answers: accepted exactly when at least one of them is
   * correct and at least one is not, however many are correct.
   */
  lemma VerdictByCounts(forms: seq<AnswerFormData>)
    ensures var flags := KeptCorrectness(forms);
            var correct := CountTrue(flags);
            && (AnswerSetVerdict(forms) == Accepted <==> 1 <= correct && correct < |flags|)
            && (AnswerSetVerdict(forms) == Rejected(NoCorrectAnswer) <==> correct == 0)
            && (AnswerSetVerdict(forms) == Rejected(AllCorrectAnswers) <==> 1 <= correct && correct == |flags|)
  {
    FlagsMatchCounts(forms);
  }

  /** An empty batch, or one whose every form is marked for deletion, lacks a correct answer. */
  lemma NothingKeptLacksCorrectAnswer(forms: seq<AnswerFormData>)
    requires forall i :: 0 <= i < |forms| ==> !Kept(forms[i])
    ensures AnswerSetVerdict(forms) == Rejected(NoCorrectAnswer)
  {
  }

  /** A form marked for deletion has no say in the verdict. */
  lemma DeletedFormIgnored(forms: seq<AnswerFormData>, k: nat)
    requires k < |forms| && !Kept(forms[k])
    ensures AnswerSetVerdict(forms) == AnswerSetVerdict(forms[..k] + forms[k + 1..])
  {
    var rest := forms[..k] + forms[k + 1..];
    assert forall i :: 0 <= i < k ==> rest[i] == forms[i];
    assert forall i :: k <= i < |rest| ==> rest[i] == forms[i + 1];
    if HasCorrectAnswer(forms) {
      var i :| 0 <= i < |forms| && Kept(forms[i]) && MarkedCorrect(forms[i]);
      if i < k { assert rest[i] == forms[i]; } else { assert rest[i - 1] == forms[i]; }
    }
    if HasIncorrectAnswer(forms) {
      var i :| 0 <= i < |forms| && Kept(forms[i]) && !MarkedCorrect(forms[i]);
      if i < k { assert rest[i] == forms[i]; } else { assert rest[i - 1] == forms[i]; }
    }
  }

  /**
   * An extra form left blank has empty cleaned data, so it is kept and is not marked correct:
   * added to a batch with a correct answer, it makes the batch acceptable.
   */
  lemma BlankFormCountsAsIncorrect(forms: seq<AnswerFormData>)
    requires HasCorrectAnswer(forms)
    ensures AnswerSetVerdict(forms + [AnswerFormData(None, None)]) == Accepted
  {
    var all := forms + [AnswerFormData(None, None)];
    var i :| 0 <= i < |forms| && Kept(forms[i]) && MarkedCorrect(forms[i]);
    assert all[i] == forms[i];
    assert Kept(all[|forms|]) && !MarkedCorrect(all[|forms|]);
  }

  // ===== Taking a quiz: the answer form =====

  datatype ChoiceError = Required | InvalidChoice

  /** `question.answers`: the answers under the question with key `question`, in table order. */
  function AnswersOf(answers: seq<Answer>, question: Pk): (r: seq<Answer>)
    ensures forall a :: a in r <==> a in answers && a.question == question
  {
    Filter(answers, (a: Answer) => a.question == question)
  }

  /** `question.answers.order_by('text')`. */
  function AnswerChoices(answers: seq<Answer>, question: Question): seq<Answer> {
    ByText(AnswersOf(answers, question.pk))
  }

  /** The selectable answers are exactly the question's answers, each once per row, ordered by text. */
  lemma AnswerChoicesAreQuestionAnswersByText(answers: seq<Answer>, question: Question)
    ensures forall a :: a in AnswerChoices(answers, question) <==> a in answers && a.question == question.pk
    ensures multiset(AnswerChoices(answers, question)) == multiset(AnswersOf(answers, question.pk))
    ensures SortedByText(AnswerChoices(answers, question))
  {
    var own := AnswersOf(answers, question.pk);
    forall a ensures a in ByText(own) <==> a in own {
      assert a in ByText(own) <==> a in multiset(ByText(own));
      assert a in own <==> a in multiset(own);
    }
    ByTextSorted(own);
  }

  /** Some choice has key `pk`. */
  predicate Offers(choices: seq<Answer>, pk: Pk) {
    exists i :: 0 <= i < |choices| && choices[i].pk == pk
  }

  /** `TakeQuizForm`: a required choice among the answers of one question. */
  class TakeQuizForm {
    const question: Question
    const choices: seq<Answer>

    /** `__init__` narrows the answer field's choices to the question's answers, ordered by text. */
    constructor (question: Question, answers: seq<Answer>)
      ensures this.question == question
      ensures choices == AnswerChoices(answers, question)
    {
      this.question := question;
      choices := AnswerChoices(answers, question);
    }

    /** The cleaned `answer` field for the submitted key `data`. */
    function CleanAnswer(data: Option<Pk>): (r: Result<Answer, ChoiceError>)
      ensures r == Err(Required) <==> data.None?
      ensures r.Ok? <==> data.Some? && Offers(choices, data.value)
      ensures r.Ok? ==> r.value in choices && r.value.pk == data.value
    {
      match data
      case None => Err(Required)
      case Some(k) =>
        match IndexOfKey(choices, (a: Answer) => a.pk, k)
        case None => Err(InvalidChoice)
        case Some(i) => Ok(choices[i])
    }
  }

  // ===== Sign-up =====

  /** The fields a sign-up form copies onto the new user. */
  datatype SignUpData = SignUpData(username: string, email: string)

  /** `super().save(commit=False)`: a user built from the form, unsaved, with both role flags at the assumed model default, false. */
  function UnsavedUser(data: SignUpData): User {
    User(None, data.username, data.email, false, false)
  }

  /** Appending a saved user with a key no stored user has keeps the store's constraints. */
  lemma AddingFreshUserKeepsValid(db: Database, user: User)
    requires db.Valid() && user.pk == Some(NextPk(UserPks(db.users)))
    ensures forall i :: 0 <= i < |db.users| ==> db.users[i].pk != user.pk
    ensures SavedUsers(db.users + [user])
    ensures StudentsOfUsers(db.students, db.users + [user])
    ensures forall i :: 0 <= i < |db.students| ==> db.students[i].user != user.pk.value
  {
    var all := db.users + [user];
    forall i | 0 <= i < |db.users| ensures db.users[i].pk != user.pk {
      assert UserPks(db.users)[i] == db.users[i].pk.value;
    }
    var students := db.students;
    forall i | 0 <= i < |students|
      ensures HasUser(all, students[i].user)
    {
      var j :| 0 <= j < |db.users| && db.users[j].pk == Some(students[i].user);
      assert all[j] == db.users[j];
    }
    forall i | 0 <= i < |students| ensures students[i].user != user.pk.value {
      var j :| 0 <= j < |db.users| && db.users[j].pk == Some(students[i].user);
    }
    assert StudentsOfUsers(db.students, all);
  }

  /** `TeacherSignUpForm.save`: a teacher, stored only when `commit` holds. */
  method TeacherSignUpSave(db: Database, data: SignUpData, commit: bool) returns (user: User)
    requires db.Valid()
    modifies db`users
    ensures db.Valid()
    ensures user.isTeacher && !user.isStudent
    ensures user.username == data.username && user.email == data.email
    ensures commit ==> user.pk.Some? && db.users == old(db.users) + [user]
    ensures commit ==> forall i :: 0 <= i < |old(db.users)| ==> old(db.users)[i].pk != user.pk
    ensures !commit ==> user.pk.None? && db.users == old(db.users)
  {
    user := UnsavedUser(data).(isTeacher := true);
    if commit {
      user := user.(pk := Some(NextPk(UserPks(db.users))));
      AddingFreshUserKeepsValid(db, user);
      db.users := db.users + [user];
    }
  }

  /**
   * `StudentSignUpForm.save`: a stored student user and its one student profile, whose
   * interests are the selected subjects. Every step succeeds in this model, so the
   * transaction around it always commits.
   */
  method StudentSignUpSave(db: Database, data: SignUpData, interests: set<Pk>) returns (user: User)
    requires db.Valid()
    modifies db`users, db`students
    ensures db.Valid()
    ensures user.isStudent && !user.isTeacher
    ensures user.username == data.username && user.email == data.email
    ensures user.pk.Some? && db.users == old(db.users) + [user]
    ensures forall i :: 0 <= i < |old(db.users)| ==> old(db.users)[i].pk != user.pk
    ensures db.students == old(db.students) + [Student(user.pk.value, interests)]
    ensures forall i :: 0 <= i < |db.students| && db.students[i].user == user.pk.value ==> i == |db.students| - 1
  {
    user := UnsavedUser(data).(isStudent := true);
    user := user.(pk := Some(NextPk(UserPks(db.users))));
    AddingFreshUserKeepsValid(db, user);
    db.users := db.users + [user];
    var student := Student(user.pk.value, interests);
    assert db.users[|db.users| - 1].pk == Some(student.user);
    db.students := db.students + [student];
  }
}
