/**
 * Quiz content: what the generator returns, the fallback quiz that replaces a failed
 * generation, and the scoring of one submitted answer form against a stored quiz.
 */
module Quiz {
  import opened Wrappers
  import opened Text
  import opened Forms

  datatype Question = Question(question: string, options: seq<string>, answer: string)

  datatype QuizData = QuizData(title: string, questions: seq<Question>)

  /** The quiz as it is held in the session: tagged with the museum key it was made for. */
  datatype StoredQuiz = StoredQuiz(quiz: QuizData, museumKey: string)

  /**
   * What the external generator did for one request: the client could not be built,
   * the call raised (a network error, a reply that is not JSON or not a quiz object),
   * or it returned a parsed quiz. A reply without a `questions` field is a quiz with
   * no questions.
   */
  datatype GeneratorResult = ClientUnavailable | CallFailed | Generated(quiz: QuizData)

  /** Exactly five questions, each with four options, the answer among them. */
  predicate WellFormedQuiz(q: QuizData) {
    && |q.questions| == 5
    && forall i :: 0 <= i < 5 ==>
         |q.questions[i].options| == 4 && q.questions[i].answer in q.questions[i].options
  }

  /** The four questions of the fallback quiz that do not depend on the museum. */
  const FixedQuestions: seq<Question> := [
      Question("What is the primary purpose of a museum?",
               ["Entertainment", "Education and Preservation", "Shopping", "Sports"],
               "Education and Preservation"),
      Question("In which continent is India located?",
               ["Europe", "Africa", "Asia", "South America"], "Asia"),
      Question("The famous 'Dancing Girl' statuette belongs to which civilization?",
               ["Egyptian", "Mesopotamian", "Indus Valley", "Roman"], "Indus Valley"),
      Question("The term 'Mughal' refers to a dynasty from which country?",
               ["China", "India", "Turkey", "Mongolia"], "Mongolia")
    ]

  lemma FixedQuestionsShape()
    ensures |FixedQuestions| == 4
    ensures forall i :: 0 <= i < 4 ==>
              |FixedQuestions[i].options| == 4 && FixedQuestions[i].answer in FixedQuestions[i].options
  {
  }

  /** The fixed quiz used when generation fails after the client was built. */
  function FallbackQuiz(museumName: string, museumCity: string): (q: QuizData)
    ensures WellFormedQuiz(q)
    ensures q.title == "Fallback Quiz on " + museumName
    ensures q.questions[0].question == "Which city is the " + museumName + " located in?"
    ensures q.questions[0].options[0] == museumCity && q.questions[0].answer == museumCity
  {
    FixedQuestionsShape();
    QuizData("Fallback Quiz on " + museumName,
      [Question("Which city is the " + museumName + " located in?",
                [museumCity, "Mumbai", "Kolkata", "Delhi"], museumCity)] + FixedQuestions)
  }

  /**
   * `generate_quiz`: no quiz when the client cannot be built; the generated quiz when it
   * has exactly five questions (nothing else about it is checked); the fallback otherwise.
   */
  function GenerateQuiz(museumName: string, museumCity: string, g: GeneratorResult): (r: Option<QuizData>)
    ensures r.None? <==> g.ClientUnavailable?
    ensures r.Some? ==> |r.value.questions| == 5
    ensures g.Generated? && |g.quiz.questions| == 5 ==> r == Some(g.quiz)
    ensures (g.CallFailed? || (g.Generated? && |g.quiz.questions| != 5)) ==>
              r == Some(FallbackQuiz(museumName, museumCity))
  {
    match g
    case ClientUnavailable => None
    case CallFailed => Some(FallbackQuiz(museumName, museumCity))
    case Generated(q) =>
      if |q.questions| != 5 then Some(FallbackQuiz(museumName, museumCity)) else Some(q)
  }

  /** Whatever the generator did, a quiz that comes back has questions, and it is well formed
      whenever it is not the generator's own five-question reply. */
  lemma GeneratedQuizShape(museumName: string, museumCity: string, g: GeneratorResult)
    requires GenerateQuiz(museumName, museumCity, g).Some?
    ensures GenerateQuiz(museumName, museumCity, g).value.questions != []
    ensures !(g.Generated? && |g.quiz.questions| == 5) ==>
              WellFormedQuiz(GenerateQuiz(museumName, museumCity, g).value)
  {
  }

  // ---------------------------------------------------------------- scoring

  /** The form field that carries the answer to question `i`: `q_0`, `q_1`, ... */
  function AnswerKey(i: nat): string {
    "q_" + NatToString(i)
  }

  lemma AnswerKeyInjective(i: nat, j: nat)
    requires AnswerKey(i) == AnswerKey(j)
    ensures i == j
  {
    assert NatToString(i) == AnswerKey(i)[2..];
    assert NatToString(j) == AnswerKey(j)[2..];
    NatToStringInjective(i, j);
  }

  /** `request.form.get(f'q_{i}')`. */
  function AnswerFor(form: Form, i: nat): Option<string> {
    Get(form, AnswerKey(i))
  }

  /** Question `i` counts as right when the submitted text equals the answer exactly. */
  predicate AnsweredRight(questions: seq<Question>, form: Form, i: nat)
    requires i < |questions|
  {
    AnswerFor(form, i) == Some(questions[i].answer)
  }

  /** The number of questions among the first `n` answered right. */
  function CountRight(questions: seq<Question>, form: Form, n: nat): nat
    requires n <= |questions|
  {
    if n == 0 then 0
    else CountRight(questions, form, n - 1) + (if AnsweredRight(questions, form, n - 1) then 1 else 0)
  }

  /** One entry of the result page. */
  datatype QuestionResult = QuestionResult(
    question: string, userAnswer: Option<string>, correctAnswer: string,
    isCorrect: bool, options: seq<string>)

  /** The scoring loop of the quiz submission. */
  method ScoreSubmission(quiz: QuizData, form: Form)
    returns (score: nat, results: seq<QuestionResult>)
    ensures score == CountRight(quiz.questions, form, |quiz.questions|)
    ensures score <= |quiz.questions|
    ensures |results| == |quiz.questions|
    ensures forall i :: 0 <= i < |results| ==>
              && results[i].question == quiz.questions[i].question
              && results[i].userAnswer == AnswerFor(form, i)
              && results[i].correctAnswer == quiz.questions[i].answer
              && (results[i].isCorrect <==> AnswerFor(form, i) == Some(quiz.questions[i].answer))
              && results[i].options == quiz.questions[i].options
  {
    score := 0;
    results := [];
    var i := 0;
    while i < |quiz.questions|
      invariant 0 <= i <= |quiz.questions|
      invariant score == CountRight(quiz.questions, form, i) && score <= i
      invariant |results| == i
      invariant forall k :: 0 <= k < i ==>
                  && results[k].question == quiz.questions[k].question
                  && results[k].userAnswer == AnswerFor(form, k)
                  && results[k].correctAnswer == quiz.questions[k].answer
                  && (results[k].isCorrect <==> AnswerFor(form, k) == Some(quiz.questions[k].answer))
                  && results[k].options == quiz.questions[k].options
    {
      var q := quiz.questions[i];
      var userAnswer := if AnswerKey(i) in form then Some(form[AnswerKey(i)]) else None;
      var isCorrect := userAnswer == Some(q.answer);
      if isCorrect {
        score := score + 1;
      }
      results := results + [QuestionResult(q.question, userAnswer, q.answer, isCorrect, q.options)];
      i := i + 1;
    }
  }

  /** Full marks exactly when every question was answered right. */
  lemma {:induction false} FullMarks(questions: seq<Question>, form: Form, n: nat)
    requires n <= |questions|
    ensures CountRight(questions, form, n) <= n
    ensures CountRight(questions, form, n) == n <==>
            forall i :: 0 <= i < n ==> AnsweredRight(questions, form, i)
  {
    if n > 0 {
      FullMarks(questions, form, n - 1);
    }
  }

  /** No marks exactly when no question was answered right. */
  lemma {:induction false} NoMarks(questions: seq<Question>, form: Form, n: nat)
    requires n <= |questions|
    ensures CountRight(questions, form, n) == 0 <==>
            forall i :: 0 <= i < n ==> !AnsweredRight(questions, form, i)
  {
    if n > 0 {
      NoMarks(questions, form, n - 1);
    }
  }

  /** Leaving out the answer to question `i` makes that one absent and leaves the others as they were. */
  lemma OmittedAnswer(form: Form, i: nat, j: nat)
    ensures AnswerFor(form - {AnswerKey(i)}, i) == None
    ensures j != i ==> AnswerFor(form - {AnswerKey(i)}, j) == AnswerFor(form, j)
  {
    if j != i && AnswerKey(i) == AnswerKey(j) {
      AnswerKeyInjective(i, j);
    }
  }
}
