/** What SubmitTest computes (Controllers/TestsController.cs), stated as
    functions of the stored tests and the submission, with the properties
    of the score proved about them. */
module Scoring {
  import opened Enumerable
  import opened Models

  /** What the submit endpoint answers. `DivideByZero` is the exception the
      decimal division throws for a test without questions. */
  datatype SubmitOutcome =
    | NotFound
    | DivideByZero
    | Ok(score: real, totalQuestions: int, correctCount: int)

  /** The stored test with the requested id (the first, if several). */
  function TestById(tests: seq<Test>, testId: int): (r: Option<Test>)
    ensures r.None? <==> forall i :: 0 <= i < |tests| ==> tests[i].testId != testId
    ensures r.Some? ==> r.value in tests && r.value.testId == testId
  {
    FirstOrDefault(tests, (t: Test) => t.testId == testId)
  }

  /** The test's first question with the answered id. */
  function QuestionById(test: Test, questionId: int): (r: Option<TestQuestion>)
    ensures r.None? <==>
      forall i :: 0 <= i < |test.testQuestions| ==> test.testQuestions[i].questionId != questionId
    ensures r.Some? ==> r.value in test.testQuestions && r.value.questionId == questionId
  {
    FirstOrDefault(test.testQuestions, (q: TestQuestion) => q.questionId == questionId)
  }

  /** The question's first option flagged correct. */
  function CorrectOption(question: TestQuestion): (r: Option<TestOption>)
    ensures r.None? <==> forall i :: 0 <= i < |question.testOptions| ==> !question.testOptions[i].isCorrect
    ensures r.Some? ==> r.value in question.testOptions && r.value.isCorrect
  {
    FirstOrDefault(question.testOptions, (o: TestOption) => o.isCorrect)
  }

  /** Whether one answer earns a point: its question is in the test, that
      question has a correct option, and that option was the one selected. */
  predicate IsCorrectAnswer(test: Test, answer: SubmitAnswerModel)
    ensures IsCorrectAnswer(test, answer) ==>
      exists i, m :: 0 <= i < |test.testQuestions| && test.testQuestions[i].questionId == answer.questionId &&
        0 <= m < |test.testQuestions[i].testOptions| && test.testQuestions[i].testOptions[m].isCorrect &&
        test.testQuestions[i].testOptions[m].optionId == answer.selectedOptionId
  {
    match QuestionById(test, answer.questionId)
    case None => false
    case Some(question) =>
      match CorrectOption(question)
      case None => false
      case Some(option) => answer.selectedOptionId == option.optionId
  }

  /** The number of answers that earn a point, every answer counted on its
      own (an answer repeated twice can earn two points). */
  function CorrectCount(test: Test, answers: seq<SubmitAnswerModel>): (n: nat)
    ensures n <= |answers|
    ensures answers == [] ==> n == 0
  {
    if answers == [] then 0
    else
      var last := answers[|answers| - 1];
      CorrectCount(test, answers[..|answers| - 1]) + (if IsCorrectAnswer(test, last) then 1 else 0)
  }

  /** The response of the submit endpoint for a given store of tests. */
  function Submit(tests: seq<Test>, model: SubmitTestModel): (r: SubmitOutcome)
    ensures r.NotFound? <==> forall i :: 0 <= i < |tests| ==> tests[i].testId != model.testId
    ensures r.DivideByZero? <==>
      exists i :: 0 <= i < |tests| && tests[i].testId == model.testId && tests[i].testQuestions == [] &&
        forall j :: 0 <= j < i ==> tests[j].testId != model.testId
    ensures r.Ok? ==>
      && 0 <= r.correctCount <= |model.answers|
      && 0 < r.totalQuestions
      && r.score == (r.correctCount * 100) as real / r.totalQuestions as real
  {
    match TestById(tests, model.testId)
    case None => NotFound
    case Some(test) =>
      var totalQuestions := |test.testQuestions|;
      var correctCount := CorrectCount(test, model.answers);
      if totalQuestions == 0 then DivideByZero
      else
        PercentOf(correctCount, totalQuestions);
        Ok(correctCount as real / totalQuestions as real * 100.0, totalQuestions, correctCount)
  }

  /** The decimal expression `(decimal)correct / total * 100`, read as an
      exact rational, is `correct * 100 / total`. */
  lemma PercentOf(correct: nat, total: nat)
    requires total > 0
    ensures correct as real / total as real * 100.0 == (correct * 100) as real / total as real
  {
    var ratio := correct as real / total as real;
    assert ratio * total as real == correct as real;
    assert (ratio * 100.0) * total as real == (correct * 100) as real;
  }

  /** The row the endpoint stores for an outcome: one row for a scored
      submission, none otherwise. */
  function Recorded(model: SubmitTestModel, r: SubmitOutcome): (rows: seq<TestResult>)
    ensures |rows| == if r.Ok? then 1 else 0
    ensures r.Ok? ==> rows[0].userId == model.userId && rows[0].testId == model.testId && rows[0].score == r.score
  {
    if r.Ok? then [TestResult(model.userId, model.testId, r.score)] else []
  }

  /** Where the percentage `correct * 100 / total` stands against 100. */
  lemma PercentBounds(correct: nat, total: nat)
    requires 0 < total
    ensures correct <= total ==> (correct * 100) as real / total as real <= 100.0
    ensures correct > total ==> (correct * 100) as real / total as real > 100.0
    ensures correct == total ==> (correct * 100) as real / total as real == 100.0
  {
    var percent := (correct * 100) as real / total as real;
    assert percent * total as real == (correct * 100) as real;
  }
}
