/** The submit endpoint of the tests controller (Controllers/TestsController.cs):
    score a submission against the stored test and record the attempt. */
module Controllers {
  import opened Enumerable
  import opened Models
  import opened Data
  import opened Scoring

  class TestsController {
    /** The injected database context. */
    const context: ApplicationDbContext

    constructor (context: ApplicationDbContext)
      ensures this.context == context
    {
      this.context := context;
    }

    /** POST api/tests/submit. Unknown test: NotFound and nothing stored. Test
        without questions: the decimal division throws before anything is
        stored. Otherwise one result row carrying the user, the test and the
        score is appended, and the score, the number of questions and the
        number of points are returned. */
    method SubmitTest(model: SubmitTestModel) returns (r: SubmitOutcome)
      modifies context
      ensures r == Submit(old(context.tests), model)
      ensures context.tests == old(context.tests)
      ensures context.testResults == old(context.testResults) + Recorded(model, r)
    {
      var found := TestById(context.tests, model.testId);
      if found.None? {
        return NotFound;
      }
      var test := found.value;

      var correctCount := 0;
      var totalQuestions := |test.testQuestions|;

      for i := 0 to |model.answers|
        invariant correctCount == CorrectCount(test, model.answers[..i])
      {
        var answer := model.answers[i];
        assert model.answers[..i + 1][..i] == model.answers[..i];
        var question := QuestionById(test, answer.questionId);
        if question.Some? {
          var correctOption := CorrectOption(question.value);
          if correctOption.Some? && answer.selectedOptionId == correctOption.value.optionId {
            correctCount := correctCount + 1;
          }
        }
      }
      assert model.answers[..|model.answers|] == model.answers;

      if totalQuestions == 0 {
        return DivideByZero;
      }
      var score := correctCount as real / totalQuestions as real * 100.0;

      var result := TestResult(model.userId, model.testId, score);
      context.AddTestResult(result);

      r := Ok(score, totalQuestions, correctCount);
    }
  }

  /** The same student submitting the same answers twice: both attempts are
      scored alike and both are kept, the second after the first. */
  method SubmitTwice(controller: TestsController, model: SubmitTestModel)
    returns (first: SubmitOutcome, second: SubmitOutcome)
    modifies controller.context
    ensures first == second == Submit(old(controller.context.tests), model)
    ensures controller.context.tests == old(controller.context.tests)
    ensures controller.context.testResults
         == old(controller.context.testResults) + Recorded(model, first) + Recorded(model, second)
  {
    first := controller.SubmitTest(model);
    second := controller.SubmitTest(model);
  }
}
