/** The quiz entities of the learning-management backend (Models/Models.cs)
    and the request shapes of the submit endpoint (TestsController.cs).
    Navigation properties (Test.Topic, TestQuestion.Test, ...) are omitted:
    every relationship the scoring uses is a nested sequence or an id. */
module Models {

  /** One selectable answer of a question, with its correctness flag. */
  datatype TestOption = TestOption(
    optionId: int,
    questionId: int,
    optionText: string,
    isCorrect: bool)

  /** A quiz item; its options in the order the store yields them. */
  datatype TestQuestion = TestQuestion(
    questionId: int,
    testId: int,
    questionText: string,
    testOptions: seq<TestOption>)

  /** A quiz: its questions in the order the store yields them. */
  datatype Test = Test(
    testId: int,
    topicId: int,
    title: string,
    description: string,
    testQuestions: seq<TestQuestion>)

  /** One recorded attempt; the score is a percentage of the test's
      questions. The store-assigned key (UserTestId) is not modelled. */
  datatype TestResult = TestResult(userId: int, testId: int, score: real)

  /** One submitted answer: the question and the option the student chose. */
  datatype SubmitAnswerModel = SubmitAnswerModel(questionId: int, selectedOptionId: int)

  /** The body of a submission. */
  datatype SubmitTestModel = SubmitTestModel(
    userId: int,
    testId: int,
    answers: seq<SubmitAnswerModel>)

  /** Question ids are the primary key of TestQuestion, so within one test
      no two questions share an id. */
  ghost predicate UniqueQuestionIds(test: Test) {
    forall i, j :: 0 <= i < j < |test.testQuestions| ==>
      test.testQuestions[i].questionId != test.testQuestions[j].questionId
  }

  /** No two answers of a submission name the same question. */
  ghost predicate DistinctAnsweredQuestions(answers: seq<SubmitAnswerModel>) {
    forall i, j :: 0 <= i < j < |answers| ==> answers[i].questionId != answers[j].questionId
  }
}
