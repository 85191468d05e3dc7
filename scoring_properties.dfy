/** Properties of the quiz score (Controllers/TestsController.cs, SubmitTest):
    which answers earn a point, how the count behaves under extra, unknown and
    repeated answers, and when the percentage stays within 0..100. */
module ScoringProperties {
  import opened Enumerable
  import opened Models
  import opened Scoring

  // ---------------------------------------------------------------------------
  // Counting

  /** Answers are counted one by one, so a submission's count is the sum of the
      counts of any split of it. */
  lemma {:induction false} CorrectCountAppend(test: Test, xs: seq<SubmitAnswerModel>, ys: seq<SubmitAnswerModel>)
    ensures CorrectCount(test, xs + ys) == CorrectCount(test, xs) + CorrectCount(test, ys)
  {
    if ys == [] {
      assert xs + ys == xs;
    } else {
      var n := |ys|;
      assert (xs + ys)[..|xs + ys| - 1] == xs + ys[..n - 1];
      assert (xs + ys)[|xs + ys| - 1] == ys[n - 1];
      CorrectCountAppend(test, xs, ys[..n - 1]);
    }
  }

  /** An answer naming a question the test does not have earns nothing,
      wherever it stands in the submission. */
  lemma UnknownQuestionIgnored(test: Test, xs: seq<SubmitAnswerModel>, a: SubmitAnswerModel, ys: seq<SubmitAnswerModel>)
    requires forall i :: 0 <= i < |test.testQuestions| ==> test.testQuestions[i].questionId != a.questionId
    ensures CorrectCount(test, xs + [a] + ys) == CorrectCount(test, xs + ys)
  {
    assert !IsCorrectAnswer(test, a);
    CorrectCountAppend(test, xs + [a], ys);
    CorrectCountAppend(test, xs, [a]);
    CorrectCountAppend(test, xs, ys);
    assert CorrectCount(test, [a]) == 0 by { assert [a][..0] == []; }
  }

  /** Adding an answer to an unknown question changes neither the count nor
      the number of questions, hence not the response either. */
  lemma UnknownQuestionKeepsOutcome(tests: seq<Test>, test: Test, userId: int,
                                    xs: seq<SubmitAnswerModel>, a: SubmitAnswerModel, ys: seq<SubmitAnswerModel>)
    requires TestById(tests, test.testId) == Some(test)
    requires forall i :: 0 <= i < |test.testQuestions| ==> test.testQuestions[i].questionId != a.questionId
    ensures Submit(tests, SubmitTestModel(userId, test.testId, xs + [a] + ys))
         == Submit(tests, SubmitTestModel(userId, test.testId, xs + ys))
  {
    UnknownQuestionIgnored(test, xs, a, ys);
  }

  /** When no answer earns a point the count is zero. */
  lemma {:induction false} NoneCorrectCountsZero(test: Test, answers: seq<SubmitAnswerModel>)
    requires forall i :: 0 <= i < |answers| ==> !IsCorrectAnswer(test, answers[i])
    ensures CorrectCount(test, answers) == 0
  {
    if answers != [] {
      var n := |answers|;
      assert forall i :: 0 <= i < n - 1 ==> answers[..n - 1][i] == answers[i];
      NoneCorrectCountsZero(test, answers[..n - 1]);
    }
  }

  /** A submission none of whose answers earn a point scores 0. */
  lemma NoneCorrectScoresZero(tests: seq<Test>, test: Test, model: SubmitTestModel)
    requires TestById(tests, model.testId) == Some(test) && test.testQuestions != []
    requires forall i :: 0 <= i < |model.answers| ==> !IsCorrectAnswer(test, model.answers[i])
    ensures Submit(tests, model) == Ok(0.0, |test.testQuestions|, 0)
  {
    NoneCorrectCountsZero(test, model.answers);
  }

  /** The number of questions reported is the test's own question count,
      whatever answers are submitted. */
  lemma TotalIndependentOfAnswers(tests: seq<Test>, m1: SubmitTestModel, m2: SubmitTestModel)
    requires m1.testId == m2.testId
    requires Submit(tests, m1).Ok?
    ensures Submit(tests, m2).Ok?
    ensures Submit(tests, m1).totalQuestions == Submit(tests, m2).totalQuestions
         == |TestById(tests, m1.testId).value.testQuestions|
  {
  }

  // ---------------------------------------------------------------------------
  // Which answer earns a point

  /** With unique question ids, looking up a question's own id finds it. */
  lemma QuestionByOwnId(test: Test, k: nat)
    requires UniqueQuestionIds(test)
    requires k < |test.testQuestions|
    ensures QuestionById(test, test.testQuestions[k].questionId) == Some(test.testQuestions[k])
  {
    var qs := test.testQuestions;
    FirstOrDefaultAt(qs, (q: TestQuestion) => q.questionId == qs[k].questionId, k);
  }

  /** An answer to a question of the test earns a point exactly when the
      question has an option flagged correct and the selected option is the
      first such option; another option flagged correct earns nothing. */
  lemma CreditRule(test: Test, k: nat, a: SubmitAnswerModel)
    requires UniqueQuestionIds(test)
    requires k < |test.testQuestions| && a.questionId == test.testQuestions[k].questionId
    ensures IsCorrectAnswer(test, a) <==>
      exists m :: 0 <= m < |test.testQuestions[k].testOptions| &&
        test.testQuestions[k].testOptions[m].isCorrect &&
        (forall j :: 0 <= j < m ==> !test.testQuestions[k].testOptions[j].isCorrect) &&
        a.selectedOptionId == test.testQuestions[k].testOptions[m].optionId
  {
    QuestionByOwnId(test, k);
    var options := test.testQuestions[k].testOptions;
    if m :| (0 <= m < |options| && options[m].isCorrect &&
             (forall j :: 0 <= j < m ==> !options[j].isCorrect) &&
             a.selectedOptionId == options[m].optionId) {
      FirstOrDefaultAt(options, (o: TestOption) => o.isCorrect, m);
    }
  }

  /** A question none of whose options is flagged correct never earns a point. */
  lemma NoCorrectOptionNeverCredited(test: Test, a: SubmitAnswerModel)
    requires forall i :: 0 <= i < |test.testQuestions| && test.testQuestions[i].questionId == a.questionId ==>
      forall m :: 0 <= m < |test.testQuestions[i].testOptions| ==> !test.testQuestions[i].testOptions[m].isCorrect
    ensures !IsCorrectAnswer(test, a)
  {
  }

  // ---------------------------------------------------------------------------
  // Bounds of the score

  /** The ids of the test's questions. */
  ghost function QuestionIds(questions: seq<TestQuestion>): (ids: set<int>)
    ensures |ids| <= |questions|
    ensures forall i :: 0 <= i < |questions| ==> questions[i].questionId in ids
  {
    if questions == [] then {}
    else
      var n := |questions|;
      assert forall i :: 0 <= i < n - 1 ==> questions[..n - 1][i] == questions[i];
      QuestionIds(questions[..n - 1]) + {questions[n - 1].questionId}
  }

  /** The question ids of the answers that earned a point. */
  ghost function CreditedIds(test: Test, answers: seq<SubmitAnswerModel>): set<int> {
    if answers == [] then {}
    else
      var last := answers[|answers| - 1];
      CreditedIds(test, answers[..|answers| - 1]) + (if IsCorrectAnswer(test, last) then {last.questionId} else {})
  }

  /** Every credited id is the question id of some answer that earned a point,
      and therefore the id of a question of the test. */
  lemma {:induction false} CreditedIdsSound(test: Test, answers: seq<SubmitAnswerModel>)
    ensures forall x :: x in CreditedIds(test, answers) ==>
      exists i :: 0 <= i < |answers| && answers[i].questionId == x
    ensures CreditedIds(test, answers) <= QuestionIds(test.testQuestions)
  {
    if answers != [] {
      var n := |answers|;
      assert forall i :: 0 <= i < n - 1 ==> answers[..n - 1][i] == answers[i];
      CreditedIdsSound(test, answers[..n - 1]);
    }
  }

  /** When no two answers name the same question, each point comes from a
      different question. */
  lemma {:induction false} DistinctCountIsCreditedIds(test: Test, answers: seq<SubmitAnswerModel>)
    requires DistinctAnsweredQuestions(answers)
    ensures CorrectCount(test, answers) == |CreditedIds(test, answers)|
  {
    if answers != [] {
      var n := |answers|;
      var prefix, last := answers[..n - 1], answers[n - 1];
      assert DistinctAnsweredQuestions(prefix) by {
        assert forall i :: 0 <= i < n - 1 ==> prefix[i] == answers[i];
      }
      DistinctCountIsCreditedIds(test, prefix);
      assert last.questionId !in CreditedIds(test, prefix) by {
        assert forall i :: 0 <= i < n - 1 ==> prefix[i] == answers[i];
        CreditedIdsSound(test, prefix);
      }
    }
  }

  /** A subset is no larger than its superset. */
  lemma SubsetCard(a: set<int>, b: set<int>)
    requires a <= b
    ensures |a| <= |b|
  {
    assert b == a + (b - a);
    assert a * (b - a) == {};
  }

  /** With no question answered twice, the count never exceeds the number of
      questions of the test (duplicate question ids within the test do not
      matter here). */
  lemma DistinctAnswersWithinTotal(test: Test, answers: seq<SubmitAnswerModel>)
    requires DistinctAnsweredQuestions(answers)
    ensures CorrectCount(test, answers) <= |test.testQuestions|
  {
    DistinctCountIsCreditedIds(test, answers);
    CreditedIdsSound(test, answers);
    SubsetCard(CreditedIds(test, answers), QuestionIds(test.testQuestions));
  }

  /** With no question answered twice, a scored submission lies in 0..100. */
  lemma DistinctAnswersScoreAtMostHundred(tests: seq<Test>, model: SubmitTestModel)
    requires DistinctAnsweredQuestions(model.answers)
    requires Submit(tests, model).Ok?
    ensures 0.0 <= Submit(tests, model).score <= 100.0
  {
    var test := TestById(tests, model.testId).value;
    var correct, total := CorrectCount(test, model.answers), |test.testQuestions|;
    assert Submit(tests, model) == Ok(correct as real / total as real * 100.0, total, correct);
    DistinctAnswersWithinTotal(test, model.answers);
    PercentBounds(correct, total);
  }

  /** The same point-earning answer submitted n times earns n points. */
  lemma {:induction false} RepeatedAnswerCountsEachTime(test: Test, a: SubmitAnswerModel, n: nat)
    requires IsCorrectAnswer(test, a)
    ensures CorrectCount(test, seq(n, _ => a)) == n
  {
    if n > 0 {
      assert seq(n, _ => a)[..n - 1] == seq(n - 1, _ => a);
      RepeatedAnswerCountsEachTime(test, a, n - 1);
    }
  }

  /** Nothing stops a submission from answering one question several times,
      and every repetition counts: a correct answer sent more times than the
      test has questions scores above 100. */
  lemma DuplicateAnswersExceedHundred(tests: seq<Test>, test: Test, userId: int, a: SubmitAnswerModel, n: nat)
    requires TestById(tests, test.testId) == Some(test) && test.testQuestions != []
    requires IsCorrectAnswer(test, a)
    requires n > |test.testQuestions|
    ensures Submit(tests, SubmitTestModel(userId, test.testId, seq(n, _ => a))).score > 100.0
  {
    RepeatedAnswerCountsEachTime(test, a, n);
    PercentBounds(n, |test.testQuestions|);
  }

  // ---------------------------------------------------------------------------
  // A perfect submission

  /** The answer sheet selecting, for each question in order, its first option
      flagged correct. */
  ghost function AnswerKey(questions: seq<TestQuestion>): (key: seq<SubmitAnswerModel>)
    requires forall i :: 0 <= i < |questions| ==> CorrectOption(questions[i]).Some?
    ensures |key| == |questions|
    ensures forall i :: 0 <= i < |questions| ==>
      key[i] == SubmitAnswerModel(questions[i].questionId, CorrectOption(questions[i]).value.optionId)
  {
    if questions == [] then []
    else
      var n := |questions|;
      var q := questions[n - 1];
      assert forall i :: 0 <= i < n - 1 ==> questions[..n - 1][i] == questions[i];
      AnswerKey(questions[..n - 1]) + [SubmitAnswerModel(q.questionId, CorrectOption(q).value.optionId)]
  }

  /** Every answer of the key earns a point. */
  lemma {:induction false} AnswerKeyAllCorrect(test: Test, k: nat)
    requires UniqueQuestionIds(test)
    requires forall i :: 0 <= i < |test.testQuestions| ==> CorrectOption(test.testQuestions[i]).Some?
    requires k <= |test.testQuestions|
    ensures CorrectCount(test, AnswerKey(test.testQuestions[..k])) == k
  {
    if k > 0 {
      var qs := test.testQuestions;
      var key := AnswerKey(qs[..k]);
      assert key[..k - 1] == AnswerKey(qs[..k - 1]);
      QuestionByOwnId(test, k - 1);
      assert IsCorrectAnswer(test, key[k - 1]);
      AnswerKeyAllCorrect(test, k - 1);
    }
  }

  /** When every answer earns a point the count is the number of answers. */
  lemma {:induction false} AllCorrectCountsAll(test: Test, answers: seq<SubmitAnswerModel>)
    requires forall i :: 0 <= i < |answers| ==> IsCorrectAnswer(test, answers[i])
    ensures CorrectCount(test, answers) == |answers|
  {
    if answers != [] {
      var n := |answers|;
      var prefix := answers[..n - 1];
      assert IsCorrectAnswer(test, answers[n - 1]);
      forall i | 0 <= i < |prefix| ensures IsCorrectAnswer(test, prefix[i]) {
        assert prefix[i] == answers[i];
      }
      AllCorrectCountsAll(test, prefix);
    }
  }

  /** A submission with as many answers as the test has questions, every one
      of which earns a point, scores exactly 100, in whatever order the
      answers come. */
  lemma AllCorrectScoresHundred(tests: seq<Test>, test: Test, model: SubmitTestModel)
    requires TestById(tests, model.testId) == Some(test) && test.testQuestions != []
    requires |model.answers| == |test.testQuestions|
    requires forall i :: 0 <= i < |model.answers| ==> IsCorrectAnswer(test, model.answers[i])
    ensures var n := |test.testQuestions|; Submit(tests, model) == Ok(100.0, n, n)
  {
    AllCorrectCountsAll(test, model.answers);
    PercentBounds(|test.testQuestions|, |test.testQuestions|);
  }

  /** Answering every question of a test once, in question order, with its
      first option flagged correct, scores exactly 100. */
  lemma AnswerKeyScoresHundred(tests: seq<Test>, test: Test, userId: int)
    requires TestById(tests, test.testId) == Some(test) && test.testQuestions != []
    requires UniqueQuestionIds(test)
    requires forall i :: 0 <= i < |test.testQuestions| ==> CorrectOption(test.testQuestions[i]).Some?
    ensures var n := |test.testQuestions|;
      Submit(tests, SubmitTestModel(userId, test.testId, AnswerKey(test.testQuestions))) == Ok(100.0, n, n)
  {
    var n := |test.testQuestions|;
    var key := AnswerKey(test.testQuestions);
    assert CorrectCount(test, key) == n by {
      assert test.testQuestions[..n] == test.testQuestions;
      AnswerKeyAllCorrect(test, n);
    }
    PercentBounds(n, n);
  }

  // ---------------------------------------------------------------------------
  // A worked example

  /** A test of two questions: question 1 with option 10 correct, question 2
      with option 21 correct. */
  ghost function ExampleTest(): Test {
    Test(7, 1, "Quiz", "", [
      TestQuestion(1, 7, "Q1", [TestOption(10, 1, "A", true), TestOption(11, 1, "B", false)]),
      TestQuestion(2, 7, "Q2", [TestOption(20, 2, "A", false), TestOption(21, 2, "B", true),
                                TestOption(22, 2, "C", false)])])
  }

  /** Of the two example answers, the first earns its point and the second
      does not. */
  lemma ExampleCredits()
    ensures IsCorrectAnswer(ExampleTest(), SubmitAnswerModel(1, 10))
    ensures !IsCorrectAnswer(ExampleTest(), SubmitAnswerModel(2, 22))
  {
    var test := ExampleTest();
    assert UniqueQuestionIds(test);
    QuestionByOwnId(test, 0);
    QuestionByOwnId(test, 1);
    FirstOrDefaultAt(test.testQuestions[0].testOptions, (o: TestOption) => o.isCorrect, 0);
    FirstOrDefaultAt(test.testQuestions[1].testOptions, (o: TestOption) => o.isCorrect, 1);
  }

  /** The first question answered with its correct option, the second with a
      wrong one: one point of two, 50 percent. */
  lemma HalfCorrectExample(userId: int)
    ensures Submit([ExampleTest()], SubmitTestModel(userId, 7, [SubmitAnswerModel(1, 10), SubmitAnswerModel(2, 22)]))
         == Ok(50.0, 2, 1)
  {
    var test := ExampleTest();
    var answers := [SubmitAnswerModel(1, 10), SubmitAnswerModel(2, 22)];
    ExampleCredits();
    assert CorrectCount(test, answers) == 1 by {
      assert answers[..1] == [answers[0]];
      assert [answers[0]][..0] == [];
    }
    FirstOrDefaultAt([test], (t: Test) => t.testId == 7, 0);
  }
}
