# CatsPawsAPI quiz scoring, modelled in Dafny

CatsPawsAPI is a learning-management backend (ASP.NET Core, Entity Framework)
with CRUD endpoints for materials, tasks and tests. Its one piece of domain
logic is the quiz submission endpoint `TestsController.SubmitTest`: a student
posts a test id and a list of (question id, selected option id) answers; the
endpoint loads the test with its questions and options, counts the answers
that pick the question's first option flagged correct, computes the score as
a percentage of the test's question count, appends one `TestResult` row to
the store and returns `{score, totalQuestions, correctCount}`.

The model:

- `enumerable.dfy` (module `Enumerable`): the LINQ `FirstOrDefault`
  first-match lookup the endpoint uses three times (test, question, correct
  option), with `Option` standing for the C# null default.
- `models.dfy` (module `Models`): `Test`, `TestQuestion`, `TestOption`,
  `TestResult` and the request shapes `SubmitTestModel` and
  `SubmitAnswerModel` as datatypes, questions and options as sequences.
- `data.dfy` (module `Data`): the database context as a class whose
  `tests` and `testResults` fields are sequences; adding a result appends.
- `scoring.dfy` (module `Scoring`): the endpoint's response as a function
  of the stored tests and the submission (`Submit`), with the per-answer rule
  (`IsCorrectAnswer`), the counter (`CorrectCount`) and the stored row
  (`Recorded`).
- `scoring_properties.dfy` (module `ScoringProperties`): what the score
  promises — which answers earn a point, that unknown questions are ignored,
  that the question count does not depend on the answers, the 0..100 bound
  when no question is answered twice, a score above 100 when one is, and
  100 when as many answers as questions all earn a point, in any order.
- `controllers.dfy` (module `Controllers`): the class `TestsController`
  whose `SubmitTest` method runs the counting loop and the append, proved to
  return `Submit(...)` and to append exactly `Recorded(...)`.

The score is an exact rational (`real`). The source computes
`(decimal)correctCount / totalQuestions * 100`; the model keeps that order and
proves it equal to `correctCount * 100 / totalQuestions`. A test with no
questions makes that decimal division throw `DivideByZeroException` before
any row is added; the model returns `DivideByZero` and leaves the store
unchanged. There is no designed "no questions" error in the code, only this
exception.

Repeated answers to one question each earn a point: nothing in the code
rejects them, so a score can exceed 100. `DistinctAnswersScoreAtMostHundred`
shows the bound holds when no question is answered twice, and
`DuplicateAnswersExceedHundred` shows it can fail otherwise: a correct answer
repeated more times than the test has questions scores above 100. The
endpoint's own documentation (CatsPawsAPI/Controllers/TestsController.cs:145)
calls the score "the percentage of correct answers"; the model follows what
the code computes, which is guaranteed to stay within 0..100 only when no
question is answered twice.

## Model

| member | source | states |
|---|---|---|
| Enumerable.FirstOrDefault | CatsPawsAPI/Controllers/TestsController.cs:164-167 | the lookup yields None exactly when no element matches, and otherwise the element at the earliest matching index |
| Enumerable.FirstOrDefaultAt | CatsPawsAPI/Controllers/TestsController.cs:164-167 | if index k matches and no earlier index does, the lookup yields exactly the element at k |
| Data.ApplicationDbContext.AddTestResult | CatsPawsAPI/Controllers/TestsController.cs:184-185 | the new row is appended after all existing rows, which stay unchanged, and the stored tests stay unchanged |
| Scoring.TestById | CatsPawsAPI/Controllers/TestsController.cs:151-157 | no test is found exactly when no stored test has the requested id; a found test is a stored test with that id |
| Scoring.QuestionById | CatsPawsAPI/Controllers/TestsController.cs:164-165 | no question is found exactly when no question of the test has the answered id; a found question is a question of the test with that id |
| Scoring.CorrectOption | CatsPawsAPI/Controllers/TestsController.cs:167 | no option is found exactly when no option of the question is flagged correct; a found option is one of the question's options and is flagged correct |
| Scoring.IsCorrectAnswer | CatsPawsAPI/Controllers/TestsController.cs:164-171 | an answer earns a point only if the test has a question with the answered id that has an option flagged correct whose id is the selected one (the exact first-match rule is CreditRule) |
| Scoring.CorrectCount | CatsPawsAPI/Controllers/TestsController.cs:159-173 | the number of points is at most the number of submitted answers and is 0 for an empty answer list |
| Scoring.Submit | CatsPawsAPI/Controllers/TestsController.cs:151-187 | NotFound exactly when no stored test has the id; the division fault exactly when the first test with the id has no questions; otherwise at most one point per answer, a positive question count and score == correctCount * 100 / totalQuestions |
| Scoring.Recorded | CatsPawsAPI/Controllers/TestsController.cs:178-184 | a scored submission stores one row with the submitted user id, test id and the returned score; the other outcomes store nothing |
| Scoring.PercentOf | CatsPawsAPI/Controllers/TestsController.cs:175 | the source's correct / total * 100 equals correct * 100 / total |
| Scoring.PercentBounds | CatsPawsAPI/Controllers/TestsController.cs:175 | the percentage is at most 100 when the count is at most the total, above 100 when it exceeds the total, and 100 when they are equal |
| Controllers.TestsController.SubmitTest | CatsPawsAPI/Controllers/TestsController.cs:149-188 | the response equals Submit on the stored tests; the tests are unchanged; the results gain exactly the Recorded row (one row for a scored submission, none for NotFound or the division fault), all earlier rows unchanged |
| Controllers.SubmitTwice | CatsPawsAPI/Controllers/TestsController.cs:178-185 | submitting the same answers twice gives Submit on the stored tests both times, leaves the tests unchanged and keeps both rows, in order |
| ScoringProperties.CorrectCountAppend | CatsPawsAPI/Controllers/TestsController.cs:162-173 | the count of a concatenation of answer lists is the sum of their counts |
| ScoringProperties.UnknownQuestionIgnored | CatsPawsAPI/Controllers/TestsController.cs:164-165 | inserting an answer whose question id matches no question of the test anywhere in the list leaves the count unchanged |
| ScoringProperties.UnknownQuestionKeepsOutcome | CatsPawsAPI/Controllers/TestsController.cs:160-175 | inserting such an answer leaves the whole response (score, question count, point count) unchanged |
| ScoringProperties.NoneCorrectCountsZero | CatsPawsAPI/Controllers/TestsController.cs:159-173 | when no answer earns a point the count is 0 |
| ScoringProperties.NoneCorrectScoresZero | CatsPawsAPI/Controllers/TestsController.cs:159-187 | a submission to a test with questions where no answer earns a point scores 0 with 0 points |
| ScoringProperties.TotalIndependentOfAnswers | CatsPawsAPI/Controllers/TestsController.cs:160 | two submissions to the same test report the same question count, the test's own number of questions, whatever their answers |
| ScoringProperties.QuestionByOwnId | CatsPawsAPI/Controllers/TestsController.cs:164 | with unique question ids, looking up a question's id finds that question |
| ScoringProperties.CreditRule | CatsPawsAPI/Controllers/TestsController.cs:164-171 | an answer to a question of the test earns a point if and only if the question has an option flagged correct and the selected id is that of the first such option |
| ScoringProperties.NoCorrectOptionNeverCredited | CatsPawsAPI/Controllers/TestsController.cs:167-168 | an answer whose question has no option flagged correct never earns a point |
| ScoringProperties.CreditedIdsSound | CatsPawsAPI/Controllers/TestsController.cs:164-171 | every question id that earned a point comes from a submitted answer and is the id of a question of the test |
| ScoringProperties.DistinctCountIsCreditedIds | CatsPawsAPI/Controllers/TestsController.cs:162-173 | when no question is answered twice, the count equals the number of distinct question ids that earned a point |
| ScoringProperties.DistinctAnswersWithinTotal | CatsPawsAPI/Controllers/TestsController.cs:160-173 | when no question is answered twice, the count is at most the number of questions of the test |
| ScoringProperties.DistinctAnswersScoreAtMostHundred | CatsPawsAPI/Controllers/TestsController.cs:162-175 | when no question is answered twice, a scored submission lies between 0 and 100 |
| ScoringProperties.RepeatedAnswerCountsEachTime | CatsPawsAPI/Controllers/TestsController.cs:162-171 | a point-earning answer submitted n times earns n points |
| ScoringProperties.DuplicateAnswersExceedHundred | CatsPawsAPI/Controllers/TestsController.cs:162-175 | a correct answer repeated more times than the test has questions scores above 100 |
| ScoringProperties.AnswerKeyAllCorrect | CatsPawsAPI/Controllers/TestsController.cs:162-173 | with unique question ids, every answer of the answer sheet earns a point |
| ScoringProperties.AllCorrectCountsAll | CatsPawsAPI/Controllers/TestsController.cs:159-173 | when every answer earns a point the count equals the number of answers |
| ScoringProperties.AllCorrectScoresHundred | CatsPawsAPI/Controllers/TestsController.cs:159-187 | a submission to a test with questions that has as many answers as the test has questions, each earning a point, in any order, gets score 100 with points equal to the question count |
| ScoringProperties.AnswerKeyScoresHundred | CatsPawsAPI/Controllers/TestsController.cs:159-187 | with unique question ids and a correct option on every question, answering each question once in question order with its first correct option scores exactly 100 |
| ScoringProperties.ExampleCredits | CatsPawsAPI/Controllers/TestsController.cs:164-171 | in the two-question example, selecting question 1's correct option earns a point and selecting a wrong option of question 2 does not |
| ScoringProperties.HalfCorrectExample | CatsPawsAPI/Controllers/TestsController.cs:159-187 | two questions, one answered correctly and one not: score 50, 2 questions, 1 point |

## Left out

- The other endpoints of the three controllers (list, get, create, update, delete for tests, tasks and materials, and the task status update): they pass entities through Entity Framework with only null checks and an id-equality BadRequest.
- The concurrency-conflict handling of the update endpoints: its behaviour comes from the ORM.
- Role-based `[Authorize]` attributes, routing, `async`/`await` and dependency injection: framework plumbing.
- The schema configuration in CatsPawsAPI/Data/ApplicationDbContext.cs, used here only to read question and option ids as primary keys (the `UniqueQuestionIds` premise), the Identity user type and the DTOs, which the submit path does not use.
- `TestResult.UserTestId`: the store assigns it on save; the model's row carries user id, test id and score only.
- A failing `SaveChangesAsync` (for instance an unknown user id violating a foreign key): the model's append always succeeds.
- Scoring.Submit: does not model the 28-significant-digit rounding of C# `decimal` in `correctCount / totalQuestions`; the score is the exact rational.
- Scoring.CorrectCount: does not model 32-bit overflow of the `int` counter, which needs more than 2^31 answers in one request.
- A null `Answers` list, which makes the `foreach` throw, or a null answer in it, which throws at CatsPawsAPI/Controllers/TestsController.cs:164 when the test has questions (the request fails and nothing is stored): the model's answer list is always a sequence of answer values.
- The Include of questions and options is taken as loading the whole question and option lists in a fixed order; which order the database returns is not modelled.
